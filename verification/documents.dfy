/** Parsed translation documents and the engine's dotted-path lookup
    (localengine/core/engine.py, `_get_nested_value`). */
module Documents {

  import opened Text

  /** A value inside a parsed locale file: Python's `None`, a string, or a
      nested dictionary. */
  datatype Doc = Null | Leaf(text: string) | Node(entries: map<string, Doc>)

  /** A whole parsed locale file: a top-level dictionary. */
  type Document = map<string, Doc>

  /** `str(value)`. The text Python prints for a dictionary is not modelled:
      every dictionary renders as the same placeholder. */
  function Str(d: Doc): string
  {
    match d
    case Null => "None"
    case Leaf(s) => s
    case Node(_) => "{...}"
  }

  /** `data.get(key)`: the value, or `None` when the key is absent. */
  function Get(data: Document, key: string): Doc
  {
    if key in data then data[key] else Null
  }

  /** Descends from `current` along `path`; `None` as soon as the current
      value is not a dictionary or lacks the next segment. */
  function Descend(current: Doc, path: seq<string>): Doc
    decreases |path|
  {
    if path == [] then current
    else match current
      case Node(m) => if path[0] in m then Descend(m[path[0]], path[1..]) else Null
      case _ => Null
  }

  /** `_get_nested_value(data, key)`: a key without `.` is a direct lookup;
      otherwise the key is split on `.` and descended segment by segment. */
  function NestedValue(data: Document, key: string): Doc
  {
    if '.' !in key then Get(data, key)
    else Descend(Node(data), Split(key, '.'))
  }

  /** Descending along `p + q` is descending along `p` and then along `q`;
      a failed step anywhere yields `None`, which no further segment revives. */
  lemma {:induction false} DescendConcat(d: Doc, p: seq<string>, q: seq<string>)
    ensures Descend(d, p + q) == Descend(Descend(d, p), q)
  {
    if p == [] {
      assert p + q == q;
    } else {
      assert (p + q)[0] == p[0] && (p + q)[1..] == p[1..] + q;
      match d
      case Node(m) =>
        if p[0] in m {
          DescendConcat(m[p[0]], p[1..], q);
        } else {
          DescendFromNonNode(Null, q);
        }
      case _ =>
        DescendFromNonNode(Null, q);
    }
  }

  /** Nothing can be found below a value that is not a dictionary. */
  lemma DescendFromNonNode(d: Doc, q: seq<string>)
    requires !d.Node?
    ensures Descend(d, q) == if q == [] then d else Null
  {
  }

  /** The undotted case agrees with the general descent: every key is looked
      up along its `.`-separated segments. */
  lemma NestedValueIsDescent(data: Document, key: string)
    ensures NestedValue(data, key) == Descend(Node(data), Split(key, '.'))
  {
    if '.' !in key {
      assert Split(key, '.') == [key];
      assert Split(key, '.')[1..] == [];
    }
  }

  /** A dotted lookup yields `None`, not an error, once some segment is absent
      or the value reached so far is not a dictionary. */
  lemma NestedValueStopsEarly(data: Document, key: string, i: nat)
    requires '.' in key
    requires i < |Split(key, '.')|
    requires var reached := Descend(Node(data), Split(key, '.')[..i]);
             !reached.Node? || Split(key, '.')[i] !in reached.entries
    ensures NestedValue(data, key) == Null
  {
    var p := Split(key, '.');
    assert p == p[..i] + p[i..];
    DescendConcat(Node(data), p[..i], p[i..]);
    var reached := Descend(Node(data), p[..i]);
    if !reached.Node? {
      DescendFromNonNode(reached, p[i..]);
    }
  }
}
