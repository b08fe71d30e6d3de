/** `FileManager._parse_xml` (localengine/core/file_manager.py): an element
    tree becomes a translation document one level deep. The XML text codec
    itself is not part of this model; it starts from the parsed tree. */
module XmlParse {

  import opened Wrappers
  import opened Documents

  /** An element as ElementTree exposes it: tag, text (absent for an empty
      element) and sub-elements in document order. */
  datatype Element = Element(tag: string, text: Option<string>, children: seq<Element>)

  /** `element.text` as a document value: `None` when absent. */
  function TextValue(text: Option<string>): (d: Doc)
    ensures !d.Node?
    ensures text.Some? <==> d.Leaf?
    ensures text.Some? ==> d.text == text.value
  {
    match text
    case None => Null
    case Some(s) => Leaf(s)
  }

  /** `parent.find(tag)`: the first child with that tag. */
  function Find(children: seq<Element>, tag: string): (r: Option<Element>)
    ensures r.None? <==> forall i :: 0 <= i < |children| ==> children[i].tag != tag
    ensures r.Some? ==> exists i :: 0 <= i < |children| && children[i] == r.value && r.value.tag == tag
                         && forall j :: 0 <= j < i ==> children[j].tag != tag
  {
    if children == [] then None
    else if children[0].tag == tag then Some(children[0])
    else
      var r := Find(children[1..], tag);
      assert r.Some? ==> exists i :: 0 <= i < |children| && children[i] == r.value && r.value.tag == tag
                          && forall j :: 0 <= j < i ==> children[j].tag != tag by {
        if r.Some? {
          var i :| 0 <= i < |children[1..]| && children[1..][i] == r.value && r.value.tag == tag
                   && forall j :: 0 <= j < i ==> children[1..][j].tag != tag;
          assert children[i + 1] == r.value;
          assert forall j :: 0 <= j < i + 1 ==> children[j].tag != tag by {
            forall j | 0 <= j < i + 1
              ensures children[j].tag != tag
            {
              if j > 0 {
                assert children[j] == children[1..][j - 1];
              }
            }
          }
        }
      }
      r
  }

  /** A value that holds no dictionary. */
  predicate IsFlat(d: Doc)
  {
    !d.Node?
  }

  /** A value at most one dictionary deep. */
  predicate IsShallow(d: Doc)
  {
    d.Node? ==> forall k :: k in d.entries ==> IsFlat(d.entries[k])
  }

  /** What a child contributes: with `deep`, an element with sub-elements
      becomes `{subtag: subtext}` (grandchildren are never looked at);
      otherwise, and for a childless element, its text. */
  function Entry(child: Element, deep: bool): (d: Doc)
    ensures deep ==> IsShallow(d)
    ensures !deep ==> IsFlat(d)
    decreases if deep then 1 else 0, 0
  {
    if deep && |child.children| > 0 then Node(Assign(map[], child.children, false, false))
    else TextValue(child.text)
  }

  /** `for child in children: result[child.tag] = <entry>`, in order, so a
      later sibling with the same tag overwrites an earlier one; with
      `skipMeta` children tagged `meta` are passed over. */
  function Assign(acc: Document, children: seq<Element>, skipMeta: bool, deep: bool): (r: Document)
    ensures deep && (forall k :: k in acc ==> IsShallow(acc[k])) ==> forall k :: k in r ==> IsShallow(r[k])
    ensures !deep && (forall k :: k in acc ==> IsFlat(acc[k])) ==> forall k :: k in r ==> IsFlat(r[k])
    decreases if deep then 1 else 0, |children|
  {
    if children == [] then acc
    else
      var prev := Assign(acc, children[..|children| - 1], skipMeta, deep);
      var c := children[|children| - 1];
      if skipMeta && c.tag == "meta" then prev else prev[c.tag := Entry(c, deep)]
  }

  /** `{child.tag: child.text for child in element}` with later tags winning. */
  function TextMap(children: seq<Element>): map<string, Doc>
  {
    Assign(map[], children, false, false)
  }

  /** The `meta` part of the result: present iff the root has a `meta` child. */
  function MetaPart(root: Element): Document
  {
    match Find(root.children, "meta")
    case None => map[]
    case Some(m) => map["meta" := Node(TextMap(m.children))]
  }

  /** The whole conversion: the meta part, then the children of the first
      `locale` child, or, without one, every non-`meta` child of the root. */
  function XmlDocument(root: Element): Document
  {
    match Find(root.children, "locale")
    case Some(section) => Assign(MetaPart(root), section.children, false, true)
    case None => Assign(MetaPart(root), root.children, true, true)
  }

  /** `_parse_xml` as written, filling `result` in loops. */
  method ParseXml(root: Element) returns (result: Document)
    ensures result == XmlDocument(root)
  {
    result := map[];
    var metaElem := Find(root.children, "meta");
    if metaElem.Some? {
      var meta := SubElementTexts(metaElem.value);
      result := result["meta" := Node(meta)];
    }
    assert result == MetaPart(root);
    var localeElem := Find(root.children, "locale");
    if localeElem.Some? {
      result := AddSection(result, localeElem.value.children, false);
    } else {
      result := AddSection(result, root.children, true);
    }
  }

  /** `{sub.tag: sub.text for sub in element}`, filled in order. */
  method SubElementTexts(element: Element) returns (texts: map<string, Doc>)
    ensures texts == TextMap(element.children)
  {
    texts := map[];
    var cs := element.children;
    for i := 0 to |cs|
      invariant texts == Assign(map[], cs[..i], false, false)
    {
      assert cs[..i + 1][..i] == cs[..i];
      texts := texts[cs[i].tag := TextValue(cs[i].text)];
    }
    assert cs[..|cs|] == cs;
  }

  /** One pass over a section's children, nesting elements that have
      sub-elements one level deep. */
  method AddSection(acc: Document, children: seq<Element>, skipMeta: bool) returns (result: Document)
    ensures result == Assign(acc, children, skipMeta, true)
  {
    result := acc;
    for i := 0 to |children|
      invariant result == Assign(acc, children[..i], skipMeta, true)
    {
      var child := children[i];
      assert children[..i + 1][..i] == children[..i];
      if !(skipMeta && child.tag == "meta") {
        if |child.children| > 0 {
          var sub := SubElementTexts(child);
          result := result[child.tag := Node(sub)];
        } else {
          result := result[child.tag := TextValue(child.text)];
        }
      }
    }
    assert children[..|children|] == children;
  }

  /** The last child carrying a tag decides its value: earlier siblings with
      the same tag are overwritten. */
  lemma {:induction false} AssignLastWins(acc: Document, children: seq<Element>, skipMeta: bool, deep: bool, i: nat)
    requires i < |children| && !(skipMeta && children[i].tag == "meta")
    requires forall j :: i < j < |children| ==> children[j].tag != children[i].tag
    ensures var r := Assign(acc, children, skipMeta, deep);
            children[i].tag in r && r[children[i].tag] == Entry(children[i], deep)
    decreases |children|
  {
    if i < |children| - 1 {
      AssignLastWins(acc, children[..|children| - 1], skipMeta, deep, i);
    }
  }

  /** `children` carry exactly the entries of `m`, one child per key. */
  predicate Carries(children: seq<Element>, deep: bool, m: map<string, Doc>)
  {
    && (forall i, j :: 0 <= i < j < |children| ==> children[i].tag != children[j].tag)
    && (forall i :: 0 <= i < |children| ==> children[i].tag in m && Entry(children[i], deep) == m[children[i].tag])
    && (forall k :: k in m ==> exists i :: 0 <= i < |children| && children[i].tag == k)
  }

  /** Dropping the last child drops its key. */
  lemma CarriesInit(children: seq<Element>, deep: bool, m: map<string, Doc>)
    requires children != [] && Carries(children, deep, m)
    ensures Carries(children[..|children| - 1], deep, m - {children[|children| - 1].tag})
  {
    var n := |children|;
    var init := children[..n - 1];
    var last := children[n - 1];
    var rest := m - {last.tag};
    forall i | 0 <= i < |init|
      ensures init[i].tag in rest && Entry(init[i], deep) == rest[init[i].tag]
    {
      assert init[i] == children[i] && children[i].tag != last.tag;
    }
    forall k | k in rest
      ensures exists i :: 0 <= i < |init| && init[i].tag == k
    {
      var i :| 0 <= i < n && children[i].tag == k;
      assert i != n - 1 && init[i] == children[i];
    }
  }

  /** Children with distinct tags that each carry the value a map holds for
      their tag, and cover the whole map, add exactly that map. */
  lemma {:induction false} AssignAll(acc: Document, children: seq<Element>, deep: bool, m: map<string, Doc>)
    requires Carries(children, deep, m)
    ensures Assign(acc, children, false, deep) == acc + m
    decreases |children|
  {
    if children == [] {
      assert m == map[];
    } else {
      var last := children[|children| - 1];
      var rest := m - {last.tag};
      CarriesInit(children, deep, m);
      AssignAll(acc, children[..|children| - 1], deep, rest);
      assert (acc + rest)[last.tag := m[last.tag]] == acc + m;
    }
  }

  /** A key that no (non-skipped) child carries keeps whatever it had, and is
      present iff it was present before. */
  lemma {:induction false} AssignUntouched(acc: Document, children: seq<Element>, skipMeta: bool, deep: bool, k: string)
    requires forall j :: 0 <= j < |children| ==> children[j].tag != k || (skipMeta && k == "meta")
    ensures var r := Assign(acc, children, skipMeta, deep);
            (k in r <==> k in acc) && (k in acc ==> r[k] == acc[k])
    decreases |children|
  {
    if children != [] {
      AssignUntouched(acc, children[..|children| - 1], skipMeta, deep, k);
    }
  }

  /** Every key of the result was already there or is the tag of some
      non-skipped child. */
  lemma {:induction false} AssignKeys(acc: Document, children: seq<Element>, skipMeta: bool, deep: bool, k: string)
    requires k in Assign(acc, children, skipMeta, deep)
    ensures k in acc || exists j :: 0 <= j < |children| && children[j].tag == k && !(skipMeta && k == "meta")
    decreases |children|
  {
    if children != [] && k != children[|children| - 1].tag {
      AssignKeys(acc, children[..|children| - 1], skipMeta, deep, k);
    } else if children != [] && skipMeta && k == "meta" {
      AssignKeys(acc, children[..|children| - 1], skipMeta, deep, k);
    }
  }

  /** Grandchildren are dropped: every value of the parsed document is a
      text, `None`, or a dictionary of texts and `None`s. */
  lemma XmlDocumentShallow(root: Element)
    ensures forall k :: k in XmlDocument(root) ==> IsShallow(XmlDocument(root)[k])
  {
    var meta := MetaPart(root);
    if Find(root.children, "meta").Some? {
      var m := Find(root.children, "meta").value;
      assert forall k :: k in TextMap(m.children) ==> IsFlat(TextMap(m.children)[k]);
    }
    assert forall k :: k in meta ==> IsShallow(meta[k]);
  }

  /** The children of the root's `meta` element become `meta[tag] = text`,
      unless the chosen section itself carries a `meta` child, which then
      overwrites it. */
  lemma XmlMeta(root: Element, m: Element)
    requires Find(root.children, "meta") == Some(m)
    requires var section := Find(root.children, "locale");
             section.Some? ==> forall j :: 0 <= j < |section.value.children| ==> section.value.children[j].tag != "meta"
    ensures "meta" in XmlDocument(root) && XmlDocument(root)["meta"] == Node(TextMap(m.children))
  {
    match Find(root.children, "locale")
    case Some(section) =>
      AssignUntouched(MetaPart(root), section.children, false, true, "meta");
    case None =>
      AssignUntouched(MetaPart(root), root.children, true, true, "meta");
  }

  /** With a `locale` section, each of its children's last occurrence gives
      the entry of that tag, nested one level when it has sub-elements. */
  lemma XmlSectionEntry(root: Element, section: Element, i: nat)
    requires Find(root.children, "locale") == Some(section)
    requires i < |section.children|
    requires forall j :: i < j < |section.children| ==> section.children[j].tag != section.children[i].tag
    ensures var c := section.children[i];
            c.tag in XmlDocument(root)
            && XmlDocument(root)[c.tag] == (if |c.children| > 0 then Node(TextMap(c.children)) else TextValue(c.text))
  {
    AssignLastWins(MetaPart(root), section.children, false, true, i);
  }

  /** Without a `locale` section, every non-`meta` root child's last
      occurrence gives the entry of that tag. */
  lemma XmlRootEntry(root: Element, i: nat)
    requires Find(root.children, "locale").None?
    requires i < |root.children| && root.children[i].tag != "meta"
    requires forall j :: i < j < |root.children| ==> root.children[j].tag != root.children[i].tag
    ensures var c := root.children[i];
            c.tag in XmlDocument(root)
            && XmlDocument(root)[c.tag] == (if |c.children| > 0 then Node(TextMap(c.children)) else TextValue(c.text))
  {
    AssignLastWins(MetaPart(root), root.children, true, true, i);
  }

  /** The result holds `meta` only when the root has a `meta` child (or the
      section has one) and otherwise only tags of the chosen section. */
  lemma XmlKeys(root: Element, k: string)
    requires k in XmlDocument(root)
    ensures Find(root.children, "locale").Some? ==>
              (k == "meta" && Find(root.children, "meta").Some?)
              || exists j :: 0 <= j < |Find(root.children, "locale").value.children|
                             && Find(root.children, "locale").value.children[j].tag == k
    ensures Find(root.children, "locale").None? ==>
              (k == "meta" && Find(root.children, "meta").Some?)
              || (k != "meta" && exists j :: 0 <= j < |root.children| && root.children[j].tag == k)
  {
    assert k in MetaPart(root) ==> k == "meta" && Find(root.children, "meta").Some?;
    var found := Find(root.children, "locale");
    if found.Some? {
      AssignKeys(MetaPart(root), found.value.children, false, true, k);
      if k !in MetaPart(root) {
        var j :| 0 <= j < |found.value.children| && found.value.children[j].tag == k && !(false && k == "meta");
        assert 0 <= j < |Find(root.children, "locale").value.children| && Find(root.children, "locale").value.children[j].tag == k;
      }
    } else {
      AssignKeys(MetaPart(root), root.children, true, true, k);
    }
  }
}
