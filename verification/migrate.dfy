/** The migration tool (tools/migrate.py): the in-memory transformations
    that turn i18next, gettext, Django and React Intl data into a LocalEngine
    document, the XML tree written for the `xml` target, and the naming of
    output files. */
module Migrate {

  import opened Wrappers
  import opened Text
  import opened Documents
  import opened XmlParse
  import opened FileManagement

  // ---------------------------------------------------------------------
  // The migrator's target format
  // ---------------------------------------------------------------------

  datatype TargetFormat = JsonTarget | YamlTarget | XmlTarget

  function FormatName(f: TargetFormat): string
  {
    match f
    case JsonTarget => "json"
    case YamlTarget => "yaml"
    case XmlTarget => "xml"
  }

  /** The extension the FileManager reads a file of that format from. */
  function TargetExt(f: TargetFormat): (e: Ext)
    ensures ExtName(e) == FormatName(f)
    ensures e in Extensions
  {
    match f
    case JsonTarget => Json
    case YamlTarget => Yaml
    case XmlTarget => Xml
  }

  /** A `LocaleFileMigrator`: only its normalised target format. */
  datatype Migrator = Migrator(targetFormat: TargetFormat)

  const FormatError: string := "Target format must be 'json', 'yaml', or 'xml'"

  /** `LocaleFileMigrator(target_format)`: the format is lower-cased and must
      then be one of the three names, else `ValueError`. */
  function NewMigrator(target: string): (r: Result<Migrator, string>)
    ensures r.Ok? <==> Lower(target) == "json" || Lower(target) == "yaml" || Lower(target) == "xml"
    ensures r.Ok? ==> FormatName(r.value.targetFormat) == Lower(target)
    ensures r.Err? ==> r.error == FormatError
  {
    var t := Lower(target);
    if t == "json" then Ok(Migrator(JsonTarget))
    else if t == "yaml" then Ok(Migrator(YamlTarget))
    else if t == "xml" then Ok(Migrator(XmlTarget))
    else Err(FormatError)
  }

  // ---------------------------------------------------------------------
  // `_set_nested_value`
  // ---------------------------------------------------------------------

  /** Whether every intermediate segment of `path` is absent or names a
      dictionary, so that the walk never indexes into a non-dictionary. */
  predicate PathOpen(m: map<string, Doc>, path: seq<string>)
    decreases |path|
  {
    |path| <= 1 || path[0] !in m || (m[path[0]].Node? && PathOpen(m[path[0]].entries, path[1..]))
  }

  /** The dotted walk of `_set_nested_value`: missing intermediates become
      `{}`, the last segment receives `value`. `None` stands for the
      `TypeError` Python raises when an intermediate is not a dictionary. */
  function SetPath(m: map<string, Doc>, path: seq<string>, value: Doc): (r: Option<map<string, Doc>>)
    requires |path| >= 1
    ensures r.Some? <==> PathOpen(m, path)
    ensures r.Some? ==> r.value.Keys == m.Keys + {path[0]}
    ensures r.Some? ==> forall k :: k in m && k != path[0] ==> r.value[k] == m[k]
    decreases |path|
  {
    if |path| == 1 then Some(m[path[0] := value])
    else
      var k := path[0];
      var child := if k in m then m[k] else Node(map[]);
      if !child.Node? then None
      else match SetPath(child.entries, path[1..], value)
        case None => None
        case Some(c) => Some(m[k := Node(c)])
  }

  /** `_set_nested_value(data, key, value)`: an undotted key is stored
      directly; a dotted key is split on `.` and walked. */
  function SetNested(data: Document, key: string, value: Doc): (r: Option<Document>)
    ensures r.Some? <==> '.' !in key || PathOpen(data, Split(key, '.'))
    ensures '.' !in key ==> r == Some(data[key := value])
  {
    if '.' !in key then Some(data[key := value])
    else SetPath(data, Split(key, '.'), value)
  }

  /** The walk leaves `value` where a descent along the same path finds it. */
  lemma {:induction false} SetPathReads(m: map<string, Doc>, path: seq<string>, value: Doc)
    requires |path| >= 1 && SetPath(m, path, value).Some?
    ensures Descend(Node(SetPath(m, path, value).value), path) == value
    decreases |path|
  {
    if |path| > 1 {
      var k := path[0];
      var child := if k in m then m[k] else Node(map[]);
      SetPathReads(child.entries, path[1..], value);
    }
  }

  /** Round trip with the engine's lookup: once the value is stored, the
      dotted lookup of the same key yields it. */
  lemma SetNestedRoundTrip(data: Document, key: string, value: Doc)
    requires SetNested(data, key, value).Some?
    ensures NestedValue(SetNested(data, key, value).value, key) == value
  {
    if '.' in key {
      SetPathReads(data, Split(key, '.'), value);
    }
  }

  /** `q` agrees with `p` before position `i` and differs from it at `i`. */
  predicate Diverges(p: seq<string>, q: seq<string>, i: nat)
  {
    i < |p| && i < |q| && p[..i] == q[..i] && p[i] != q[i]
  }

  /** Only the path of the key changes: any path that leaves it at some
      level reaches the same value before and after. */
  lemma {:induction false} SetPathSiblings(m: map<string, Doc>, p: seq<string>, value: Doc, q: seq<string>, i: nat)
    requires |p| >= 1 && SetPath(m, p, value).Some?
    requires Diverges(p, q, i)
    ensures Descend(Node(SetPath(m, p, value).value), q) == Descend(Node(m), q)
    decreases |p|
  {
    if i > 0 {
      assert p[0] == q[0] by {
        assert p[..i][0] == p[0] && q[..i][0] == q[0];
      }
      var k := p[0];
      var child := if k in m then m[k] else Node(map[]);
      var c := SetPath(child.entries, p[1..], value).value;
      assert SetPath(m, p, value).value == m[k := Node(c)];
      assert Diverges(p[1..], q[1..], i - 1) by {
        assert p[1..][..i - 1] == p[..i][1..];
        assert q[1..][..i - 1] == q[..i][1..];
      }
      SetPathSiblings(child.entries, p[1..], value, q[1..], i - 1);
    }
  }

  // ---------------------------------------------------------------------
  // The meta block and key copying (i18next, Django JSON)
  // ---------------------------------------------------------------------

  datatype Tool = I18next | Gettext | Django | ReactIntl

  /** The name used in the description. */
  function ToolLabel(t: Tool): string
  {
    match t
    case I18next => "i18next"
    case Gettext => "gettext"
    case Django => "Django"
    case ReactIntl => "React Intl"
  }

  /** The value of `migrated_from`. */
  function ToolTag(t: Tool): string
  {
    match t
    case I18next => "i18next"
    case Gettext => "gettext"
    case Django => "django"
    case ReactIntl => "react-intl"
  }

  /** The `meta` map every migration starts from; `today` is the date
      `datetime.now()` would format. */
  function MetaBlock(t: Tool, locale: string, today: string): (d: Doc)
    ensures d.Node? && d.entries.Keys == {"version", "last_updated", "description", "locale", "migrated_from"}
    ensures d.entries["locale"] == Leaf(locale) && d.entries["migrated_from"] == Leaf(ToolTag(t))
    ensures d.entries["description"].Leaf? && Contains(d.entries["description"].text, locale)
  {
    var description := "Migrated from " + ToolLabel(t) + " for " + locale;
    assert description == "Migrated from " + ToolLabel(t) + " for " + locale + "";
    ContainsMiddle("Migrated from " + ToolLabel(t) + " for ", locale, "");
    Node(map[
      "version" := Leaf("1.0.0"),
      "last_updated" := Leaf(today),
      "description" := Leaf(description),
      "locale" := Leaf(locale),
      "migrated_from" := Leaf(ToolTag(t))])
  }

  /** `base` with every top-level key of `data` except `meta` copied over. */
  function Overlay(base: Document, data: Document): Document
  {
    map k | k in base.Keys + (data.Keys - {"meta"}) :: if k in data && k != "meta" then data[k] else base[k]
  }

  /** Copying one more key over the base. */
  lemma OverlayPut(base: Document, done: Document, key: string, v: Doc)
    requires key != "meta"
    ensures Overlay(base, done)[key := v] == Overlay(base, done[key := v])
  {
  }

  /** A source `meta` is never copied. */
  lemma OverlaySkipsMeta(base: Document, done: Document, v: Doc)
    ensures Overlay(base, done) == Overlay(base, done["meta" := v])
  {
  }

  /** `for key, value in data.items(): if key not in ['meta']: locale_data[key] = value`. */
  method CopyTranslations(localeData: Document, data: Document) returns (result: Document)
    ensures result == Overlay(localeData, data)
  {
    result := localeData;
    var pending := data.Keys;
    ghost var done: Document := map[];
    while pending != {}
      invariant pending <= data.Keys
      invariant done.Keys == data.Keys - pending
      invariant forall k :: k in done ==> done[k] == data[k]
      invariant result == Overlay(localeData, done)
      decreases pending
    {
      var key :| key in pending;
      if key != "meta" {
        OverlayPut(localeData, done, key, data[key]);
        result := result[key := data[key]];
      } else {
        OverlaySkipsMeta(localeData, done, data[key]);
      }
      done := done[key := data[key]];
      pending := pending - {key};
    }
    assert done == data;
  }

  /** `migrate_i18next_format` and the JSON branch of `migrate_django_format`
      once the source is decoded: a fresh meta block, then every other key of
      the source unchanged; the source's own `meta` is dropped. */
  method MigrateCopied(t: Tool, data: Document, locale: string, today: string) returns (localeData: Document)
    requires t == I18next || t == Django
    ensures localeData.Keys == data.Keys + {"meta"}
    ensures localeData["meta"] == MetaBlock(t, locale, today)
    ensures forall k :: k in data && k != "meta" ==> localeData[k] == data[k]
  {
    localeData := map["meta" := MetaBlock(t, locale, today)];
    localeData := CopyTranslations(localeData, data);
  }

  // ---------------------------------------------------------------------
  // The simplified gettext `.po` parser
  // ---------------------------------------------------------------------

  const MsgidPrefix: string := "msgid \""
  const MsgstrPrefix: string := "msgstr \""

  /** Python's `line[n:-1]`: drops the first `n` and the last character. */
  function Cut(line: string, n: nat): (r: string)
    requires n <= |line|
    ensures n < |line| ==> line == line[..n] + r + [line[|line| - 1]]
    ensures n == |line| ==> r == ""
  {
    if n < |line| then line[n..|line| - 1] else ""
  }

  /** A line cannot start with both prefixes. */
  lemma PrefixesExclusive(line: string)
    requires StartsWith(line, MsgstrPrefix)
    ensures !StartsWith(line, MsgidPrefix)
  {
    assert line[..8][3] == 's';
  }

  /** The `msgid`/`msgstr` pair an entry ends with. */
  datatype PoPair = PoPair(msgid: Option<string>, msgstr: Option<string>)

  /** The inner loop over an entry's lines: each `msgid "` line replaces the
      id, each `msgstr "` line replaces the translation. */
  function ScanLines(lines: seq<string>): PoPair
  {
    if lines == [] then PoPair(None, None)
    else
      var p := ScanLines(lines[..|lines| - 1]);
      var line := lines[|lines| - 1];
      if StartsWith(line, MsgidPrefix) then p.(msgid := Some(Cut(line, 7)))
      else if StartsWith(line, MsgstrPrefix) then p.(msgstr := Some(Cut(line, 8)))
      else p
  }

  /** `entry.strip().split('\n')`. */
  function EntryLines(entry: string): seq<string>
  {
    Split(Strip(entry), '\n')
  }

  /** Python truthiness of an optional string. */
  predicate Truthy(o: Option<string>)
  {
    o.Some? && o.value != ""
  }

  /** One entry's effect on the document. */
  function AddEntry(data: Document, pair: PoPair): Option<Document>
  {
    if Truthy(pair.msgid) && Truthy(pair.msgstr) then
      if '.' in pair.msgid.value then SetNested(data, pair.msgid.value, Leaf(pair.msgstr.value))
      else Some(data[pair.msgid.value := Leaf(pair.msgstr.value)])
    else Some(data)
  }

  /** The outer loop over entries; `None` once a nested insertion fails. */
  function AddEntries(start: Document, entries: seq<string>): Option<Document>
  {
    if entries == [] then Some(start)
    else match AddEntries(start, entries[..|entries| - 1])
      case None => None
      case Some(d) => AddEntry(d, ScanLines(EntryLines(entries[|entries| - 1])))
  }

  /** `migrate_gettext_po` once the file is read. */
  function GettextData(content: string, locale: string, today: string): Option<Document>
  {
    AddEntries(map["meta" := MetaBlock(Gettext, locale, today)], SplitOn(content, "\n\n"))
  }

  /** A failure in some entry aborts the whole migration. */
  lemma {:induction false} AddEntriesAbort(start: Document, entries: seq<string>, i: nat)
    requires i <= |entries| && AddEntries(start, entries[..i]).None?
    ensures AddEntries(start, entries).None?
    decreases |entries|
  {
    if i < |entries| {
      var init := entries[..|entries| - 1];
      assert init[..i] == entries[..i];
      AddEntriesAbort(start, init, i);
    } else {
      assert entries[..i] == entries;
    }
  }

  /** One more entry is stored into what the earlier entries built. */
  lemma AddEntriesStep(start: Document, entries: seq<string>, i: nat, d: Document)
    requires i < |entries| && AddEntries(start, entries[..i]) == Some(d)
    ensures AddEntries(start, entries[..i + 1]) == AddEntry(d, ScanLines(EntryLines(entries[i])))
  {
    assert entries[..i + 1][..i] == entries[..i];
  }

  /** The inner loop of `migrate_gettext_po` over one entry's lines. */
  method ScanEntry(lines: seq<string>) returns (pair: PoPair)
    ensures pair == ScanLines(lines)
  {
    var msgid: Option<string> := None;
    var msgstr: Option<string> := None;
    for j := 0 to |lines|
      invariant ScanLines(lines[..j]) == PoPair(msgid, msgstr)
    {
      var line := lines[j];
      assert lines[..j + 1][..j] == lines[..j];
      if StartsWith(line, MsgidPrefix) {
        msgid := Some(Cut(line, 7));
      } else if StartsWith(line, MsgstrPrefix) {
        msgstr := Some(Cut(line, 8));
      }
    }
    assert lines[..|lines|] == lines;
    pair := PoPair(msgid, msgstr);
  }

  /** Stores one entry's pair: skipped unless both parts are truthy, a dotted
      id through `_set_nested_value`, otherwise directly. */
  method StoreEntry(localeData: Document, pair: PoPair) returns (next: Option<Document>)
    ensures next == AddEntry(localeData, pair)
  {
    var (msgid, msgstr) := (pair.msgid, pair.msgstr);
    if msgid.Some? && msgid.value != "" && msgstr.Some? && msgstr.value != "" {
      if '.' in msgid.value {
        next := SetNested(localeData, msgid.value, Leaf(msgstr.value));
      } else {
        next := Some(localeData[msgid.value := Leaf(msgstr.value)]);
      }
    } else {
      next := Some(localeData);
    }
  }

  /** `migrate_gettext_po` as written: split into entries, scan each entry's
      lines, then store the pair. */
  method MigrateGettext(content: string, locale: string, today: string) returns (r: Option<Document>)
    ensures r == GettextData(content, locale, today)
  {
    var start := map["meta" := MetaBlock(Gettext, locale, today)];
    var localeData := start;
    var entries := SplitOn(content, "\n\n");
    var i := 0;
    while i < |entries|
      invariant i <= |entries|
      invariant AddEntries(start, entries[..i]) == Some(localeData)
    {
      var pair := ScanEntry(EntryLines(entries[i]));
      AddEntriesStep(start, entries, i, localeData);
      var next := StoreEntry(localeData, pair);
      if next.None? {
        AddEntriesAbort(start, entries, i + 1);
        return None;
      }
      localeData := next.value;
      i := i + 1;
    }
    assert entries[..|entries|] == entries;
    r := Some(localeData);
  }

  /** Within an entry the last `msgid "` line wins. */
  lemma {:induction false} ScanLastMsgid(lines: seq<string>, i: nat)
    requires i < |lines| && StartsWith(lines[i], MsgidPrefix)
    requires forall j :: i < j < |lines| ==> !StartsWith(lines[j], MsgidPrefix)
    ensures ScanLines(lines).msgid == Some(Cut(lines[i], 7))
  {
    if i < |lines| - 1 {
      var init := lines[..|lines| - 1];
      ScanLastMsgid(init, i);
    }
  }

  /** Within an entry the last `msgstr "` line wins. */
  lemma {:induction false} ScanLastMsgstr(lines: seq<string>, i: nat)
    requires i < |lines| && StartsWith(lines[i], MsgstrPrefix)
    requires forall j :: i < j < |lines| ==> !StartsWith(lines[j], MsgstrPrefix)
    ensures ScanLines(lines).msgstr == Some(Cut(lines[i], 8))
  {
    PrefixesExclusive(lines[i]);
    if i < |lines| - 1 {
      var init := lines[..|lines| - 1];
      ScanLastMsgstr(init, i);
    }
  }

  /** An entry without a `msgid "` line has no id. */
  lemma {:induction false} ScanNoMsgid(lines: seq<string>)
    requires forall j :: 0 <= j < |lines| ==> !StartsWith(lines[j], MsgidPrefix)
    ensures ScanLines(lines).msgid.None?
  {
    if lines != [] {
      ScanNoMsgid(lines[..|lines| - 1]);
    }
  }

  /** What one entry does: nothing when the id or the translation is missing
      or empty; otherwise the translation is found under the id by the
      engine's dotted lookup, and an undotted id is a plain top-level key. */
  lemma AddEntryMeaning(data: Document, pair: PoPair)
    ensures !(Truthy(pair.msgid) && Truthy(pair.msgstr)) ==> AddEntry(data, pair) == Some(data)
    ensures Truthy(pair.msgid) && Truthy(pair.msgstr) && '.' !in pair.msgid.value ==>
      AddEntry(data, pair) == Some(data[pair.msgid.value := Leaf(pair.msgstr.value)])
    ensures Truthy(pair.msgid) && Truthy(pair.msgstr) && AddEntry(data, pair).Some? ==>
      NestedValue(AddEntry(data, pair).value, pair.msgid.value) == Leaf(pair.msgstr.value)
  {
    if Truthy(pair.msgid) && Truthy(pair.msgstr) && AddEntry(data, pair).Some? {
      SetNestedRoundTrip(data, pair.msgid.value, Leaf(pair.msgstr.value));
    }
  }

  /** A text with a single line break has no blank line: it is one entry. */
  lemma OneEntry(first: string, second: string)
    requires '\n' !in first && '\n' !in second
    ensures SplitOn(first + ['\n'] + second, "\n\n") == [first + ['\n'] + second]
  {
    var content := first + ['\n'] + second;
    forall i: nat | i + 2 <= |content|
      ensures !OccursAt(content, "\n\n", i)
    {
      assert content[i..i + 2][0] == content[i] && content[i..i + 2][1] == content[i + 1];
      if i < |first| {
        assert content[i] == first[i];
      } else if i == |first| {
        assert content[i + 1] == second[0];
      } else {
        assert content[i] == second[i - |first| - 1];
      }
    }
    FindFromAbsent(content, "\n\n", 0);
  }

  /** Two lines that start and end with visible characters are the entry's
      lines as they are. */
  lemma PlainEntryLines(first: string, second: string)
    requires '\n' !in first && '\n' !in second
    requires |first| > 0 && !IsSpace(first[0]) && |second| > 0 && !IsSpace(second[|second| - 1])
    ensures EntryLines(first + ['\n'] + second) == [first, second]
  {
    var content := first + ['\n'] + second;
    assert content[0] == first[0] && content[|content| - 1] == second[|second| - 1];
    assert StripLeft(content) == content;
    assert Strip(content) == content;
    SplitAtFirst(first, '\n', second);
  }

  /** The two lines of a plain entry give back its id and its translation. */
  lemma ScanPlainEntry(id: string, text: string)
    ensures ScanLines([MsgidPrefix + id + "\"", MsgstrPrefix + text + "\""]) == PoPair(Some(id), Some(text))
  {
    var first := MsgidPrefix + id + "\"";
    var second := MsgstrPrefix + text + "\"";
    assert StartsWith(first, MsgidPrefix) by { assert first[..7] == MsgidPrefix; }
    assert StartsWith(second, MsgstrPrefix) by { assert second[..8] == MsgstrPrefix; }
    PrefixesExclusive(second);
    assert Cut(first, 7) == id by { assert first[7..|first| - 1] == id; }
    assert Cut(second, 8) == text by { assert second[8..|second| - 1] == text; }
    assert [first, second][..1] == [first];
    assert [first][..0] == [];
  }

  /** The two lines of a plain entry: no line break inside, a visible first
      and last character, and the file text is them joined by a break. */
  lemma PlainEntryShape(id: string, text: string)
    requires '\n' !in id && '\n' !in text
    ensures var first := MsgidPrefix + id + "\"";
            var second := MsgstrPrefix + text + "\"";
            && '\n' !in first && '\n' !in second
            && |first| > 0 && !IsSpace(first[0]) && |second| > 0 && !IsSpace(second[|second| - 1])
            && MsgidPrefix + id + "\"\n" + MsgstrPrefix + text + "\"" == first + ['\n'] + second
  {
    var first := MsgidPrefix + id + "\"";
    var second := MsgstrPrefix + text + "\"";
    assert first[0] == 'm' && second[|second| - 1] == '"';
    assert forall c :: c in first ==> c in MsgidPrefix || c in id || c == '"';
    assert forall c :: c in second ==> c in MsgstrPrefix || c in text || c == '"';
  }

  /** A file of one entry adds that entry's pair. */
  lemma SingleEntryFile(start: Document, content: string)
    ensures AddEntries(start, [content]) == AddEntry(start, ScanLines(EntryLines(content)))
  {
    assert [content][..0] == [];
  }

  /** A file holding one plain entry `msgid "id"` / `msgstr "text"` migrates
      to the meta block plus `{id: text}`. */
  lemma GettextSingleEntry(id: string, text: string, locale: string, today: string)
    requires id != "" && text != "" && '.' !in id
    requires '\n' !in id && '\n' !in text
    ensures var content := MsgidPrefix + id + "\"\n" + MsgstrPrefix + text + "\"";
            GettextData(content, locale, today) == Some(map["meta" := MetaBlock(Gettext, locale, today), id := Leaf(text)])
  {
    var first := MsgidPrefix + id + "\"";
    var second := MsgstrPrefix + text + "\"";
    PlainEntryShape(id, text);
    var content := first + ['\n'] + second;
    OneEntry(first, second);
    PlainEntryLines(first, second);
    ScanPlainEntry(id, text);
    SingleEntryFile(map["meta" := MetaBlock(Gettext, locale, today)], content);
  }

  // ---------------------------------------------------------------------
  // React Intl
  // ---------------------------------------------------------------------

  /** What a React Intl value stores: the `message` of a dictionary that has
      one, a string itself; any other value is ignored. */
  function ReactMessage(v: Doc): (r: Option<Doc>)
    ensures v.Leaf? ==> r == Some(v)
    ensures v.Node? ==> (r.Some? <==> "message" in v.entries)
    ensures v.Node? && r.Some? ==> r.value == v.entries["message"]
    ensures v.Null? ==> r.None?
  {
    match v
    case Node(m) => if "message" in m then Some(m["message"]) else None
    case Leaf(_) => Some(v)
    case Null => None
  }

  /** The loop over the source's items, in file order; `None` once a nested
      insertion fails. */
  function AddItems(start: Document, items: seq<(string, Doc)>): Option<Document>
  {
    if items == [] then Some(start)
    else match AddItems(start, items[..|items| - 1])
      case None => None
      case Some(d) =>
        var (key, value) := items[|items| - 1];
        match ReactMessage(value)
        case None => Some(d)
        case Some(message) => SetNested(d, key, message)
  }

  /** A failure at some item aborts the whole migration. */
  lemma {:induction false} AddItemsAbort(start: Document, items: seq<(string, Doc)>, i: nat)
    requires i <= |items| && AddItems(start, items[..i]).None?
    ensures AddItems(start, items).None?
    decreases |items|
  {
    if i < |items| {
      var init := items[..|items| - 1];
      assert init[..i] == items[..i];
      AddItemsAbort(start, init, i);
    } else {
      assert items[..i] == items;
    }
  }

  /** `migrate_react_intl_format` once the file is decoded. */
  method MigrateReactIntl(items: seq<(string, Doc)>, locale: string, today: string) returns (r: Option<Document>)
    ensures r == AddItems(map["meta" := MetaBlock(ReactIntl, locale, today)], items)
  {
    var start := map["meta" := MetaBlock(ReactIntl, locale, today)];
    var localeData := start;
    for i := 0 to |items|
      invariant AddItems(start, items[..i]) == Some(localeData)
    {
      assert items[..i + 1][..i] == items[..i];
      var (key, value) := items[i];
      if value.Node? && "message" in value.entries {
        var next := SetNested(localeData, key, value.entries["message"]);
        if next.None? {
          AddItemsAbort(start, items, i + 1);
          return None;
        }
        localeData := next.value;
      } else if value.Leaf? {
        var next := SetNested(localeData, key, value);
        if next.None? {
          AddItemsAbort(start, items, i + 1);
          return None;
        }
        localeData := next.value;
      }
    }
    assert items[..|items|] == items;
    r := Some(localeData);
  }

  /** The item inserted last is read back under its key by the engine. */
  lemma ReactLastStored(start: Document, items: seq<(string, Doc)>)
    requires |items| > 0 && ReactMessage(items[|items| - 1].1).Some?
    requires AddItems(start, items).Some?
    ensures NestedValue(AddItems(start, items).value, items[|items| - 1].0)
            == ReactMessage(items[|items| - 1].1).value
  {
    var d := AddItems(start, items[..|items| - 1]).value;
    var (key, value) := items[|items| - 1];
    SetNestedRoundTrip(d, key, ReactMessage(value).value);
  }

  /** An item that carries no message leaves the document as it was. */
  lemma ReactIgnored(start: Document, items: seq<(string, Doc)>, key: string, value: Doc)
    requires ReactMessage(value).None?
    ensures AddItems(start, items + [(key, value)]) == AddItems(start, items)
  {
    assert (items + [(key, value)])[..|items|] == items;
  }

  // ---------------------------------------------------------------------
  // Django
  // ---------------------------------------------------------------------

  /** Whether `migrate_django_format` hands a file to the gettext parser:
      pathlib's suffix of its name, lower-cased, is `.po`. */
  predicate IsPoFile(sourceFile: string)
  {
    Lower(Suffix(sourceFile)) == ".po"
  }

  /** `migrate_django_format(source_file, locale)` over the file's text: a
      `.po` suffix, in any case, goes to the gettext parser; any other file
      is decoded as JSON, a decoding error aborting the migration, and
      copied under a Django meta block. */
  method MigrateDjango(sourceFile: string, content: string, json: string -> Decoded<Document>,
                       locale: string, today: string) returns (r: Option<Document>)
    ensures IsPoFile(sourceFile) ==> r == GettextData(content, locale, today)
    ensures !IsPoFile(sourceFile) ==> (r.Some? <==> json(content).Parsed?)
    ensures !IsPoFile(sourceFile) && r.Some? ==> r.value.Keys == json(content).value.Keys + {"meta"}
    ensures !IsPoFile(sourceFile) && r.Some? ==> r.value["meta"] == MetaBlock(Django, locale, today)
    ensures !IsPoFile(sourceFile) && r.Some? ==>
              forall k :: k in json(content).value && k != "meta" ==> r.value[k] == json(content).value[k]
  {
    if Lower(Suffix(sourceFile)) == ".po" {
      r := MigrateGettext(content, locale, today);
    } else {
      match json(content)
      case Malformed(_) =>
        r := None;
      case Parsed(data) =>
        var localeData := MigrateCopied(Django, data, locale, today);
        r := Some(localeData);
    }
  }

  lemma LowerPo()
    ensures Lower(".PO") == ".po" && Lower(".po") == ".po"
  {
    var l := Lower(".PO");
    assert l[0] == '.' && l[1] == 'p' && l[2] == 'o';
    LowerFixed(".po");
  }

  /** Which Django files are read as gettext: a name ending in `.po` or
      `.PO`, and not a `.json` or `.yaml` one, which is decoded as JSON. */
  lemma DjangoDispatch(p: string)
    requires BaseName(p) != ""
    ensures IsPoFile(p + ".po") && IsPoFile(p + ".PO")
    ensures !IsPoFile(p + ".json") && !IsPoFile(p + ".yaml")
  {
    LowerPo();
    DottedFile(p, ".po");
    DottedFile(p, ".PO");
    DottedFile(p, ".json");
    DottedFile(p, ".yaml");
  }

  /** A name with a non-empty stem ending in the extension `ext` (a dot and
      then a word without '.' or '/') is a `.po` file exactly when `ext`
      lower-cases to `.po`. */
  lemma DottedFile(p: string, ext: string)
    requires BaseName(p) != "" && |ext| >= 2 && ext[0] == '.' && '.' !in ext[1..] && '/' !in ext
    ensures IsPoFile(p + ext) <==> Lower(ext) == ".po"
  {
    assert ext == "." + ext[1..];
    SuffixOfDotted(p, ext[1..]);
  }

  /** A file named just `.po` has an empty suffix, so it is decoded as
      JSON. */
  lemma BarePoFile(dir: string)
    ensures !IsPoFile(dir + "/.po")
  {
    var d := dir + "/";
    assert dir + "/.po" == d + ("." + "po");
    SuffixOfDotted(d, "po");
    assert Lower("") == "";
  }

  // ---------------------------------------------------------------------
  // The XML tree of `save_locale_file` and `_dict_to_xml`
  // ---------------------------------------------------------------------

  /** `cs` is what `_dict_to_xml(m, parent, skip_keys)` appends: one element
      per key not skipped, in some order, a dictionary becoming an element
      with children and any other value an element holding `str(value)`. */
  predicate Mirrors(cs: seq<Element>, m: map<string, Doc>, skipMeta: bool)
    decreases Node(m), 0
  {
    && (forall i, j :: 0 <= i < j < |cs| ==> cs[i].tag != cs[j].tag)
    && (forall i :: 0 <= i < |cs| ==>
          cs[i].tag in m && !(skipMeta && cs[i].tag == "meta") && MirrorsEntry(cs[i], m[cs[i].tag]))
    && (forall k :: k in m && !(skipMeta && k == "meta") ==> exists i :: 0 <= i < |cs| && cs[i].tag == k)
  }

  predicate MirrorsEntry(c: Element, d: Doc)
    decreases d, 1
  {
    match d
    case Node(m) => c.text.None? && Mirrors(c.children, m, false)
    case _ => c.text == Some(Str(d)) && c.children == []
  }

  /** Appending an element keeps every tag already present and adds its own. */
  lemma AppendCovers(cs: seq<Element>, e: Element, done: set<string>)
    requires forall k :: k in done ==> exists i :: 0 <= i < |cs| && cs[i].tag == k
    ensures forall k :: k in done + {e.tag} ==> exists i :: 0 <= i < |cs + [e]| && (cs + [e])[i].tag == k
  {
    forall k | k in done + {e.tag}
      ensures exists i :: 0 <= i < |cs + [e]| && (cs + [e])[i].tag == k
    {
      if k == e.tag {
        assert (cs + [e])[|cs|].tag == k;
      } else {
        var i :| 0 <= i < |cs| && cs[i].tag == k;
        assert (cs + [e])[i].tag == k;
      }
    }
  }

  /** `cs` mirrors the keys of `m` already handled, that is, those not
      `pending`. */
  predicate MirrorsDone(cs: seq<Element>, m: map<string, Doc>, skipMeta: bool, pending: set<string>)
  {
    && (forall i, j :: 0 <= i < j < |cs| ==> cs[i].tag != cs[j].tag)
    && (forall i :: 0 <= i < |cs| ==>
          cs[i].tag in m && cs[i].tag !in pending && !(skipMeta && cs[i].tag == "meta")
          && MirrorsEntry(cs[i], m[cs[i].tag]))
    && (forall k :: k in m && k !in pending && !(skipMeta && k == "meta") ==>
          exists i :: 0 <= i < |cs| && cs[i].tag == k)
  }

  /** Handling one pending key by appending its element. */
  lemma MirrorsDoneAppend(cs: seq<Element>, m: map<string, Doc>, skipMeta: bool, pending: set<string>, e: Element)
    requires MirrorsDone(cs, m, skipMeta, pending)
    requires e.tag in pending && e.tag in m && !(skipMeta && e.tag == "meta") && MirrorsEntry(e, m[e.tag])
    ensures MirrorsDone(cs + [e], m, skipMeta, pending - {e.tag})
  {
    var cs' := cs + [e];
    forall k | k in m && k !in pending - {e.tag} && !(skipMeta && k == "meta")
      ensures exists i :: 0 <= i < |cs'| && cs'[i].tag == k
    {
      if k == e.tag {
        assert cs'[|cs|].tag == k;
      } else {
        var i :| 0 <= i < |cs| && cs[i].tag == k;
        assert cs'[i].tag == k;
      }
    }
  }

  /** Handling a skipped `meta` key appends nothing. */
  lemma MirrorsDoneSkip(cs: seq<Element>, m: map<string, Doc>, skipMeta: bool, pending: set<string>)
    requires MirrorsDone(cs, m, skipMeta, pending) && skipMeta
    ensures MirrorsDone(cs, m, skipMeta, pending - {"meta"})
  {
  }

  /** `_dict_to_xml`, recursing into dictionaries. Python keeps the
      dictionary's order; here the order is left open. */
  method DictToXml(data: map<string, Doc>, skipMeta: bool) returns (children: seq<Element>)
    ensures Mirrors(children, data, skipMeta)
    decreases Node(data)
  {
    children := [];
    var pending := data.Keys;
    while pending != {}
      invariant pending <= data.Keys
      invariant MirrorsDone(children, data, skipMeta, pending)
      decreases pending
    {
      var key :| key in pending;
      if !(skipMeta && key == "meta") {
        var value := data[key];
        var elem;
        if value.Node? {
          assert Node(value.entries) == value;
          var sub := DictToXml(value.entries, false);
          elem := Element(key, None, sub);
        } else {
          elem := Element(key, Some(Str(value)), []);
        }
        assert MirrorsEntry(elem, data[key]);
        MirrorsDoneAppend(children, data, skipMeta, pending, elem);
        children := children + [elem];
      } else {
        MirrorsDoneSkip(children, data, skipMeta, pending);
      }
      pending := pending - {key};
    }
  }

  /** The `<meta>` children: one element per meta key holding `str(value)`,
      even for nested values. */
  predicate MetaMirrors(cs: seq<Element>, m: map<string, Doc>)
  {
    && (forall i, j :: 0 <= i < j < |cs| ==> cs[i].tag != cs[j].tag)
    && (forall i :: 0 <= i < |cs| ==> cs[i].tag in m && cs[i].text == Some(Str(m[cs[i].tag])) && cs[i].children == [])
    && (forall k :: k in m ==> exists i :: 0 <= i < |cs| && cs[i].tag == k)
  }

  method MetaElements(m: map<string, Doc>) returns (cs: seq<Element>)
    ensures MetaMirrors(cs, m)
  {
    cs := [];
    var pending := m.Keys;
    ghost var covered: set<string> := {};
    while pending != {}
      invariant pending <= m.Keys
      invariant covered == m.Keys - pending
      invariant forall i, j :: 0 <= i < j < |cs| ==> cs[i].tag != cs[j].tag
      invariant forall i :: 0 <= i < |cs| ==>
        cs[i].tag in m && cs[i].tag !in pending && cs[i].text == Some(Str(m[cs[i].tag])) && cs[i].children == []
      invariant forall k :: k in covered ==> exists i :: 0 <= i < |cs| && cs[i].tag == k
      decreases pending
    {
      var key :| key in pending;
      AppendCovers(cs, Element(key, Some(Str(m[key])), []), covered);
      cs := cs + [Element(key, Some(Str(m[key])), [])];
      covered := covered + {key};
      pending := pending - {key};
    }
    assert covered == m.Keys;
  }

  /** The `<locale>` element of the tree. */
  predicate LocaleSection(e: Element, data: Document)
  {
    e.tag == "locale" && e.text.None? && Mirrors(e.children, data, true)
  }

  /** The tree `save_locale_file` writes for the `xml` target: a `<root>`
      with a `<meta>` child when the data has `meta`, then `<locale>`. */
  predicate BuiltTree(root: Element, data: Document)
  {
    root.tag == "root" && root.text.None? &&
    if "meta" in data then
      && data["meta"].Node? && |root.children| == 2
      && root.children[0].tag == "meta" && root.children[0].text.None?
      && MetaMirrors(root.children[0].children, data["meta"].entries)
      && LocaleSection(root.children[1], data)
    else
      |root.children| == 1 && LocaleSection(root.children[0], data)
  }

  /** The XML branch of `save_locale_file`, without the serialisation.
      `None` stands for the `AttributeError` of a `meta` that is not a
      dictionary. */
  method BuildXmlTree(data: Document) returns (root: Option<Element>)
    ensures root.Some? <==> ("meta" in data ==> data["meta"].Node?)
    ensures root.Some? ==> BuiltTree(root.value, data)
  {
    var rootChildren: seq<Element> := [];
    if "meta" in data {
      if !data["meta"].Node? {
        return None;
      }
      var metaChildren := MetaElements(data["meta"].entries);
      rootChildren := [Element("meta", None, metaChildren)];
    }
    var localeChildren := DictToXml(data, true);
    root := Some(Element("root", None, rootChildren + [Element("locale", None, localeChildren)]));
  }

  /** Every value of `m` is a string. */
  predicate LeafMap(m: map<string, Doc>)
  {
    forall k :: k in m ==> m[k].Leaf?
  }

  /** Documents the XML reader gives back unchanged: `meta` a dictionary of
      strings, every other value a string or a non-empty dictionary of
      strings. */
  predicate Reloadable(data: Document)
  {
    && ("meta" in data ==> data["meta"].Node? && LeafMap(data["meta"].entries))
    && (forall k :: k in data && k != "meta" ==>
          data[k].Leaf? || (data[k].Node? && data[k].entries != map[] && LeafMap(data[k].entries)))
  }

  /** Text-only children with distinct tags covering a map of strings read
      back as that map. */
  lemma LeafTexts(cs: seq<Element>, m: map<string, Doc>)
    requires LeafMap(m)
    requires forall i, j :: 0 <= i < j < |cs| ==> cs[i].tag != cs[j].tag
    requires forall i :: 0 <= i < |cs| ==> cs[i].tag in m && cs[i].text == Some(m[cs[i].tag].text)
    requires forall k :: k in m ==> exists i :: 0 <= i < |cs| && cs[i].tag == k
    ensures TextMap(cs) == m
  {
    AssignAll(map[], cs, false, m);
    assert map[] + m == m;
  }

  /** Elements mirroring a non-empty map of strings: there is at least one,
      and they read back as the map. */
  lemma MirrorsLeaves(cs: seq<Element>, m: map<string, Doc>)
    requires Mirrors(cs, m, false) && LeafMap(m) && m != map[]
    ensures |cs| > 0 && TextMap(cs) == m
  {
    var k :| k in m;
    assert exists j :: 0 <= j < |cs| && cs[j].tag == k;
    forall i | 0 <= i < |cs|
      ensures cs[i].text == Some(m[cs[i].tag].text)
    {
      assert MirrorsEntry(cs[i], m[cs[i].tag]);
    }
    LeafTexts(cs, m);
  }

  /** The `<locale>` children of a reloadable document read back as its
      non-meta part. */
  lemma SectionReads(acc: Document, e: Element, data: Document)
    requires LocaleSection(e, data) && Reloadable(data)
    ensures Assign(acc, e.children, false, true) == acc + (data - {"meta"})
  {
    var rest := data - {"meta"};
    var cs := e.children;
    forall i | 0 <= i < |cs|
      ensures cs[i].tag in rest && Entry(cs[i], true) == rest[cs[i].tag]
    {
      var c := cs[i];
      var d := data[c.tag];
      assert MirrorsEntry(c, d);
      if d.Node? {
        MirrorsLeaves(c.children, d.entries);
      }
    }
    forall k | k in rest
      ensures exists i :: 0 <= i < |cs| && cs[i].tag == k
    {
      assert k in data && k != "meta";
    }
    AssignAll(acc, cs, true, rest);
  }

  /** In a tree built with `meta`, `find` locates `<meta>` first and
      `<locale>` second. */
  lemma BuiltTreeFinds(root: Element, data: Document)
    requires BuiltTree(root, data) && "meta" in data
    ensures Find(root.children, "meta") == Some(root.children[0])
    ensures Find(root.children, "locale") == Some(root.children[1])
  {
    assert root.children[1].tag == "locale";
  }

  /** The `<meta>` element of a tree built from a reloadable document reads
      back as its `meta` part. */
  lemma MetaReads(root: Element, data: Document)
    requires BuiltTree(root, data) && Reloadable(data) && "meta" in data
    ensures MetaPart(root) == map["meta" := data["meta"]]
  {
    BuiltTreeFinds(root, data);
    var metaElem := root.children[0];
    var meta := data["meta"];
    LeafTexts(metaElem.children, meta.entries);
  }

  /** The round trip for a document with `meta`: `<meta>` is the first
      child of the root and `<locale>` the second. */
  lemma XmlRoundTripMeta(root: Element, data: Document)
    requires BuiltTree(root, data) && Reloadable(data) && "meta" in data
    ensures XmlDocument(root) == data
  {
    BuiltTreeFinds(root, data);
    MetaReads(root, data);
    SectionReads(MetaPart(root), root.children[1], data);
    MetaRejoins(data);
  }

  /** Putting `meta` back in front of the rest gives the document. */
  lemma MetaRejoins(data: Document)
    requires "meta" in data
    ensures map["meta" := data["meta"]] + (data - {"meta"}) == data
  {
  }

  /** The round trip for a document without `meta`: `<locale>` is the only
      child of the root. */
  lemma XmlRoundTripPlain(root: Element, data: Document)
    requires BuiltTree(root, data) && Reloadable(data) && "meta" !in data
    ensures XmlDocument(root) == data
  {
    var section := root.children[0];
    assert Find(root.children, "meta").None?;
    assert Find(root.children, "locale") == Some(section);
    SectionReads(map[], section, data);
    assert map[] + (data - {"meta"}) == data;
  }

  /** Round trip with the reader: `_parse_xml` of the tree built for a
      reloadable document gives the document back. */
  lemma XmlRoundTrip(root: Element, data: Document)
    requires BuiltTree(root, data) && Reloadable(data)
    ensures XmlDocument(root) == data
  {
    if "meta" in data {
      XmlRoundTripMeta(root, data);
    } else {
      XmlRoundTripPlain(root, data);
    }
  }

  // ---------------------------------------------------------------------
  // `migrate_directory`: locale names and output paths
  // ---------------------------------------------------------------------

  /** The locale a source file migrates to: the mapping's entry for the stem,
      else the stem, with `_` turned into `-`; `None` when it is empty and
      the file is skipped. */
  function DeriveLocale(stem: string, mapping: map<string, string>): (r: Option<string>)
    ensures var named := if stem in mapping then mapping[stem] else stem;
            && (r.None? <==> named == "")
            && (r.Some? ==> '_' !in r.value && |r.value| == |named|)
            && (r.Some? ==> forall i :: 0 <= i < |named| ==> r.value[i] == (if named[i] == '_' then '-' else named[i]))
  {
    var named := if stem in mapping then mapping[stem] else stem;
    var locale := if named != "" && '_' in named then Replace(named, '_', '-') else named;
    if locale == "" then None else Some(locale)
  }

  /** `locales_dir / f"{locale}.{target_format}"` as written: the format is
      spelled as the caller passed it, not as the migrator normalised it. */
  function OutputPath(outputDir: string, locale: string, targetArg: string): (p: string)
    ensures EndsWith(p, "." + targetArg)
  {
    var p := outputDir + "/locales/" + locale + "." + targetArg;
    assert p == (outputDir + "/locales/" + locale) + ("." + targetArg);
    p
  }

  /** The output path spelled with the migrator's normalised format. */
  function MigratedPath(outputDir: string, locale: string, m: Migrator): (p: string)
    ensures EndsWith(p, "." + FormatName(m.targetFormat))
  {
    OutputPath(outputDir, locale, FormatName(m.targetFormat))
  }

  /** A migrated file lands on one of the four flat candidates the
      FileManager searches, with the extension of the target format. */
  lemma MigratedPathIsCandidate(outputDir: string, locale: string, m: Migrator)
    ensures exists e :: 0 <= e < 4 && Candidates(outputDir, locale)[e].path == MigratedPath(outputDir, locale, m)
                        && Candidates(outputDir, locale)[e].ext == TargetExt(m.targetFormat)
  {
    CandidatesOrder(outputDir, locale);
    var ext := TargetExt(m.targetFormat);
    var e := if ext == Json then 0 else if ext == Yaml then 1 else 3;
    assert Extensions[e] == ext;
    assert Candidates(outputDir, locale)[e] == FlatCandidate(outputDir, locale, ext);
  }

  /** One source file of `migrate_directory`: the locale it is filed under
      and the path written for it, or `None` when no locale can be derived. */
  function MigrationTarget(stem: string, mapping: map<string, string>, outputDir: string, m: Migrator)
    : (r: Option<(string, string)>)
    ensures r.None? <==> DeriveLocale(stem, mapping).None?
    ensures r.Some? ==> r.value.0 == DeriveLocale(stem, mapping).value
    ensures r.Some? ==> exists e :: 0 <= e < 4 && Candidates(outputDir, r.value.0)[e].path == r.value.1
                                     && Candidates(outputDir, r.value.0)[e].ext == TargetExt(m.targetFormat)
  {
    match DeriveLocale(stem, mapping)
    case None => None
    case Some(locale) =>
      MigratedPathIsCandidate(outputDir, locale, m);
      Some((locale, MigratedPath(outputDir, locale, m)))
  }

  /** With a target format already in lower case, the as-written path is the
      normalised one. */
  lemma OutputPathLowerCase(outputDir: string, locale: string, targetArg: string)
    requires NewMigrator(targetArg).Ok? && Lower(targetArg) == targetArg
    ensures OutputPath(outputDir, locale, targetArg) == MigratedPath(outputDir, locale, NewMigrator(targetArg).value)
  {
  }

  /** The last character of a string is the last character of any suffix. */
  lemma EndsWithLast(s: string, suffix: string)
    requires EndsWith(s, suffix) && |suffix| > 0
    ensures s[|s| - 1] == suffix[|suffix| - 1]
  {
    assert s[|s| - |suffix|..][|suffix| - 1] == s[|s| - 1];
  }

  /** Every extension's suffix ends in a lower-case letter. */
  lemma ExtEndsLowerCase(e: Ext)
    ensures var suffix := "." + ExtName(e); suffix[|suffix| - 1] != 'N'
  {
  }

  lemma LowerJson()
    ensures Lower("JSON") == "json"
  {
    var l := Lower("JSON");
    assert l[0] == 'j' && l[1] == 's' && l[2] == 'o' && l[3] == 'n';
  }

  /** The migrator accepts `"JSON"`, but the file written for it ends in
      `.JSON`, which no candidate path does, so the FileManager does not find
      it on a case-sensitive file system. */
  lemma OutputPathUpperCaseMissed(outputDir: string, locale: string)
    ensures NewMigrator("JSON").Ok?
    ensures forall i :: 0 <= i < 16 ==> Candidates(outputDir, locale)[i].path != OutputPath(outputDir, locale, "JSON")
  {
    LowerJson();
    var p := OutputPath(outputDir, locale, "JSON");
    EndsWithLast(p, ".JSON");
    forall i | 0 <= i < 16
      ensures Candidates(outputDir, locale)[i].path != p
    {
      var c := CandidateAt(outputDir, locale, i);
      assert Candidates(outputDir, locale)[i] == c;
      EndsWithLast(c.path, "." + ExtName(c.ext));
      ExtEndsLowerCase(c.ext);
    }
  }
}
