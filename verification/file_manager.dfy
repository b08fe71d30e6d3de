/** Locating, parsing and caching locale files (localengine/core/file_manager.py).
    The file system and HTTP become a fetch oracle, the JSON/YAML/XML codecs
    become decoding oracles, and the clock becomes an explicit `now`. */
module FileManagement {

  import opened Wrappers
  import opened Text
  import opened Documents
  import opened Exceptions
  import opened XmlParse

  /** The supported file formats, in search order. */
  datatype Ext = Json | Yaml | Yml | Xml

  function ExtName(e: Ext): (n: string)
    ensures |n| >= 3 && '.' !in n && '/' !in n
  {
    match e
    case Json => "json"
    case Yaml => "yaml"
    case Yml => "yml"
    case Xml => "xml"
  }

  const Extensions: seq<Ext> := [Json, Yaml, Yml, Xml]

  /** The file names tried inside a per-locale directory, in order. */
  function FileNames(locale: string): seq<string>
  {
    [locale, "locale", "translations"]
  }

  /** A path to try and the extension written at its end. */
  datatype Candidate = Candidate(path: string, ext: Ext)

  /** `locales/{locale}.{ext}`. */
  function FlatCandidate(basePath: string, locale: string, e: Ext): (c: Candidate)
    ensures c.ext == e
  {
    Candidate(basePath + "/locales/" + locale + "." + ExtName(e), e)
  }

  /** `locales/{locale}/{name}.{ext}`. */
  function NestedCandidate(basePath: string, locale: string, name: string, e: Ext): (c: Candidate)
    ensures c.ext == e
  {
    Candidate(basePath + "/locales/" + locale + "/" + name + "." + ExtName(e), e)
  }

  /** The `i`-th entry of `_get_possible_file_paths`: four flat paths, then
      for each extension the three names inside the locale's directory. */
  function CandidateAt(basePath: string, locale: string, i: nat): (c: Candidate)
    requires i < 16
    ensures EndsWith(c.path, "." + ExtName(c.ext))
  {
    if i < 4 then
      var c := FlatCandidate(basePath, locale, Extensions[i]);
      assert c.path == (basePath + "/locales/" + locale) + ("." + ExtName(c.ext));
      c
    else
      var c := NestedCandidate(basePath, locale, FileNames(locale)[(i - 4) % 3], Extensions[(i - 4) / 3]);
      assert c.path == (basePath + "/locales/" + locale + "/" + FileNames(locale)[(i - 4) % 3]) + ("." + ExtName(c.ext));
      c
  }

  predicate EndsWith(s: string, suffix: string)
  {
    |suffix| <= |s| && s[|s| - |suffix|..] == suffix
  }

  /** The whole ordered candidate list. */
  function Candidates(basePath: string, locale: string): (cs: seq<Candidate>)
    ensures |cs| == 16
  {
    seq(16, i requires 0 <= i < 16 => CandidateAt(basePath, locale, i))
  }

  /** The list's fixed order: the four flat paths by extension, then, per
      extension, `{locale}`, `locale` and `translations` in the directory;
      every path ends with the extension written for it. */
  lemma CandidatesOrder(basePath: string, locale: string)
    ensures var cs := Candidates(basePath, locale);
            && (forall e :: 0 <= e < 4 ==> cs[e] == FlatCandidate(basePath, locale, Extensions[e]))
            && (forall e, n :: 0 <= e < 4 && 0 <= n < 3 ==>
                  cs[4 + 3 * e + n] == NestedCandidate(basePath, locale, FileNames(locale)[n], Extensions[e]))
            && (forall i :: 0 <= i < 16 ==> EndsWith(cs[i].path, "." + ExtName(cs[i].ext)))
  {
    forall e, n | 0 <= e < 4 && 0 <= n < 3
      ensures Candidates(basePath, locale)[4 + 3 * e + n]
              == NestedCandidate(basePath, locale, FileNames(locale)[n], Extensions[e])
    {
      DivModThree(e, n);
    }
  }

  /** Appending the `e`-th flat path extends the first `e` candidates. */
  lemma FlatAt(basePath: string, locale: string, e: nat, prefix: seq<Candidate>)
    requires e < 4 && prefix == Candidates(basePath, locale)[..e]
    ensures prefix + [FlatCandidate(basePath, locale, Extensions[e])] == Candidates(basePath, locale)[..e + 1]
  {
    var all := Candidates(basePath, locale);
    assert all[..e + 1] == all[..e] + [all[e]];
  }

  /** Appending the `n`-th name under the `e`-th extension extends the
      candidates before it. */
  lemma NestedAt(basePath: string, locale: string, e: nat, n: nat, prefix: seq<Candidate>)
    requires e < 4 && n < 3 && prefix == Candidates(basePath, locale)[..4 + 3 * e + n]
    ensures prefix + [NestedCandidate(basePath, locale, FileNames(locale)[n], Extensions[e])]
            == Candidates(basePath, locale)[..4 + 3 * e + n + 1]
  {
    var all := Candidates(basePath, locale);
    var k := 4 + 3 * e + n;
    DivModThree(e, n);
    assert all[k] == CandidateAt(basePath, locale, k);
    assert all[..k + 1] == all[..k] + [all[k]];
  }

  lemma DivModThree(e: nat, n: nat)
    requires n < 3
    ensures (3 * e + n) / 3 == e && (3 * e + n) % 3 == n
  {
  }

  /** What a fetch of one path produced. `Missing` is `FileNotFoundError`,
      `RequestFailed` any `requests.RequestException` (an HTTP error status
      included); `Faulted` is any other failure while reading. */
  datatype Fetch = Missing | RequestFailed(reason: string) | Faulted(reason: string) | Content(text: string)

  /** What a codec made of a text. */
  datatype Decoded<T> = Malformed(reason: string) | Parsed(value: T)

  /** Everything outside the model that loading consults: the fetch and the
      three codecs. The YAML codec yields `None` for a document that loads
      as Python `None`. */
  datatype Source = Source(
    fetch: string -> Fetch,
    json: string -> Decoded<Document>,
    yaml: string -> Decoded<Option<Document>>,
    xml: string -> Decoded<Element>)

  /** `_parse_content`: dispatch on the lower-cased suffix; a codec failure
      becomes a `LocaleFileError` with an empty path, an empty YAML document is
      `{}`, and any other suffix is an unsupported format. */
  function ParseContent(content: string, fileExt: string, src: Source): (r: Result<Document, EngineError>)
    ensures r.Err? ==> r.error.LocaleFileError? && r.error.filePath == ""
    ensures fileExt == ".json" ==> (r.Ok? <==> src.json(content).Parsed?)
    ensures fileExt == ".xml" ==> (r.Ok? <==> src.xml(content).Parsed?)
    ensures fileExt == ".xml" && r.Ok? ==> r.value == XmlDocument(src.xml(content).value)
    ensures (fileExt == ".yaml" || fileExt == ".yml") && src.yaml(content) == Parsed(None) ==> r == Ok(map[])
    ensures fileExt !in {".json", ".yaml", ".yml", ".xml"} ==>
              r == Err(LocaleFileError("", "Unsupported file format: " + fileExt))
  {
    if fileExt == ".json" then
      (match src.json(content)
       case Malformed(reason) => Err(NewLocaleFileError("", Some("Invalid JSON: " + reason)))
       case Parsed(d) => Ok(d))
    else if fileExt == ".yaml" || fileExt == ".yml" then
      (match src.yaml(content)
       case Malformed(reason) => Err(NewLocaleFileError("", Some("Invalid YAML: " + reason)))
       case Parsed(None) => Ok(map[])
       case Parsed(Some(d)) => Ok(d))
    else if fileExt == ".xml" then
      (match src.xml(content)
       case Malformed(reason) => Err(NewLocaleFileError("", Some("Invalid XML: " + reason)))
       case Parsed(root) => Ok(XmlDocument(root)))
    else Err(NewLocaleFileError("", Some("Unsupported file format: " + fileExt)))
  }

  /** pathlib's `name`: the text after the last '/' (a candidate path never
      ends in '/', so this is its final component). */
  function BaseName(path: string): (r: string)
    ensures '/' !in r
    ensures r == "" <==> path == "" || path[|path| - 1] == '/'
  {
    if path == "" || path[|path| - 1] == '/' then ""
    else BaseName(path[..|path| - 1]) + [path[|path| - 1]]
  }

  /** The final component of `s + t` lies in `t` whenever `t` holds a '/'. */
  lemma {:induction false} BaseNameConcat(s: string, t: string)
    ensures BaseName(s + t) == if '/' in t then BaseName(t) else BaseName(s) + t
    decreases |t|
  {
    if t == [] {
      assert s + t == s;
    } else {
      var u := t[..|t| - 1];
      assert (s + t)[..|s + t| - 1] == s + u;
      assert t == u + [t[|t| - 1]];
      if t[|t| - 1] != '/' {
        BaseNameConcat(s, u);
      }
    }
  }

  /** Whatever follows a '/' is the final component's only source. */
  lemma BaseNameAfterSlash(dir: string, stem: string)
    requires dir != "" && dir[|dir| - 1] == '/'
    ensures BaseName(dir + stem) == BaseName(stem)
  {
    BaseNameConcat(dir, stem);
    BaseNameConcat([], stem);
    assert [] + stem == stem;
  }

  /** `PurePath.suffix`: the final component from its last '.', or "" when
      it has no '.' or the last one is its first or its last character. */
  function Suffix(path: string): (r: string)
    ensures r == "" || (|r| >= 2 && r[0] == '.' && '.' !in r[1..] && '/' !in r)
  {
    var name := BaseName(path);
    var i := RFind(name, '.');
    if 0 < i < |name| - 1 then name[i..] else ""
  }

  /** Appending `.x`, for a word `x` without '.' or '/', extends the final
      component, and its dot becomes the component's last one. */
  lemma DottedName(p: string, x: string)
    requires '.' !in x && '/' !in x
    ensures BaseName(p + ("." + x)) == BaseName(p) + ("." + x)
    ensures RFind(BaseName(p) + ("." + x), '.') == |BaseName(p)|
  {
    var dx := "." + x;
    assert dx == ['.'] + x;
    assert '/' !in dx;
    BaseNameConcat(p, dx);
    RFindConcat(['.'], x, '.');
    assert '.' in dx;
    RFindConcat(BaseName(p), dx, '.');
  }

  /** A path ending in `.x`, for a non-empty word `x` without '.' or '/',
      has suffix `.x`, unless nothing of its final component precedes that
      dot. */
  lemma SuffixOfDotted(p: string, x: string)
    requires x != "" && '.' !in x && '/' !in x
    ensures Suffix(p + ("." + x)) == if BaseName(p) == "" then "" else "." + x
  {
    var b := BaseName(p);
    DottedName(p, x);
    var name := b + ("." + x);
    assert |name| - 1 == |b| + |x|;
    assert name[|b|..] == "." + x;
  }

  /** A flat candidate's suffix is its extension, or "" when the locale is
      empty or ends in '/'. */
  lemma FlatSuffix(basePath: string, locale: string, e: Ext)
    ensures Suffix(FlatCandidate(basePath, locale, e).path)
            == if BaseName(locale) == "" then "" else "." + ExtName(e)
  {
    var dir := basePath + "/locales/";
    assert FlatCandidate(basePath, locale, e).path == (dir + locale) + ("." + ExtName(e));
    SuffixOfDotted(dir + locale, ExtName(e));
    BaseNameAfterSlash(dir, locale);
  }

  /** A nested candidate's suffix is its extension, or "" when the file
      name is empty or ends in '/'. */
  lemma NestedSuffix(basePath: string, locale: string, name: string, e: Ext)
    ensures Suffix(NestedCandidate(basePath, locale, name, e).path)
            == if BaseName(name) == "" then "" else "." + ExtName(e)
  {
    var dir := basePath + "/locales/" + locale + "/";
    assert NestedCandidate(basePath, locale, name, e).path == (dir + name) + ("." + ExtName(e));
    SuffixOfDotted(dir + name, ExtName(e));
    BaseNameAfterSlash(dir, name);
  }

  /** Whether nothing of the file name precedes the dot of the `i`-th
      candidate: the flat ones and the `{locale}.{ext}` ones inside the
      directory, for a locale that is "" or ends in '/'. */
  predicate EmptyStem(locale: string, i: nat)
  {
    (i < 4 || (i - 4) % 3 == 0) && (locale == "" || locale[|locale| - 1] == '/')
  }

  /** The `i`-th candidate's suffix, as pathlib reads it. */
  lemma CandidateSuffixAt(basePath: string, locale: string, i: nat)
    requires i < 16
    ensures var c := CandidateAt(basePath, locale, i);
            Suffix(c.path) == if EmptyStem(locale, i) then "" else "." + ExtName(c.ext)
  {
    if i < 4 {
      assert CandidateAt(basePath, locale, i) == FlatCandidate(basePath, locale, Extensions[i]);
      FlatSuffix(basePath, locale, Extensions[i]);
    } else {
      var n := (i - 4) % 3;
      var name := FileNames(locale)[n];
      assert CandidateAt(basePath, locale, i) == NestedCandidate(basePath, locale, name, Extensions[(i - 4) / 3]);
      NestedSuffix(basePath, locale, name, Extensions[(i - 4) / 3]);
      if n == 1 {
        assert name == "locale";
      } else if n == 2 {
        assert name == "translations";
      }
    }
  }

  /** pathlib reads every candidate's written extension back as its suffix,
      except where nothing of the file name precedes the dot: for a locale
      that is "" or ends in '/', the four flat candidates and the four
      `{locale}.{ext}` ones inside the directory have suffix "". */
  lemma CandidateSuffixes(basePath: string, locale: string)
    ensures var cs := Candidates(basePath, locale);
            forall i :: 0 <= i < 16 ==>
              Suffix(cs[i].path) == if EmptyStem(locale, i) then "" else "." + ExtName(cs[i].ext)
  {
    var cs := Candidates(basePath, locale);
    forall i | 0 <= i < 16
      ensures Suffix(cs[i].path) == if EmptyStem(locale, i) then "" else "." + ExtName(cs[i].ext)
    {
      CandidateSuffixAt(basePath, locale, i);
    }
  }

  /** A written extension is already lower case and names a supported format. */
  lemma ExtSuffixSupported(e: Ext)
    ensures Lower("." + ExtName(e)) == "." + ExtName(e)
    ensures "." + ExtName(e) in {".json", ".yaml", ".yml", ".xml"}
  {
    LowerFixed("." + ExtName(e));
    match e
    case Json => assert "." + ExtName(e) == ".json";
    case Yaml => assert "." + ExtName(e) == ".yaml";
    case Yml => assert "." + ExtName(e) == ".yml";
    case Xml => assert "." + ExtName(e) == ".xml";
  }

  /** The outcome of trying one candidate. */
  datatype Attempt = Skip | Hit(doc: Document) | Broken(reason: string)

  /** `_load_local_file` or `_load_remote_file` inside the search's `try`:
      a missing file or failed request is skipped, anything else that goes
      wrong breaks the search. The format is read from the path's suffix. */
  function Try(c: Candidate, src: Source): Attempt
  {
    match src.fetch(c.path)
    case Missing => Skip
    case RequestFailed(_) => Skip
    case Faulted(reason) => Broken(reason)
    case Content(text) =>
      match ParseContent(text, Lower(Suffix(c.path)), src)
      case Ok(d) => Hit(d)
      case Err(e) => Broken(e.message)
  }

  function NotFoundMessage(locale: string): string
  {
    "No locale file found for '" + locale + "' in any supported format"
  }

  /** `_load_from_source` over a candidate list: the first candidate that is
      not skipped decides; a broken one raises `LocaleFileError` naming it. */
  function Search(cs: seq<Candidate>, locale: string, src: Source): (r: Result<Document, EngineError>)
    ensures r.Err? ==> r.error.LocaleNotFoundError? || r.error.LocaleFileError?
    ensures r.Err? && r.error.LocaleNotFoundError? ==> r.error.locale == locale
    decreases |cs|
  {
    if cs == [] then Err(NewLocaleNotFoundError(locale, Some(NotFoundMessage(locale))))
    else match Try(cs[0], src)
      case Skip => Search(cs[1..], locale, src)
      case Hit(d) => Ok(d)
      case Broken(reason) => Err(NewLocaleFileError(cs[0].path, Some("Error parsing file: " + reason)))
  }

  /** The first candidate that is not skipped decides the search; later
      candidates are never tried. */
  lemma {:induction false} SearchFirstHit(cs: seq<Candidate>, locale: string, src: Source, i: nat)
    requires i < |cs| && !Try(cs[i], src).Skip?
    requires forall j :: 0 <= j < i ==> Try(cs[j], src).Skip?
    ensures Try(cs[i], src).Hit? ==> Search(cs, locale, src) == Ok(Try(cs[i], src).doc)
    ensures Try(cs[i], src).Broken? ==>
              Search(cs, locale, src) == Err(LocaleFileError(cs[i].path, "Error parsing file: " + Try(cs[i], src).reason))
  {
    if i > 0 {
      assert Try(cs[0], src).Skip?;
      assert Search(cs, locale, src) == Search(cs[1..], locale, src);
      assert cs[1..][i - 1] == cs[i];
      SearchFirstHit(cs[1..], locale, src, i - 1);
    }
  }

  /** The search fails with `LocaleNotFoundError` exactly when every
      candidate is skipped. */
  lemma {:induction false} SearchNotFound(cs: seq<Candidate>, locale: string, src: Source)
    ensures (forall j :: 0 <= j < |cs| ==> Try(cs[j], src).Skip?)
            <==> Search(cs, locale, src) == Err(LocaleNotFoundError(locale, NotFoundMessage(locale)))
    decreases |cs|
  {
    if cs != [] {
      SearchNotFound(cs[1..], locale, src);
      if Try(cs[0], src).Skip? {
        assert forall j :: 1 <= j < |cs| ==> cs[j] == cs[1..][j - 1];
      }
    }
  }

  /** A candidate that exists and has an empty suffix is not skipped: its
      content is rejected as an unsupported format. */
  lemma UnsupportedSuffix(c: Candidate, src: Source)
    requires src.fetch(c.path).Content? && Suffix(c.path) == ""
    ensures Try(c, src) == Broken("Unsupported file format: ")
  {
    assert Lower("") == "";
  }

  /** For a locale that is "" or ends in '/', an existing first candidate
      `locales/{locale}.json` stops the search with a `LocaleFileError`
      naming it, however well-formed its content. */
  lemma EmptyNameUnsupported(basePath: string, locale: string, src: Source)
    requires locale == "" || locale[|locale| - 1] == '/'
    requires src.fetch(Candidates(basePath, locale)[0].path).Content?
    ensures Search(Candidates(basePath, locale), locale, src)
            == Err(LocaleFileError(Candidates(basePath, locale)[0].path,
                                   "Error parsing file: " + "Unsupported file format: "))
  {
    var cs := Candidates(basePath, locale);
    assert cs[0] == CandidateAt(basePath, locale, 0);
    CandidateSuffixAt(basePath, locale, 0);
    UnsupportedSuffix(cs[0], src);
    SearchFirstHit(cs, locale, src, 0);
  }

  /** The cache as two maps: documents and the time each was stored. */
  datatype CacheState = CacheState(docs: map<string, Document>, stamps: map<string, int>)

  /** What a `FileManager` is configured with. */
  datatype Settings = Settings(basePath: string, cacheTimeout: int)

  /** `_is_cache_valid`: present in both maps and younger than the timeout. */
  predicate Fresh(st: CacheState, timeout: int, locale: string, now: int)
  {
    locale in st.docs && locale in st.stamps && now - st.stamps[locale] < timeout
  }

  /** Both maps have the same keys. */
  predicate Aligned(st: CacheState)
  {
    st.docs.Keys == st.stamps.Keys
  }

  datatype Loaded = Loaded(result: Result<Document, EngineError>, cache: CacheState)

  /** `load_locale_file(locale, force_reload)` at time `now`: a fresh entry
      answers without the source; otherwise the search runs, and only a
      success is stored, stamped `now`. */
  function Load(st: CacheState, cfg: Settings, src: Source, locale: string, force: bool, now: int): Loaded
  {
    if !force && Fresh(st, cfg.cacheTimeout, locale, now) then Loaded(Ok(st.docs[locale]), st)
    else
      match Search(Candidates(cfg.basePath, locale), locale, src)
      case Ok(d) => Loaded(Ok(d), CacheState(st.docs[locale := d], st.stamps[locale := now]))
      case Err(e) => Loaded(Err(e), st)
  }

  /** A cache hit happens exactly for a non-forced load of a fresh entry;
      it returns the stored document, changes nothing, and the source it was
      given makes no difference. */
  lemma LoadHit(st: CacheState, cfg: Settings, src: Source, other: Source, locale: string, force: bool, now: int)
    requires !force && Fresh(st, cfg.cacheTimeout, locale, now)
    ensures Load(st, cfg, src, locale, force, now) == Loaded(Ok(st.docs[locale]), st)
    ensures Load(st, cfg, src, locale, force, now) == Load(st, cfg, other, locale, force, now)
  {
  }

  /** Otherwise the source is searched: a success is stored with stamp `now`
      and every other entry is left as it was; a failure leaves the cache
      untouched. */
  lemma LoadMiss(st: CacheState, cfg: Settings, src: Source, locale: string, force: bool, now: int)
    requires force || !Fresh(st, cfg.cacheTimeout, locale, now)
    ensures var l := Load(st, cfg, src, locale, force, now);
            && l.result == Search(Candidates(cfg.basePath, locale), locale, src)
            && (l.result.Ok? ==>
                  l.cache.docs.Keys == st.docs.Keys + {locale}
                  && l.cache.docs[locale] == l.result.value && l.cache.stamps[locale] == now
                  && (forall k :: k in st.docs && k != locale ==> l.cache.docs[k] == st.docs[k])
                  && (forall k :: k in st.stamps && k != locale ==> l.cache.stamps[k] == st.stamps[k]))
            && (l.result.Err? ==> l.cache == st)
  {
  }

  /** A timeout of zero or less never hits, since stamps lie in the past. */
  lemma NoHitWithoutTimeout(st: CacheState, cfg: Settings, src: Source, locale: string, now: int)
    requires cfg.cacheTimeout <= 0
    requires locale in st.stamps ==> st.stamps[locale] <= now
    ensures !Fresh(st, cfg.cacheTimeout, locale, now)
    ensures Load(st, cfg, src, locale, false, now).result == Search(Candidates(cfg.basePath, locale), locale, src)
  {
  }

  /** An entry stored at `now` stays fresh exactly until `now + timeout`. */
  lemma FreshWindow(st: CacheState, cfg: Settings, src: Source, locale: string, force: bool, now: int, later: int)
    requires Load(st, cfg, src, locale, force, now).result.Ok?
    requires force || !Fresh(st, cfg.cacheTimeout, locale, now)
    ensures Fresh(Load(st, cfg, src, locale, force, now).cache, cfg.cacheTimeout, locale, later)
            <==> later - now < cfg.cacheTimeout
  {
  }

  /** Loading keeps the two maps' keys equal. */
  lemma LoadAligned(st: CacheState, cfg: Settings, src: Source, locale: string, force: bool, now: int)
    requires Aligned(st)
    ensures Aligned(Load(st, cfg, src, locale, force, now).cache)
  {
  }

  /** After a non-forced load at time `now`, another non-forced load of any
      locale at the same `now` gives the same result as it would have
      before: a miss stores what the source gives, and the second load
      either reads that back or searches the same source again. */
  lemma LoadStable(st: CacheState, cfg: Settings, src: Source, first: string, second: string, now: int)
    ensures var mid := Load(st, cfg, src, first, false, now).cache;
            Load(mid, cfg, src, second, false, now).result == Load(st, cfg, src, second, false, now).result
  {
    var l1 := Load(st, cfg, src, first, false, now);
    if second == first && !Fresh(st, cfg.cacheTimeout, first, now) && l1.result.Ok? && cfg.cacheTimeout > 0 {
      assert Fresh(l1.cache, cfg.cacheTimeout, second, now);
    }
  }

  /** `clear_cache(locale)`: a truthy locale is removed from both maps;
      `None` or `""` empties both. */
  function Cleared(st: CacheState, locale: Option<string>): (r: CacheState)
    ensures locale.Some? && locale.value != "" ==>
              && r.docs.Keys == st.docs.Keys - {locale.value}
              && r.stamps.Keys == st.stamps.Keys - {locale.value}
              && (forall k :: k in r.docs ==> r.docs[k] == st.docs[k])
              && (forall k :: k in r.stamps ==> r.stamps[k] == st.stamps[k])
    ensures locale.None? || locale.value == "" ==> r.docs == map[] && r.stamps == map[]
    ensures Aligned(st) ==> Aligned(r)
  {
    if locale.Some? && locale.value != "" then
      CacheState(st.docs - {locale.value}, st.stamps - {locale.value})
    else CacheState(map[], map[])
  }

  /** A cleared locale is no longer fresh, so the next load searches again. */
  lemma ClearedNotFresh(st: CacheState, locale: string, timeout: int, now: int)
    requires locale != ""
    ensures !Fresh(Cleared(st, Some(locale)), timeout, locale, now)
  {
    assert locale !in Cleared(st, Some(locale)).docs;
  }

  /** The file manager: its configuration and its two cache maps. */
  class FileManager {

    const basePath: string
    const cacheTimeout: int
    var cache: map<string, Document>
    var cacheTimestamps: map<string, int>

    function State(): CacheState
      reads this
    {
      CacheState(cache, cacheTimestamps)
    }

    function Config(): Settings
    {
      Settings(basePath, cacheTimeout)
    }

    /** `FileManager(base_path, cache_timeout)`: an empty cache. */
    constructor (basePath: string, cacheTimeout: int)
      ensures this.basePath == basePath && this.cacheTimeout == cacheTimeout
      ensures cache == map[] && cacheTimestamps == map[]
    {
      this.basePath := basePath;
      this.cacheTimeout := cacheTimeout;
      cache := map[];
      cacheTimestamps := map[];
    }

    /** `_is_cache_valid(locale)` at time `now`. */
    predicate IsCacheValid(locale: string, now: int)
      reads this
    {
      Fresh(State(), cacheTimeout, locale, now)
    }

    /** `load_locale_file(locale, force_reload)` at time `now`. */
    method LoadLocaleFile(locale: string, forceReload: bool, now: int, src: Source)
      returns (r: Result<Document, EngineError>)
      modifies this
      ensures Loaded(r, State()) == Load(old(State()), Config(), src, locale, forceReload, now)
    {
      if !forceReload && IsCacheValid(locale, now) {
        return Ok(cache[locale]);
      }
      r := LoadFromSource(locale, src);
      if r.Ok? {
        cache := cache[locale := r.value];
        cacheTimestamps := cacheTimestamps[locale := now];
      }
    }

    /** `_load_from_source(locale)`: tries the candidates in order. */
    method LoadFromSource(locale: string, src: Source) returns (r: Result<Document, EngineError>)
      ensures r == Search(Candidates(basePath, locale), locale, src)
    {
      var filePaths := PossibleFilePaths(locale);
      var i := 0;
      while i < |filePaths|
        invariant 0 <= i <= |filePaths|
        invariant Search(filePaths, locale, src) == Search(filePaths[i..], locale, src)
      {
        var candidate := filePaths[i];
        var fetched := src.fetch(candidate.path);
        if fetched.Content? {
          var parsed := ParseContent(fetched.text, Lower(Suffix(candidate.path)), src);
          if parsed.Ok? {
            return Ok(parsed.value);
          }
          return Err(NewLocaleFileError(candidate.path, Some("Error parsing file: " + parsed.error.message)));
        } else if fetched.Faulted? {
          return Err(NewLocaleFileError(candidate.path, Some("Error parsing file: " + fetched.reason)));
        }
        assert filePaths[i..][1..] == filePaths[i + 1..];
        i := i + 1;
      }
      return Err(NewLocaleNotFoundError(locale, Some(NotFoundMessage(locale))));
    }

    /** `_get_possible_file_paths(locale)`, built by nested loops. */
    method PossibleFilePaths(locale: string) returns (paths: seq<Candidate>)
      ensures paths == Candidates(basePath, locale)
    {
      paths := [];
      for e := 0 to 4
        invariant paths == Candidates(basePath, locale)[..e]
      {
        FlatAt(basePath, locale, e, paths);
        paths := paths + [FlatCandidate(basePath, locale, Extensions[e])];
      }
      for e := 0 to 4
        invariant paths == Candidates(basePath, locale)[..4 + 3 * e]
      {
        var names := FileNames(locale);
        for n := 0 to 3
          invariant paths == Candidates(basePath, locale)[..4 + 3 * e + n]
        {
          NestedAt(basePath, locale, e, n, paths);
          paths := paths + [NestedCandidate(basePath, locale, names[n], Extensions[e])];
        }
      }
    }

    /** `clear_cache(locale)`. */
    method ClearCache(locale: Option<string>)
      modifies this
      ensures State() == Cleared(old(State()), locale)
    {
      if locale.Some? && locale.value != "" {
        cache := cache - {locale.value};
        cacheTimestamps := cacheTimestamps - {locale.value};
      } else {
        cache := map[];
        cacheTimestamps := map[];
      }
    }

    /** `get_cached_locales()`: every stored locale once, fresh or not. */
    method GetCachedLocales() returns (locales: seq<string>)
      ensures forall l :: l in locales <==> l in cache
      ensures forall i, j :: 0 <= i < j < |locales| ==> locales[i] != locales[j]
    {
      locales := [];
      var rest := cache.Keys;
      while rest != {}
        invariant rest <= cache.Keys
        invariant forall l :: l in cache ==> (l in locales <==> l !in rest)
        invariant forall l :: l in locales ==> l in cache
        invariant forall i, j :: 0 <= i < j < |locales| ==> locales[i] != locales[j]
        decreases rest
      {
        var l :| l in rest;
        locales := locales + [l];
        rest := rest - {l};
      }
    }

    /** `is_locale_cached(locale)` at time `now`: present and fresh. */
    method IsLocaleCached(locale: string, now: int) returns (cached: bool)
      ensures cached <==> locale in cache && locale in cacheTimestamps && now - cacheTimestamps[locale] < cacheTimeout
    {
      cached := IsCacheValid(locale, now);
    }

    /** `validate_locale_file(locale)`: a forced reload; true iff it succeeds. */
    method ValidateLocaleFile(locale: string, now: int, src: Source) returns (valid: bool)
      modifies this
      ensures var l := Load(old(State()), Config(), src, locale, true, now);
              valid == l.result.Ok? && State() == l.cache
    {
      var r := LoadLocaleFile(locale, true, now, src);
      valid := r.Ok?;
    }
  }
}
