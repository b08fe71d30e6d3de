/** The engine (localengine/core/engine.py): the current locale, its
    fallback chain, change callbacks, and key lookup through the file
    manager's cache. Each operation is specified by a function over an
    `EngineState` value; the `LocalEngine` class is proved against them. */
module Engine {

  import opened Wrappers
  import opened Text
  import opened Exceptions
  import opened Documents
  import opened LocaleDetector
  import opened FileManagement

  /** A registered change callback: its identity, and whether calling it
      raises. */
  datatype Callback = Callback(id: nat, raises: bool)

  /** One call `callback(old_locale, new_locale)`. */
  datatype Notice = Notice(callback: Callback, oldLocale: Option<string>, newLocale: string)

  /** What the engine is configured with. */
  datatype EngineConfig = EngineConfig(defaultLocale: string, files: Settings)

  /** The engine's fields, the calls made to its callbacks so far, and the
      file manager's cache. */
  datatype EngineState = EngineState(
    current: Option<string>,
    fallbacks: seq<string>,
    callbacks: seq<Callback>,
    log: seq<Notice>,
    cache: CacheState)

  /** A value read together with the cache it left behind. */
  datatype Read<T> = Read(value: T, cache: CacheState)

  /** The result of an operation together with the state it leaves. */
  datatype Step = Step(state: EngineState, outcome: Outcome<EngineError>)

  /** `get_current_locale()`: `_current_locale or default_locale`. */
  function CurrentLocale(s: EngineState, cfg: EngineConfig): string
  {
    if s.current.None? || s.current.value == "" then cfg.defaultLocale else s.current.value
  }

  /** `_get_fallback_locales(locale)`: the detector's list, with the default
      locale appended when it is missing and differs from `locale`. */
  function EngineFallbacks(defaultLocale: string, locale: string): seq<string>
  {
    AppendMissing(FallbackLocales(locale), [defaultLocale], locale)
  }

  /** `_notify_locale_change(old, new)`: every callback is called once, in
      registration order; one that raises is passed over silently. */
  function Notices(callbacks: seq<Callback>, oldLocale: Option<string>, newLocale: string): (ns: seq<Notice>)
    ensures |ns| == |callbacks|
    ensures forall i :: 0 <= i < |ns| ==> ns[i] == Notice(callbacks[i], oldLocale, newLocale)
  {
    seq(|callbacks|, i requires 0 <= i < |callbacks| => Notice(callbacks[i], oldLocale, newLocale))
  }

  /** Making `locale` current: its fallback chain is stored, and callbacks
      are notified when it differs from the previous locale. */
  function Commit(s: EngineState, cfg: EngineConfig, locale: string): EngineState
  {
    s.(current := Some(locale),
       fallbacks := EngineFallbacks(cfg.defaultLocale, locale),
       log := s.log + if s.current != Some(locale) then Notices(s.callbacks, s.current, locale) else [])
  }

  /** `set_locale(locale)` at time `now`. */
  function SetLocaleF(s: EngineState, cfg: EngineConfig, src: Source, locale: string, now: int): Step
  {
    var l := Load(s.cache, cfg.files, src, locale, false, now);
    match l.result
    case Ok(_) => Step(Commit(s.(cache := l.cache), cfg, locale), Pass)
    case Err(e) =>
      if e.LocaleNotFoundError? then TryFallbacks(s, cfg, src, locale, EngineFallbacks(cfg.defaultLocale, locale), now)
      else Step(s, Fail(e))
  }

  /** The fallback loop of `set_locale`: the first fallback that loads is
      committed; `LocaleNotFoundError` moves on, any other error escapes;
      when none loads, `LocaleNotFoundError(requested)`. */
  function TryFallbacks(s: EngineState, cfg: EngineConfig, src: Source, requested: string, fallbacks: seq<string>, now: int): Step
    decreases |fallbacks|
  {
    if fallbacks == [] then Step(s, Fail(NewLocaleNotFoundError(requested, None)))
    else
      var l := Load(s.cache, cfg.files, src, fallbacks[0], false, now);
      match l.result
      case Ok(_) => Step(Commit(s.(cache := l.cache), cfg, fallbacks[0]), Pass)
      case Err(e) =>
        if e.LocaleNotFoundError? then TryFallbacks(s.(cache := l.cache), cfg, src, requested, fallbacks[1..], now)
        else Step(s, Fail(e))
  }

  /** What one locale says about a key. */
  datatype Probe = Found(text: string) | Absent | Failed(error: EngineError)

  /** Looking a key up in one locale: a missing locale or a `None` value is
      a miss; any other value is found and rendered with `str`; a file
      error escapes. */
  function ProbeAt(cache: CacheState, cfg: EngineConfig, src: Source, locale: string, key: string, now: int): (r: Read<Probe>)
    ensures r.value.Failed? ==> r.value.error.LocaleFileError?
  {
    var l := Load(cache, cfg.files, src, locale, false, now);
    match l.result
    case Err(e) => Read(if e.LocaleNotFoundError? then Absent else Failed(e), l.cache)
    case Ok(d) =>
      var v := NestedValue(d, key);
      Read(if v.Null? then Absent else Found(Str(v)), l.cache)
  }

  /** Tries the locales in order until one does not miss. */
  function Walk(cache: CacheState, cfg: EngineConfig, src: Source, locales: seq<string>, key: string, now: int): Read<Probe>
    decreases |locales|
  {
    if locales == [] then Read(Absent, cache)
    else
      var p := ProbeAt(cache, cfg, src, locales[0], key, now);
      if p.value.Absent? then Walk(p.cache, cfg, src, locales[1..], key, now) else p
  }

  /** Whether a non-empty locale argument was given. */
  predicate Overrides(locale: Option<string>)
  {
    locale.Some? && locale.value != ""
  }

  /** `locale or self.get_current_locale()`. */
  function TargetLocale(s: EngineState, cfg: EngineConfig, locale: Option<string>): string
  {
    if Overrides(locale) then locale.value else CurrentLocale(s, cfg)
  }

  /** The locales `get_text` consults: only the target when one is given,
      else the current locale followed by the stored fallbacks. */
  function LookupOrder(s: EngineState, cfg: EngineConfig, locale: Option<string>): seq<string>
  {
    if Overrides(locale) then [locale.value] else [CurrentLocale(s, cfg)] + s.fallbacks
  }

  /** The end of `get_text`: a found text, an escaping error, or, after a
      miss everywhere, the default if one is given and else
      `TranslationKeyError(key, target)`. */
  function Answer(p: Probe, key: string, default: Option<string>, target: string): Result<string, EngineError>
  {
    match p
    case Found(t) => Ok(t)
    case Failed(e) => Err(e)
    case Absent =>
      if default.Some? then Ok(default.value) else Err(NewTranslationKeyError(key, Some(target), None))
  }

  /** `get_text(key, default, locale)` at time `now`. */
  function GetTextF(s: EngineState, cfg: EngineConfig, src: Source, key: string,
                    default: Option<string>, locale: Option<string>, now: int): Read<Result<string, EngineError>>
  {
    var w := Walk(s.cache, cfg, src, LookupOrder(s, cfg, locale), key, now);
    Read(Answer(w.value, key, default, TargetLocale(s, cfg, locale)), w.cache)
  }

  /** `has_key(key, locale)`: `get_text` without a default, with
      `TranslationKeyError` turned into `False`. */
  function HasKeyF(s: EngineState, cfg: EngineConfig, src: Source, key: string, locale: Option<string>, now: int): Read<Result<bool, EngineError>>
  {
    var r := GetTextF(s, cfg, src, key, None, locale, now);
    Read(match r.value
         case Ok(_) => Ok(true)
         case Err(e) => if e.TranslationKeyError? then Ok(false) else Err(e),
         r.cache)
  }

  /** `get_metadata(locale)`: the `meta` entry of the target locale, `None`
      when the locale is missing or has no `meta`. */
  function MetadataF(s: EngineState, cfg: EngineConfig, src: Source, locale: Option<string>, now: int): Read<Result<Doc, EngineError>>
  {
    var l := Load(s.cache, cfg.files, src, TargetLocale(s, cfg, locale), false, now);
    Read(match l.result
         case Ok(d) => Ok(Get(d, "meta"))
         case Err(e) => if e.LocaleNotFoundError? then Ok(Null) else Err(e),
         l.cache)
  }

  /** The locales `get_available_locales` validates, in order. */
  function LocalesToCheck(s: EngineState, cfg: EngineConfig): seq<string>
  {
    [CurrentLocale(s, cfg), cfg.defaultLocale, "en-US", "en-GB", "es-ES", "fr-FR", "de-DE"]
  }

  /** The validation loop: each check is a forced load, and a locale that
      loads is recorded once. */
  function AvailableFrom(cache: CacheState, files: Settings, src: Source, checks: seq<string>,
                         available: seq<string>, now: int): Read<seq<string>>
    decreases |checks|
  {
    if checks == [] then Read(available, cache)
    else
      var l := Load(cache, files, src, checks[0], true, now);
      var next := if l.result.Ok? && checks[0] !in available then available + [checks[0]] else available;
      AvailableFrom(l.cache, files, src, checks[1..], next, now)
  }

  /** The position of the first `x` in `s`. */
  function FirstIndex<T(==)>(s: seq<T>, x: T): (i: nat)
    requires x in s
    ensures i < |s| && s[i] == x && x !in s[..i]
  {
    if s[0] == x then 0
    else
      var j := FirstIndex(s[1..], x);
      assert s[..1 + j] == [s[0]] + s[1..][..j];
      1 + j
  }

  /** `list.remove(x)` after an `in` check: drops the first occurrence and
      keeps everything else in order. */
  function RemoveFirst(s: seq<Callback>, x: Callback): (r: seq<Callback>)
    ensures x !in s ==> r == s
    ensures x in s ==> |r| == |s| - 1 && multiset(r) == multiset(s) - multiset{x}
    ensures x in s ==> exists i :: 0 <= i < |s| && s[i] == x && x !in s[..i] && r == s[..i] + s[i + 1..]
  {
    if x in s then
      var i := FirstIndex(s, x);
      assert s == s[..i] + [x] + s[i + 1..];
      s[..i] + s[i + 1..]
    else s
  }

  /** The engine. */
  class LocalEngine {

    const defaultLocale: string
    const fileManager: FileManager
    var currentLocale: Option<string>
    var fallbackLocales: seq<string>
    var changeCallbacks: seq<Callback>
    /** The calls made to change callbacks, in order. */
    var notifications: seq<Notice>

    function Config(): EngineConfig
    {
      EngineConfig(defaultLocale, fileManager.Config())
    }

    function State(): EngineState
      reads this, fileManager
    {
      EngineState(currentLocale, fallbackLocales, changeCallbacks, notifications, fileManager.State())
    }

    /** The field set-up of `LocalEngine(...)`, before the first
        `set_locale` (see `NewLocalEngine`). */
    constructor (basePath: string, defaultLocale: string, cacheTimeout: int)
      ensures this.defaultLocale == defaultLocale
      ensures fileManager.basePath == basePath && fileManager.cacheTimeout == cacheTimeout
      ensures State() == EngineState(None, [], [], [], CacheState(map[], map[]))
      ensures fresh(fileManager)
    {
      this.defaultLocale := defaultLocale;
      fileManager := new FileManager(basePath, cacheTimeout);
      currentLocale := None;
      fallbackLocales := [];
      changeCallbacks := [];
      notifications := [];
    }

    /** `set_locale(locale)` at time `now`. */
    method SetLocale(locale: string, now: int, src: Source) returns (outcome: Outcome<EngineError>)
      modifies this, fileManager
      ensures Step(State(), outcome) == SetLocaleF(old(State()), Config(), src, locale, now)
    {
      ghost var s0 := State();
      var oldLocale := currentLocale;
      var loaded := fileManager.LoadLocaleFile(locale, false, now, src);
      if loaded.Ok? {
        SwitchTo(locale);
        return Pass;
      }
      if !loaded.error.LocaleNotFoundError? {
        return Fail(loaded.error);
      }
      var fallbacks := GetFallbackLocales(locale);
      var i := 0;
      while i < |fallbacks|
        invariant 0 <= i <= |fallbacks|
        invariant State() == s0 && currentLocale == oldLocale
        invariant SetLocaleF(s0, Config(), src, locale, now) == TryFallbacks(s0, Config(), src, locale, fallbacks[i..], now)
      {
        var fallback := fallbacks[i];
        var attempt := fileManager.LoadLocaleFile(fallback, false, now, src);
        if attempt.Ok? {
          SwitchTo(fallback);
          return Pass;
        }
        if !attempt.error.LocaleNotFoundError? {
          return Fail(attempt.error);
        }
        assert fallbacks[i..][1..] == fallbacks[i + 1..];
        i := i + 1;
      }
      return Fail(NewLocaleNotFoundError(locale, None));
    }

    /** The success path of `set_locale`, for the requested locale and for
        a fallback alike: switch, rebuild the fallback list, and notify the
        callbacks when the locale changed. */
    method SwitchTo(locale: string)
      modifies this
      ensures State() == Commit(old(State()), Config(), locale)
    {
      var oldLocale := currentLocale;
      currentLocale := Some(locale);
      fallbackLocales := GetFallbackLocales(locale);
      if oldLocale != Some(locale) {
        NotifyLocaleChange(oldLocale, locale);
      }
    }

    /** `get_current_locale()`. */
    method GetCurrentLocale() returns (locale: string)
      ensures currentLocale.Some? && currentLocale.value != "" ==> locale == currentLocale.value
      ensures currentLocale.None? || currentLocale.value == "" ==> locale == defaultLocale
    {
      locale := if currentLocale.Some? && currentLocale.value != "" then currentLocale.value else defaultLocale;
    }

    /** `get_text(key, default, locale)` at time `now`. */
    method GetText(key: string, default: Option<string>, locale: Option<string>, now: int, src: Source)
      returns (r: Result<string, EngineError>)
      modifies fileManager
      ensures Read(r, fileManager.State()) == GetTextF(old(State()), Config(), src, key, default, locale, now)
    {
      ghost var s0 := State();
      ghost var order := LookupOrder(s0, Config(), locale);
      var current := GetCurrentLocale();
      var targetLocale := if locale.Some? && locale.value != "" then locale.value else current;
      var probe := ProbeLocale(targetLocale, key, now, src);
      if !probe.Absent? {
        return Answer(probe, key, default, targetLocale);
      }
      assert Walk(s0.cache, Config(), src, order, key, now)
             == Walk(fileManager.State(), Config(), src, order[1..], key, now);
      if !(locale.Some? && locale.value != "") {
        assert order[1..] == fallbackLocales;
        probe := ProbeFallbacks(fallbackLocales, key, now, src);
        if !probe.Absent? {
          return Answer(probe, key, default, targetLocale);
        }
      }
      if default.Some? {
        return Ok(default.value);
      }
      return Err(NewTranslationKeyError(key, Some(targetLocale), None));
    }

    /** The fallback loop of `get_text`: the first fallback that does not
        miss decides. */
    method ProbeFallbacks(fallbacks: seq<string>, key: string, now: int, src: Source) returns (p: Probe)
      modifies fileManager
      ensures Read(p, fileManager.State()) == Walk(old(fileManager.State()), Config(), src, fallbacks, key, now)
    {
      for i := 0 to |fallbacks|
        invariant Walk(old(fileManager.State()), Config(), src, fallbacks, key, now)
                  == Walk(fileManager.State(), Config(), src, fallbacks[i..], key, now)
      {
        p := ProbeLocale(fallbacks[i], key, now, src);
        if !p.Absent? {
          return;
        }
        assert fallbacks[i..][1..] == fallbacks[i + 1..];
      }
      p := Absent;
    }

    /** One `try` block of `get_text`: load the locale (through the cache)
        and look the key up. */
    method ProbeLocale(locale: string, key: string, now: int, src: Source) returns (p: Probe)
      modifies fileManager
      ensures Read(p, fileManager.State()) == ProbeAt(old(fileManager.State()), Config(), src, locale, key, now)
    {
      var loaded := fileManager.LoadLocaleFile(locale, false, now, src);
      if loaded.Ok? {
        var value := GetNestedValue(loaded.value, key);
        p := if value.Null? then Absent else Found(Str(value));
      } else {
        p := if loaded.error.LocaleNotFoundError? then Absent else Failed(loaded.error);
      }
    }

    /** `_get_nested_value(data, key)`, walking the segments in a loop. */
    method GetNestedValue(data: Document, key: string) returns (value: Doc)
      ensures value == NestedValue(data, key)
    {
      if '.' !in key {
        return Get(data, key);
      }
      var keys := Split(key, '.');
      var current := Node(data);
      for i := 0 to |keys|
        invariant Descend(Node(data), keys) == Descend(current, keys[i..])
      {
        if current.Node? && keys[i] in current.entries {
          current := current.entries[keys[i]];
        } else {
          return Null;
        }
      }
      return current;
    }

    /** `has_key(key, locale)` at time `now`. */
    method HasKey(key: string, locale: Option<string>, now: int, src: Source) returns (r: Result<bool, EngineError>)
      modifies fileManager
      ensures Read(r, fileManager.State()) == HasKeyF(old(State()), Config(), src, key, locale, now)
    {
      var text := GetText(key, None, locale, now, src);
      if text.Ok? {
        return Ok(true);
      } else if text.error.TranslationKeyError? {
        return Ok(false);
      }
      return Err(text.error);
    }

    /** `get_available_locales()` at time `now`. */
    method GetAvailableLocales(now: int, src: Source) returns (available: seq<string>)
      modifies fileManager
      ensures Read(available, fileManager.State())
              == AvailableFrom(old(fileManager.State()), Config().files, src, LocalesToCheck(old(State()), Config()), [], now)
    {
      var current := GetCurrentLocale();
      var localesToCheck := [current, defaultLocale, "en-US", "en-GB", "es-ES", "fr-FR", "de-DE"];
      ghost var goal := AvailableFrom(fileManager.State(), Config().files, src, localesToCheck, [], now);
      available := [];
      for i := 0 to |localesToCheck|
        invariant goal == AvailableFrom(fileManager.State(), Config().files, src, localesToCheck[i..], available, now)
      {
        var locale := localesToCheck[i];
        var valid := fileManager.ValidateLocaleFile(locale, now, src);
        if valid && locale !in available {
          available := available + [locale];
        }
        assert localesToCheck[i..][1..] == localesToCheck[i + 1..];
      }
    }

    /** `reload_locale(locale)` at time `now`: a forced load of the target. */
    method ReloadLocale(locale: Option<string>, now: int, src: Source) returns (outcome: Outcome<EngineError>)
      modifies fileManager
      ensures var l := Load(old(fileManager.State()), Config().files, src, TargetLocale(old(State()), Config(), locale), true, now);
              fileManager.State() == l.cache && (outcome.Pass? <==> l.result.Ok?)
              && (l.result.Err? ==> outcome == Fail(l.result.error))
    {
      var current := GetCurrentLocale();
      var targetLocale := if locale.Some? && locale.value != "" then locale.value else current;
      var r := fileManager.LoadLocaleFile(targetLocale, true, now, src);
      outcome := if r.Ok? then Pass else Fail(r.error);
    }

    /** `clear_cache(locale)`. */
    method ClearCache(locale: Option<string>)
      modifies fileManager
      ensures fileManager.State() == Cleared(old(fileManager.State()), locale)
    {
      fileManager.ClearCache(locale);
    }

    /** `stop()`: the background thread is not modelled; the whole cache is
        cleared. */
    method Stop()
      modifies fileManager
      ensures fileManager.State() == CacheState(map[], map[])
    {
      fileManager.ClearCache(None);
    }

    /** `get_metadata(locale)` at time `now`. */
    method GetMetadata(locale: Option<string>, now: int, src: Source) returns (r: Result<Doc, EngineError>)
      modifies fileManager
      ensures Read(r, fileManager.State()) == MetadataF(old(State()), Config(), src, locale, now)
    {
      var current := GetCurrentLocale();
      var targetLocale := if locale.Some? && locale.value != "" then locale.value else current;
      var loaded := fileManager.LoadLocaleFile(targetLocale, false, now, src);
      if loaded.Ok? {
        return Ok(Get(loaded.value, "meta"));
      } else if loaded.error.LocaleNotFoundError? {
        return Ok(Null);
      }
      return Err(loaded.error);
    }

    /** `add_locale_change_callback(callback)`. */
    method AddLocaleChangeCallback(callback: Callback)
      modifies this
      ensures changeCallbacks == old(changeCallbacks) + [callback]
      ensures currentLocale == old(currentLocale) && fallbackLocales == old(fallbackLocales)
      ensures notifications == old(notifications)
    {
      changeCallbacks := changeCallbacks + [callback];
    }

    /** `remove_locale_change_callback(callback)`. */
    method RemoveLocaleChangeCallback(callback: Callback)
      modifies this
      ensures changeCallbacks == RemoveFirst(old(changeCallbacks), callback)
      ensures currentLocale == old(currentLocale) && fallbackLocales == old(fallbackLocales)
      ensures notifications == old(notifications)
    {
      if callback in changeCallbacks {
        changeCallbacks := RemoveFirst(changeCallbacks, callback);
      }
    }

    /** `_notify_locale_change(old, new)`: calls every callback in turn; an
        exception from one is swallowed and the loop goes on. */
    method NotifyLocaleChange(oldLocale: Option<string>, newLocale: string)
      modifies this
      ensures notifications == old(notifications) + Notices(changeCallbacks, oldLocale, newLocale)
      ensures currentLocale == old(currentLocale) && fallbackLocales == old(fallbackLocales)
      ensures changeCallbacks == old(changeCallbacks)
    {
      var callbacks := changeCallbacks;
      for i := 0 to |callbacks|
        invariant notifications == old(notifications) + Notices(callbacks[..i], oldLocale, newLocale)
        invariant currentLocale == old(currentLocale) && fallbackLocales == old(fallbackLocales)
        invariant changeCallbacks == callbacks
      {
        // The call happens whether or not the callback raises.
        notifications := notifications + [Notice(callbacks[i], oldLocale, newLocale)];
      }
      assert callbacks[..|callbacks|] == callbacks;
    }

    /** `_get_fallback_locales(locale)`. */
    method GetFallbackLocales(locale: string) returns (fallbacks: seq<string>)
      ensures fallbacks == EngineFallbacks(defaultLocale, locale)
    {
      fallbacks := LocaleDetector.GetFallbackLocales(locale);
      assert [defaultLocale][..0] == [];
      assert AppendMissing(fallbacks, [], locale) == fallbacks;
      assert EngineFallbacks(defaultLocale, locale)
             == if defaultLocale != locale && defaultLocale !in fallbacks then fallbacks + [defaultLocale] else fallbacks;
      if defaultLocale !in fallbacks && defaultLocale != locale {
        fallbacks := fallbacks + [defaultLocale];
      }
    }
  }

  /** `LocalEngine(base_path, default_locale, auto_detect, cache_timeout)`:
      the fields, then `set_locale` of the detected locale (passed in, since
      detection reads the operating system) or of the default. An error from
      that call aborts construction. */
  method NewLocalEngine(basePath: string, defaultLocale: string, autoDetect: bool, detected: string,
                        cacheTimeout: int, now: int, src: Source)
    returns (engine: LocalEngine, outcome: Outcome<EngineError>)
    ensures fresh(engine) && fresh(engine.fileManager)
    ensures engine.Config() == EngineConfig(defaultLocale, Settings(basePath, cacheTimeout))
    ensures Step(engine.State(), outcome)
            == SetLocaleF(EngineState(None, [], [], [], CacheState(map[], map[])), engine.Config(), src,
                          if autoDetect then detected else defaultLocale, now)
  {
    engine := new LocalEngine(basePath, defaultLocale, cacheTimeout);
    outcome := engine.SetLocale(if autoDetect then detected else defaultLocale, now, src);
  }
}
