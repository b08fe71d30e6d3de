/** What the engine's operations promise, proved about the functions that
    specify them in the Engine module. */
module EngineProperties {

  import opened Wrappers
  import opened Exceptions
  import opened Documents
  import opened LocaleDetector
  import opened FileManagement
  import opened Engine

  /** The engine's fallback chain never holds the locale itself, holds no tag
      twice, extends the detector's list, and holds the default locale
      exactly when that differs from the locale. */
  lemma EngineFallbacksFacts(defaultLocale: string, locale: string)
    ensures var r := EngineFallbacks(defaultLocale, locale);
            && locale !in r && NoDup(r)
            && FallbackLocales(locale) <= r
            && (defaultLocale in r <==> defaultLocale != locale)
  {
    FallbacksExcludePrimary(locale);
    AppendMissingFacts(FallbackLocales(locale), [defaultLocale], locale);
  }

  /** Loading `locale` at `now` without forcing raises `LocaleNotFoundError`. */
  predicate NotFoundAt(c: CacheState, cfg: EngineConfig, src: Source, locale: string, now: int)
  {
    var r := Load(c, cfg.files, src, locale, false, now).result;
    r.Err? && r.error.LocaleNotFoundError?
  }

  /** The chain invariant: the current locale is not among its own
      fallbacks, and no fallback appears twice. */
  predicate ChainOk(s: EngineState)
  {
    s.current.Some? ==> s.current.value !in s.fallbacks && NoDup(s.fallbacks)
  }

  /** When the requested locale loads it becomes current, its chain is
      stored, and callbacks are told once each iff the locale changed. */
  lemma SetLocaleLoads(s: EngineState, cfg: EngineConfig, src: Source, locale: string, now: int)
    requires Load(s.cache, cfg.files, src, locale, false, now).result.Ok?
    ensures var st := SetLocaleF(s, cfg, src, locale, now);
            && st.outcome == Pass
            && st.state.current == Some(locale)
            && st.state.fallbacks == EngineFallbacks(cfg.defaultLocale, locale)
            && st.state.callbacks == s.callbacks
            && st.state.log == s.log + (if s.current != Some(locale) then Notices(s.callbacks, s.current, locale) else [])
            && st.state.cache == Load(s.cache, cfg.files, src, locale, false, now).cache
  {
  }

  /** A failed load leaves the cache alone, so the fallback loop keeps
      working on the state it started from. */
  lemma {:induction false} TryFallbacksFirst(s: EngineState, cfg: EngineConfig, src: Source, requested: string,
                                             fallbacks: seq<string>, now: int, k: nat)
    requires k < |fallbacks|
    requires forall j :: 0 <= j < k ==> NotFoundAt(s.cache, cfg, src, fallbacks[j], now)
    requires Load(s.cache, cfg.files, src, fallbacks[k], false, now).result.Ok?
    ensures TryFallbacks(s, cfg, src, requested, fallbacks, now)
            == Step(Commit(s.(cache := Load(s.cache, cfg.files, src, fallbacks[k], false, now).cache), cfg, fallbacks[k]), Pass)
  {
    if k > 0 {
      var l := Load(s.cache, cfg.files, src, fallbacks[0], false, now);
      assert NotFoundAt(s.cache, cfg, src, fallbacks[0], now);
      assert s.(cache := l.cache) == s;
      assert TryFallbacks(s, cfg, src, requested, fallbacks, now)
             == TryFallbacks(s, cfg, src, requested, fallbacks[1..], now);
      assert fallbacks[1..][k - 1] == fallbacks[k];
      TryFallbacksFirst(s, cfg, src, requested, fallbacks[1..], now, k - 1);
    }
  }

  /** When the requested locale is not found, the first fallback that loads
      is committed (with its own chain and a notification iff it differs
      from the old locale). */
  lemma SetLocaleFallsBack(s: EngineState, cfg: EngineConfig, src: Source, locale: string, now: int, k: nat)
    requires NotFoundAt(s.cache, cfg, src, locale, now)
    requires var fbs := EngineFallbacks(cfg.defaultLocale, locale);
             && k < |fbs|
             && (forall j :: 0 <= j < k ==> NotFoundAt(s.cache, cfg, src, fbs[j], now))
             && Load(s.cache, cfg.files, src, fbs[k], false, now).result.Ok?
    ensures var fb := EngineFallbacks(cfg.defaultLocale, locale)[k];
            SetLocaleF(s, cfg, src, locale, now)
            == Step(Commit(s.(cache := Load(s.cache, cfg.files, src, fb, false, now).cache), cfg, fb), Pass)
  {
    TryFallbacksFirst(s, cfg, src, locale, EngineFallbacks(cfg.defaultLocale, locale), now, 0 + k);
  }

  /** Loading `locale` at `now` without forcing raises `LocaleFileError`. */
  predicate FileErrorAt(c: CacheState, cfg: EngineConfig, src: Source, locale: string, now: int)
  {
    var r := Load(c, cfg.files, src, locale, false, now).result;
    r.Err? && r.error.LocaleFileError?
  }

  /** A `LocaleFileError` from the requested locale escapes `set_locale`
      at once: no fallback is tried and nothing changes. */
  lemma SetLocaleFileError(s: EngineState, cfg: EngineConfig, src: Source, locale: string, now: int)
    requires FileErrorAt(s.cache, cfg, src, locale, now)
    ensures SetLocaleF(s, cfg, src, locale, now)
            == Step(s, Fail(Load(s.cache, cfg.files, src, locale, false, now).result.error))
  {
  }

  /** A `LocaleFileError` from a fallback reached after misses ends the
      loop with that error: later fallbacks are not tried and nothing
      changes. */
  lemma {:induction false} TryFallbacksFileError(s: EngineState, cfg: EngineConfig, src: Source, requested: string,
                                                 fallbacks: seq<string>, now: int, k: nat)
    requires k < |fallbacks|
    requires forall j :: 0 <= j < k ==> NotFoundAt(s.cache, cfg, src, fallbacks[j], now)
    requires FileErrorAt(s.cache, cfg, src, fallbacks[k], now)
    ensures TryFallbacks(s, cfg, src, requested, fallbacks, now)
            == Step(s, Fail(Load(s.cache, cfg.files, src, fallbacks[k], false, now).result.error))
  {
    if k > 0 {
      var l := Load(s.cache, cfg.files, src, fallbacks[0], false, now);
      assert NotFoundAt(s.cache, cfg, src, fallbacks[0], now);
      assert s.(cache := l.cache) == s;
      TryFallbacksFileError(s, cfg, src, requested, fallbacks[1..], now, k - 1);
    } else {
      assert FileErrorAt(s.cache, cfg, src, fallbacks[0], now);
    }
  }

  /** When the requested locale is missing and the first fallback that does
      not miss raises `LocaleFileError`, `set_locale` raises it and changes
      nothing: the error is never absorbed by a later fallback. */
  lemma SetLocaleFallbackFileError(s: EngineState, cfg: EngineConfig, src: Source, locale: string, now: int, k: nat)
    requires NotFoundAt(s.cache, cfg, src, locale, now)
    requires var fbs := EngineFallbacks(cfg.defaultLocale, locale);
             && k < |fbs|
             && (forall j :: 0 <= j < k ==> NotFoundAt(s.cache, cfg, src, fbs[j], now))
             && FileErrorAt(s.cache, cfg, src, fbs[k], now)
    ensures var fb := EngineFallbacks(cfg.defaultLocale, locale)[k];
            SetLocaleF(s, cfg, src, locale, now)
            == Step(s, Fail(Load(s.cache, cfg.files, src, fb, false, now).result.error))
  {
    TryFallbacksFileError(s, cfg, src, locale, EngineFallbacks(cfg.defaultLocale, locale), now, k);
  }

  /** Everything the fallback loop can end in: a failure changes nothing and
      is a file error or `LocaleNotFoundError(requested)`; a success commits
      one of the fallbacks. */
  lemma {:induction false} TryFallbacksCases(s: EngineState, cfg: EngineConfig, src: Source, requested: string,
                                             fallbacks: seq<string>, now: int)
    ensures var st := TryFallbacks(s, cfg, src, requested, fallbacks, now);
            && (st.outcome.Fail? ==>
                  st.state == s
                  && (st.outcome.error.LocaleFileError? || st.outcome.error == NewLocaleNotFoundError(requested, None)))
            && (st.outcome.Pass? ==>
                  exists k :: 0 <= k < |fallbacks| && st.state == Commit(s.(cache := Load(s.cache, cfg.files, src, fallbacks[k], false, now).cache), cfg, fallbacks[k]))
    decreases |fallbacks|
  {
    if fallbacks != [] {
      var l := Load(s.cache, cfg.files, src, fallbacks[0], false, now);
      if l.result.Err? {
        assert s.(cache := l.cache) == s;
        if l.result.error.LocaleNotFoundError? {
          TryFallbacksCases(s, cfg, src, requested, fallbacks[1..], now);
          var st := TryFallbacks(s, cfg, src, requested, fallbacks, now);
          if st.outcome.Pass? {
            var k :| 0 <= k < |fallbacks[1..]|
                     && st.state == Commit(s.(cache := Load(s.cache, cfg.files, src, fallbacks[1..][k], false, now).cache), cfg, fallbacks[1..][k]);
            assert fallbacks[1..][k] == fallbacks[k + 1];
          }
        }
      } else {
        var st := TryFallbacks(s, cfg, src, requested, fallbacks, now);
        assert st.state == Commit(s.(cache := Load(s.cache, cfg.files, src, fallbacks[0], false, now).cache), cfg, fallbacks[0]);
      }
    }
  }

  /** `set_locale` either commits the requested locale or one of its
      fallbacks, or fails leaving every field, the log and the cache as they
      were (that a `LocaleFileError` escapes at once is `SetLocaleFileError`
      and `SetLocaleFallbackFileError`). */
  lemma SetLocaleOutcomes(s: EngineState, cfg: EngineConfig, src: Source, locale: string, now: int)
    ensures var st := SetLocaleF(s, cfg, src, locale, now);
            && (st.outcome.Fail? ==>
                  st.state == s
                  && (st.outcome.error.LocaleFileError? || st.outcome.error == NewLocaleNotFoundError(locale, None)))
            && (st.outcome.Pass? ==>
                  st.state.current.Some?
                  && (st.state.current.value == locale || st.state.current.value in EngineFallbacks(cfg.defaultLocale, locale))
                  && st.state.fallbacks == EngineFallbacks(cfg.defaultLocale, st.state.current.value)
                  && st.state.callbacks == s.callbacks
                  && st.state.log == s.log + (if s.current != st.state.current
                                              then Notices(s.callbacks, s.current, st.state.current.value) else []))
            && ChainOk(st.state) == (st.outcome.Pass? || ChainOk(s))
  {
    var l := Load(s.cache, cfg.files, src, locale, false, now);
    var fbs := EngineFallbacks(cfg.defaultLocale, locale);
    var st := SetLocaleF(s, cfg, src, locale, now);
    if l.result.Err? && l.result.error.LocaleNotFoundError? {
      TryFallbacksCases(s, cfg, src, locale, fbs, now);
    }
    if st.outcome.Pass? {
      EngineFallbacksFacts(cfg.defaultLocale, st.state.current.value);
    }
  }

  /** When the requested locale and all of its fallbacks are missing,
      `set_locale` raises `LocaleNotFoundError(locale)` with its default
      message and changes nothing. */
  lemma SetLocaleNotFound(s: EngineState, cfg: EngineConfig, src: Source, locale: string, now: int)
    requires NotFoundAt(s.cache, cfg, src, locale, now)
    requires var fbs := EngineFallbacks(cfg.defaultLocale, locale);
             forall j :: 0 <= j < |fbs| ==> NotFoundAt(s.cache, cfg, src, fbs[j], now)
    ensures SetLocaleF(s, cfg, src, locale, now)
            == Step(s, Fail(LocaleNotFoundError(locale, "Locale '" + locale + "' not found")))
  {
    AllMissing(s, cfg, src, locale, EngineFallbacks(cfg.defaultLocale, locale), now);
  }

  lemma {:induction false} AllMissing(s: EngineState, cfg: EngineConfig, src: Source, requested: string,
                                      fallbacks: seq<string>, now: int)
    requires forall j :: 0 <= j < |fallbacks| ==> NotFoundAt(s.cache, cfg, src, fallbacks[j], now)
    ensures TryFallbacks(s, cfg, src, requested, fallbacks, now) == Step(s, Fail(NewLocaleNotFoundError(requested, None)))
    decreases |fallbacks|
  {
    if fallbacks != [] {
      var l := Load(s.cache, cfg.files, src, fallbacks[0], false, now);
      assert NotFoundAt(s.cache, cfg, src, fallbacks[0], now);
      assert s.(cache := l.cache) == s;
      AllMissing(s, cfg, src, requested, fallbacks[1..], now);
    }
  }

  /** Two caches that answer every non-forced load at `now` alike. */
  ghost predicate SameLoads(c1: CacheState, c2: CacheState, cfg: EngineConfig, src: Source, now: int)
  {
    forall l :: Load(c1, cfg.files, src, l, false, now).result == Load(c2, cfg.files, src, l, false, now).result
  }

  /** The reference reading of a lookup: probe every locale against the same
      cache and take the first answer that is not a miss. */
  function Decide(cache: CacheState, cfg: EngineConfig, src: Source, locales: seq<string>, key: string, now: int): (p: Probe)
    ensures p.Failed? ==> p.error.LocaleFileError?
    decreases |locales|
  {
    if locales == [] then Absent
    else
      var p := ProbeAt(cache, cfg, src, locales[0], key, now).value;
      if p.Absent? then Decide(cache, cfg, src, locales[1..], key, now) else p
  }

  lemma {:induction false} DecideCongruent(c1: CacheState, c2: CacheState, cfg: EngineConfig, src: Source,
                                           locales: seq<string>, key: string, now: int)
    requires SameLoads(c1, c2, cfg, src, now)
    ensures Decide(c1, cfg, src, locales, key, now) == Decide(c2, cfg, src, locales, key, now)
    decreases |locales|
  {
    if locales != [] {
      assert Load(c1, cfg.files, src, locales[0], false, now).result == Load(c2, cfg.files, src, locales[0], false, now).result;
      DecideCongruent(c1, c2, cfg, src, locales[1..], key, now);
    }
  }

  /** A load leaves a cache that answers every later load at the same time
      as the old one did. */
  lemma LoadKeepsAnswers(c: CacheState, cfg: EngineConfig, src: Source, locale: string, now: int)
    ensures SameLoads(Load(c, cfg.files, src, locale, false, now).cache, c, cfg, src, now)
  {
    forall l
      ensures Load(Load(c, cfg.files, src, locale, false, now).cache, cfg.files, src, l, false, now).result
              == Load(c, cfg.files, src, l, false, now).result
    {
      LoadStable(c, cfg.files, src, locale, l, now);
    }
  }

  /** Walking the locales through the cache, which each load may update,
      answers as if every locale were probed against the starting cache,
      and leaves a cache that still answers alike. */
  lemma {:induction false} WalkDecides(c: CacheState, cfg: EngineConfig, src: Source, locales: seq<string>, key: string, now: int)
    ensures Walk(c, cfg, src, locales, key, now).value == Decide(c, cfg, src, locales, key, now)
    ensures SameLoads(Walk(c, cfg, src, locales, key, now).cache, c, cfg, src, now)
    decreases |locales|
  {
    if locales != [] {
      var p := ProbeAt(c, cfg, src, locales[0], key, now);
      LoadKeepsAnswers(c, cfg, src, locales[0], now);
      if p.value.Absent? {
        WalkDecides(p.cache, cfg, src, locales[1..], key, now);
        DecideCongruent(p.cache, c, cfg, src, locales[1..], key, now);
      }
    }
  }

  /** The first locale (in lookup order) that does not miss decides. */
  lemma {:induction false} DecideFirst(c: CacheState, cfg: EngineConfig, src: Source, locales: seq<string>, key: string, now: int, i: nat)
    requires i < |locales|
    requires forall j :: 0 <= j < i ==> ProbeAt(c, cfg, src, locales[j], key, now).value.Absent?
    requires !ProbeAt(c, cfg, src, locales[i], key, now).value.Absent?
    ensures Decide(c, cfg, src, locales, key, now) == ProbeAt(c, cfg, src, locales[i], key, now).value
  {
    if i > 0 {
      assert ProbeAt(c, cfg, src, locales[0], key, now).value.Absent?;
      DecideFirst(c, cfg, src, locales[1..], key, now, i - 1);
    }
  }

  /** A miss everywhere is a miss overall. */
  lemma {:induction false} DecideAllMiss(c: CacheState, cfg: EngineConfig, src: Source, locales: seq<string>, key: string, now: int)
    requires forall j :: 0 <= j < |locales| ==> ProbeAt(c, cfg, src, locales[j], key, now).value.Absent?
    ensures Decide(c, cfg, src, locales, key, now) == Absent
    decreases |locales|
  {
    if locales != [] {
      assert ProbeAt(c, cfg, src, locales[0], key, now).value.Absent?;
      DecideAllMiss(c, cfg, src, locales[1..], key, now);
    }
  }

  /** `get_text` answers with the first locale in lookup order whose lookup
      is not a miss: its text, or the file error it raised. */
  lemma GetTextFirstFound(s: EngineState, cfg: EngineConfig, src: Source, key: string,
                          default: Option<string>, locale: Option<string>, now: int, i: nat)
    requires var order := LookupOrder(s, cfg, locale);
             && i < |order|
             && (forall j :: 0 <= j < i ==> ProbeAt(s.cache, cfg, src, order[j], key, now).value.Absent?)
             && !ProbeAt(s.cache, cfg, src, order[i], key, now).value.Absent?
    ensures var p := ProbeAt(s.cache, cfg, src, LookupOrder(s, cfg, locale)[i], key, now).value;
            && (p.Found? ==> GetTextF(s, cfg, src, key, default, locale, now).value == Ok(p.text))
            && (p.Failed? ==> GetTextF(s, cfg, src, key, default, locale, now).value == Err(p.error))
  {
    var order := LookupOrder(s, cfg, locale);
    WalkDecides(s.cache, cfg, src, order, key, now);
    DecideFirst(s.cache, cfg, src, order, key, now, i);
  }

  /** When every locale in lookup order misses, `get_text` returns the
      default if one is given (even `""`), and otherwise raises
      `TranslationKeyError` naming the key and the target locale. */
  lemma GetTextAllMiss(s: EngineState, cfg: EngineConfig, src: Source, key: string,
                       default: Option<string>, locale: Option<string>, now: int)
    requires var order := LookupOrder(s, cfg, locale);
             forall j :: 0 <= j < |order| ==> ProbeAt(s.cache, cfg, src, order[j], key, now).value.Absent?
    ensures var target := TargetLocale(s, cfg, locale);
            GetTextF(s, cfg, src, key, default, locale, now).value
            == (if default.Some? then Ok(default.value) else Err(NewTranslationKeyError(key, Some(target), None)))
  {
    var order := LookupOrder(s, cfg, locale);
    WalkDecides(s.cache, cfg, src, order, key, now);
    DecideAllMiss(s.cache, cfg, src, order, key, now);
  }

  /** With a non-empty locale argument only that locale is consulted: the
      current locale and the stored fallbacks make no difference. */
  lemma GetTextOverride(s: EngineState, cfg: EngineConfig, src: Source, key: string,
                        default: Option<string>, locale: Option<string>, now: int)
    requires Overrides(locale)
    ensures GetTextF(s, cfg, src, key, default, locale, now).value
            == Answer(ProbeAt(s.cache, cfg, src, locale.value, key, now).value, key, default, locale.value)
  {
    WalkDecides(s.cache, cfg, src, [locale.value], key, now);
  }

  /** Asking again at the same time gives the same answer, although the
      first call may have filled the cache. */
  lemma GetTextRepeat(s: EngineState, cfg: EngineConfig, src: Source, key: string,
                      default: Option<string>, locale: Option<string>, now: int)
    ensures var s2 := s.(cache := GetTextF(s, cfg, src, key, default, locale, now).cache);
            GetTextF(s2, cfg, src, key, default, locale, now).value == GetTextF(s, cfg, src, key, default, locale, now).value
  {
    var order := LookupOrder(s, cfg, locale);
    var c2 := GetTextF(s, cfg, src, key, default, locale, now).cache;
    WalkDecides(s.cache, cfg, src, order, key, now);
    WalkDecides(c2, cfg, src, order, key, now);
    DecideCongruent(c2, s.cache, cfg, src, order, key, now);
  }

  /** `has_key` is true exactly when some locale in lookup order holds a
      non-`None` value before any file error, false when every one misses,
      and raises the file error otherwise. */
  lemma HasKeyDecides(s: EngineState, cfg: EngineConfig, src: Source, key: string, locale: Option<string>, now: int)
    ensures var d := Decide(s.cache, cfg, src, LookupOrder(s, cfg, locale), key, now);
            var r := HasKeyF(s, cfg, src, key, locale, now).value;
            && (r == Ok(true) <==> d.Found?)
            && (r == Ok(false) <==> d.Absent?)
            && (d.Failed? ==> r == Err(d.error))
  {
    WalkDecides(s.cache, cfg, src, LookupOrder(s, cfg, locale), key, now);
  }

  /** A forced load ignores the cache: it answers with the search. */
  lemma ForcedLoadSearches(c: CacheState, files: Settings, src: Source, locale: string, now: int)
    ensures Load(c, files, src, locale, true, now).result == Search(Candidates(files.basePath, locale), locale, src)
  {
  }

  /** The available list keeps the locales it started with in front, holds
      each locale at most once, and holds exactly those it started with and
      the checked ones whose files can be found and parsed. */
  lemma {:induction false} AvailableMeans(cache: CacheState, files: Settings, src: Source, checks: seq<string>,
                                          available: seq<string>, now: int)
    requires NoDup(available)
    ensures var r := AvailableFrom(cache, files, src, checks, available, now).value;
            && NoDup(r) && available <= r
            && forall x :: x in r <==> x in available || (x in checks && Search(Candidates(files.basePath, x), x, src).Ok?)
    decreases |checks|
  {
    if checks != [] {
      var l := Load(cache, files, src, checks[0], true, now);
      var next := if l.result.Ok? && checks[0] !in available then available + [checks[0]] else available;
      assert NoDup(next);
      AvailableMeans(l.cache, files, src, checks[1..], next, now);
      assert forall x :: x in checks <==> x == checks[0] || x in checks[1..];
    }
  }

  /** Removing a callback that was just added, and was not there before,
      restores the list. */
  lemma RemoveAfterAdd(callbacks: seq<Callback>, c: Callback)
    requires c !in callbacks
    ensures RemoveFirst(callbacks + [c], c) == callbacks
  {
    var s := callbacks + [c];
    var i := FirstIndex(s, c);
    assert s[|callbacks|] == c;
    assert s[..|callbacks|] == callbacks;
    assert s[..i] == callbacks;
  }

  /** A callback registered twice is removed once, and it is the earlier
      registration that goes: the later one stays at its place in the list
      and is still notified. */
  lemma RemoveOnlyFirst(callbacks: seq<Callback>, c: Callback)
    requires c in callbacks
    ensures c in RemoveFirst(callbacks + [c], c)
    ensures RemoveFirst(callbacks + [c], c) == RemoveFirst(callbacks, c) + [c]
  {
    var s := callbacks + [c];
    var i := FirstIndex(callbacks, c);
    assert s[..i] == callbacks[..i];
    assert s[i + 1..] == callbacks[i + 1..] + [c];
    FirstOccurrence(s, c, i);
    FirstOccurrence(callbacks, c, i);
  }

  /** The occurrence with no `c` before it is the one `RemoveFirst` drops. */
  lemma FirstOccurrence(s: seq<Callback>, c: Callback, i: nat)
    requires i < |s| && s[i] == c && c !in s[..i]
    ensures RemoveFirst(s, c) == s[..i] + s[i + 1..]
  {
    var j :| 0 <= j < |s| && s[j] == c && c !in s[..j] && RemoveFirst(s, c) == s[..j] + s[j + 1..];
    assert forall k :: 0 <= k < i ==> s[..i][k] == s[k];
    assert forall k :: 0 <= k < j ==> s[..j][k] == s[k];
    assert j == i;
  }
}
