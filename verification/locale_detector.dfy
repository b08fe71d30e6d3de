/** Locale tag normalisation and the per-language fallback list
    (localengine/core/locale_detector.py). Reading the operating system's
    locale is not part of this model; only the two pure transformations are. */
module LocaleDetector {

  import opened Wrappers
  import opened Text

  /** The country assumed for a bare language tag; `US` when unknown. */
  function CountryFor(lang: string): string
  {
    if lang == "en" then "US"
    else if lang == "es" then "ES"
    else if lang == "fr" then "FR"
    else if lang == "de" then "DE"
    else if lang == "it" then "IT"
    else if lang == "pt" then "PT"
    else if lang == "ru" then "RU"
    else if lang == "ja" then "JP"
    else if lang == "ko" then "KR"
    else if lang == "zh" then "CN"
    else "US"
  }

  /** `locale_string.split(".")[0].split("@")[0]`: drops an encoding such as
      `.UTF-8` and a modifier such as `@euro`. */
  function StripEncoding(raw: string): string
  {
    Before(Before(raw, '.'), '@')
  }

  /** `_normalize_locale`: turns a raw system locale string into a
      `language-COUNTRY` tag. */
  function NormalizeLocale(raw: Option<string>): (tag: string)
    ensures raw.None? || raw == Some("") ==> tag == "en-US"
    ensures '-' in tag
  {
    if raw.None? || raw.value == "" then "en-US"
    else
      var parts := StripEncoding(raw.value);
      if '_' in parts then
        var tag := Lower(Before(parts, '_')) + "-" + Upper(After(parts, '_'));
        assert tag[|Before(parts, '_')|] == '-';
        tag
      else if '-' in parts then
        var tag := Lower(Before(parts, '-')) + "-" + Upper(After(parts, '-'));
        assert tag[|Before(parts, '-')|] == '-';
        tag
      else
        var lang := Lower(parts);
        var tag := lang + "-" + CountryFor(lang);
        assert tag[|lang|] == '-';
        tag
  }

  /** An encoding after the first `.` does not change the normalised tag. */
  lemma NormalizeDropsEncoding(base: string, suffix: string)
    requires base != "" && '.' !in base && '@' !in base
    ensures NormalizeLocale(Some(base + "." + suffix)) == NormalizeLocale(Some(base))
  {
    assert base + "." + suffix == base + ("." + suffix);
    BeforeConcat(base, "." + suffix, '.');
    assert Before("." + suffix, '.') == "";
    assert Before(base + "." + suffix, '.') == base;
    assert StripEncoding(base + "." + suffix) == base;
    assert StripEncoding(base) == base;
  }

  /** A modifier after the first `@` does not change the normalised tag. */
  lemma NormalizeDropsModifier(base: string, suffix: string)
    requires base != "" && '.' !in base && '@' !in base
    ensures NormalizeLocale(Some(base + "@" + suffix)) == NormalizeLocale(Some(base))
  {
    assert base + "@" + suffix == base + ("@" + suffix);
    BeforeConcat(base, "@" + suffix, '.');
    BeforeConcat("@", suffix, '.');
    assert Before(base + "@" + suffix, '.') == base + ("@" + Before(suffix, '.'));
    BeforeConcat(base, "@" + Before(suffix, '.'), '@');
    assert Before("@" + Before(suffix, '.'), '@') == "";
    assert StripEncoding(base + "@" + suffix) == base;
    assert StripEncoding(base) == base;
  }

  /** A tag with a separator splits at its first separator, `_` taking
      precedence over `-`: the language is lower-cased and the rest
      upper-cased. */
  lemma NormalizeSeparated(lang: string, sep: char, rest: string)
    requires sep == '_' || sep == '-'
    requires sep !in lang
    requires '.' !in lang + rest && '@' !in lang + rest
    requires sep == '-' ==> '_' !in lang + rest
    ensures NormalizeLocale(Some(lang + [sep] + rest)) == Lower(lang) + "-" + Upper(rest)
  {
    var raw := lang + [sep] + rest;
    assert forall c :: c in raw ==> c in lang + rest || c == sep;
    assert StripEncoding(raw) == raw;
    SplitAtFirst(lang, sep, rest);
  }

  /** A bare language gets its country from the table, `US` by default. */
  lemma NormalizeBareLanguage(lang: string)
    requires lang != ""
    requires '.' !in lang && '@' !in lang && '_' !in lang && '-' !in lang
    ensures NormalizeLocale(Some(lang)) == Lower(lang) + "-" + CountryFor(Lower(lang))
  {
    assert StripEncoding(lang) == lang;
  }

  /** `en_US` from tests/test_localengine.py. */
  lemma NormalizeExampleRegional()
    ensures NormalizeLocale(Some("en_US")) == "en-US"
  {
    SplitAtFirst("en", '_', "US");
    assert "en" + ['_'] + "US" == "en_US";
    assert StripEncoding("en_US") == "en_US";
    LowerFixed("en");
    UpperFixed("US");
  }

  /** `fr_FR`, the tag under the `fr_FR.UTF-8` case. */
  lemma NormalizeExampleFrench()
    ensures NormalizeLocale(Some("fr_FR")) == "fr-FR"
  {
    SplitAtFirst("fr", '_', "FR");
    assert "fr" + ['_'] + "FR" == "fr_FR";
    assert StripEncoding("fr_FR") == "fr_FR";
    LowerFixed("fr");
    UpperFixed("FR");
  }

  /** `fr_FR.UTF-8` from tests/test_localengine.py: whatever encoding
      follows the `.` is dropped. */
  lemma NormalizeExampleEncoding(encoding: string)
    ensures NormalizeLocale(Some("fr_FR" + "." + encoding)) == "fr-FR"
  {
    NormalizeDropsEncoding("fr_FR", encoding);
    NormalizeExampleFrench();
  }

  /** `zh_CN`, the tag under the `zh_CN@euro` case. */
  lemma NormalizeExampleChinese()
    ensures NormalizeLocale(Some("zh_CN")) == "zh-CN"
  {
    SplitAtFirst("zh", '_', "CN");
    assert "zh" + ['_'] + "CN" == "zh_CN";
    assert StripEncoding("zh_CN") == "zh_CN";
    LowerFixed("zh");
    UpperFixed("CN");
  }

  /** `zh_CN@euro` from tests/test_localengine.py: whatever modifier
      follows the `@` is dropped. */
  lemma NormalizeExampleModifier(modifier: string)
    ensures NormalizeLocale(Some("zh_CN" + "@" + modifier)) == "zh-CN"
  {
    NormalizeDropsModifier("zh_CN", modifier);
    NormalizeExampleChinese();
  }

  /** `de` from tests/test_localengine.py. */
  lemma NormalizeExampleBare()
    ensures NormalizeLocale(Some("de")) == "de-DE"
  {
    NormalizeBareLanguage("de");
    LowerFixed("de");
  }

  /** The common regional variants of a language, in preference order. */
  function Variants(lang: string): seq<string>
  {
    if lang == "en" then ["en-US", "en-GB"]
    else if lang == "es" then ["es-ES", "es-MX"]
    else if lang == "fr" then ["fr-FR", "fr-CA"]
    else if lang == "de" then ["de-DE", "de-AT"]
    else if lang == "pt" then ["pt-PT", "pt-BR"]
    else if lang == "zh" then ["zh-CN", "zh-TW"]
    else []
  }

  /** Every variant is a regional tag, distinct from its siblings. */
  lemma VariantsShape(lang: string)
    ensures NoDup(Variants(lang))
    ensures forall v :: v in Variants(lang) ==> '-' in v
  {
    var vs := Variants(lang);
    if vs != [] {
      assert |vs| == 2 && vs[0][2] == '-' && vs[1][2] == '-' && vs[0][3] != vs[1][3];
    }
  }

  /** `primary_locale.split("-")[0]`. */
  function LanguageOf(primary: string): string
  {
    Split(primary, '-')[0]
  }

  predicate NoDup(s: seq<string>)
  {
    forall i, j :: 0 <= i < j < |s| ==> s[i] != s[j]
  }

  /** Appends each candidate in turn unless it is `primary` or already
      present: the step every part of the fallback list is built with. */
  function AppendMissing(acc: seq<string>, candidates: seq<string>, primary: string): seq<string>
    decreases |candidates|
  {
    if candidates == [] then acc
    else
      var prev := AppendMissing(acc, candidates[..|candidates| - 1], primary);
      var c := candidates[|candidates| - 1];
      if c != primary && c !in prev then prev + [c] else prev
  }

  /** `s` without the elements equal to `x`, order kept. */
  function Without(s: seq<string>, x: string): (r: seq<string>)
    ensures forall y :: y in r <==> y in s && y != x
    decreases |s|
  {
    if s == [] then []
    else
      var init := Without(s[..|s| - 1], x);
      assert forall y :: y in s <==> y in s[..|s| - 1] || y == s[|s| - 1];
      if s[|s| - 1] != x then init + [s[|s| - 1]] else init
  }

  /** The candidates of `get_fallback_locales(primary)`, in order: the
      language, its variants, then `en-US` and `en`. */
  function FallbackCandidates(primary: string): seq<string>
  {
    (if '-' in primary then Variants(LanguageOf(primary)) else []) + ["en-US", "en"]
  }

  /** `get_fallback_locales(primary)`. */
  function FallbackLocales(primary: string): seq<string>
  {
    AppendMissing(if '-' in primary then [LanguageOf(primary)] else [],
                  FallbackCandidates(primary), primary)
  }

  /** The loop over the regional variants: each is appended unless it is
      the primary tag or already present. */
  method AppendVariants(start: seq<string>, variants: seq<string>, primary: string) returns (fallbacks: seq<string>)
    ensures fallbacks == AppendMissing(start, variants, primary)
  {
    fallbacks := start;
    for i := 0 to |variants|
      invariant fallbacks == AppendMissing(start, variants[..i], primary)
    {
      var variant := variants[i];
      assert variants[..i + 1][..i] == variants[..i];
      if variant != primary && variant !in fallbacks {
        fallbacks := fallbacks + [variant];
      }
    }
    assert variants[..|variants|] == variants;
  }

  /** `get_fallback_locales` as written: appends inside a loop with
      membership checks. */
  method GetFallbackLocales(primary: string) returns (fallbacks: seq<string>)
    ensures fallbacks == FallbackLocales(primary)
  {
    fallbacks := [];
    var variants: seq<string> := [];
    var head: seq<string> := [];
    if '-' in primary {
      var language := Split(primary, '-')[0];
      fallbacks := fallbacks + [language];
      head := fallbacks;
      variants := Variants(language);
      fallbacks := AppendVariants(fallbacks, variants, primary);
    }
    ghost var afterVariants := fallbacks;
    if "en-US" !in fallbacks && primary != "en-US" {
      fallbacks := fallbacks + ["en-US"];
    }
    assert fallbacks == AppendMissing(afterVariants, ["en-US"], primary);
    ghost var afterEnUS := fallbacks;
    if "en" !in fallbacks && primary != "en" {
      fallbacks := fallbacks + ["en"];
    }
    assert fallbacks == AppendMissing(afterEnUS, ["en"], primary);
    EnglishTail(head, variants, primary);
    assert FallbackCandidates(primary) == variants + ["en-US", "en"];
    assert head == (if '-' in primary then [LanguageOf(primary)] else []);
  }

  /** The English candidates can be appended one at a time. */
  lemma EnglishTail(head: seq<string>, variants: seq<string>, primary: string)
    ensures AppendMissing(head, variants + ["en-US", "en"], primary)
            == AppendMissing(AppendMissing(AppendMissing(head, variants, primary), ["en-US"], primary), ["en"], primary)
  {
    assert variants + ["en-US", "en"] == (variants + ["en-US"]) + ["en"];
    AppendMissingConcat(head, variants + ["en-US"], ["en"], primary);
    AppendMissingConcat(head, variants, ["en-US"], primary);
  }

  /** The append step keeps the list duplicate-free and free of `primary`,
      keeps what was there as a prefix, and adds exactly the candidates
      other than `primary`. */
  lemma {:induction false} AppendMissingFacts(acc: seq<string>, candidates: seq<string>, primary: string)
    requires NoDup(acc) && primary !in acc
    ensures var r := AppendMissing(acc, candidates, primary);
            && NoDup(r) && primary !in r && acc <= r
            && forall x :: x in r <==> x in acc || (x in candidates && x != primary)
    decreases |candidates|
  {
    if candidates != [] {
      var init := candidates[..|candidates| - 1];
      AppendMissingFacts(acc, init, primary);
      assert forall x :: x in candidates <==> x in init || x == candidates[|candidates| - 1];
    }
  }

  /** Appending candidates that are all new and distinct simply appends
      those other than `primary`. */
  lemma {:induction false} AppendMissingFresh(acc: seq<string>, candidates: seq<string>, primary: string)
    requires NoDup(candidates)
    requires forall c :: c in candidates ==> c !in acc
    ensures AppendMissing(acc, candidates, primary) == acc + Without(candidates, primary)
    decreases |candidates|
  {
    if candidates != [] {
      var init := candidates[..|candidates| - 1];
      var c := candidates[|candidates| - 1];
      assert NoDup(init);
      AppendMissingFresh(acc, init, primary);
      assert c !in init;
    }
  }

  /** Appending two candidate lists is appending the first, then the second. */
  lemma {:induction false} AppendMissingConcat(acc: seq<string>, xs: seq<string>, ys: seq<string>, primary: string)
    ensures AppendMissing(acc, xs + ys, primary) == AppendMissing(AppendMissing(acc, xs, primary), ys, primary)
    decreases |ys|
  {
    if ys == [] {
      assert xs + ys == xs;
    } else {
      assert (xs + ys)[..|xs + ys| - 1] == xs + ys[..|ys| - 1];
      AppendMissingConcat(acc, xs, ys[..|ys| - 1], primary);
    }
  }

  /** The fallback list never holds the primary tag and never holds a tag twice. */
  lemma FallbacksExcludePrimary(primary: string)
    ensures primary !in FallbackLocales(primary)
    ensures NoDup(FallbackLocales(primary))
  {
    var head := if '-' in primary then [LanguageOf(primary)] else [];
    assert '-' in primary ==> LanguageOf(primary) != primary by {
      if '-' in primary {
        assert '-' !in LanguageOf(primary);
      }
    }
    AppendMissingFacts(head, FallbackCandidates(primary), primary);
  }

  /** For a regional tag the list starts with its language, followed by that
      language's variants other than the tag itself, in table order. */
  lemma FallbacksStartWithFamily(primary: string)
    requires '-' in primary
    ensures var lang := LanguageOf(primary);
            var family := [lang] + Without(Variants(lang), primary);
            |family| <= |FallbackLocales(primary)| && FallbackLocales(primary)[..|family|] == family
  {
    var lang := LanguageOf(primary);
    var variants := Variants(lang);
    assert '-' !in lang;
    VariantsShape(lang);
    assert FallbackCandidates(primary) == variants + ["en-US", "en"];
    AppendMissingConcat([lang], variants, ["en-US", "en"], primary);
    AppendMissingFresh([lang], variants, primary);
    var rest := Without(variants, primary);
    WithoutNoDup(variants, primary);
    assert lang !in rest;
    NoDupCons(lang, rest);
    assert lang != primary;
    AppendMissingFacts([lang] + rest, ["en-US", "en"], primary);
  }

  lemma NoDupCons(x: string, s: seq<string>)
    requires x !in s && NoDup(s)
    ensures NoDup([x] + s)
  {
    var t := [x] + s;
    forall i, j | 0 <= i < j < |t|
      ensures t[i] != t[j]
    {
      assert t[j] == s[j - 1];
      if i > 0 {
        assert t[i] == s[i - 1];
      }
    }
  }

  /** Filtering keeps a list duplicate-free. */
  lemma {:induction false} WithoutNoDup(s: seq<string>, x: string)
    requires NoDup(s)
    ensures NoDup(Without(s, x))
    decreases |s|
  {
    if s != [] {
      var init := s[..|s| - 1];
      assert NoDup(init);
      WithoutNoDup(init, x);
      assert s[|s| - 1] !in init;
      assert s[|s| - 1] !in Without(init, x);
    }
  }

  /** The language of a regional tag is neither the tag nor `en-US`. */
  lemma LanguageOfRegional(primary: string)
    requires '-' in primary
    ensures LanguageOf(primary) != primary && LanguageOf(primary) != "en-US"
  {
    assert '-' !in LanguageOf(primary);
    assert "en-US"[2] == '-';
  }

  /** `en-US` is in the list iff the primary tag is not `en-US`, and `en`
      iff it is not `en`. */
  lemma FallbacksEnglishMembers(primary: string)
    ensures "en-US" in FallbackLocales(primary) <==> primary != "en-US"
    ensures "en" in FallbackLocales(primary) <==> primary != "en"
  {
    var head := if '-' in primary then [LanguageOf(primary)] else [];
    if '-' in primary {
      LanguageOfRegional(primary);
    }
    AppendMissingFacts(head, FallbackCandidates(primary), primary);
    var cs := FallbackCandidates(primary);
    assert cs[|cs| - 2] == "en-US" && cs[|cs| - 1] == "en";
  }

  /** Without a region the list is just `en-US` and `en`, less the primary. */
  lemma FallbacksBare(primary: string)
    requires '-' !in primary
    ensures FallbackLocales(primary) == Without(["en-US", "en"], primary)
  {
    assert FallbackCandidates(primary) == ["en-US", "en"];
    assert ["en-US", "en"][1] != ["en-US", "en"][0];
    AppendMissingFresh([], ["en-US", "en"], primary);
  }

  /** `en-US` is in the list iff the primary tag is not `en-US`, and `en`
      iff it is not `en`; without a region the list is just those two. */
  lemma FallbacksEnglish(primary: string)
    ensures "en-US" in FallbackLocales(primary) <==> primary != "en-US"
    ensures "en" in FallbackLocales(primary) <==> primary != "en"
    ensures '-' !in primary ==> FallbackLocales(primary) == Without(["en-US", "en"], primary)
  {
    FallbacksEnglishMembers(primary);
    if '-' !in primary {
      FallbacksBare(primary);
    }
  }

  /** `en-US` from tests/test_localengine.py. */
  lemma FallbackExampleEnglish()
    ensures FallbackLocales("en-US") == ["en", "en-GB"]
  {
    SplitAtFirst("en", '-', "US");
    assert "en-US" == "en" + ['-'] + "US";
    assert LanguageOf("en-US") == "en";
    var c := ["en-US", "en-GB", "en-US", "en"];
    assert FallbackCandidates("en-US") == c;
    assert c[..3][..2] == c[..2] && c[..2][..1] == c[..1] && c[..1][..0] == [];
    assert c[..4] == c;
    assert AppendMissing(["en"], c[..1], "en-US") == ["en"];
    assert AppendMissing(["en"], c[..2], "en-US") == ["en", "en-GB"];
    assert AppendMissing(["en"], c[..3], "en-US") == ["en", "en-GB"];
  }

  /** `es-MX` from tests/test_localengine.py. */
  lemma FallbackExampleSpanish()
    ensures FallbackLocales("es-MX") == ["es", "es-ES", "en-US", "en"]
  {
    SplitAtFirst("es", '-', "MX");
    assert "es-MX" == "es" + ['-'] + "MX";
    assert LanguageOf("es-MX") == "es";
    var d := ["es-ES", "es-MX", "en-US", "en"];
    assert FallbackCandidates("es-MX") == d;
    assert d[..3][..2] == d[..2] && d[..2][..1] == d[..1] && d[..1][..0] == [];
    assert d[..4] == d;
    assert AppendMissing(["es"], d[..1], "es-MX") == ["es", "es-ES"];
    assert AppendMissing(["es"], d[..2], "es-MX") == ["es", "es-ES"];
    assert AppendMissing(["es"], d[..3], "es-MX") == ["es", "es-ES", "en-US"];
  }
}
