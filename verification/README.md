# pyLocalEngine in Dafny

A verified model of the in-memory core of pyLocalEngine. The model covers:

- turning a raw system locale string into a `language-COUNTRY` tag;
- the fallback chain of a tag;
- the FileManager's ordered list of 16 candidate paths and its first-success search;
- the FileManager's per-locale cache with an expiry time;
- the conversion of an XML element tree into a translation document;
- the LocalEngine state machine (`set_locale`, `get_text`, `has_key`, `get_metadata`, available locales, reload and cache clearing, locale-change callbacks);
- the library's exception constructors;
- the in-memory transformations of the migration tool (`tools/migrate.py`).

Modules, one file each:

| file | module | models |
|---|---|---|
| `wrappers.dfy` | `Wrappers` | `Option`, `Result` and `Outcome`, which stand for `None` and raised exceptions |
| `text.dfy` | `Text` | the parts of Python's `str` used by the core: `split`, `startswith`, `strip`, `replace`, `lower`/`upper` |
| `exceptions.dfy` | `Exceptions` | `LocaleNotFoundError`, `LocaleFileError`, `TranslationKeyError` |
| `documents.dfy` | `Documents` | translation documents (`Null \| Leaf \| Node`) and the engine's dotted lookup `_get_nested_value` |
| `locale_detector.dfy` | `LocaleDetector` | `_normalize_locale` and `get_fallback_locales` |
| `xml_parse.dfy` | `XmlParse` | `_parse_xml` over an element tree |
| `file_manager.dfy` | `FileManagement` | candidate paths, `_parse_content` dispatch, `_load_from_source`, the cache (a pure model `Load` plus the class `FileManager`) |
| `engine.dfy` | `Engine` | the engine as pure step functions plus the class `LocalEngine` whose methods are proved against them |
| `engine_lemmas.dfy` | `EngineProperties` | what `set_locale`, `get_text`, `has_key`, available locales and callbacks promise |
| `migrate.dfy` | `Migrate` | `LocaleFileMigrator`: the format check, `_set_nested_value`, the `migrate_*` transformations, the XML tree of `save_locale_file`, and the naming of files in `migrate_directory` |

**Time, I/O and parsers are parameters.**

- Time is an integer parameter `now`.
- File and HTTP access is a `Source` value. For each path, its `fetch` field answers `Missing` (`FileNotFoundError`), `RequestFailed` (`requests.RequestException`), `Faulted` (any other failure) or `Content(text)`.
- The JSON, YAML and XML decoders are also fields of the `Source` value.
- The system locale that auto-detection would find is an argument of `NewLocalEngine`.
- The date `datetime.now()` would print is an argument `today` of the migrations.

**Stateful code becomes classes; the rest is pure.**

- The FileManager and the LocalEngine are classes whose fields the methods update.
- Each method's postcondition ties its result and new state to a pure function of the old state: `Load`, `Cleared`, `SetLocaleF`, `GetTextF` and so on.
- The properties are proved about those functions.

## Model

| member | source | states |
|---|---|---|
| Exceptions.NewLocaleNotFoundError | localengine/core/exceptions.py:17-21 | stores the locale; an explicit message is used verbatim; the default message is exactly `Locale '{locale}' not found` |
| Exceptions.NewLocaleFileError | localengine/core/exceptions.py:27-31 | stores the path; an explicit message is used verbatim; the default message is exactly `Error loading locale file '{path}'` |
| Exceptions.NewTranslationKeyError | localengine/core/exceptions.py:37-45 | stores key and locale; an explicit message wins; the default is exactly `Translation key '{key}' not found`, followed by ` for locale '{locale}'` exactly when the locale is non-empty |
| Documents.DescendConcat | localengine/core/engine.py:187-196 | descending along `p + q` is descending along `p` then `q`; a miss is never revived |
| Documents.NestedValueIsDescent | localengine/core/engine.py:183-196 | an undotted key's direct lookup agrees with the segment-by-segment descent |
| Documents.NestedValueStopsEarly | localengine/core/engine.py:190-194 | a dotted lookup yields `None` (no error) as soon as a segment is absent or the value reached is not a map |
| Documents.DescendFromNonNode | localengine/core/engine.py:191-194 | nothing is found below a value that is not a map |
| LocaleDetector.NormalizeLocale | localengine/core/locale_detector.py:53-92 | `None` and `""` give `en-US`; every result contains `-` |
| LocaleDetector.NormalizeDropsEncoding | localengine/core/locale_detector.py:67 | everything from the first `.` is discarded |
| LocaleDetector.NormalizeDropsModifier | localengine/core/locale_detector.py:67 | everything from the first `@` is discarded |
| LocaleDetector.NormalizeSeparated | localengine/core/locale_detector.py:70-75 | with `_` (checked first) or else `-`, the result is lower(lang) + `-` + upper(rest), cut at the first separator |
| LocaleDetector.NormalizeBareLanguage | localengine/core/locale_detector.py:76-92 | a bare language gets its table country, `US` when unknown |
| LocaleDetector.NormalizeExampleRegional | tests/test_localengine.py:26 | `en_US` → `en-US` |
| LocaleDetector.NormalizeExampleFrench | localengine/core/locale_detector.py:70-72 | `fr_FR` → `fr-FR` |
| LocaleDetector.NormalizeExampleEncoding | tests/test_localengine.py:27 | `fr_FR.<any encoding>`, so `fr_FR.UTF-8`, → `fr-FR` |
| LocaleDetector.NormalizeExampleChinese | localengine/core/locale_detector.py:70-72 | `zh_CN` → `zh-CN` |
| LocaleDetector.NormalizeExampleModifier | tests/test_localengine.py:29 | `zh_CN@<any modifier>`, so `zh_CN@euro`, → `zh-CN` |
| LocaleDetector.NormalizeExampleBare | tests/test_localengine.py:28 | `de` → `de-DE` |
| LocaleDetector.VariantsShape | localengine/core/locale_detector.py:154-161 | the variant table has no duplicates and every variant is a regional tag |
| LocaleDetector.AppendVariants | localengine/core/locale_detector.py:163-166 | the loop over the variants appends exactly the new ones other than the primary, in order (`AppendMissing`) |
| LocaleDetector.GetFallbackLocales | localengine/core/locale_detector.py:146-174 | the appending code computes exactly `FallbackLocales` |
| LocaleDetector.AppendMissingFacts | localengine/core/locale_detector.py:163-172 | appending "if not the primary and not yet present" keeps the list duplicate-free and primary-free and adds exactly the new candidates |
| LocaleDetector.AppendMissingFresh | localengine/core/locale_detector.py:163-166 | with fresh, duplicate-free candidates the appended part is the candidates minus the primary, in order |
| LocaleDetector.AppendMissingConcat | localengine/core/locale_detector.py:163-172 | appending two candidate lists is appending one after the other |
| LocaleDetector.Without | localengine/core/locale_detector.py:165 | removing the primary keeps exactly the other members |
| LocaleDetector.FallbacksExcludePrimary | localengine/core/locale_detector.py:146-174 | the chain never contains the primary and has no duplicates |
| LocaleDetector.FallbacksStartWithFamily | localengine/core/locale_detector.py:148-166 | a regional primary's chain starts with its language, then the table variants other than the primary, in table order |
| LocaleDetector.FallbacksEnglishMembers | localengine/core/locale_detector.py:168-172 | `en-US` is in the chain iff the primary is not `en-US`, `en` iff it is not `en` |
| LocaleDetector.FallbacksBare | localengine/core/locale_detector.py:146-174 | a primary without region gets only `en-US` and `en`, less itself |
| LocaleDetector.FallbacksEnglish | localengine/core/locale_detector.py:168-172 | both of the above together |
| LocaleDetector.FallbackExampleEnglish | tests/test_localengine.py:35-37 | `en-US` → `[en, en-GB]` |
| LocaleDetector.FallbackExampleSpanish | tests/test_localengine.py:39-42 | `es-MX` → `[es, es-ES, en-US, en]` |
| XmlParse.TextValue | localengine/core/file_manager.py:169 | an element's text becomes a string, or `None` when absent |
| XmlParse.Find | localengine/core/file_manager.py:165 | `find` returns the first child with the tag, `None` iff there is none |
| XmlParse.Entry | localengine/core/file_manager.py:175-180 | an element with sub-elements becomes a one-level map; the value never goes deeper |
| XmlParse.Assign | localengine/core/file_manager.py:174-190 | the filled result is at most one map deep |
| XmlParse.ParseXml | localengine/core/file_manager.py:159-192 | the imperative conversion computes `XmlDocument` |
| XmlParse.SubElementTexts | localengine/core/file_manager.py:177-178 | the inner loop computes `TextMap` |
| XmlParse.AddSection | localengine/core/file_manager.py:174-180 | the section loop computes `Assign` |
| XmlParse.AssignLastWins | localengine/core/file_manager.py:174-180 | a later sibling with the same tag overwrites an earlier one |
| XmlParse.CarriesInit | localengine/core/file_manager.py:174-180 | children carrying a map, less the last one, carry the map less its key |
| XmlParse.AssignAll | localengine/core/file_manager.py:174-180 | children with distinct tags that carry a map's values add exactly that map |
| XmlParse.AssignUntouched | localengine/core/file_manager.py:183-190 | a key no (non-`meta`) child carries is left as it was |
| XmlParse.AssignKeys | localengine/core/file_manager.py:183-190 | every key of the result comes from the start or from some child |
| XmlParse.XmlDocumentShallow | localengine/core/file_manager.py:159-192 | grandchildren are dropped: every value is at most one map deep |
| XmlParse.XmlMeta | localengine/core/file_manager.py:165-169 | the `meta` children become `meta[tag] = text` |
| XmlParse.XmlSectionEntry | localengine/core/file_manager.py:172-180 | with a `<locale>` child its children are the entries |
| XmlParse.XmlRootEntry | localengine/core/file_manager.py:181-190 | without `<locale>` the non-`meta` root children are the entries |
| XmlParse.XmlKeys | localengine/core/file_manager.py:159-192 | every key is `meta` or the tag of a child of the section used |
| FileManagement.CandidateAt | localengine/core/file_manager.py:100-119 | every candidate path ends with `.` and the extension written for it |
| FileManagement.Candidates | localengine/core/file_manager.py:100-119 | there are exactly 16 candidates |
| FileManagement.CandidatesOrder | localengine/core/file_manager.py:104-118 | four flat paths by extension, then per extension `{l}`, `locale`, `translations` inside the locale directory |
| FileManagement.ParseContent | localengine/core/file_manager.py:141-157 | dispatch on the lower-cased suffix (`.json`, `.yaml` or `.yml`, `.xml`); decoder failures become `LocaleFileError("")`; empty YAML is `{}`; XML goes through `_parse_xml`; any other suffix, `""` included, raises `LocaleFileError("", "Unsupported file format: " + suffix)` |
| FileManagement.BaseName | localengine/core/file_manager.py:129 | the final path component (pathlib's `name`) holds no `/`, and is empty iff the path is empty or ends in `/` |
| FileManagement.Suffix | localengine/core/file_manager.py:129 | `PurePath.suffix` is `""` or a `.` followed by at least one character, with no further `.` and no `/` |
| FileManagement.SuffixOfDotted | localengine/core/file_manager.py:129 | a path ending in `.x` has suffix `.x`, unless nothing of its final component precedes that dot, in which case the suffix is `""` |
| FileManagement.FlatSuffix | localengine/core/file_manager.py:104-108 | `locales/{l}.{ext}` has suffix `.{ext}`, or `""` when `l` is empty or ends in `/` |
| FileManagement.NestedSuffix | localengine/core/file_manager.py:111-116 | `locales/{l}/{name}.{ext}` has suffix `.{ext}`, or `""` when `name` is empty or ends in `/` |
| FileManagement.CandidateSuffixAt | localengine/core/file_manager.py:104-129 | the `i`-th candidate's suffix is its written extension, except for the `{l}.{ext}` candidates of a locale that is `""` or ends in `/` |
| FileManagement.CandidateSuffixes | localengine/core/file_manager.py:104-129 | the same for all 16 candidates together |
| FileManagement.ExtSuffixSupported | localengine/core/file_manager.py:141-149 | a written extension is its own lower case and one of the four suffixes `_parse_content` accepts |
| FileManagement.Search | localengine/core/file_manager.py:83-98 | the search fails only with `LocaleNotFoundError(locale)` or `LocaleFileError` |
| FileManagement.SearchFirstHit | localengine/core/file_manager.py:87-96 | the first candidate that is not skipped decides: its document, or `LocaleFileError` naming it without trying later ones |
| FileManagement.UnsupportedSuffix | localengine/core/file_manager.py:121-151 | a candidate that exists and has suffix `""` is not skipped: its content is rejected as `Unsupported file format: ` |
| FileManagement.EmptyNameUnsupported | localengine/core/file_manager.py:83-96 | for a locale that is `""` or ends in `/`, an existing `locales/{l}.json` stops the search with `LocaleFileError(path, "Error parsing file: Unsupported file format: ")` |
| FileManagement.SearchNotFound | localengine/core/file_manager.py:98 | `LocaleNotFoundError` with the fixed message iff every candidate is missing |
| FileManagement.LoadHit | localengine/core/file_manager.py:61-64 | without force and with a fresh entry the cached document is returned and the source is not consulted |
| FileManagement.LoadMiss | localengine/core/file_manager.py:66-73 | otherwise the search decides; success stores the document with timestamp `now`, failure leaves both maps unchanged |
| FileManagement.NoHitWithoutTimeout | localengine/core/file_manager.py:75-81 | a timeout of 0 or less never hits |
| FileManagement.FreshWindow | localengine/core/file_manager.py:71-81 | a stored entry stays fresh exactly while `later - now < timeout` |
| FileManagement.LoadAligned | localengine/core/file_manager.py:70-71 | the two maps keep the same keys |
| FileManagement.LoadStable | localengine/core/file_manager.py:61-73 | at one instant, a load does not change what another non-forced load returns |
| FileManagement.Cleared | localengine/core/file_manager.py:201-207 | a truthy locale removes only that entry from both maps; `None` or `""` empties both |
| FileManagement.ClearedNotFresh | localengine/core/file_manager.py:203-204 | a cleared locale is not fresh |
| FileManagement.FileManager.constructor | localengine/core/file_manager.py:22-35 | stores path and timeout with empty maps |
| FileManagement.FileManager.LoadLocaleFile | localengine/core/file_manager.py:46-73 | result and new maps are those of `Load` |
| FileManagement.FileManager.LoadFromSource | localengine/core/file_manager.py:83-98 | the loop computes `Search` over the candidates |
| FileManagement.FileManager.PossibleFilePaths | localengine/core/file_manager.py:100-119 | the nested loops build exactly the candidate list |
| FileManagement.FileManager.ClearCache | localengine/core/file_manager.py:194-207 | the new maps are `Cleared` |
| FileManagement.FileManager.GetCachedLocales | localengine/core/file_manager.py:209-212 | every cached locale once, fresh or not |
| FileManagement.FileManager.IsLocaleCached | localengine/core/file_manager.py:214-217 | true iff the entry is present and fresh |
| FileManagement.FileManager.ValidateLocaleFile | localengine/core/file_manager.py:219-233 | true iff a forced reload succeeds, whose cache update is kept |
| Engine.Notices | localengine/core/engine.py:276-283 | every callback is notified once, in registration order, whether or not it raises |
| Engine.ProbeAt | localengine/core/engine.py:142-148 | only a `LocaleFileError` escapes a lookup; `LocaleNotFoundError` is a miss |
| Engine.FirstIndex | localengine/core/engine.py:273-274 | the index of the first occurrence |
| Engine.RemoveFirst | localengine/core/engine.py:266-274 | removing an absent callback changes nothing; otherwise the first occurrence goes and the rest keep their order |
| Engine.LocalEngine.constructor | localengine/core/engine.py:46-61 | stores the configuration; no locale, fallbacks, callbacks or notifications yet |
| Engine.LocalEngine.SetLocale | localengine/core/engine.py:73-115 | outcome and new state are those of `SetLocaleF` |
| Engine.LocalEngine.SwitchTo | localengine/core/engine.py:89-95 | the success path: the new state is `Commit` (locale, its chain, one notice per callback iff it changed) |
| Engine.LocalEngine.GetCurrentLocale | localengine/core/engine.py:117-120 | the current locale, or the default when it is `None` or `""` |
| Engine.LocalEngine.GetText | localengine/core/engine.py:122-169 | result and cache are those of `GetTextF` |
| Engine.LocalEngine.ProbeLocale | localengine/core/engine.py:142-148 | one locale's lookup is `ProbeAt` |
| Engine.LocalEngine.ProbeFallbacks | localengine/core/engine.py:151-162 | the fallback loop is `Walk` over the stored chain: the first locale that does not miss decides |
| Engine.LocalEngine.GetNestedValue | localengine/core/engine.py:171-196 | the loop computes `NestedValue` |
| Engine.LocalEngine.HasKey | localengine/core/engine.py:198-213 | result and cache are those of `HasKeyF` |
| Engine.LocalEngine.GetAvailableLocales | localengine/core/engine.py:215-236 | the loop over the seven checked tags computes `AvailableFrom` |
| Engine.LocalEngine.ReloadLocale | localengine/core/engine.py:238-246 | a forced load of the target; its error propagates |
| Engine.LocalEngine.ClearCache | localengine/core/engine.py:248-255 | delegates to the FileManager's `Cleared` |
| Engine.LocalEngine.Stop | localengine/core/engine.py:314-320 | empties the cache |
| Engine.LocalEngine.GetMetadata | localengine/core/engine.py:330-346 | result and cache are those of `MetadataF` |
| Engine.LocalEngine.AddLocaleChangeCallback | localengine/core/engine.py:257-264 | appends; nothing else changes |
| Engine.LocalEngine.RemoveLocaleChangeCallback | localengine/core/engine.py:266-274 | removes the first occurrence if present; nothing else changes |
| Engine.LocalEngine.NotifyLocaleChange | localengine/core/engine.py:276-283 | appends one notice per callback in order; nothing else changes |
| Engine.LocalEngine.GetFallbackLocales | localengine/core/engine.py:285-293 | the detector chain with the default appended when absent and different |
| Engine.NewLocalEngine | localengine/core/engine.py:63-68 | a fresh engine then `set_locale` of the detected or the default locale |
| EngineProperties.EngineFallbacksFacts | localengine/core/engine.py:285-293 | the engine chain never holds the locale, has no duplicates, extends the detector chain and holds the default iff it differs |
| EngineProperties.SetLocaleLoads | localengine/core/engine.py:83-95 | a loading locale is committed with its chain, callbacks fire once with `(old, t)` iff `old ≠ t` |
| EngineProperties.TryFallbacksFirst | localengine/core/engine.py:99-110 | the first fallback that loads is committed |
| EngineProperties.SetLocaleFallsBack | localengine/core/engine.py:97-110 | a missing locale commits its first loading fallback |
| EngineProperties.TryFallbacksCases | localengine/core/engine.py:101-115 | the fallback loop either commits some fallback or fails with no state change |
| EngineProperties.SetLocaleFileError | localengine/core/engine.py:85-97 | a `LocaleFileError` from the requested locale escapes at once: no fallback is tried and the state is unchanged |
| EngineProperties.TryFallbacksFileError | localengine/core/engine.py:101-112 | in the fallback loop, a `LocaleFileError` after misses ends the loop with that error and the state unchanged; later fallbacks are not tried |
| EngineProperties.SetLocaleFallbackFileError | localengine/core/engine.py:97-112 | a missing locale whose first non-missing fallback raises `LocaleFileError` fails with that error and changes nothing |
| EngineProperties.SetLocaleOutcomes | localengine/core/engine.py:73-115 | failure leaves the state untouched and is a file error or `LocaleNotFoundError(t)`; success commits `t` or one of its fallbacks with matching chain and notices |
| EngineProperties.SetLocaleNotFound | localengine/core/engine.py:115 | when nothing loads the error is `Locale 't' not found` |
| EngineProperties.AllMissing | localengine/core/engine.py:101-115 | if every fallback is missing the loop raises `LocaleNotFoundError(t)` unchanged |
| EngineProperties.Decide | localengine/core/engine.py:139-162 | stateless reference walk: only a `LocaleFileError` can escape |
| EngineProperties.DecideCongruent | localengine/core/engine.py:139-162 | caches that answer every load alike give the same lookup outcome |
| EngineProperties.LoadKeepsAnswers | localengine/core/file_manager.py:61-73 | a non-forced load does not change any later non-forced answer at the same instant |
| EngineProperties.WalkDecides | localengine/core/engine.py:139-162 | the cache-threading walk agrees with the stateless reference |
| EngineProperties.DecideFirst | localengine/core/engine.py:142-162 | the first locale that does not miss decides |
| EngineProperties.DecideAllMiss | localengine/core/engine.py:142-162 | all misses give a miss |
| EngineProperties.GetTextFirstFound | localengine/core/engine.py:139-162 | the first non-`None` value along current + fallbacks is returned; a file error propagates |
| EngineProperties.GetTextAllMiss | localengine/core/engine.py:164-169 | when everything misses: the default if given (even `""`), else `TranslationKeyError(k, target)` |
| EngineProperties.GetTextOverride | localengine/core/engine.py:139-151 | a non-empty `locale` argument consults only that locale |
| EngineProperties.GetTextRepeat | localengine/core/engine.py:139-169 | asking twice at the same instant gives the same answer |
| EngineProperties.HasKeyDecides | localengine/core/engine.py:198-213 | true iff the lookup finds a value, false iff it misses; a file error propagates |
| EngineProperties.ForcedLoadSearches | localengine/core/file_manager.py:230 | validation always searches the source |
| EngineProperties.AvailableMeans | localengine/core/engine.py:231-236 | the result lists, once each, exactly the checked tags whose files load |
| EngineProperties.RemoveAfterAdd | localengine/core/engine.py:257-274 | removing a just-added new callback restores the list |
| EngineProperties.RemoveOnlyFirst | localengine/core/engine.py:273-274 | of a callback registered twice, the earlier registration goes and the later one stays at the end of the list |
| EngineProperties.FirstOccurrence | localengine/core/engine.py:273-274 | the occurrence with none before it is the one removed |
| Migrate.NewMigrator | tools/migrate.py:21-30 | the format is lower-cased and accepted iff it is json, yaml or xml, else the `ValueError` message |
| Migrate.TargetExt | tools/migrate.py:224-249 | each target format is one of the extensions the FileManager reads |
| Migrate.SetPath | tools/migrate.py:204-212 | fails iff some intermediate is not a map; only the first segment's entry changes at this level |
| Migrate.SetNested | tools/migrate.py:198-212 | an undotted key sets `d[k] = v`; a dotted key succeeds iff its intermediates are maps or absent |
| Migrate.SetPathReads | tools/migrate.py:207-212 | the stored value is found by descending the same path |
| Migrate.SetNestedRoundTrip | tools/migrate.py:198-212 | after insertion the engine's dotted lookup of the key yields the value |
| Migrate.SetPathSiblings | tools/migrate.py:207-212 | every path that leaves the key's path at some level reads the same value before and after |
| Migrate.MetaBlock | tools/migrate.py:55-63 | the meta map has the five keys, the given locale, the tool tag and a description naming the locale |
| Migrate.OverlayPut | tools/migrate.py:66-68 | copying one non-`meta` key extends the overlay by it |
| Migrate.OverlaySkipsMeta | tools/migrate.py:67 | the source `meta` never reaches the result |
| Migrate.CopyTranslations | tools/migrate.py:66-68 | the copy loop computes `Overlay` |
| Migrate.MigrateCopied | tools/migrate.py:55-68 | (i18next, and Django JSON at 144-157) fresh meta, every other source key copied unchanged, the source's `meta` dropped |
| Migrate.Cut | tools/migrate.py:109 | `line[n:-1]` drops the prefix and the last character, or is empty |
| Migrate.PrefixesExclusive | tools/migrate.py:108-111 | no line starts with both prefixes |
| Migrate.ScanEntry | tools/migrate.py:103-111 | the inner loop computes `ScanLines` |
| Migrate.StoreEntry | tools/migrate.py:113-119 | one entry's store is `AddEntry` |
| Migrate.AddEntriesStep | tools/migrate.py:98-119 | one more entry is stored into what the earlier ones built |
| Migrate.MigrateGettext | tools/migrate.py:85-121 | the parser computes `GettextData` |
| Migrate.AddEntriesAbort | tools/migrate.py:113-119 | a failed nested insertion aborts the whole migration |
| Migrate.ScanLastMsgid | tools/migrate.py:107-109 | the last `msgid "` line wins |
| Migrate.ScanLastMsgstr | tools/migrate.py:107-111 | the last `msgstr "` line wins |
| Migrate.ScanNoMsgid | tools/migrate.py:104-109 | no `msgid "` line leaves no id |
| Migrate.AddEntryMeaning | tools/migrate.py:113-119 | an empty id or translation is skipped; otherwise the engine finds the translation under the id |
| Migrate.OneEntry | tools/migrate.py:100 | text with a single line break is one entry |
| Migrate.PlainEntryLines | tools/migrate.py:103 | an entry with visible ends splits into its lines |
| Migrate.ScanPlainEntry | tools/migrate.py:107-111 | `msgid "id"` / `msgstr "text"` give back `id` and `text` |
| Migrate.PlainEntryShape | tools/migrate.py:100-103 | the two lines of a plain entry have visible ends and no break inside |
| Migrate.SingleEntryFile | tools/migrate.py:98-119 | a one-entry file stores that entry's pair |
| Migrate.GettextSingleEntry | tools/migrate.py:85-121 | a one-entry file migrates to meta plus `{id: text}` |
| Migrate.ReactMessage | tools/migrate.py:189-194 | a map with `message` stores that message, a string itself, anything else nothing |
| Migrate.AddItemsAbort | tools/migrate.py:188-194 | a failed nested insertion aborts the whole migration |
| Migrate.MigrateReactIntl | tools/migrate.py:177-196 | the loop computes `AddItems` |
| Migrate.ReactLastStored | tools/migrate.py:188-194 | the last item's message is found under its key by the engine |
| Migrate.ReactIgnored | tools/migrate.py:188-194 | an item without a message leaves the document unchanged |
| Migrate.MigrateDjango | tools/migrate.py:136-159 | a file whose lower-cased pathlib suffix is `.po` goes to the gettext parser; any other file is decoded as JSON, fails iff decoding fails, and otherwise gets the Django meta with the other keys unchanged |
| Migrate.DottedFile | tools/migrate.py:137 | a name with a non-empty stem ending in `ext` is read as gettext iff `ext` lower-cases to `.po` |
| Migrate.DjangoDispatch | tools/migrate.py:137-142 | `.po` and `.PO` files are read as gettext; `.json` and `.yaml` files are decoded as JSON |
| Migrate.BarePoFile | tools/migrate.py:137-142 | a file named just `.po` has an empty suffix, so it is decoded as JSON |
| Migrate.MirrorsDoneAppend | tools/migrate.py:257-266 | appending the element of a pending key keeps the elements built so far mirroring the handled keys |
| Migrate.MirrorsDoneSkip | tools/migrate.py:258-259 | a skipped `meta` adds no element |
| Migrate.DictToXml | tools/migrate.py:253-266 | one element per key not skipped; maps become elements with children, other values their `str` text |
| Migrate.MetaElements | tools/migrate.py:237-240 | one text element per meta key |
| Migrate.BuildXmlTree | tools/migrate.py:232-244 | `<root>` with `<meta>` when present, then `<locale>`; a non-map `meta` fails |
| Migrate.LeafTexts | localengine/core/file_manager.py:177-178 | text-only children with distinct tags read back as the map |
| Migrate.MirrorsLeaves | tools/migrate.py:261-263 | the elements built for a non-empty map of strings read back as it |
| Migrate.SectionReads | localengine/core/file_manager.py:172-180 | the built `<locale>` section reads back as the non-meta part |
| Migrate.BuiltTreeFinds | tools/migrate.py:232-244 | in a tree with `meta`, `find` locates `<meta>` first and `<locale>` second |
| Migrate.MetaReads | localengine/core/file_manager.py:165-169 | the built `<meta>` reads back as the document's `meta` |
| Migrate.MetaRejoins | localengine/core/file_manager.py:165-190 | `meta` in front of the rest is the document |
| Migrate.XmlRoundTripMeta | tools/migrate.py:232-244 | round trip for a document with `meta` |
| Migrate.XmlRoundTripPlain | tools/migrate.py:242-244 | round trip for a document without `meta` |
| Migrate.XmlRoundTrip | tools/migrate.py:232-244 | `_parse_xml` of the built tree gives back a document whose values are strings or non-empty maps of strings |
| Migrate.DeriveLocale | tools/migrate.py:303-312 | mapping entry, else the stem, with `_` turned into `-`; an empty name skips the file |
| Migrate.OutputPath | tools/migrate.py:329 | the output path ends with the format as the caller spelled it |
| Migrate.MigratedPath | tools/migrate.py:329 | the output path ends with the normalised format |
| Migrate.MigratedPathIsCandidate | localengine/core/file_manager.py:105-109 | a migrated file is one of the four flat candidates, with its format's extension |
| Migrate.MigrationTarget | tools/migrate.py:301-330 | the per-file step with the corrected output name (see Findings; the source's line 329 spells the format as given): a file gets its derived locale and a path the FileManager searches |
| Migrate.OutputPathLowerCase | tools/migrate.py:329 | for a lower-case format the as-written path is the normalised one |
| Migrate.OutputPathUpperCaseMissed | tools/migrate.py:329 | `JSON` is accepted but its output path is no candidate |

## Findings

| source | as written | input that shows it | evidently intended | confidence | as-written member | corrected member |
|---|---|---|---|---|---|---|
| tools/migrate.py:329 | the output file is named with the `target_format` argument as the caller spelled it, while the migrator validated the lower-cased form (tools/migrate.py:28) | `migrate_directory(src, out, "i18next", target_format="JSON")` writes `out/locales/<l>.JSON`; the FileManager only looks for paths that end in lower-case extensions, so on a case-sensitive file system the file is never found | name the file with `migrator.target_format` | medium (the command line restricts the choices to lower case; the library function does not); not executed | Migrate.OutputPathUpperCaseMissed | Migrate.MigratedPathIsCandidate, Migrate.MigrationTarget |

## Left out

- Threading: the locks, the update-checker thread and the join in `stop`. Every operation is modelled as atomic and sequential.
- The wall clock: `time.time()` is a float. Here it is an integer parameter `now`, and cache ages are integer differences.
- File and HTTP I/O, `Path.exists`, `requests.get` and `raise_for_status`: these are the `fetch` oracle of `Source`.
- The JSON, YAML and XML codecs: these are oracles. Only the extension dispatch, the error wrapping and the empty-YAML → `{}` rule are modelled.
- `urlparse` in `_check_if_remote`: remote and local candidate paths have the same string form here, so the flag is not kept.
- `pathlib` normalisation of paths: paths are plain strings `base + "/locales/..."`. The suffix is read from the text after the last `/`. That text is pathlib's `name` for every candidate, because each candidate ends in a written extension.
- A JSON or YAML top level that is not a mapping, and numbers, booleans and lists inside documents. Documents hold only `None`, strings and maps.
- `str()` of a dictionary: `Documents.Str` renders every map as one fixed placeholder text.
- Non-ASCII letters in `lower`/`upper`, and non-ASCII whitespace in `strip`, are not modelled.
- `detect_system_locale` and its Windows and macOS variants read the environment, the registry and a subprocess. The detected locale is a parameter of `NewLocalEngine`.
- Callbacks are identities with a "raises" flag. What a callback does, including calling back into the engine, is not modelled.
- The context-manager methods `__enter__`/`__exit__` only call `stop`, which is modelled.
- Migrate.SetNested: `_set_nested_value` mutates the nested dictionaries in place. The model rebuilds them as values, so aliasing between the migrated document and the source document is not captured.
- Migrate.DictToXml: Python emits elements in dictionary insertion order. The model leaves the order open (`Mirrors` fixes the set of elements, not their order).
- FileManagement.FileManager.GetCachedLocales: Python returns the cache keys in insertion order. The model promises each cached locale exactly once, in an order left open.
- Migrate.XmlRoundTrip: the round trip is about the in-memory element tree. Serialising it (`ET.indent`, `tree.write`) and reading it back, where an empty text comes back as `None`, is not modelled.
- Migrate.MigrateReactIntl: the decoded source is a sequence of key/value pairs in file order. Duplicate keys, which the JSON decoder would collapse, are not excluded.
- Reading the source files (the migrations take the text, and `migrate_django_format` takes the JSON decoder as a parameter), `glob`, `mkdir`, `print`, `datetime.now()` (the `today` parameter), the source-suffix checks of `migrate_i18next_format`, the dispatch on `source_format` and the argparse `main` of the migration tool. These are I/O and command-line handling.
- Exceptions raised inside `migrate_directory`'s per-file `try` appear as `None` results. The messages printed for them are not modelled.
