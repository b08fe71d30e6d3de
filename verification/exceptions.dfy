/** The three exceptions of the engine (localengine/core/exceptions.py): each
    constructor stores its arguments and, when no message is given, builds a
    default message that names them. */
module Exceptions {

  import opened Wrappers
  import opened Text

  /** An exception object: its stored fields and `str(error)`. */
  datatype EngineError =
    | LocaleNotFoundError(locale: string, message: string)
    | LocaleFileError(filePath: string, message: string)
    | TranslationKeyError(key: string, targetLocale: Option<string>, message: string)

  /** `LocaleNotFoundError(locale, message=None)`. */
  function NewLocaleNotFoundError(locale: string, message: Option<string>): (e: EngineError)
    ensures e.LocaleNotFoundError? && e.locale == locale
    ensures message.Some? ==> e.message == message.value
    ensures message.None? ==> Contains(e.message, locale)
    ensures message.None? ==> e.message == "Locale '" + locale + "' not found"
  {
    if message.Some? then LocaleNotFoundError(locale, message.value)
    else
      ContainsMiddle("Locale '", locale, "' not found");
      LocaleNotFoundError(locale, "Locale '" + locale + "' not found")
  }

  /** `LocaleFileError(file_path, message=None)`. */
  function NewLocaleFileError(filePath: string, message: Option<string>): (e: EngineError)
    ensures e.LocaleFileError? && e.filePath == filePath
    ensures message.Some? ==> e.message == message.value
    ensures message.None? ==> Contains(e.message, filePath)
    ensures message.None? ==> e.message == "Error loading locale file '" + filePath + "'"
  {
    if message.Some? then LocaleFileError(filePath, message.value)
    else
      ContainsMiddle("Error loading locale file '", filePath, "'");
      LocaleFileError(filePath, "Error loading locale file '" + filePath + "'")
  }

  /** The default message when no (or an empty) locale is given. */
  function KeyOnlyMessage(key: string): string
  {
    "Translation key '" + key + "' not found"
  }

  /** `TranslationKeyError(key, locale=None, message=None)`; the locale is
      mentioned only when it is truthy, that is present and non-empty. */
  function NewTranslationKeyError(key: string, locale: Option<string>, message: Option<string>): (e: EngineError)
    ensures e.TranslationKeyError? && e.key == key && e.targetLocale == locale
    ensures message.Some? ==> e.message == message.value
    ensures message.None? ==> StartsWith(e.message, KeyOnlyMessage(key)) && Contains(e.message, key)
    ensures message.None? && locale.Some? && locale.value != "" ==> Contains(e.message, locale.value)
    ensures message.None? && locale.Some? && locale.value != "" ==>
              e.message == KeyOnlyMessage(key) + " for locale '" + locale.value + "'"
    ensures message.None? && (locale.None? || locale.value == "") ==> e.message == KeyOnlyMessage(key)
  {
    if message.Some? then TranslationKeyError(key, locale, message.value)
    else if locale.Some? && locale.value != "" then
      var text := KeyOnlyMessage(key) + " for locale '" + locale.value + "'";
      ContainsMiddle("Translation key '", key, "' not found" + " for locale '" + locale.value + "'");
      assert "Translation key '" + key + ("' not found" + " for locale '" + locale.value + "'") == text;
      ContainsMiddle(KeyOnlyMessage(key) + " for locale '", locale.value, "'");
      assert text[..|KeyOnlyMessage(key)|] == KeyOnlyMessage(key);
      TranslationKeyError(key, locale, text)
    else
      ContainsMiddle("Translation key '", key, "' not found");
      TranslationKeyError(key, locale, KeyOnlyMessage(key))
  }
}
