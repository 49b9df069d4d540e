# Translation dispatch of NekoX, modelled in Dafny

This project models the translation dispatch layer of NekoX's
`Translator.kt`. It covers:

- the locale codec (`code2Locale`, `locale2code`);
- the target-code normalisation and provider dispatch of `translate(to, query)`;
- the one-argument overload, which reads the configured target;
- the callback classification of the asynchronous overload;
- the language picker `showTargetLangSelect`: candidate pool, filter,
  promotion of the default locale, label array, and what a selection does;
- the get-or-insert of the `TranslateDb.repo` cache registry.

Modules, one per component:

- `Wrappers` (`wrappers.dfy`): `Option` and `Result`. These stand for
  Kotlin's nullable values and thrown exceptions.
- `Text` (`text.dfy`): the string primitives. These are Kotlin's
  `replace`, `split` and `toUpperCase`, and the blank test.
- `LocaleCodec` (`locale_codec.dfy`): `Locale` as a record of three strings,
  the two conversions, and their round trips.
- `Dispatch` (`dispatch.dfy`): backends as a tag, `doTranslate` as a
  function argument, normalisation, dispatch, and callback delivery.
- `Picker` (`picker.dfy`): pool, filter, the promotion loop, the label
  array filled slot by slot, and selection.
- `TransDbRegistry` (`trans_db.dfy`): the registry as a class whose `map`
  field the get-or-insert method updates.

Assumptions about library code that is not part of this model:

- The Java `Locale` constructor stores its arguments as given. Its own case
  folding is not modelled.
- Locale equality means all three fields are equal.
- `StrUtil.isBlank` and Kotlin's `isBlank` both mean "every character is
  whitespace". They share one predicate.
- `ArrayUtil.remove` and `ArrayUtil.insert` return new arrays. Their inputs
  are never changed, so the `locales` array they build is modelled as a
  `seq` value. The label array `localeNames` is filled in place, so it is a
  Dafny `array`.
- `NekoConfig` is a parameter: the provider integer and the configured code.
  Its setters become recorded `ConfigWrite` values.
- Locale database lookups become parameters: `LocaleUtils.availableLocaleList()`,
  the language pack codes, the current locale and `getDisplayName`. The
  localised "Default" and "More" strings are parameters too.
- `receive`/`receiveLazy` memoisation returns what the plain function
  computes, so the codec functions are plain functions.

Behaviour of the code worth noting:

- `locale2code` never upper-cases the country. Only the Google-family
  target code does that.
- The promoted picker entry is always language-only. It is inserted only
  after it is found in the filtered pool. `MenuFromPool` proves this.
- Full mode does not remove duplicates. Outside full mode, duplicate codes
  are removed, not duplicate locales: `"en"` and `"en_"` both give English
  (`DistinctCodesSameLocale`). In the model, which does no case folding, distinct bare-language
  codes give distinct entries (`DistinctBareCodes`). In the app, codes that
  differ only in letter case (`"en"`, `"EN"`) still collide, because the
  Java `Locale` constructor lower-cases the language.
- An empty code decodes to an empty language without an error.
- The round trip holds only for separator-free fields and a country that is
  empty or not blank. A blank non-empty country is dropped
  (`EncodeDecodeDropsBlankCountry`).

## Model

| member | source | states |
|---|---|---|
| Text.Replace | TMessagesProj/src/main/java/tw/nekomimi/nekogram/transtale/Translator.kt:21 | same length; each `from` becomes `to`, the other characters stay; no `from` is left |
| Text.Split | TMessagesProj/src/main/java/tw/nekomimi/nekogram/transtale/Translator.kt:21 | at least one segment; no segment holds the delimiter or a character not in the input; the first segment is a prefix; joining the segments with the delimiter gives the input back |
| Text.SplitWithout | TMessagesProj/src/main/java/tw/nekomimi/nekogram/transtale/Translator.kt:21 | input without the delimiter splits into itself alone |
| Text.SplitAfter | TMessagesProj/src/main/java/tw/nekomimi/nekogram/transtale/Translator.kt:21 | the first delimiter ends the first segment and the rest is split independently |
| Text.ToUpper | TMessagesProj/src/main/java/tw/nekomimi/nekogram/transtale/Translator.kt:69 | same length, every character upper-cased (ASCII) |
| Text.UpperTwoLetters | TMessagesProj/src/main/java/tw/nekomimi/nekogram/transtale/Translator.kt:69 | a string upper-cases to a two-letter upper-case word exactly when it is that word in some mix of cases |
| LocaleCodec.Code2Locale | TMessagesProj/src/main/java/tw/nekomimi/nekogram/transtale/Translator.kt:19-25 | total; empty variant; language and country hold no separator; the language is a prefix of the code |
| LocaleCodec.Locale2Code | TMessagesProj/src/main/java/tw/nekomimi/nekogram/transtale/Translator.kt:27-35 | starts with the language; is the language alone exactly when the country is blank (`Text.IsBlank`: empty or whitespace only, the `StrUtil.isBlank` of line 29); otherwise `-` then the unchanged country |
| LocaleCodec.DecodeSingle | TMessagesProj/src/main/java/tw/nekomimi/nekogram/transtale/Translator.kt:21-23 | a separator-free code (the empty one included) decodes to that language with empty country |
| LocaleCodec.DecodeMany | TMessagesProj/src/main/java/tw/nekomimi/nekogram/transtale/Translator.kt:21-23 | with `-` or `_` after the first segment: first segment language, second country, later segments ignored |
| LocaleCodec.DecodeIgnoresSeparatorKind | TMessagesProj/src/main/java/tw/nekomimi/nekogram/transtale/Translator.kt:21 | replacing `-` by `_` does not change the decoded locale |
| LocaleCodec.EncodeDecode | TMessagesProj/src/main/java/tw/nekomimi/nekogram/transtale/Translator.kt:19-35 | separator-free language and country (country empty or not blank) survive encode then decode; the variant becomes empty |
| LocaleCodec.EncodeDecodeDropsBlankCountry | TMessagesProj/src/main/java/tw/nekomimi/nekogram/transtale/Translator.kt:29-31 | for every separator-free language, a blank non-empty country is lost: the round trip gives the bare language, which differs from the input |
| LocaleCodec.DecodeEncode | TMessagesProj/src/main/java/tw/nekomimi/nekogram/transtale/Translator.kt:19-35 | `lang` and `lang-COUNTRY` codes (separator-free parts, non-blank country) survive decode then encode exactly |
| Dispatch.TargetCode | TMessagesProj/src/main/java/tw/nekomimi/nekogram/transtale/Translator.kt:65-75 | language plus `-` plus upper-cased country exactly when the provider is below 3 and the locale is zh with CN/TW in any case or pt with PT/BR; otherwise the bare language; always the bare language for providers 3 and up |
| Dispatch.ChineseRegionCaseInsensitive | TMessagesProj/src/main/java/tw/nekomimi/nekogram/transtale/Translator.kt:69 | the zh country test accepts exactly the eight case variants of CN and TW |
| Dispatch.PortugueseRegionCaseSensitive | TMessagesProj/src/main/java/tw/nekomimi/nekogram/transtale/Translator.kt:69-72 | `pt`/`br` gives the bare `pt`, `pt`/`BR` gives `pt-BR`, `zh`/`tw` gives `zh-TW` |
| Dispatch.TargetCodeDecodes | TMessagesProj/src/main/java/tw/nekomimi/nekogram/transtale/Translator.kt:65-75 | the target code decodes to the same language, with the upper-cased country exactly when it was kept |
| Dispatch.SelectBackend | TMessagesProj/src/main/java/tw/nekomimi/nekogram/transtale/Translator.kt:77-82 | a backend exists exactly for 1..4; GoogleWeb exactly for 1 and 2, Lingo for 3, Yandex for 4 |
| Dispatch.SelectBackendCollapse | TMessagesProj/src/main/java/tw/nekomimi/nekogram/transtale/Translator.kt:77-82 | two providers share a backend only if equal or both in {1, 2} |
| Dispatch.Translate | TMessagesProj/src/main/java/tw/nekomimi/nekogram/transtale/Translator.kt:63-88 | unknown providers throw `IllegalArgumentException`; otherwise the selected backend's own result for ("auto", normalised target, query) is returned unchanged |
| Dispatch.InvalidProviderIgnoresBackend | TMessagesProj/src/main/java/tw/nekomimi/nekogram/transtale/Translator.kt:77-82 | an unknown provider fails identically for every target, text and backend |
| Dispatch.TranslateChineseExample | TMessagesProj/src/main/java/tw/nekomimi/nekogram/transtale/Translator.kt:63-88 | zh-CN with provider 1 calls GoogleWeb with ("auto", "zh-CN", "hello") |
| Dispatch.TranslateDefault | TMessagesProj/src/main/java/tw/nekomimi/nekogram/transtale/Translator.kt:59 | translates into the decoded configured code, or into the current locale when none is configured |
| Dispatch.Deliver | TMessagesProj/src/main/java/tw/nekomimi/nekogram/transtale/Translator.kt:171-185 | a success goes to `onSuccess` with the text; a failure goes to `onFailed` with the unsupported flag and the message, or the class name when there is no message |
| Dispatch.AsyncUnsupported | TMessagesProj/src/main/java/tw/nekomimi/nekogram/transtale/Translator.kt:171-185 | a backend that throws `UnsupportedOperationException` gives `onFailed(true, message)` |
| Dispatch.AsyncInvalidProvider | TMessagesProj/src/main/java/tw/nekomimi/nekogram/transtale/Translator.kt:171-185 | an unknown provider gives `onFailed(false, "IllegalArgumentException")` |
| Picker.Distinct | TMessagesProj/src/main/java/tw/nekomimi/nekogram/transtale/Translator.kt:94 | same elements as the input, none twice |
| Picker.DistinctPrefix | TMessagesProj/src/main/java/tw/nekomimi/nekogram/transtale/Translator.kt:94 | the distinct codes of a prefix are a prefix of the distinct codes, so `toSet()` keeps first-occurrence order |
| Picker.FilterMultiset | TMessagesProj/src/main/java/tw/nekomimi/nekogram/transtale/Translator.kt:94 | the filter keeps each language-only locale as often as the input holds it, and nothing else |
| Picker.FilterConcat | TMessagesProj/src/main/java/tw/nekomimi/nekogram/transtale/Translator.kt:94 | filtering a concatenation is concatenating the filtered parts, so the kept locales stay in input order |
| Picker.DecodeAll | TMessagesProj/src/main/java/tw/nekomimi/nekogram/transtale/Translator.kt:94 | element by element the decoded codes |
| Picker.FilterLanguageOnly | TMessagesProj/src/main/java/tw/nekomimi/nekogram/transtale/Translator.kt:94 | keeps exactly the locales of the input that are `Picker.LanguageOnly` (country and variant blank in the sense of `Text.IsBlank`) |
| Picker.DefaultLocale | TMessagesProj/src/main/java/tw/nekomimi/nekogram/transtale/Translator.kt:100 | the current locale for types below 2, English otherwise |
| Picker.ArrayRemove | TMessagesProj/src/main/java/tw/nekomimi/nekogram/transtale/Translator.kt:104 | one slot shorter; slots before the index kept, later ones shifted down |
| Picker.ArrayInsert | TMessagesProj/src/main/java/tw/nekomimi/nekogram/transtale/Translator.kt:105 | one slot longer; the new element at the index, others kept or shifted up |
| Picker.RemoveFirstAt | TMessagesProj/src/main/java/tw/nekomimi/nekogram/transtale/Translator.kt:102-104 | removing the first occurrence found at `k` is removing slot `k` |
| Picker.RemoveFirstMultiset | TMessagesProj/src/main/java/tw/nekomimi/nekogram/transtale/Translator.kt:104 | removing the first occurrence takes exactly one copy away |
| Picker.PromoteDefault | TMessagesProj/src/main/java/tw/nekomimi/nekogram/transtale/Translator.kt:98-111 | the loop's result is the filtered list with the first default occurrence moved to the front, or the list unchanged |
| Picker.PromotedPermutation | TMessagesProj/src/main/java/tw/nekomimi/nekogram/transtale/Translator.kt:98-111 | the promoted list is a permutation of the filtered list |
| Picker.PromotedShape | TMessagesProj/src/main/java/tw/nekomimi/nekogram/transtale/Translator.kt:98-111 | with the first default at `k`: default first, then the others in their old order |
| Picker.PromotedIdempotent | TMessagesProj/src/main/java/tw/nekomimi/nekogram/transtale/Translator.kt:98-111 | promoting twice equals promoting once |
| Picker.Present | TMessagesProj/src/main/java/tw/nekomimi/nekogram/transtale/Translator.kt:137 | with no null slot, dropping the nulls keeps every slot in place |
| Picker.BuildLabels | TMessagesProj/src/main/java/tw/nekomimi/nekogram/transtale/Translator.kt:113-133 | label count is `Picker.LabelCount`: the locale count, plus one outside full mode; slot 0 holds `Picker.DefaultEntry`, the "Default ( name )" form of line 119, even without promotion; other slots hold the display name; outside full mode the last slot is "More" |
| Picker.ShowTargetLangSelect | TMessagesProj/src/main/java/tw/nekomimi/nekogram/transtale/Translator.kt:90-137 | locales are the promoted, filtered `Picker.CandidatePool` (all available locales in full mode, else the distinct pack codes decoded) and the labels are as in BuildLabels |
| Picker.MenuFromPool | TMessagesProj/src/main/java/tw/nekomimi/nekogram/transtale/Translator.kt:94-111 | every offered locale has blank country and variant, and each is offered exactly as often as the pool holds it |
| Picker.MenuDefaultFirst | TMessagesProj/src/main/java/tw/nekomimi/nekogram/transtale/Translator.kt:98-107 | a language-only default present in the pool is offered first |
| Picker.DistinctBareCodes | TMessagesProj/src/main/java/tw/nekomimi/nekogram/transtale/Translator.kt:94 | in the model (no case folding), separator-free pack codes give pairwise distinct entries |
| Picker.DistinctCodesSameLocale | TMessagesProj/src/main/java/tw/nekomimi/nekogram/transtale/Translator.kt:94 | the codes "en" and "en_" are distinct but give English twice |
| Picker.OnItemSelected | TMessagesProj/src/main/java/tw/nekomimi/nekogram/transtale/Translator.kt:137-159 | index `locales.size`, and only it, reopens in full mode; other indices call back with that locale, writing its code to the translate-to slot for type 1, the input slot for type 2, nowhere otherwise |
| Picker.PersistedChoiceRestores | TMessagesProj/src/main/java/tw/nekomimi/nekogram/transtale/Translator.kt:145-155 | the persisted code of a bare-language choice decodes back to the chosen locale |
| Picker.ChosenTargetIsTranslated | TMessagesProj/src/main/java/tw/nekomimi/nekogram/transtale/Translator.kt:145-147 | after a type-1 choice of any offered locale (blank country and variant, separator-free language), `translate(query)` translates exactly as into that locale |
| TransDbRegistry.TranslateDb.constructor | TMessagesProj/src/main/java/tw/nekomimi/nekogram/transtale/Translator.kt:41 | the handle remembers the code it was built from |
| TransDbRegistry.Repo.TransDb | TMessagesProj/src/main/java/tw/nekomimi/nekogram/transtale/Translator.kt:39-47 | a present key returns its handle with the map unchanged; a missing key gets a fresh handle built from `locale2code`, stored under it, no other key changed; every stored handle matches its key's code |
| TransDbRegistry.Repo.TransDbByCode | TMessagesProj/src/main/java/tw/nekomimi/nekogram/transtale/Translator.kt:49 | get-or-insert on the decoded code |
| TransDbRegistry.Repo.TransDbTwice | TMessagesProj/src/main/java/tw/nekomimi/nekogram/transtale/Translator.kt:39-47 | a second lookup of the same locale returns the same handle |

## Left out

- Threading of the asynchronous `translate` (`runOnIoDispatcher`, `runOnUIThread`) is not modelled. Only the classification of its outcome is (`Deliver`). The success callback is posted to the UI thread; the failure callback is not. That is not visible in the model.
- The backends `GoogleWebTranslator`, `LingoTranslator` and `YandexTranslator` are network clients. They are the opaque `doTranslate` argument.
- `PopupBuilder`, the anchor `View` and `builder.show()` are UI. The picker returns its locales and labels, and `OnItemSelected` gives the effect of a choice. Reopening in full mode is the `ReopenFull` effect, not a recursive call.
- `LocaleController.LocaleInfo.locale` (`Translator.kt:37`) is `code2Locale` applied to a plural code. The picker applies `Code2Locale` to those codes directly.
- The contents of `TranslateDb` are not modelled; it is a handle holding its code. `TranslateDb.repo` is a global in the source and an object passed in here.
- `NekoConfig` reads and writes are parameters and recorded `ConfigWrite` values. Nothing is stored.
- Text.ToUpper: letters outside ASCII are not upper-cased, because full Java case mapping is not available in the model.
- Text.IsWhitespace: only ASCII whitespace counts. Unicode space separators and the extra blank characters of `StrUtil.isBlank` are left out.
- Picker.ArrayRemove: only in-range indices are modelled. The source only calls it with an index of the array.
- Picker.ArrayInsert: only indices within the array or at its end are modelled. The source only inserts at index 0.
- Script and extensions of a Java `Locale` are left out, and Java's `equals` compares them too. With a record of three strings, the model cannot tell a script-only locale such as `sr__#Latn`, which the full-mode filter offers, apart from `sr`.
- The case folding of the Java `Locale` constructor is left out. `Locale("ZH", "cn")` keeps its strings in the model.
- The `ArrayIndexOutOfBoundsException` of an item index beyond the locales is left out. The popup only reports indices of its items (`Picker.OnItemSelected` requires one).
