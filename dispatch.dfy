/**
 * `Translator.translate`: target-code normalisation, provider dispatch, the
 * overload that reads the configured target, and the callback classification
 * of the asynchronous overload. The backends are an opaque function argument.
 */
module Dispatch {
  import opened Wrappers
  import opened Text
  import opened LocaleCodec

  /** The translator objects `GoogleWebTranslator`, `LingoTranslator`, `YandexTranslator`. */
  datatype Backend = GoogleWeb | Lingo | Yandex

  /** A JVM throwable: its simple class name, whether it is an `UnsupportedOperationException`, its message. */
  datatype Throwable = Throwable(className: string, unsupported: bool, message: Option<string>)

  /** `throw IllegalArgumentException()`: no message. */
  const IllegalArgument := Throwable("IllegalArgumentException", false, None)

  /** `doTranslate(from, to, query)` of each backend; it returns a translation or throws. */
  type DoTranslate = (Backend, string, string, string) -> Result<string, Throwable>

  /** The zh country test: case-insensitive against CN and TW. */
  predicate IsChineseRegion(country: string) {
    ToUpper(country) == "CN" || ToUpper(country) == "TW"
  }

  /** The pt country test: case-sensitive against PT and BR. */
  predicate IsPortugueseRegion(country: string) {
    country == "PT" || country == "BR"
  }

  /** Whether provider `provider` keeps the country of `to` in the target code. */
  predicate KeepsRegion(to: Locale, provider: int) {
    provider < 3 &&
    ((to.language == "zh" && IsChineseRegion(to.country)) ||
     (to.language == "pt" && IsPortugueseRegion(to.country)))
  }

  /**
   * `toLang`: the bare language, except that the Google family (provider below 3)
   * gets `zh-CN`, `zh-TW`, `pt-PT`, `pt-BR` with the country upper-cased.
   */
  function TargetCode(to: Locale, provider: int): (toLang: string)
    ensures KeepsRegion(to, provider) ==> toLang == to.language + "-" + ToUpper(to.country)
    ensures !KeepsRegion(to, provider) ==> toLang == to.language
    ensures provider >= 3 ==> toLang == to.language
  {
    var toLang := to.language;
    if provider < 3 then
      if to.language == "zh" && (ToUpper(to.country) == "CN" || ToUpper(to.country) == "TW") then
        to.language + "-" + ToUpper(to.country)
      else if to.language == "pt" && to.country in ["PT", "BR"] then
        to.language + "-" + ToUpper(to.country)
      else toLang
    else toLang
  }

  /** The provider `when`: 1 and 2 are Google, 3 Lingo, 4 Yandex, anything else has no backend. */
  function SelectBackend(provider: int): (b: Option<Backend>)
    ensures b.Some? <==> 1 <= provider <= 4
    ensures b == Some(GoogleWeb) <==> provider == 1 || provider == 2
    ensures b == Some(Lingo) <==> provider == 3
    ensures b == Some(Yandex) <==> provider == 4
  {
    if 1 <= provider <= 2 then Some(GoogleWeb)
    else if provider == 3 then Some(Lingo)
    else if provider == 4 then Some(Yandex)
    else None
  }

  /** Two providers share a backend only when they are equal or are 1 and 2. */
  lemma SelectBackendCollapse(p: int, q: int)
    requires SelectBackend(p).Some? && SelectBackend(p) == SelectBackend(q)
    ensures p == q || (p in {1, 2} && q in {1, 2})
  {
  }

  /**
   * `translate(to, query)`: an unknown provider throws `IllegalArgumentException`;
   * otherwise the selected backend is asked to translate from "auto" into the
   * normalised target, and its outcome is passed on unchanged.
   */
  function Translate(to: Locale, query: string, provider: int, doTranslate: DoTranslate): (r: Result<string, Throwable>)
    ensures !(1 <= provider <= 4) ==> r == Failure(IllegalArgument)
    ensures provider in {1, 2} ==> r == doTranslate(GoogleWeb, "auto", TargetCode(to, provider), query)
    ensures provider == 3 ==> r == doTranslate(Lingo, "auto", to.language, query)
    ensures provider == 4 ==> r == doTranslate(Yandex, "auto", to.language, query)
  {
    var toLang := TargetCode(to, provider);
    match SelectBackend(provider)
    case Some(translator) => doTranslate(translator, "auto", toLang, query)
    case None => Failure(IllegalArgument)
  }

  /**
   * `translate(query)`: the target is the configured code decoded, or the
   * current locale when nothing is configured.
   */
  function TranslateDefault(query: string, translateToLang: Option<string>, currentLocale: Locale,
                            provider: int, doTranslate: DoTranslate): (r: Result<string, Throwable>)
    ensures translateToLang.None? ==> r == Translate(currentLocale, query, provider, doTranslate)
    ensures translateToLang.Some? ==> r == Translate(Code2Locale(translateToLang.value), query, provider, doTranslate)
  {
    var to := match translateToLang case Some(code) => Code2Locale(code) case None => currentLocale;
    Translate(to, query, provider, doTranslate)
  }

  /** An unknown provider fails the same way whatever the target, the text or the backends. */
  lemma InvalidProviderIgnoresBackend(to: Locale, to': Locale, query: string, query': string,
                                      provider: int, f: DoTranslate, g: DoTranslate)
    requires !(1 <= provider <= 4)
    ensures Translate(to, query, provider, f) == Translate(to', query', provider, g)
  {
  }

  /** The Google family keeps zh-CN and zh-TW in any letter case of the country. */
  lemma ChineseRegionCaseInsensitive(country: string)
    ensures IsChineseRegion(country) <==>
      country in ["CN", "Cn", "cN", "cn", "TW", "Tw", "tW", "tw"]
  {
    UpperTwoLetters(country, "CN");
    UpperTwoLetters(country, "TW");
    if |country| == 2 {
      assert country == [country[0], country[1]];
    }
  }

  /**
   * ... while for Portuguese a lower-case country falls back to the bare
   * language. Only the model shows this difference: the Java `Locale`
   * constructor upper-cases the country, so an app `Locale` never reaches
   * these tests with a lower-case one.
   */
  lemma PortugueseRegionCaseSensitive()
    ensures TargetCode(Locale("pt", "br", ""), 1) == "pt"
    ensures TargetCode(Locale("pt", "BR", ""), 1) == "pt-BR"
    ensures TargetCode(Locale("zh", "tw", ""), 2) == "zh-TW"
  {
    ChineseRegionCaseInsensitive("br");
    assert ToUpper("BR") == "BR";
    assert ToUpper("tw") == "TW";
  }

  /**
   * The target code is itself a locale code: when the language has no
   * separators it decodes back to the same language, with the upper-cased
   * country exactly when the region was kept.
   */
  lemma TargetCodeDecodes(to: Locale, provider: int)
    requires HasNoSeparator(to.language)
    ensures KeepsRegion(to, provider) ==>
      Code2Locale(TargetCode(to, provider)) == Locale(to.language, ToUpper(to.country), "")
    ensures !KeepsRegion(to, provider) ==>
      Code2Locale(TargetCode(to, provider)) == Locale(to.language, "", "")
  {
    if KeepsRegion(to, provider) {
      var up := ToUpper(to.country);
      assert up == "CN" || up == "TW" || up == "PT" || up == "BR" by {
        if to.language == "pt" {
          assert ToUpper("PT") == "PT" && ToUpper("BR") == "BR";
        }
      }
      DecodeMany(to.language, '-', up, "");
      assert to.language + "-" + up == to.language + ['-'] + up + [];
    } else {
      DecodeSingle(to.language);
    }
  }

  /** `translate(Locale("zh", "CN"), "hello")` with provider 1 asks GoogleWeb for ("auto", "zh-CN", "hello"). */
  lemma TranslateChineseExample(doTranslate: DoTranslate)
    ensures Translate(Locale("zh", "CN", ""), "hello", 1, doTranslate) ==
            doTranslate(GoogleWeb, "auto", "zh-CN", "hello")
  {
    assert ToUpper("CN") == "CN";
    assert KeepsRegion(Locale("zh", "CN", ""), 1);
    assert "zh" + "-" + "CN" == "zh-CN";
  }

  /** What the callback of the asynchronous `translate` receives. */
  datatype CallbackEvent = OnSuccess(translation: string) | OnFailed(unsupported: bool, message: string)

  /**
   * The `runCatching` of the asynchronous overload: a translation goes to
   * `onSuccess`; a failure to `onFailed`, flagged when it is an
   * `UnsupportedOperationException`, with its message or else its class name.
   */
  function Deliver(r: Result<string, Throwable>): (e: CallbackEvent)
    ensures r.Success? <==> e.OnSuccess?
    ensures r.Success? ==> e.translation == r.value
    ensures r.Failure? ==> e.unsupported == r.error.unsupported
    ensures r.Failure? && r.error.message.Some? ==> e.message == r.error.message.value
    ensures r.Failure? && r.error.message.None? ==> e.message == r.error.className
  {
    match r
    case Success(result) => OnSuccess(result)
    case Failure(it) => OnFailed(it.unsupported, it.message.GetOr(it.className))
  }

  /** A backend that refuses the pair reaches the callback as an unsupported failure, never as a success. */
  lemma AsyncUnsupported(to: Locale, query: string, provider: int, doTranslate: DoTranslate, className: string, message: string)
    requires 1 <= provider <= 4
    requires forall b, f, t, q :: doTranslate(b, f, t, q) == Failure(Throwable(className, true, Some(message)))
    ensures Deliver(Translate(to, query, provider, doTranslate)) == OnFailed(true, message)
  {
  }

  /** An unknown provider reaches the callback as a generic failure named after the exception class. */
  lemma AsyncInvalidProvider(to: Locale, query: string, provider: int, doTranslate: DoTranslate)
    requires !(1 <= provider <= 4)
    ensures Deliver(Translate(to, query, provider, doTranslate)) == OnFailed(false, "IllegalArgumentException")
  {
  }
}
