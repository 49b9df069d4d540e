/**
 * The locale codec: `String.code2Locale` and `Locale.locale2code`.
 * Both are memoised in the source; the memo only ever returns what the plain
 * function computes, so they are modelled as plain functions.
 */
module LocaleCodec {
  import opened Text

  /**
   * `java.util.Locale` reduced to its three fields. Construction stores the
   * strings as given and equality compares all three fields.
   */
  datatype Locale = Locale(language: string, country: string, variant: string)

  /** `Locale.ENGLISH` */
  const English := Locale("en", "", "")

  /**
   * `code2Locale`: `-` is read as `_`, the code is split on `_`, the first
   * segment is the language and the second (if any) the country; later
   * segments are dropped. Every string decodes, the empty one to an empty language.
   */
  function Code2Locale(code: string): (l: Locale)
    ensures l.variant == ""
    ensures HasNoSeparator(l.language) && HasNoSeparator(l.country)
    ensures l.language <= code
  {
    var args := Split(Replace(code, '-', '_'), '_');
    var l := if |args| == 1 then Locale(args[0], "", "") else Locale(args[0], args[1], "");
    assert l.language <= code by {
      var replaced := Replace(code, '-', '_');
      forall i | 0 <= i < |l.language|
        ensures code[i] == l.language[i]
      {
        assert replaced[i] == l.language[i];
        assert l.language[i] != '_';
      }
    }
    l
  }

  /**
   * `locale2code`: the language alone when the country is blank, otherwise
   * language, `-`, country. No case is changed.
   */
  function Locale2Code(l: Locale): (code: string)
    ensures l.language <= code
    ensures code == l.language <==> IsBlank(l.country)
    ensures !IsBlank(l.country) ==> code[|l.language|] == '-' && code[|l.language| + 1..] == l.country
  {
    if IsBlank(l.country) then l.language else l.language + "-" + l.country
  }

  /** A code without separators is a bare language. */
  lemma DecodeSingle(a: string)
    requires HasNoSeparator(a)
    ensures Code2Locale(a) == Locale(a, "", "")
  {
    ReplaceAbsent(a, '-', '_');
    SplitWithout(a, '_');
  }

  /**
   * A code with at least one separator: first segment language, second
   * segment country, rest ignored (`rest` is empty or starts a third segment).
   */
  lemma DecodeMany(a: string, sep: char, b: string, rest: string)
    requires HasNoSeparator(a) && HasNoSeparator(b) && IsSeparator(sep)
    requires rest == [] || IsSeparator(rest[0])
    ensures Code2Locale(a + [sep] + b + rest) == Locale(a, b, "")
  {
    var code := a + [sep] + b + rest;
    if rest == [] {
      assert Replace(code, '-', '_') == a + ['_'] + b;
      SplitAfter(a, b, '_');
      SplitWithout(b, '_');
    } else {
      var tail := Replace(rest[1..], '-', '_');
      assert Replace(code, '-', '_') == a + ['_'] + (b + ['_'] + tail);
      SplitAfter(a, b + ['_'] + tail, '_');
      SplitAfter(b, tail, '_');
    }
  }

  /** `-` and `_` are interchangeable: replacing one by the other does not change the decoded locale. */
  lemma DecodeIgnoresSeparatorKind(code: string)
    ensures Code2Locale(Replace(code, '-', '_')) == Code2Locale(code)
  {
    var once := Replace(code, '-', '_');
    assert Replace(once, '-', '_') == once;
  }

  /**
   * Round trip from locales: a language and a country without separators, the
   * country empty or not blank, survive encoding and decoding (the variant is not encoded).
   */
  lemma EncodeDecode(l: Locale)
    requires HasNoSeparator(l.language) && HasNoSeparator(l.country)
    requires l.country == "" || !IsBlank(l.country)
    ensures Code2Locale(Locale2Code(l)) == Locale(l.language, l.country, "")
  {
    if l.country == "" {
      DecodeSingle(l.language);
    } else {
      DecodeMany(l.language, '-', l.country, "");
      assert l.language + "-" + l.country == l.language + ['-'] + l.country + [];
    }
  }

  /** A blank but non-empty country is lost by the round trip. */
  lemma EncodeDecodeDropsBlankCountry(l: Locale)
    requires HasNoSeparator(l.language) && IsBlank(l.country) && l.country != ""
    ensures Code2Locale(Locale2Code(l)) == Locale(l.language, "", "") != l
  {
    DecodeSingle(l.language);
  }

  /**
   * Round trip from codes: a bare language, or a language, one `-` and a
   * non-blank country, is reproduced exactly.
   */
  lemma DecodeEncode(a: string, b: string)
    requires HasNoSeparator(a) && HasNoSeparator(b)
    ensures Locale2Code(Code2Locale(a)) == a
    ensures !IsBlank(b) ==> Locale2Code(Code2Locale(a + "-" + b)) == a + "-" + b
  {
    DecodeSingle(a);
    DecodeMany(a, '-', b, "");
    assert a + "-" + b == a + ['-'] + b + [];
  }
}
