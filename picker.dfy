/**
 * `showTargetLangSelect`: the candidate list, the promotion of the default
 * locale to the front, the label array and what a selection does. The popup
 * itself, the locale database and the localised strings are inputs.
 */
module Picker {
  import opened Wrappers
  import opened Text
  import opened LocaleCodec
  import Dispatch

  /** Kotlin's `toSet()` as iterated: the distinct elements in order of first occurrence. */
  function Distinct(xs: seq<string>): (r: seq<string>)
    ensures forall x :: x in r <==> x in xs
    ensures forall i, j :: 0 <= i < j < |r| ==> r[i] != r[j]
  {
    if xs == [] then []
    else
      var init := Distinct(xs[..|xs| - 1]);
      var last := xs[|xs| - 1];
      assert xs == xs[..|xs| - 1] + [last];
      if last in xs[..|xs| - 1] then init else init + [last]
  }

  /** `map { it.code2Locale }` */
  function DecodeAll(codes: seq<string>): (r: seq<Locale>)
    ensures |r| == |codes|
    ensures forall i :: 0 <= i < |codes| ==> r[i] == Code2Locale(codes[i])
  {
    seq(|codes|, i requires 0 <= i < |codes| => Code2Locale(codes[i]))
  }

  /** The filter of the picker: blank country and blank variant. */
  predicate LanguageOnly(l: Locale) {
    IsBlank(l.country) && IsBlank(l.variant)
  }

  /** `filter { it.country.isBlank() && it.variant.isBlank() }`; order and multiplicity are kept (FilterConcat, FilterMultiset). */
  function FilterLanguageOnly(s: seq<Locale>): (r: seq<Locale>)
    ensures forall x :: x in r ==> x in s && LanguageOnly(x)
    ensures forall x :: x in s && LanguageOnly(x) ==> x in r
  {
    if s == [] then []
    else
      assert s == [s[0]] + s[1..];
      (if LanguageOnly(s[0]) then [s[0]] else []) + FilterLanguageOnly(s[1..])
  }

  /** The filter keeps every language-only locale as often as the input holds it, and nothing else. */
  lemma {:induction false} FilterMultiset(s: seq<Locale>)
    ensures forall x :: multiset(FilterLanguageOnly(s))[x] == if LanguageOnly(x) then multiset(s)[x] else 0
  {
    if s != [] {
      assert s == [s[0]] + s[1..];
      FilterMultiset(s[1..]);
    }
  }

  /** Filtering a concatenation filters each part: the kept locales stay in input order. */
  lemma {:induction false} FilterConcat(a: seq<Locale>, b: seq<Locale>)
    ensures FilterLanguageOnly(a + b) == FilterLanguageOnly(a) + FilterLanguageOnly(b)
  {
    if a == [] {
      assert a + b == b;
    } else {
      var head := if LanguageOnly(a[0]) then [a[0]] else [];
      var restA, restB := FilterLanguageOnly(a[1..]), FilterLanguageOnly(b);
      assert FilterLanguageOnly(a + b) == head + FilterLanguageOnly(a[1..] + b) by {
        assert (a + b)[0] == a[0];
        assert (a + b)[1..] == a[1..] + b;
      }
      FilterConcat(a[1..], b);
      assert head + (restA + restB) == (head + restA) + restB;
    }
  }

  /** The distinct elements of a prefix come first, in the same order: first-occurrence order. */
  lemma {:induction false} DistinctPrefix(xs: seq<string>, k: nat)
    requires k <= |xs|
    ensures Distinct(xs[..k]) <= Distinct(xs)
  {
    if k < |xs| {
      assert xs[..|xs| - 1][..k] == xs[..k];
      DistinctPrefix(xs[..|xs| - 1], k);
    } else {
      assert xs[..k] == xs;
    }
  }

  /** The pool before filtering: every available locale in full mode, else the distinct language-pack codes decoded. */
  function CandidatePool(full: bool, available: seq<Locale>, languageCodes: seq<string>): seq<Locale> {
    if full then available else DecodeAll(Distinct(languageCodes))
  }

  /** `defLang`: the current locale for types 0 and 1 (and below), English otherwise. */
  function DefaultLocale(pickerType: int, currLocale: Locale): (d: Locale)
    ensures pickerType < 2 ==> d == currLocale
    ensures pickerType >= 2 ==> d == English
  {
    if pickerType < 2 then currLocale else English
  }

  /** `s` with its first `x` taken out. */
  function RemoveFirst<T(==)>(s: seq<T>, x: T): seq<T> {
    if s == [] then []
    else if s[0] == x then s[1..]
    else [s[0]] + RemoveFirst(s[1..], x)
  }

  /** The specification of the promotion: the first `d` moves to the front, the rest keep their order. */
  function Promoted<T(==)>(s: seq<T>, d: T): seq<T> {
    if d in s then [d] + RemoveFirst(s, d) else s
  }

  /** `ArrayUtil.remove(array, index)` on an index inside the array: a new array without that slot. */
  function ArrayRemove<T>(s: seq<T>, index: nat): (r: seq<T>)
    requires index < |s|
    ensures |r| == |s| - 1
    ensures forall i :: 0 <= i < |r| ==> r[i] == if i < index then s[i] else s[i + 1]
  {
    s[..index] + s[index + 1..]
  }

  /** `ArrayUtil.insert(array, index, x)` on an index inside or at the end of the array. */
  function ArrayInsert<T>(s: seq<T>, index: nat, x: T): (r: seq<T>)
    requires index <= |s|
    ensures |r| == |s| + 1 && r[index] == x
    ensures forall i :: 0 <= i < index ==> r[i] == s[i]
    ensures forall i :: index < i < |r| ==> r[i] == s[i - 1]
  {
    s[..index] + [x] + s[index..]
  }

  /** Taking out the first `x` found at `k` is removing slot `k`. */
  lemma {:induction false} RemoveFirstAt<T>(s: seq<T>, x: T, k: nat)
    requires k < |s| && s[k] == x && x !in s[..k]
    ensures RemoveFirst(s, x) == s[..k] + s[k + 1..]
  {
    if k > 0 {
      assert s[0] in s[..k];
      assert s[1..][..k - 1] == s[1..k];
      RemoveFirstAt(s[1..], x, k - 1);
    }
  }

  /** Taking out the first `x` removes exactly one `x`. */
  lemma {:induction false} RemoveFirstMultiset<T>(s: seq<T>, x: T)
    requires x in s
    ensures multiset(RemoveFirst(s, x)) == multiset(s) - multiset{x}
  {
    assert s == [s[0]] + s[1..];
    if s[0] != x {
      RemoveFirstMultiset(s[1..], x);
    }
  }

  /** The promoted list is a permutation of the list. */
  lemma PromotedPermutation<T>(s: seq<T>, d: T)
    ensures multiset(Promoted(s, d)) == multiset(s)
  {
    if d in s {
      RemoveFirstMultiset(s, d);
      assert multiset{d} <= multiset(s);
    }
  }

  /** When `d` occurs it heads the promoted list and the others keep their relative order. */
  lemma PromotedShape<T>(s: seq<T>, d: T, k: nat)
    requires k < |s| && s[k] == d && d !in s[..k]
    ensures Promoted(s, d) == [d] + s[..k] + s[k + 1..]
  {
    RemoveFirstAt(s, d, k);
  }

  /** Promoting twice is promoting once. */
  lemma PromotedIdempotent<T>(s: seq<T>, d: T)
    ensures Promoted(Promoted(s, d), d) == Promoted(s, d)
  {
  }

  /**
   * The promotion loop: the first slot equal to the default locale is removed
   * and the default locale is inserted at index 0; without such a slot the
   * list is untouched.
   */
  method PromoteDefault(filtered: seq<Locale>, pickerType: int, currLocale: Locale) returns (locales: seq<Locale>)
    ensures locales == Promoted(filtered, DefaultLocale(pickerType, currLocale))
  {
    locales := filtered;
    for i := 0 to |filtered|
      invariant locales == filtered
      invariant DefaultLocale(pickerType, currLocale) !in filtered[..i]
    {
      var defLang := DefaultLocale(pickerType, currLocale);
      if locales[i] == defLang {
        RemoveFirstAt(filtered, defLang, i);
        locales := ArrayRemove(locales, i);
        locales := ArrayInsert(locales, 0, defLang);
        assert locales == [defLang] + (filtered[..i] + filtered[i + 1..]);
        return;
      }
      assert filtered[..i + 1] == filtered[..i] + [filtered[i]];
    }
    assert filtered[..|filtered|] == filtered;
  }

  /** `filterIsInstance<CharSequence>()`: drops the null slots. */
  function Present(xs: seq<Option<string>>): (r: seq<string>)
    ensures (forall i :: 0 <= i < |xs| ==> xs[i].Some?) ==>
      |r| == |xs| && forall i :: 0 <= i < |xs| ==> r[i] == xs[i].value
  {
    if xs == [] then []
    else
      var rest := Present(xs[1..]);
      if xs[0].Some? then
        assert forall i :: 1 <= i < |xs| ==> xs[1..][i - 1] == xs[i];
        [xs[0].value] + rest
      else rest
  }

  /** The label of slot 0. */
  function DefaultEntry(defaultLabel: string, name: string): string {
    defaultLabel + " ( " + name + " )"
  }

  /** Number of labels: one extra slot for "More" when not in full mode. */
  function LabelCount(localeCount: nat, full: bool): nat {
    if full then localeCount else localeCount + 1
  }

  /**
   * The label array: slot 0 reads "Default ( name )", the other slots the
   * display name, and outside full mode the last slot is "More".
   */
  method BuildLabels(locales: seq<Locale>, full: bool, defaultLabel: string, moreLabel: string,
                     displayName: Locale -> string) returns (labels: seq<string>)
    ensures |labels| == LabelCount(|locales|, full)
    ensures |locales| > 0 ==> labels[0] == DefaultEntry(defaultLabel, displayName(locales[0]))
    ensures forall i :: 0 < i < |locales| ==> labels[i] == displayName(locales[i])
    ensures !full ==> labels[|locales|] == moreLabel
  {
    var localeNames := new Option<string>[LabelCount(|locales|, full)](_ => None);
    for i := 0 to |locales|
      invariant forall j :: 0 <= j < i ==> localeNames[j].Some?
      invariant i > 0 ==> localeNames[0] == Some(DefaultEntry(defaultLabel, displayName(locales[0])))
      invariant forall j :: 0 < j < i ==> localeNames[j] == Some(displayName(locales[j]))
    {
      localeNames[i] := if i == 0 then Some(DefaultEntry(defaultLabel, displayName(locales[i])))
                        else Some(displayName(locales[i]));
    }
    if !full {
      localeNames[localeNames.Length - 1] := Some(moreLabel);
    }
    labels := Present(localeNames[..]);
  }

  /** What `showTargetLangSelect` hands to the popup: the locales behind the items and the item labels. */
  datatype Menu = Menu(locales: seq<Locale>, labels: seq<string>)

  /**
   * Builds the menu for a picker of type `pickerType`. `available` is the
   * locale database, `languageCodes` the language pack's plural codes,
   * `displayName` the display name in the current locale.
   */
  method ShowTargetLangSelect(pickerType: int, full: bool, available: seq<Locale>, languageCodes: seq<string>,
                              currLocale: Locale, displayName: Locale -> string,
                              defaultLabel: string, moreLabel: string) returns (menu: Menu)
    ensures menu.locales ==
      Promoted(FilterLanguageOnly(CandidatePool(full, available, languageCodes)), DefaultLocale(pickerType, currLocale))
    ensures |menu.labels| == LabelCount(|menu.locales|, full)
    ensures |menu.locales| > 0 ==> menu.labels[0] == DefaultEntry(defaultLabel, displayName(menu.locales[0]))
    ensures forall i :: 0 < i < |menu.locales| ==> menu.labels[i] == displayName(menu.locales[i])
    ensures !full ==> menu.labels[|menu.locales|] == moreLabel
  {
    var locales := FilterLanguageOnly(CandidatePool(full, available, languageCodes));
    locales := PromoteDefault(locales, pickerType, currLocale);
    var localeNames := BuildLabels(locales, full, defaultLabel, moreLabel, displayName);
    menu := Menu(locales, localeNames);
  }

  /**
   * The menu offers only language-only locales, the promoted one included,
   * each as often as the pool holds it.
   */
  lemma MenuFromPool(pool: seq<Locale>, d: Locale)
    ensures forall x :: x in Promoted(FilterLanguageOnly(pool), d) ==> LanguageOnly(x)
    ensures forall x :: multiset(Promoted(FilterLanguageOnly(pool), d))[x] ==
                        if LanguageOnly(x) then multiset(pool)[x] else 0
  {
    var f := FilterLanguageOnly(pool);
    PromotedPermutation(f, d);
    FilterMultiset(pool);
    forall x | x in Promoted(f, d)
      ensures LanguageOnly(x)
    {
      assert x in multiset(Promoted(f, d));
    }
  }

  /** A default locale that survives the filter ends up first. */
  lemma MenuDefaultFirst(pool: seq<Locale>, d: Locale)
    requires d in pool && LanguageOnly(d)
    ensures Promoted(FilterLanguageOnly(pool), d)[0] == d
  {
  }

  /** Distinct codes that are bare languages give distinct entries outside full mode. */
  lemma DistinctBareCodes(languageCodes: seq<string>)
    requires forall c :: c in languageCodes ==> HasNoSeparator(c)
    ensures forall i, j :: 0 <= i < j < |DecodeAll(Distinct(languageCodes))| ==>
      DecodeAll(Distinct(languageCodes))[i] != DecodeAll(Distinct(languageCodes))[j]
  {
    var codes := Distinct(languageCodes);
    forall i, j | 0 <= i < j < |codes|
      ensures Code2Locale(codes[i]) != Code2Locale(codes[j])
    {
      DecodeSingle(codes[i]);
      DecodeSingle(codes[j]);
    }
  }

  /** Distinct codes need not give distinct entries: "en" and "en_" both decode to English. */
  lemma DistinctCodesSameLocale()
    ensures DecodeAll(Distinct(["en", "en_"])) == [English, English]
  {
    var codes := ["en", "en_"];
    assert codes[..1] == ["en"];
    assert Distinct(["en"]) == ["en"] by {
      assert ["en"][..0] == [];
    }
    assert "en" != "en_";
    assert codes[|codes| - 1] !in codes[..1];
    assert Distinct(codes) == ["en"] + ["en_"];
    DecodeSingle("en");
    DecodeMany("en", '_', "", "");
    assert "en" + ['_'] + "" + [] == "en_";
    assert Code2Locale("en_") == English;
    assert DecodeAll(["en", "en_"]) == [Code2Locale("en"), Code2Locale("en_")];
  }

  /** A recorded call of `NekoConfig.setTranslateToLang` or `setTranslateInputToLang`. */
  datatype ConfigWrite = SetTranslateToLang(code: string) | SetTranslateInputToLang(code: string)

  /** The effect of choosing an item: reopen in full mode, or persist (maybe) and call back. */
  datatype Selection = ReopenFull | Chosen(write: Option<ConfigWrite>, locale: Locale)

  /**
   * The item listener: index `locales.size` reopens the picker in full mode;
   * another index persists the locale's code (type 1: translate-to slot,
   * type 2: input slot, otherwise nowhere) and calls back with that locale.
   */
  function OnItemSelected(locales: seq<Locale>, pickerType: int, index: int): (s: Selection)
    requires 0 <= index <= |locales|
    ensures s.ReopenFull? <==> index == |locales|
    ensures index < |locales| ==> s.locale == locales[index]
    ensures index < |locales| && pickerType == 1 ==> s.write == Some(SetTranslateToLang(Locale2Code(locales[index])))
    ensures index < |locales| && pickerType == 2 ==> s.write == Some(SetTranslateInputToLang(Locale2Code(locales[index])))
    ensures index < |locales| && pickerType != 1 && pickerType != 2 ==> s.write == None
  {
    if index == |locales| then ReopenFull
    else
      var write := if pickerType == 1 then Some(SetTranslateToLang(Locale2Code(locales[index])))
                   else if pickerType == 2 then Some(SetTranslateInputToLang(Locale2Code(locales[index])))
                   else None;
      Chosen(write, locales[index])
  }

  /** The persisted code decodes back to the chosen locale when it is a bare language. */
  lemma PersistedChoiceRestores(locales: seq<Locale>, pickerType: int, index: int)
    requires 0 <= index < |locales| && pickerType in {1, 2}
    requires locales[index].country == "" && locales[index].variant == ""
    requires HasNoSeparator(locales[index].language)
    ensures Code2Locale(OnItemSelected(locales, pickerType, index).write.value.code) == locales[index]
  {
    EncodeDecode(locales[index]);
  }

  /**
   * Choosing any offered locale (blank country and variant, separator-free
   * language) in a type-1 picker makes the one-argument `translate(query)`
   * translate exactly as into that locale.
   */
  lemma ChosenTargetIsTranslated(locales: seq<Locale>, index: int, query: string, currLocale: Locale,
                                 provider: int, doTranslate: Dispatch.DoTranslate)
    requires 0 <= index < |locales|
    requires LanguageOnly(locales[index])
    requires HasNoSeparator(locales[index].language)
    ensures Dispatch.TranslateDefault(query, Some(OnItemSelected(locales, 1, index).write.value.code),
                                      currLocale, provider, doTranslate)
         == Dispatch.Translate(locales[index], query, provider, doTranslate)
  {
    var l := locales[index];
    DecodeSingle(l.language);
    var restored := Code2Locale(Locale2Code(l));
    assert restored == Locale(l.language, "", "");
    assert Dispatch.TargetCode(restored, provider) == Dispatch.TargetCode(l, provider) by {
      UpperTwoLetters(l.country, "CN");
      UpperTwoLetters(l.country, "TW");
      UpperTwoLetters("", "CN");
      UpperTwoLetters("", "TW");
      assert !Dispatch.KeepsRegion(l, provider) by {
        assert !IsBlank("PT") && !IsBlank("BR") by {
          assert !IsWhitespace("PT"[0]) && !IsWhitespace("BR"[0]);
        }
        assert |l.country| == 2 ==> IsWhitespace(l.country[0]) && IsWhitespace(l.country[1]);
      }
      assert !Dispatch.KeepsRegion(restored, provider);
    }
  }
}
