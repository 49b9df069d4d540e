/**
 * The string primitives the translation layer relies on: Kotlin's
 * `replace(char, char)`, `split(char)` and `toUpperCase()`, and the blank
 * test of `StrUtil.isBlank` and Kotlin's `isBlank()`.
 */
module Text {

  /** Locale codes use `-` and `_` interchangeably between segments. */
  predicate IsSeparator(c: char) {
    c == '-' || c == '_'
  }

  predicate HasNoSeparator(s: string) {
    '-' !in s && '_' !in s
  }

  /** The whitespace characters of `Character.isWhitespace` in the ASCII range. */
  predicate IsWhitespace(c: char) {
    c == ' ' || c == '\t' || c == '\n' || c == '\r' || c == '\U{B}' || c == '\U{C}' ||
    ('\U{1C}' <= c <= '\U{1F}')
  }

  /** Empty, or whitespace only. */
  predicate IsBlank(s: string) {
    forall i :: 0 <= i < |s| ==> IsWhitespace(s[i])
  }

  /** `s.replace(from, to)` on characters: every `from` becomes `to`, nothing else moves. */
  function Replace(s: string, from: char, to: char): (r: string)
    ensures |r| == |s|
    ensures forall i :: 0 <= i < |s| ==> r[i] == if s[i] == from then to else s[i]
    ensures from != to ==> from !in r
  {
    seq(|s|, i requires 0 <= i < |s| => if s[i] == from then to else s[i])
  }

  /** A string without `from` is left as it is. */
  lemma ReplaceAbsent(s: string, from: char, to: char)
    requires from !in s
    ensures Replace(s, from, to) == s
  {
  }

  /** The inverse of `Split`: the segments glued back with the delimiter. */
  function Join(parts: seq<string>, d: char): string
    requires |parts| >= 1
  {
    if |parts| == 1 then parts[0] else parts[0] + [d] + Join(parts[1..], d)
  }

  /**
   * Kotlin's `s.split(d)`: every delimiter ends a segment, empty segments are
   * kept (so `""` splits into `[""]` and `"a_"` into `["a", ""]`).
   */
  function Split(s: string, d: char): (r: seq<string>)
    ensures |r| >= 1
    ensures forall k :: 0 <= k < |r| ==> d !in r[k]
    ensures forall k, c :: 0 <= k < |r| && c in r[k] ==> c in s
    ensures r[0] <= s
    ensures Join(r, d) == s
  {
    if s == [] then [""]
    else
      var rest := Split(s[1..], d);
      if s[0] == d then
        assert Join([""] + rest, d) == [d] + Join(rest, d) by {
          assert ([""] + rest)[1..] == rest;
        }
        assert [d] + s[1..] == s;
        [""] + rest
      else
        var r := [[s[0]] + rest[0]] + rest[1..];
        assert Join(r, d) == [s[0]] + Join(rest, d) by {
          if |rest| > 1 {
            assert r[1..] == rest[1..];
            assert Join(rest, d) == rest[0] + [d] + Join(rest[1..], d);
          }
        }
        assert [s[0]] + s[1..] == s;
        r
  }

  /** Input without the delimiter is one segment. */
  lemma {:induction false} SplitWithout(s: string, d: char)
    requires d !in s
    ensures Split(s, d) == [s]
  {
    if s != [] {
      assert s == [s[0]] + s[1..];
      SplitWithout(s[1..], d);
    }
  }

  /** The first delimiter ends the first segment; the rest is split on its own. */
  lemma {:induction false} SplitAfter(a: string, b: string, d: char)
    requires d !in a
    ensures Split(a + [d] + b, d) == [a] + Split(b, d)
  {
    if a == [] {
      assert a + [d] + b == [d] + b;
      assert ([d] + b)[1..] == b;
    } else {
      assert (a + [d] + b)[1..] == a[1..] + [d] + b;
      assert a == [a[0]] + a[1..];
      SplitAfter(a[1..], b, d);
    }
  }

  /** ASCII upper-casing of one character. */
  function UpperChar(c: char): (u: char)
    ensures 'a' <= c <= 'z' ==> 'A' <= u <= 'Z' && u as int == c as int - 32
    ensures !('a' <= c <= 'z') ==> u == c
  {
    if 'a' <= c <= 'z' then (c as int - 32) as char else c
  }

  /** `toUpperCase()`, restricted to ASCII letters. */
  function ToUpper(s: string): (r: string)
    ensures |r| == |s|
    ensures forall i :: 0 <= i < |s| ==> r[i] == UpperChar(s[i])
  {
    seq(|s|, i requires 0 <= i < |s| => UpperChar(s[i]))
  }

  /** A string that upper-cases to an upper-case word of length two is that word in some mix of cases. */
  lemma UpperTwoLetters(s: string, w: string)
    requires |w| == 2 && 'A' <= w[0] <= 'Z' && 'A' <= w[1] <= 'Z'
    ensures ToUpper(s) == w <==>
      |s| == 2 && (s[0] == w[0] || s[0] as int == w[0] as int + 32) && (s[1] == w[1] || s[1] as int == w[1] as int + 32)
  {
    if |s| == 2 && (s[0] == w[0] || s[0] as int == w[0] as int + 32) && (s[1] == w[1] || s[1] as int == w[1] as int + 32) {
      assert ToUpper(s)[0] == w[0] && ToUpper(s)[1] == w[1];
    }
    if ToUpper(s) == w {
      assert UpperChar(s[0]) == w[0] && UpperChar(s[1]) == w[1];
    }
  }
}
