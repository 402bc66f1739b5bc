/**
 * The few operations of the .NET `string` type that the catalogue relies on,
 * written out over `seq<char>`: the case fold of ordinal case-insensitive
 * comparison, `IndexOf`, and `IsNullOrWhiteSpace`.
 */
module Text {

  /** Upper-cases an ASCII letter and leaves every other character alone:
      the per-character fold of `OrdinalIgnoreCase`, restricted to ASCII. */
  function FoldChar(c: char): char
  {
    if 'a' <= c <= 'z' then (c as int - 32) as char else c
  }

  /** Folds every character of `s`. */
  function Fold(s: string): string
  {
    seq(|s|, i requires 0 <= i < |s| => FoldChar(s[i]))
  }

  /** Folding twice is folding once, so a fragment that is already folded
      (upper case) matches exactly what its lower-case spelling matches. */
  lemma FoldIdempotent(s: string)
    ensures Fold(Fold(s)) == Fold(s)
  {
    forall i | 0 <= i < |s|
      ensures Fold(Fold(s))[i] == Fold(s)[i]
    {
      var c := s[i];
      assert Fold(s)[i] == FoldChar(c);
    }
  }

  /** `fragment` sits in `text` starting at position `i`. */
  predicate OccursAt(text: string, fragment: string, i: nat)
  {
    i + |fragment| <= |text| && text[i..i + |fragment|] == fragment
  }

  /** `fragment` sits somewhere in `text`. */
  ghost predicate Contains(text: string, fragment: string)
  {
    exists i: nat :: OccursAt(text, fragment, i)
  }

  /** The first position at or after `from` where `fragment` occurs in `text`, or -1. */
  function IndexOfFrom(text: string, fragment: string, from: nat): (r: int)
    requires from <= |text|
    ensures r == -1 || (from <= r && OccursAt(text, fragment, r))
    ensures r != -1 ==> forall i: nat :: from <= i < r ==> !OccursAt(text, fragment, i)
    ensures r == -1 ==> forall i: nat :: from <= i ==> !OccursAt(text, fragment, i)
    decreases |text| - from
  {
    if from + |fragment| > |text| then -1
    else if text[from..from + |fragment|] == fragment then from
    else IndexOfFrom(text, fragment, from + 1)
  }

  /** `String.IndexOf`: the position of the first occurrence of `fragment`
      in `text`, or -1 when there is none. The empty fragment occurs at 0. */
  function IndexOf(text: string, fragment: string): (r: int)
    ensures -1 <= r <= |text|
    ensures r >= 0 <==> Contains(text, fragment)
    ensures r >= 0 ==> OccursAt(text, fragment, r) && forall i: nat :: i < r ==> !OccursAt(text, fragment, i)
  {
    IndexOfFrom(text, fragment, 0)
  }

  /** `Char.IsWhiteSpace`: the space, line and paragraph separators of
      Unicode, the control characters U+0009 to U+000D, and U+0085. */
  predicate IsWhiteSpace(c: char)
  {
    var n := c as int;
    || 0x09 <= n <= 0x0D
    || n == 0x20
    || n == 0x85
    || n == 0xA0
    || n == 0x1680
    || 0x2000 <= n <= 0x200A
    || n == 0x2028
    || n == 0x2029
    || n == 0x202F
    || n == 0x205F
    || n == 0x3000
  }

  /** `String.IsNullOrWhiteSpace` on a non-null string: empty or all white space. */
  predicate IsBlank(s: string)
  {
    forall i :: 0 <= i < |s| ==> IsWhiteSpace(s[i])
  }
}
