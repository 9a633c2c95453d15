/**
 * The .NET string predicates the library relies on: string.IsNullOrWhiteSpace and
 * comparison under StringComparer.OrdinalIgnoreCase.
 */
module Strings {
  import opened Wrappers

  /** char.IsWhiteSpace: the Unicode space, line and paragraph separators, U+0009..U+000D and U+0085. */
  predicate IsWhiteSpace(c: char) {
    c == ' ' || ('\t' <= c <= '\r') || c == '\U{0085}' || c == '\U{00A0}' || c == '\U{1680}'
    || ('\U{2000}' <= c <= '\U{200A}') || c == '\U{2028}' || c == '\U{2029}' || c == '\U{202F}'
    || c == '\U{205F}' || c == '\U{3000}'
  }

  /** Scans the characters one by one, as string.IsNullOrWhiteSpace does. */
  function AllWhiteSpace(s: string): (r: bool)
    ensures r <==> forall i :: 0 <= i < |s| ==> IsWhiteSpace(s[i])
  {
    if |s| == 0 then true
    else if !IsWhiteSpace(s[0]) then false
    else
      var rest := AllWhiteSpace(s[1..]);
      assert forall i :: 1 <= i < |s| ==> s[i] == s[1..][i - 1];
      rest
  }

  /** string.IsNullOrWhiteSpace: null, empty, or only white space. */
  predicate IsNullOrWhiteSpace(s: Option<string>) {
    s.None? || AllWhiteSpace(s.value)
  }

  /** The upper-case form OrdinalIgnoreCase compares; only the ASCII letters are mapped. */
  function ToUpperOrdinal(c: char): char {
    if 'a' <= c <= 'z' then (c as int - 32) as char else c
  }

  function Fold(s: string): (r: string)
    ensures |r| == |s|
  {
    if |s| == 0 then [] else [ToUpperOrdinal(s[0])] + Fold(s[1..])
  }

  /** Folding maps each character on its own. */
  lemma {:induction false} FoldAt(s: string)
    ensures forall i :: 0 <= i < |s| ==> Fold(s)[i] == ToUpperOrdinal(s[i])
  {
    if |s| > 0 {
      FoldAt(s[1..]);
      assert forall i :: 1 <= i < |s| ==> Fold(s)[i] == Fold(s[1..])[i - 1];
    }
  }

  /** Folding a string of known characters: the upper-cased form given character by character. */
  lemma FoldLiteral(s: string, u: string)
    requires |s| == |u| && forall i :: 0 <= i < |s| ==> ToUpperOrdinal(s[i]) == u[i]
    ensures Fold(s) == u
  {
    FoldAt(s);
  }

  /** String equality under StringComparer.OrdinalIgnoreCase. */
  predicate EqualsIgnoreCase(a: string, b: string) {
    Fold(a) == Fold(b)
  }

  /** The comparison is character by character, after upper-casing both sides. */
  lemma {:induction false} EqualsIgnoreCaseIsOrdinal(a: string, b: string)
    ensures EqualsIgnoreCase(a, b) <==>
      |a| == |b| && forall i :: 0 <= i < |a| ==> ToUpperOrdinal(a[i]) == ToUpperOrdinal(b[i])
  {
    FoldAt(a);
    FoldAt(b);
    if |a| == |b| && forall i :: 0 <= i < |a| ==> ToUpperOrdinal(a[i]) == ToUpperOrdinal(b[i]) {
      assert forall i :: 0 <= i < |a| ==> Fold(a)[i] == Fold(b)[i];
    }
  }
}
