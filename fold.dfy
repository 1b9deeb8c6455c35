/** Go's `strings.EqualFold`: equality of two strings under simple Unicode case folding,
    compared rune by rune. Dafny's `char` is a Unicode scalar value, which is what Go
    decodes a string into before comparing. */
module Fold {

  /** LATIN SMALL LETTER LONG S, which folds together with 's' and 'S'. */
  const LongS: char := '\U{017F}'
  /** KELVIN SIGN, which folds together with 'k' and 'K'. */
  const Kelvin: char := '\U{212A}'

  /** The representative of the folding class of `c`: ASCII letters fold to lower case,
      and the two non-ASCII runes whose class holds an ASCII letter fold to that letter. */
  function FoldKey(c: char): char
  {
    if 'A' <= c <= 'Z' then (c as int + 32) as char
    else if c == LongS then 's'
    else if c == Kelvin then 'k'
    else c
  }

  /** `a` and `b` have the same number of runes and agree rune by rune up to folding. */
  predicate EqualFold(a: string, b: string)
  {
    if a == [] then b == []
    else b != [] && FoldKey(a[0]) == FoldKey(b[0]) && EqualFold(a[1..], b[1..])
  }

  /** The recursive definition agrees with the position-wise reading of the comparison. */
  lemma {:induction false} EqualFoldPointwise(a: string, b: string)
    ensures EqualFold(a, b) <==>
      |a| == |b| && forall i :: 0 <= i < |a| ==> FoldKey(a[i]) == FoldKey(b[i])
  {
    if a != [] && b != [] {
      EqualFoldPointwise(a[1..], b[1..]);
      if EqualFold(a, b) {
        forall i | 0 <= i < |a| ensures FoldKey(a[i]) == FoldKey(b[i]) {
          if i > 0 { assert a[i] == a[1..][i - 1] && b[i] == b[1..][i - 1]; }
        }
      }
      if |a| == |b| && forall i :: 0 <= i < |a| ==> FoldKey(a[i]) == FoldKey(b[i]) {
        forall i | 0 <= i < |a[1..]| ensures FoldKey(a[1..][i]) == FoldKey(b[1..][i]) {
          assert a[1..][i] == a[i + 1] && b[1..][i] == b[i + 1];
        }
      }
    }
  }

  /** Case-insensitive equality is an equivalence relation. */
  lemma EqualFoldIsEquivalence(a: string, b: string, c: string)
    ensures EqualFold(a, a)
    ensures EqualFold(a, b) ==> EqualFold(b, a)
    ensures EqualFold(a, b) && EqualFold(b, c) ==> EqualFold(a, c)
  {
    EqualFoldPointwise(a, a);
    EqualFoldPointwise(a, b);
    EqualFoldPointwise(b, a);
    EqualFoldPointwise(b, c);
    EqualFoldPointwise(a, c);
  }
}
