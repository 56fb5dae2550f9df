/**
  The exact "shares add up to one" check of the prize validator.

  The validator never reduces fractions and never divides: it folds the
  shares left to right into an unreduced running pair, starting at 0/1,
  and accepts when the two totals are equal. This module defines that fold
  and relates it to the rational sum of the shares.
 */
module Fractions {

  /** A laureate's share as entered; neither part is checked for sign or zero. */
  datatype Fraction = Fraction(nominator: int, denominator: int)

  /** The running pair nominatorTotal / denominatorTotal. */
  datatype Total = Total(nominator: int, denominator: int)

  /** The pair the fold starts from: 0/1. */
  const Start: Total := Total(0, 1)

  /** One cross-multiplication step: a/b + n/d becomes (a*d + b*n)/(b*d). */
  function Step(t: Total, f: Fraction): (r: Total)
  {
    Total(t.nominator * f.denominator + t.denominator * f.nominator,
          t.denominator * f.denominator)
  }

  /** The fold over the shares in list order. */
  function Fold(fs: seq<Fraction>): (t: Total)
  {
    if |fs| == 0 then Start else Step(Fold(fs[..|fs| - 1]), fs[|fs| - 1])
  }

  /** Folding one more share is one more step. */
  lemma FoldAppend(fs: seq<Fraction>, f: Fraction)
    ensures Fold(fs + [f]) == Step(Fold(fs), f)
  {
    assert (fs + [f])[..|fs|] == fs;
  }

  /** The final test of the fraction check: the two totals are equal. */
  predicate AddsUpToOne(fs: seq<Fraction>)
  {
    var t := Fold(fs);
    t.nominator == t.denominator
  }

  /** Reference: the product of all denominators. */
  function DenominatorProduct(fs: seq<Fraction>): (p: int)
  {
    if |fs| == 0 then 1 else DenominatorProduct(fs[..|fs| - 1]) * fs[|fs| - 1].denominator
  }

  predicate NonzeroDenominators(fs: seq<Fraction>)
  {
    forall i :: 0 <= i < |fs| ==> fs[i].denominator != 0
  }

  /** Reference: the exact rational sum of the shares. */
  function Sum(fs: seq<Fraction>): (s: real)
    requires NonzeroDenominators(fs)
  {
    if |fs| == 0 then 0.0
    else Sum(fs[..|fs| - 1]) + fs[|fs| - 1].nominator as real / fs[|fs| - 1].denominator as real
  }

  /** The running denominator is always the product of the denominators seen so far, whatever their values. */
  lemma {:induction false} FoldDenominator(fs: seq<Fraction>)
    ensures Fold(fs).denominator == DenominatorProduct(fs)
  {
    if |fs| > 0 {
      FoldDenominator(fs[..|fs| - 1]);
    }
  }

  /** Dropping the last share keeps the denominators nonzero. */
  lemma PrefixNonzero(fs: seq<Fraction>)
    requires |fs| > 0 && NonzeroDenominators(fs)
    ensures NonzeroDenominators(fs[..|fs| - 1])
  {
    var init := fs[..|fs| - 1];
    forall i | 0 <= i < |init| ensures init[i].denominator != 0 {
      assert init[i] == fs[i];
    }
  }

  /** The product of nonzero denominators is nonzero. */
  lemma {:induction false} ProductNonzero(fs: seq<Fraction>)
    requires NonzeroDenominators(fs)
    ensures DenominatorProduct(fs) != 0
  {
    if |fs| > 0 {
      var init := fs[..|fs| - 1];
      PrefixNonzero(fs);
      ProductNonzero(init);
      assert fs[|fs| - 1].denominator != 0;
    }
  }

  /**
    The fold invariant: with nonzero denominators, nominatorTotal / denominatorTotal
    is the rational sum of the shares folded so far.
   */
  lemma {:induction false} FoldInvariant(fs: seq<Fraction>)
    requires NonzeroDenominators(fs)
    ensures Fold(fs).denominator == DenominatorProduct(fs) != 0
    ensures Fold(fs).nominator as real == Fold(fs).denominator as real * Sum(fs)
  {
    FoldDenominator(fs);
    ProductNonzero(fs);
    if |fs| > 0 {
      var init := fs[..|fs| - 1];
      PrefixNonzero(fs);
      FoldInvariant(init);
      StepKeepsSum(Fold(init), fs[|fs| - 1], Sum(init));
    }
  }

  /** One step of the fold adds the share to the sum the running pair stands for. */
  lemma StepKeepsSum(t: Total, f: Fraction, s: real)
    requires f.denominator != 0
    requires t.nominator as real == t.denominator as real * s
    ensures Step(t, f).nominator as real == Step(t, f).denominator as real * (s + f.nominator as real / f.denominator as real)
  {
    StepKeepsRatio(t.nominator, t.denominator, f.nominator, f.denominator, s);
  }

  /** The algebra of one step: if a = b*s then a*d + b*n = (b*d)*(s + n/d). */
  lemma StepKeepsRatio(a: int, b: int, n: int, d: int, s: real)
    requires d != 0
    requires a as real == b as real * s
    ensures (a * d + b * n) as real == (b * d) as real * (s + n as real / d as real)
  {
    var ar, br, nr, dr := a as real, b as real, n as real, d as real;
    assert (a * d) as real == ar * dr;
    assert (b * n) as real == br * nr;
    assert (b * d) as real == br * dr;
    assert dr * (nr / dr) == nr;
    calc {
      br * dr * (s + nr / dr);
      br * dr * s + br * (dr * (nr / dr));
      ar * dr + br * nr;
    }
  }

  /** A nonzero scale factor preserves equality with one. */
  lemma ScaledIsOne(a: real, b: real, s: real)
    requires b != 0.0 && a == b * s
    ensures a == b <==> s == 1.0
  {
    if a == b {
      assert b * (s - 1.0) == 0.0;
    }
  }

  /** With nonzero denominators the check accepts exactly when the shares sum to one. */
  lemma AddsUpToOneIffSumIsOne(fs: seq<Fraction>)
    requires NonzeroDenominators(fs)
    ensures AddsUpToOne(fs) <==> Sum(fs) == 1.0
  {
    FoldInvariant(fs);
    var t := Fold(fs);
    ScaledIsOne(t.nominator as real, t.denominator as real, Sum(fs));
  }

  /**
    The check as written also accepts any list whose last share is 0/0: the
    step multiplies both totals by zero. So does the single share 0/0.
   */
  lemma TrailingZeroShareAccepted(fs: seq<Fraction>)
    ensures AddsUpToOne(fs + [Fraction(0, 0)])
  {
    FoldAppend(fs, Fraction(0, 0));
  }

  /** The loop of the fraction check, as an accumulation over the shares. */
  method FoldShares(fs: seq<Fraction>) returns (nominatorTotal: int, denominatorTotal: int)
    ensures Total(nominatorTotal, denominatorTotal) == Fold(fs)
    ensures denominatorTotal == DenominatorProduct(fs)
    ensures NonzeroDenominators(fs) ==> (nominatorTotal == denominatorTotal <==> Sum(fs) == 1.0)
  {
    nominatorTotal := 0;
    denominatorTotal := 1;
    var i := 0;
    while i < |fs|
      invariant 0 <= i <= |fs|
      invariant Total(nominatorTotal, denominatorTotal) == Fold(fs[..i])
    {
      assert fs[..i + 1][..i] == fs[..i];
      nominatorTotal := nominatorTotal * fs[i].denominator + denominatorTotal * fs[i].nominator;
      denominatorTotal := denominatorTotal * fs[i].denominator;
      i := i + 1;
    }
    assert fs[..|fs|] == fs;
    FoldDenominator(fs);
    if NonzeroDenominators(fs) {
      AddsUpToOneIffSumIsOne(fs);
    }
  }
}
