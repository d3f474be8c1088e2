/** Cutting 64-bit words into radix-2^beta digits, as Equality::configure and computeLeafOTs do. */
module Digits {
  import opened Arithmetic

  const TWO_64: nat := 0x1_0000_0000_0000_0000

  // uint64_t.
  type Word = n: nat | n < TWO_64

  // uint8_t.
  type Octet = n: nat | n < 256

  function Pow2(n: nat): (r: nat)
    ensures r >= 1
  {
    if n == 0 then 1 else 2 * Pow2(n - 1)
  }

  lemma {:induction false} Pow2Adds(m: nat, n: nat)
    ensures Pow2(m + n) == Pow2(m) * Pow2(n)
  {
    if m > 0 {
      Pow2Adds(m - 1, n);
    }
  }

  lemma Pow2Constants()
    ensures Pow2(8) == 256 && Pow2(16) == 0x1_0000 && Pow2(32) == 0x1_0000_0000 && Pow2(64) == TWO_64
  {
    assert Pow2(4) == 16;
    Pow2Adds(4, 4);
    Pow2Adds(8, 8);
    Pow2Adds(16, 16);
    Pow2Adds(32, 32);
  }

  // A word is its own low 64 bits.
  lemma WordFits(x: Word)
    ensures x % Pow2(64) == x
  {
    hide Pow2;
    Pow2Constants();
  }

  // Word width l and digit width beta of a comparison.
  datatype Radix = Radix(l: nat, beta: nat) {
    // What the constructor asserts, and the sizes it divides by.
    predicate Valid() {
      1 <= l <= 64 && 1 <= beta <= 8
    }

    function NumDigits(): (n: nat)
      requires Valid()
      ensures n >= 1
    {
      CeilDiv(l, beta)
    }

    // Width of the short last digit, 0 if there is none.
    function R(): nat
      requires Valid()
    {
      l % beta
    }

    // A short last digit wider than four bits ends in the invalid_argument exception.
    predicate Supported()
      requires Valid()
    {
      R() <= 4
    }

    lemma SupportedIff()
      requires Valid()
      ensures Supported() <==> l % beta <= 4
    {
    }

    function Width(i: nat): (w: nat)
      requires Valid()
      ensures w <= beta
    {
      if i == NumDigits() - 1 && R() != 0 then R() else beta
    }

    // Digit i of x, counted from the low end: shift, cast to uint8_t, mask.
    function Digit(x: nat, i: nat): (d: nat)
      requires Valid()
      ensures d < Pow2(Width(i))
    {
      Div(x, Pow2(i * beta)) % 256 % Pow2(Width(i))
    }

    // Bits covered by the first n digits.
    function Covered(n: nat): nat
      requires Valid()
    {
      if n < NumDigits() then n * beta else l
    }

    lemma CoveredNext(i: nat)
      requires Valid() && i < NumDigits()
      ensures Covered(i) == i * beta && Covered(i + 1) == i * beta + Width(i)
    {
      CeilDivCases(l, beta);
      DivMod(l, beta);
      assert (i + 1) * beta == i * beta + beta;
    }

    // Equal low bits up to a digit boundary are equal digits up to there.
    lemma {:induction false} PrefixDecided(x: nat, y: nat, n: nat)
      requires Valid() && n <= NumDigits()
      ensures x % Pow2(Covered(n)) == y % Pow2(Covered(n)) <==> forall i :: 0 <= i < n ==> Digit(x, i) == Digit(y, i)
    {
      if n == 0 {
        assert Pow2(0) == 1;
      } else {
        PrefixDecided(x, y, n - 1);
        CoveredNext(n - 1);
        DigitExtends(x, n - 1);
        DigitExtends(y, n - 1);
        var m := Pow2(Covered(n - 1));
        if x % Pow2(Covered(n)) == y % Pow2(Covered(n)) {
          PairInjective(Digit(x, n - 1), x % m, Digit(y, n - 1), y % m, m);
        }
      }
    }

    // A digit is the next bits above the ones already covered.
    lemma DigitExtends(x: nat, i: nat)
      requires Valid() && i < NumDigits()
      ensures x % Pow2(Covered(i + 1)) == Digit(x, i) * Pow2(Covered(i)) + x % Pow2(Covered(i))
    {
      hide Pow2, CeilDiv;
      CoveredNext(i);
      Pow2Adds(i * beta, Width(i));
      SplitMod(x, Pow2(i * beta), Pow2(Width(i)));
      ByteCast(Div(x, Pow2(i * beta)), Width(i));
    }

    // All digits agree exactly when the low l bits do.
    lemma DigitsDecide(x: nat, y: nat)
      requires Valid()
      ensures (forall i :: 0 <= i < NumDigits() ==> Digit(x, i) == Digit(y, i)) <==> x % Pow2(l) == y % Pow2(l)
    {
      PrefixDecided(x, y, NumDigits());
    }
  }

  // Casting to uint8_t first does not disturb a mask of at most eight bits.
  lemma ByteCast(z: nat, w: nat)
    requires w <= 8
    ensures z % 256 % Pow2(w) == z % Pow2(w)
  {
    Pow2Adds(w, 8 - w);
    assert Pow2(8) == 256;
    SplitMod(z, Pow2(w), Pow2(8 - w));
    DivModUnique(z % 256, Div(z, Pow2(w)) % Pow2(8 - w), z % Pow2(w), Pow2(w));
  }
}
