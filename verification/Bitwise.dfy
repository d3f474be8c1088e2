/** Bitwise operators on natural numbers of any width. */
module Bitwise {
  import opened Arithmetic
  import opened Digits

  function Half(n: nat): nat {
    n / 2
  }

  function Low(n: nat): nat {
    n % 2
  }

  lemma Halves(n: nat)
    ensures n == 2 * Half(n) + Low(n) && Low(n) < 2 && (n > 0 ==> Half(n) < n)
  {
  }

  lemma HalvesUnique(n: nat, h: nat, r: nat)
    requires n == 2 * h + r && r < 2
    ensures Half(n) == h && Low(n) == r
  {
  }

  function Xor(a: nat, b: nat): nat
    decreases a + b
  {
    if a == 0 && b == 0 then 0 else 2 * Xor(Half(a), Half(b)) + XorLow(Low(a), Low(b))
  }

  function And(a: nat, b: nat): nat
    decreases a + b
  {
    if a == 0 || b == 0 then 0 else 2 * And(Half(a), Half(b)) + if Low(a) == 1 && Low(b) == 1 then 1 else 0
  }

  function Or(a: nat, b: nat): nat
    decreases a + b
  {
    if a == 0 && b == 0 then 0 else 2 * Or(Half(a), Half(b)) + if Low(a) == 1 || Low(b) == 1 then 1 else 0
  }

  function XorLow(r: nat, t: nat): nat {
    if r == t then 0 else 1
  }

  // One bit at a time.
  lemma XorStep(a: nat, b: nat)
    ensures Xor(a, b) == 2 * Xor(Half(a), Half(b)) + XorLow(Low(a), Low(b))
    ensures Half(Xor(a, b)) == Xor(Half(a), Half(b)) && Low(Xor(a, b)) == XorLow(Low(a), Low(b))
  {
    HalvesUnique(Xor(a, b), Xor(Half(a), Half(b)), XorLow(Low(a), Low(b)));
  }

  lemma XorNothing()
    ensures Xor(0, 0) == 0
  {
  }

  lemma {:induction false} XorBound(a: nat, b: nat, n: nat)
    requires a < Pow2(n) && b < Pow2(n)
    ensures Xor(a, b) < Pow2(n)
  {
    if n > 0 {
      hide Xor, Half, Low;
      Halves(a);
      Halves(b);
      XorStep(a, b);
      XorBound(Half(a), Half(b), n - 1);
    } else {
      XorNothing();
    }
  }

  lemma {:induction false} XorCommutes(a: nat, b: nat)
    ensures Xor(a, b) == Xor(b, a)
    decreases a + b
  {
    if a != 0 || b != 0 {
      hide Xor, Half, Low;
      Halves(a);
      Halves(b);
      XorStep(a, b);
      XorStep(b, a);
      XorCommutes(Half(a), Half(b));
    }
  }

  lemma {:induction false} XorZero(a: nat)
    ensures Xor(a, 0) == a
  {
    hide Xor, Half, Low;
    if a == 0 {
      XorNothing();
    } else {
      Halves(a);
      HalvesUnique(0, 0, 0);
      XorStep(a, 0);
      XorZero(Half(a));
    }
  }

  lemma {:induction false} XorSelf(a: nat)
    ensures Xor(a, a) == 0
  {
    hide Xor, Half, Low;
    if a == 0 {
      XorNothing();
    } else {
      Halves(a);
      XorStep(a, a);
      XorSelf(Half(a));
    }
  }

  lemma {:induction false} XorAssociates(a: nat, b: nat, c: nat)
    ensures Xor(Xor(a, b), c) == Xor(a, Xor(b, c))
    decreases a + b + c
  {
    hide Xor, Half, Low;
    if a == 0 && b == 0 && c == 0 {
      XorNothing();
    } else {
      Halves(a);
      Halves(b);
      Halves(c);
      XorAssociates(Half(a), Half(b), Half(c));
      XorStep(a, b);
      XorStep(b, c);
      XorStep(Xor(a, b), c);
      XorStep(a, Xor(b, c));
    }
  }

  lemma XorThrough(u: nat, v: nat, w: nat)
    ensures Xor(Xor(u, v), Xor(v, w)) == Xor(u, w)
  {
    hide Xor;
    XorAssociates(u, v, Xor(v, w));
    XorAssociates(v, v, w);
    XorSelf(v);
    XorCommutes(0, w);
    XorZero(w);
  }

  function Bit(n: nat, k: nat): nat {
    n / Pow2(k) % 2
  }

  lemma BitBelow(n: nat, k: nat)
    ensures Bit(n, k) == if k == 0 then Low(n) else Bit(Half(n), k - 1)
  {
    if k > 0 {
      DivDiv(n, 2, Pow2(k - 1));
    }
  }

  lemma {:induction false} XorBits(a: nat, b: nat, k: nat)
    ensures Bit(Xor(a, b), k) == XorLow(Bit(a, k), Bit(b, k))
    decreases k
  {
    hide *;
    BitBelow(a, k);
    BitBelow(b, k);
    BitBelow(Xor(a, b), k);
    XorStep(a, b);
    if k > 0 {
      XorBits(Half(a), Half(b), k - 1);
    }
  }

  // Bit k of the XOR is set exactly when the bits k of the operands differ.
  lemma XorBit(a: nat, b: nat, k: nat)
    ensures Xor(a, b) / Pow2(k) % 2 == 1 <==> a / Pow2(k) % 2 != b / Pow2(k) % 2
  {
    hide Xor, Pow2;
    XorBits(a, b, k);
  }

  // An equation between differences can be crossed.
  lemma XorCross(a: nat, b: nat, c: nat, d: nat)
    requires Xor(a, b) == Xor(c, d)
    ensures Xor(a, c) == Xor(b, d)
  {
    hide Xor;
    XorThrough(a, b, c);
    XorThrough(d, c, b);
    XorCommutes(c, d);
    XorCommutes(b, c);
    XorCommutes(b, d);
  }

  lemma Pow2Halves(n: nat)
    ensures Pow2(n + 1) == 2 * Pow2(n) && Half(Pow2(n + 1)) == Pow2(n) && Low(Pow2(n + 1)) == 0
    ensures Half(Pow2(n + 1) - 1) == Pow2(n) - 1 && Low(Pow2(n + 1) - 1) == 1
  {
    HalvesUnique(Pow2(n + 1), Pow2(n), 0);
    HalvesUnique(Pow2(n + 1) - 1, Pow2(n) - 1, 1);
  }

  lemma OneBit(a: nat)
    ensures Pow2(0) == 1 && Pow2(1) == 2 && (a < 2 ==> Xor(a, 1) == 1 - a)
  {
    assert Xor(0, 0) == 0;
  }

  // Flipping bit n, the top bit of a number of n + 1 bits.
  lemma {:induction false} XorTop(a: nat, n: nat)
    requires a < Pow2(n + 1)
    ensures Xor(a, Pow2(n)) == if a < Pow2(n) then a + Pow2(n) else a - Pow2(n)
  {
    hide Xor, Half, Low, Pow2;
    if n == 0 {
      OneBit(a);
    } else {
      Pow2Halves(n);
      Pow2Halves(n - 1);
      Halves(a);
      XorStep(a, Pow2(n));
      XorTop(Half(a), n - 1);
    }
  }

  // Flipping all of the low n bits.
  lemma {:induction false} XorOnes(a: nat, n: nat)
    requires a < Pow2(n)
    ensures Xor(a, Pow2(n) - 1) == Pow2(n) - 1 - a
  {
    hide Xor, Half, Low, Pow2;
    if n == 0 {
      OneBit(a);
      XorNothing();
    } else {
      Pow2Halves(n - 1);
      Halves(a);
      XorStep(a, Pow2(n) - 1);
      XorOnes(Half(a), n - 1);
    }
  }

  lemma {:induction false} AndSelf(a: nat)
    ensures And(a, a) == a
  {
    if a != 0 {
      Halves(a);
      AndSelf(Half(a));
    }
  }

  lemma {:induction false} OrSelf(a: nat)
    ensures Or(a, a) == a
  {
    if a != 0 {
      Halves(a);
      OrSelf(Half(a));
    }
  }

  lemma {:induction false} OrZero(a: nat)
    ensures Or(a, 0) == a && Or(0, a) == a
  {
    if a != 0 {
      Halves(a);
      OrZero(Half(a));
    }
  }
}
