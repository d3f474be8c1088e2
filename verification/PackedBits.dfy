/** Bytes as the eight bits they carry, the packing helpers, and the one-byte Beaver multiplication. */
module PackedBits {

  // Bit k of the byte is entry k.
  type Byte = bits: seq<bool> | |bits| == 8
    witness [false, false, false, false, false, false, false, false]

  const ZERO: Byte := [false, false, false, false, false, false, false, false]

  function Xor(x: Byte, y: Byte): (r: Byte)
    ensures forall k :: 0 <= k < 8 ==> (r[k] <==> x[k] != y[k])
  {
    seq(8, k requires 0 <= k < 8 => x[k] != y[k])
  }

  function And(x: Byte, y: Byte): (r: Byte)
    ensures forall k :: 0 <= k < 8 ==> (r[k] <==> x[k] && y[k])
  {
    seq(8, k requires 0 <= k < 8 => x[k] && y[k])
  }

  function Or(x: Byte, y: Byte): (r: Byte)
    ensures forall k :: 0 <= k < 8 ==> (r[k] <==> x[k] || y[k])
  {
    seq(8, k requires 0 <= k < 8 => x[k] || y[k])
  }

  // The C value 0 or 1.
  function Flag(b: bool): (r: Byte)
    ensures forall k :: 0 <= k < 8 ==> (r[k] <==> k == 0 && b)
  {
    [b, false, false, false, false, false, false, false]
  }

  predicate IsFlag(x: Byte) {
    x == Flag(x[0])
  }

  // x << n, truncated to eight bits.
  function ShiftLeft(x: Byte, n: nat): (r: Byte)
    ensures forall k :: 0 <= k < 8 ==> (r[k] <==> n <= k && x[k - n])
  {
    seq(8, k requires 0 <= k < 8 => n <= k && x[k - n])
  }

  // x >> n.
  function ShiftRight(x: Byte, n: nat): (r: Byte)
    ensures forall k :: 0 <= k < 8 ==> (r[k] <==> k + n < 8 && x[k + n])
  {
    seq(8, k requires 0 <= k < 8 => k + n < 8 && x[k + n])
  }

  // The low n bits of x.
  function LowBits(x: Byte, n: nat): (r: Byte)
    ensures forall k :: 0 <= k < 8 ==> (r[k] <==> k < n && x[k])
  {
    seq(8, k requires 0 <= k < 8 => k < n && x[k])
  }

  // bool_to_uint8 of eight flags.
  function Pack8(flags: seq<Byte>): (r: Byte)
    requires |flags| == 8
    ensures forall k :: 0 <= k < 8 ==> (r[k] <==> flags[k][0])
  {
    seq(8, k requires 0 <= k < 8 => flags[k][0])
  }

  // The byte of shares one party computes for eight Beaver multiplications.
  function BeaverShare(alice: bool, e: Byte, f: Byte, a: Byte, b: Byte, c: Byte): Byte {
    var z := if alice then And(e, f) else ZERO;
    Xor(Xor(Xor(z, And(f, a)), And(e, b)), c)
  }

  // Only Alice's share contains the product of the opened bits.
  lemma BeaverShareBit(alice: bool, e: Byte, f: Byte, a: Byte, b: Byte, c: Byte, k: nat)
    requires k < 8
    ensures BeaverShare(alice, e, f, a, b, c)[k] <==>
            ((((alice && e[k] && f[k]) != (f[k] && a[k])) != (e[k] && b[k])) != c[k])
  {
  }

  // One byte of a multiplication triple shared between the two parties.
  predicate ValidTriple(aA: Byte, aB: Byte, bA: Byte, bB: Byte, cA: Byte, cB: Byte) {
    Xor(cA, cB) == And(Xor(aA, aB), Xor(bA, bB))
  }

  // With a valid triple and the opened differences e and f, the two shares reconstruct to x AND y.
  lemma BeaverCorrect(xA: Byte, xB: Byte, yA: Byte, yB: Byte,
                      aA: Byte, aB: Byte, bA: Byte, bB: Byte, cA: Byte, cB: Byte)
    requires ValidTriple(aA, aB, bA, bB, cA, cB)
    ensures var e := Xor(Xor(aA, xA), Xor(aB, xB));
            var f := Xor(Xor(bA, yA), Xor(bB, yB));
            Xor(BeaverShare(true, e, f, aA, bA, cA), BeaverShare(false, e, f, aB, bB, cB))
            == And(Xor(xA, xB), Xor(yA, yB))
  {
  }

  lemma XorCommutes(x: Byte, y: Byte)
    ensures Xor(x, y) == Xor(y, x)
  {
  }

  // The same when each party opens the differences in its own order.
  lemma OpenedProduct(xA: Byte, xB: Byte, yA: Byte, yB: Byte,
                      aA: Byte, aB: Byte, bA: Byte, bB: Byte, cA: Byte, cB: Byte, eA: Byte, fA: Byte, eB: Byte, fB: Byte)
    requires ValidTriple(aA, aB, bA, bB, cA, cB)
    requires eA == Xor(Xor(aA, xA), Xor(aB, xB)) && eB == Xor(Xor(aB, xB), Xor(aA, xA))
    requires fA == Xor(Xor(bA, yA), Xor(bB, yB)) && fB == Xor(Xor(bB, yB), Xor(bA, yA))
    ensures Xor(BeaverShare(true, eA, fA, aA, bA, cA), BeaverShare(false, eB, fB, aB, bB, cB))
            == And(Xor(xA, xB), Xor(yA, yB))
  {
    hide *;
    XorCommutes(Xor(aA, xA), Xor(aB, xB));
    XorCommutes(Xor(bA, yA), Xor(bB, yB));
    BeaverCorrect(xA, xB, yA, yB, aA, aB, bA, bB, cA, cB);
  }

  // (x >> n) & 1 is bit n.
  lemma ShiftedFlag(x: Byte, n: nat)
    requires n < 8
    ensures And(ShiftRight(x, n), Flag(true)) == Flag(x[n])
  {
  }

  lemma FlagXor(x: Byte, y: Byte)
    requires IsFlag(x) && IsFlag(y)
    ensures IsFlag(Xor(x, y)) && (Xor(x, y)[0] <==> x[0] != y[0])
  {
  }

  lemma FlagZero()
    ensures IsFlag(ZERO)
  {
  }
}
