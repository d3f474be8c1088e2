/** 128-bit addition, subtraction and comparison assembled from 32-bit and 64-bit vector lanes. */
module LaneArithmetic {
  import opened Arithmetic
  import opened Digits
  import opened Blocks
  import B = Bitwise

  const TWO_32: nat := 0x1_0000_0000
  const TWO_128: nat := 0x1_0000_0000_0000_0000_0000_0000_0000_0000
  const ONES_32: Dword := TWO_32 - 1
  const ONES_64: Word := TWO_64 - 1

  type Dword = n: nat | n < TWO_32

  // The four 32-bit lanes of a block, lowest first.
  datatype Lanes = Lanes(d0: Dword, d1: Dword, d2: Dword, d3: Dword) {
    function Select(k: nat): Dword {
      match k % 4
      case 0 => d0
      case 1 => d1
      case 2 => d2
      case _ => d3
    }
  }

  function Unpack(b: Block): Lanes {
    Lanes(b.lo % TWO_32, b.lo / TWO_32, b.hi % TWO_32, b.hi / TWO_32)
  }

  function Pack(l: Lanes): Block {
    Block(l.d3 * TWO_32 + l.d2, l.d1 * TWO_32 + l.d0)
  }

  function Zip(f: (Dword, Dword) -> Dword, x: Lanes, y: Lanes): Lanes {
    Lanes(f(x.d0, y.d0), f(x.d1, y.d1), f(x.d2, y.d2), f(x.d3, y.d3))
  }

  // The signed reading of a lane.
  function Signed(d: Dword): int {
    if d < 0x8000_0000 then d else d - TWO_32
  }

  function CmpEqLane(x: Dword, y: Dword): Dword {
    if x == y then ONES_32 else 0
  }

  function CmpGtLane(x: Dword, y: Dword): Dword {
    if Signed(x) > Signed(y) then ONES_32 else 0
  }

  // Bitwise operators on one lane, kept to its width.
  function XorLane(x: Dword, y: Dword): Dword {
    B.Xor(x, y) % TWO_32
  }

  function AndLane(x: Dword, y: Dword): Dword {
    B.And(x, y) % TWO_32
  }

  function OrLane(x: Dword, y: Dword): Dword {
    B.Or(x, y) % TWO_32
  }

  // _mm_shuffle_epi32: two bits of the immediate choose each result lane.
  function Shuffle(x: Lanes, imm: nat): Lanes {
    Lanes(x.Select(imm), x.Select(imm / 4), x.Select(imm / 16), x.Select(imm / 64))
  }

  function AddEpi64(x: Block, y: Block): Block {
    Block((x.hi + y.hi) % TWO_64, (x.lo + y.lo) % TWO_64)
  }

  function SubEpi64(x: Block, y: Block): Block {
    Block((x.hi - y.hi) % TWO_64, (x.lo - y.lo) % TWO_64)
  }

  function UnpackLoEpi64(x: Block, y: Block): Block {
    Block(y.lo, x.lo)
  }

  function UnsignedLessthan(a: Block, b: Block): Block {
    var sign32 := Lanes(0x8000_0000, 0x8000_0000, 0x8000_0000, 0x8000_0000);
    var aflip := Zip(XorLane, Unpack(b), sign32);
    var bflip := Zip(XorLane, Unpack(a), sign32);
    var equal := Zip(CmpEqLane, Unpack(b), Unpack(a));
    var bigger := Zip(CmpGtLane, aflip, bflip);
    var biggerl := Shuffle(bigger, 0xA0);
    var eqbig := Zip(AndLane, equal, biggerl);
    var hibig := Zip(OrLane, bigger, eqbig);
    Pack(Shuffle(hibig, 0xF5))
  }

  function AddWithCarry(x: Block, y: Block): Block {
    var z := AddEpi64(x, y);
    var c := UnpackLoEpi64(ZERO_BLOCK, UnsignedLessthan(z, x));
    SubEpi64(z, c)
  }

  function InvertBlock(a: Block): Block {
    var mask := Zip(CmpEqLane, Unpack(ZERO_BLOCK), Unpack(ZERO_BLOCK));
    Pack(Zip(XorLane, Unpack(a), mask))
  }

  function SubWithBorrow(x: Block, y: Block): Block {
    var opposite := AddWithCarry(InvertBlock(y), MakeBlock(0, 1));
    AddWithCarry(x, opposite)
  }

  // The number a block stands for.
  function Value(b: Block): (n: nat)
    ensures n < TWO_128
  {
    b.hi * TWO_64 + b.lo
  }

  lemma ValueInjective(x: Block, y: Block)
    requires Value(x) == Value(y)
    ensures x == y
  {
  }

  lemma FlipSign(d: Dword)
    ensures Signed(XorLane(d, 0x8000_0000)) == d - 0x8000_0000
  {
    hide Pow2, B.Xor;
    Powers();
    B.XorTop(d, 31);
  }

  lemma Powers()
    ensures Pow2(31) == 0x8000_0000 && Pow2(32) == TWO_32
  {
    Pow2Constants();
    assert Pow2(32) == 2 * Pow2(31);
  }

  // Signed comparison after flipping the sign bits is unsigned comparison.
  lemma FlippedGreater(x: Dword, y: Dword)
    ensures CmpGtLane(XorLane(x, 0x8000_0000), XorLane(y, 0x8000_0000)) == if x > y then ONES_32 else 0
  {
    FlipSign(x);
    FlipSign(y);
  }

  lemma MaskOperators(p: bool, q: bool)
    ensures AndLane(if p then ONES_32 else 0, if q then ONES_32 else 0) == if p && q then ONES_32 else 0
    ensures OrLane(if p then ONES_32 else 0, if q then ONES_32 else 0) == if p || q then ONES_32 else 0
  {
    B.AndSelf(ONES_32);
    B.OrSelf(ONES_32);
    B.OrZero(ONES_32);
  }

  // One 64-bit lane of the comparison: high dwords first, low dwords on a tie.
  lemma LaneLess(ah: Dword, al: Dword, bh: Dword, bl: Dword)
    ensures OrLane(CmpGtLane(XorLane(bh, 0x8000_0000), XorLane(ah, 0x8000_0000)),
                   AndLane(CmpEqLane(bh, ah), CmpGtLane(XorLane(bl, 0x8000_0000), XorLane(al, 0x8000_0000))))
            == if ah * TWO_32 + al < bh * TWO_32 + bl then ONES_32 else 0
  {
    hide XorLane, CmpGtLane, AndLane, OrLane;
    FlippedGreater(bh, ah);
    FlippedGreater(bl, al);
    MaskOperators(bh == ah, bl > al);
    MaskOperators(bh > ah, bh == ah && bl > al);
  }

  // unsigned_lessthan is unsigned comparison of each 64-bit lane, as a mask.
  lemma UnsignedLessthanCorrect(a: Block, b: Block)
    ensures UnsignedLessthan(a, b) == Block(if a.hi < b.hi then ONES_64 else 0, if a.lo < b.lo then ONES_64 else 0)
  {
    hide XorLane, CmpGtLane, AndLane, OrLane, CmpEqLane;
    var x, y := Unpack(a), Unpack(b);
    LaneLess(x.d1, x.d0, y.d1, y.d0);
    LaneLess(x.d3, x.d2, y.d3, y.d2);
    assert a.lo == x.d1 * TWO_32 + x.d0 && a.hi == x.d3 * TWO_32 + x.d2;
    assert b.lo == y.d1 * TWO_32 + y.d0 && b.hi == y.d3 * TWO_32 + y.d2;
  }

  // Adding lane by lane and taking the all-ones carry mask off the high lane.
  lemma LanesAdd(xh: Word, xl: Word, yh: Word, yl: Word)
    ensures var lo := (xl + yl) % TWO_64;
            var hi := ((xh + yh) % TWO_64 - (if lo < xl then ONES_64 else 0)) % TWO_64;
            hi * TWO_64 + lo == (xh * TWO_64 + xl + (yh * TWO_64 + yl)) % TWO_128
  {
    var carry := if xl + yl >= TWO_64 then 1 else 0;
    LowLane(xl, yl);
    HighLane(xh, yh, carry);
    var lo := xl + yl - carry * TWO_64;
    var h := xh + yh + carry;
    if h >= TWO_64 {
      DivModUnique(h * TWO_64 + lo, 1, (h - TWO_64) * TWO_64 + lo, TWO_128);
    } else {
      DivModUnique(h * TWO_64 + lo, 0, h * TWO_64 + lo, TWO_128);
    }
  }

  // The sum of the low lanes falls below an operand exactly when it overflows.
  lemma LowLane(x: Word, y: Word)
    ensures (x + y) % TWO_64 == if x + y >= TWO_64 then x + y - TWO_64 else x + y
    ensures (x + y) % TWO_64 < x <==> x + y >= TWO_64
  {
  }

  // Taking off the all-ones mask adds the carry.
  lemma HighLane(x: Word, y: Word, carry: nat)
    requires carry < 2
    ensures ((x + y) % TWO_64 - (if carry == 1 then ONES_64 else 0)) % TWO_64
            == if x + y + carry >= TWO_64 then x + y + carry - TWO_64 else x + y + carry
  {
  }

  // What add_with_carry does lane by lane.
  lemma AddLanes(x: Block, y: Block)
    ensures var lo := (x.lo + y.lo) % TWO_64;
            AddWithCarry(x, y) == Block(((x.hi + y.hi) % TWO_64 - (if lo < x.lo then ONES_64 else 0)) % TWO_64, lo)
  {
    hide UnsignedLessthan;
    UnsignedLessthanCorrect(AddEpi64(x, y), x);
  }

  // add_with_carry is addition modulo 2^128.
  lemma AddCorrect(x: Block, y: Block)
    ensures Value(AddWithCarry(x, y)) == (Value(x) + Value(y)) % TWO_128
  {
    hide AddWithCarry;
    AddLanes(x, y);
    LanesAdd(x.hi, x.lo, y.hi, y.lo);
  }

  lemma InvertLane(d: Dword)
    ensures XorLane(d, ONES_32) == ONES_32 - d
  {
    hide Pow2, B.Xor;
    Powers();
    B.XorOnes(d, 32);
  }

  lemma InvertCorrect(a: Block)
    ensures Value(InvertBlock(a)) == TWO_128 - 1 - Value(a)
  {
    hide XorLane;
    var x := Unpack(a);
    InvertLane(x.d0);
    InvertLane(x.d1);
    InvertLane(x.d2);
    InvertLane(x.d3);
  }

  lemma OneValue()
    ensures Value(MakeBlock(0, 1)) == 1
  {
  }

  // sub_with_borrow is subtraction modulo 2^128.
  lemma SubCorrect(x: Block, y: Block)
    ensures Value(SubWithBorrow(x, y)) == (Value(x) - Value(y)) % TWO_128
  {
    hide AddWithCarry, InvertBlock, Value;
    OneValue();
    InvertCorrect(y);
    AddCorrect(InvertBlock(y), MakeBlock(0, 1));
    AddCorrect(x, AddWithCarry(InvertBlock(y), MakeBlock(0, 1)));
  }

  // Subtracting undoes adding.
  lemma SubUndoesAdd(x: Block, y: Block)
    ensures SubWithBorrow(AddWithCarry(x, y), y) == x
  {
    hide AddWithCarry, SubWithBorrow, Value;
    AddCorrect(x, y);
    SubCorrect(AddWithCarry(x, y), y);
    ValueInjective(SubWithBorrow(AddWithCarry(x, y), y), x);
  }
}
