/** The VOLE-based oblivious PRF: Client1, Server1 and Evaluate1, over abstract field multiplication and OKVS. */
module VoleOprf {
  import opened Digits
  import opened Blocks

  datatype Option<T> = None | Some(value: T)

  // gf128_mul is used as a commutative, associative product that distributes over XOR.
  ghost predicate FieldProduct(mul: (Block, Block) -> Block) {
    && (forall a, b :: mul(a, b) == mul(b, a))
    && (forall a, b, c {:trigger mul(a, mul(b, c))} :: mul(a, mul(b, c)) == mul(mul(a, b), c))
    && (forall a, b, c {:trigger mul(a, Xor(b, c))} :: mul(a, Xor(b, c)) == Xor(mul(a, b), mul(a, c)))
  }

  // XOR of the products of two vectors.
  function Inner(mul: (Block, Block) -> Block, row: seq<Block>, v: seq<Block>): Block
    requires |row| == |v|
  {
    if row == [] then ZERO_BLOCK else Xor(mul(row[0], v[0]), Inner(mul, row[1..], v[1..]))
  }

  function XorAll(u: seq<Block>, v: seq<Block>): (r: seq<Block>)
    requires |u| == |v|
    ensures |r| == |u|
  {
    seq(|u|, i requires 0 <= i < |u| => Xor(u[i], v[i]))
  }

  function Scale(mul: (Block, Block) -> Block, d: Block, v: seq<Block>): (r: seq<Block>)
    ensures |r| == |v|
  {
    seq(|v|, i requires 0 <= i < |v| => mul(d, v[i]))
  }

  lemma {:induction false} InnerXor(mul: (Block, Block) -> Block, row: seq<Block>, u: seq<Block>, v: seq<Block>)
    requires FieldProduct(mul) && |row| == |u| == |v|
    ensures Inner(mul, row, XorAll(u, v)) == Xor(Inner(mul, row, u), Inner(mul, row, v))
  {
    hide Xor;
    if row == [] {
      XorZero(ZERO_BLOCK);
    } else {
      InnerXor(mul, row[1..], u[1..], v[1..]);
      assert XorAll(u, v)[1..] == XorAll(u[1..], v[1..]);
      assert mul(row[0], Xor(u[0], v[0])) == Xor(mul(row[0], u[0]), mul(row[0], v[0]));
      XorSwap(mul(row[0], u[0]), mul(row[0], v[0]), Inner(mul, row[1..], u[1..]), Inner(mul, row[1..], v[1..]));
    }
  }

  lemma ProductOfZero(mul: (Block, Block) -> Block, d: Block)
    requires FieldProduct(mul)
    ensures mul(d, ZERO_BLOCK) == ZERO_BLOCK
  {
    hide Xor;
    var z := mul(d, ZERO_BLOCK);
    XorZero(ZERO_BLOCK);
    assert mul(d, Xor(ZERO_BLOCK, ZERO_BLOCK)) == Xor(z, z);
    XorSelf(z);
  }

  lemma {:induction false} InnerScale(mul: (Block, Block) -> Block, row: seq<Block>, d: Block, v: seq<Block>)
    requires FieldProduct(mul) && |row| == |v|
    ensures Inner(mul, row, Scale(mul, d, v)) == mul(d, Inner(mul, row, v))
  {
    hide Xor;
    if row == [] {
      ProductOfZero(mul, d);
    } else {
      InnerScale(mul, row[1..], d, v[1..]);
      assert Scale(mul, d, v)[1..] == Scale(mul, d, v[1..]);
      var tail := Inner(mul, row[1..], v[1..]);
      assert mul(d, Xor(mul(row[0], v[0]), tail)) == Xor(mul(d, mul(row[0], v[0])), mul(d, tail));
      assert mul(row[0], mul(d, v[0])) == mul(mul(row[0], d), v[0]);
      assert mul(d, mul(row[0], v[0])) == mul(mul(d, row[0]), v[0]);
    }
  }

  /** A Baxos object: the row of coefficients of each key, and the solver, which may fail. */
  datatype Okvs = Okvs(row: Block -> seq<Block>, size: nat, mul: (Block, Block) -> Block,
                       solve: (seq<Block>, seq<Block>) -> Option<seq<Block>>) {
    ghost predicate Valid() {
      && FieldProduct(mul)
      && (forall y :: |row(y)| == size)
      && (forall ks, vs :: |ks| == |vs| && solve(ks, vs).Some? ==> Solves(ks, vs, solve(ks, vs).value))
    }

    // decode: the inner product of a key's row with the encoding.
    function Decode(v: seq<Block>, y: Block): Block
    {
      if |row(y)| == |v| then Inner(mul, row(y), v) else ZERO_BLOCK
    }

    predicate Solves(ks: seq<Block>, vs: seq<Block>, v: seq<Block>)
      requires |ks| == |vs|
    {
      |v| == size && forall i :: 0 <= i < |ks| ==> Decode(v, ks[i]) == vs[i]
    }
  }

  // p has been updated below i.
  ghost predicate XoredBelow(was: seq<Block>, a: seq<Block>, now: seq<Block>, i: nat) {
    && |now| == |was| == |a|
    && forall j :: 0 <= j < |now| ==> now[j] == if j < i then Xor(was[j], a[j]) else was[j]
  }

  method XorAt(p: array<Block>, i: nat, a: seq<Block>, ghost was: seq<Block>)
    requires i < p.Length == |a| && XoredBelow(was, a, p[..], i)
    modifies p
    ensures XoredBelow(was, a, p[..], i + 1)
  {
    hide Xor;
    p[i] := Xor(p[i], a[i]);
  }

  // The client's loop, eight at a time with a tail: p[i] ^= a[i] for every i.
  method XorInto(p: array<Block>, a: seq<Block>)
    requires p.Length == |a|
    modifies p
    ensures p[..] == XorAll(old(p[..]), a)
    ensures forall j :: 0 <= j < p.Length ==> p[j] == Xor(old(p[j]), a[j])
  {
    hide Xor, XoredBelow;
    var i := 0;
    ghost var was := p[..];
    NoneXored(was, a);
    while i + 8 <= p.Length
      invariant i <= p.Length && XoredBelow(was, a, p[..], i)
    {
      XorAt(p, i, a, was);
      XorAt(p, i + 1, a, was);
      XorAt(p, i + 2, a, was);
      XorAt(p, i + 3, a, was);
      XorAt(p, i + 4, a, was);
      XorAt(p, i + 5, a, was);
      XorAt(p, i + 6, a, was);
      XorAt(p, i + 7, a, was);
      i := i + 8;
    }
    while i < p.Length
      invariant i <= p.Length && XoredBelow(was, a, p[..], i)
    {
      XorAt(p, i, a, was);
      i := i + 1;
    }
    AllXored(was, a, p[..]);
  }

  lemma NoneXored(was: seq<Block>, a: seq<Block>)
    requires |was| == |a|
    ensures XoredBelow(was, a, was, 0)
  {
  }

  lemma AllXored(was: seq<Block>, a: seq<Block>, now: seq<Block>)
    requires |was| == |a| && XoredBelow(was, a, now, |now|)
    ensures now == XorAll(was, a)
    ensures forall j :: 0 <= j < |now| ==> now[j] == Xor(was[j], a[j])
  {
    hide Xor;
  }

  // k has been updated below i.
  ghost predicate ScaledBelow(mul: (Block, Block) -> Block, was: seq<Block>, delta: Block, a: seq<Block>, now: seq<Block>, i: nat) {
    && |now| == |was| == |a|
    && forall j :: 0 <= j < |now| ==> now[j] == if j < i then Xor(was[j], mul(delta, a[j])) else was[j]
  }

  method AddScaledAt(mul: (Block, Block) -> Block, k: array<Block>, kp: nat, delta: Block, a: seq<Block>, pp: nat, ghost was: seq<Block>)
    requires kp == pp < k.Length == |a| && ScaledBelow(mul, was, delta, a, k[..], kp)
    modifies k
    ensures ScaledBelow(mul, was, delta, a, k[..], kp + 1)
  {
    hide Xor;
    k[kp] := Xor(k[kp], mul(delta, a[pp]));
  }

  // The server's loop over advancing pointers: k[i] ^= delta * a[i] for every i.
  method AddScaled(mul: (Block, Block) -> Block, k: array<Block>, delta: Block, a: seq<Block>)
    requires k.Length == |a|
    modifies k
    ensures k[..] == XorAll(old(k[..]), Scale(mul, delta, a))
    ensures forall j :: 0 <= j < k.Length ==> k[j] == Xor(old(k[j]), mul(delta, a[j]))
  {
    hide Xor, ScaledBelow;
    var i, kp, pp := 0, 0, 0;
    ghost var was := k[..];
    NoneScaled(mul, was, delta, a);
    while i + 8 <= k.Length
      invariant i <= k.Length && kp == pp == i
      invariant ScaledBelow(mul, was, delta, a, k[..], i)
    {
      AddScaledAt(mul, k, kp, delta, a, pp, was);
      AddScaledAt(mul, k, kp + 1, delta, a, pp + 1, was);
      AddScaledAt(mul, k, kp + 2, delta, a, pp + 2, was);
      AddScaledAt(mul, k, kp + 3, delta, a, pp + 3, was);
      AddScaledAt(mul, k, kp + 4, delta, a, pp + 4, was);
      AddScaledAt(mul, k, kp + 5, delta, a, pp + 5, was);
      AddScaledAt(mul, k, kp + 6, delta, a, pp + 6, was);
      AddScaledAt(mul, k, kp + 7, delta, a, pp + 7, was);
      i, kp, pp := i + 8, kp + 8, pp + 8;
    }
    while i < k.Length
      invariant i <= k.Length && kp == pp == i
      invariant ScaledBelow(mul, was, delta, a, k[..], i)
    {
      AddScaledAt(mul, k, kp, delta, a, pp, was);
      i, kp, pp := i + 1, kp + 1, pp + 1;
    }
    AllScaled(mul, was, delta, a, k[..]);
  }

  lemma NoneScaled(mul: (Block, Block) -> Block, was: seq<Block>, delta: Block, a: seq<Block>)
    requires |was| == |a|
    ensures ScaledBelow(mul, was, delta, a, was, 0)
  {
  }

  lemma AllScaled(mul: (Block, Block) -> Block, was: seq<Block>, delta: Block, a: seq<Block>, now: seq<Block>)
    requires |was| == |a| && ScaledBelow(mul, was, delta, a, now, |now|)
    ensures now == XorAll(was, Scale(mul, delta, a))
    ensures forall j :: 0 <= j < |now| ==> now[j] == Xor(was[j], mul(delta, a[j]))
  {
    hide Xor;
  }

  // Byte t of a key is byte t mod 16 of the number of block t / 16.
  lemma KeyByteAt(key: seq<Octet>, blocks: seq<Block>, t: nat)
    requires KeyEncodes(key, blocks) && t < |key|
    ensures key[t] == (blocks[t / 16].hi * TWO_64 + blocks[t / 16].lo) / Pow2(8 * (t % 16)) % 256
  {
    hide Pow2, BlockBytes;
    var i, k := t / 16, t % 16;
    assert key[t] == key[16 * i..16 * i + 16][k];
    BlockByteAt(blocks[i], k);
  }

  // BlockToByte.
  method BlockToByte(vec: seq<Block>) returns (ans: seq<Octet>)
    ensures KeyEncodes(ans, vec)
    ensures |ans| == 16 * |vec|
    ensures forall t :: 0 <= t < |ans| ==> ans[t] == (vec[t / 16].hi * TWO_64 + vec[t / 16].lo) / Pow2(8 * (t % 16)) % 256
  {
    hide BlockBytes;
    ans := [];
    for i := 0 to |vec|
      invariant |ans| == 16 * i
      invariant forall j :: 0 <= j < i ==> ans[16 * j..16 * j + 16] == BlockBytes(vec[j])
    {
      ghost var was := ans;
      ans := ans + BlockBytes(vec[i]);
      forall j | 0 <= j < i + 1
        ensures ans[16 * j..16 * j + 16] == BlockBytes(vec[j])
      {
        if j < i {
          assert ans[16 * j..16 * j + 16] == was[16 * j..16 * j + 16];
        }
      }
    }
    forall t | 0 <= t < |ans|
      ensures ans[t] == (vec[t / 16].hi * TWO_64 + vec[t / 16].lo) / Pow2(8 * (t % 16)) % 256
    {
      KeyByteAt(ans, vec, t);
    }
  }

  // ByteToBlock; an incomplete last block is dropped.
  method ByteToBlock(bytes: seq<Octet>) returns (ans: seq<Block>)
    ensures |ans| == |bytes| / 16
    ensures forall i :: 0 <= i < |ans| ==> ans[i] == BytesBlock(bytes[16 * i..16 * i + 16])
    ensures forall t :: 0 <= t < 16 * |ans| ==> (ans[t / 16].hi * TWO_64 + ans[t / 16].lo) / Pow2(8 * (t % 16)) % 256 == bytes[t]
  {
    hide Pow2, BytesBlock;
    ans := [];
    for i := 0 to |bytes| / 16
      invariant |ans| == i
      invariant forall j :: 0 <= j < i ==> ans[j] == BytesBlock(bytes[16 * j..16 * j + 16])
    {
      ans := ans + [BytesBlock(bytes[16 * i..16 * i + 16])];
    }
    forall t | 0 <= t < 16 * |ans|
      ensures (ans[t / 16].hi * TWO_64 + ans[t / 16].lo) / Pow2(8 * (t % 16)) % 256 == bytes[t]
    {
      BytesBlockByteAt(bytes[16 * (t / 16)..16 * (t / 16) + 16], t % 16);
    }
  }

  // The bytes are those of the key's blocks.
  ghost predicate KeyEncodes(key: seq<Octet>, blocks: seq<Block>) {
    |key| == 16 * |blocks| && forall i :: 0 <= i < |blocks| ==> key[16 * i..16 * i + 16] == BlockBytes(blocks[i])
  }

  // The key the server ends up with when the client masked p.
  function ServerKey(okvs: Okvs, vole: Vole, p: seq<Block>): (key: seq<Block>)
    requires |p| == |vole.a| == |vole.b|
  {
    XorAll(vole.b, Scale(okvs.mul, vole.delta, XorAll(p, vole.a)))
  }

  /** The correlated randomness of VOLE: the client holds a and c, the server b and delta. */
  datatype Vole = Vole(a: seq<Block>, c: seq<Block>, b: seq<Block>, delta: Block) {
    ghost predicate Valid(mul: (Block, Block) -> Block, size: nat) {
      |a| == |b| == |c| == size && c == XorAll(b, Scale(mul, delta, a))
    }
  }

  // The client's message hides p under its VOLE share; the server's key then relates to c at every key y.
  lemma KeyRelation(okvs: Okvs, vole: Vole, p: seq<Block>, y: Block)
    requires okvs.Valid() && vole.Valid(okvs.mul, okvs.size) && |p| == okvs.size
    ensures okvs.Decode(ServerKey(okvs, vole, p), y) == Xor(okvs.Decode(vole.c, y), okvs.mul(vole.delta, okvs.Decode(p, y)))
  {
    hide Xor;
    var mul, row, d := okvs.mul, okvs.row(y), vole.delta;
    var sent := XorAll(p, vole.a);
    InnerXor(mul, row, vole.b, Scale(mul, d, sent));
    InnerScale(mul, row, d, sent);
    InnerXor(mul, row, p, vole.a);
    InnerXor(mul, row, vole.b, Scale(mul, d, vole.a));
    InnerScale(mul, row, d, vole.a);
    var ib, ip, ia := Inner(mul, row, vole.b), Inner(mul, row, p), Inner(mul, row, vole.a);
    assert mul(d, Xor(ip, ia)) == Xor(mul(d, ip), mul(d, ia));
    XorCommutes(mul(d, ip), mul(d, ia));
    XorAssociates(ib, mul(d, ia), mul(d, ip));
  }

  function Zeros(n: nat): (zeros: seq<Block>)
    ensures |zeros| == n && forall i :: 0 <= i < n ==> zeros[i] == ZERO_BLOCK
  {
    seq(n, i => ZERO_BLOCK)
  }

  // The encoding of zeros at the client's inputs, if the solver finds one.
  function ZeroEncoding(okvs: Okvs, xs: seq<Block>): Option<seq<Block>> {
    okvs.solve(xs, Zeros(|xs|))
  }

  // It is the solver's answer for zeros at all inputs.
  lemma ZeroEncodingIs(okvs: Okvs, xs: seq<Block>, zeros: seq<Block>)
    requires |zeros| == |xs| && forall i :: 0 <= i < |zeros| ==> zeros[i] == Block(0, 0)
    ensures ZeroEncoding(okvs, xs) == okvs.solve(xs, zeros)
  {
    assert zeros == Zeros(|xs|);
  }

  lemma ZeroEncodingSolves(okvs: Okvs, xs: seq<Block>)
    requires okvs.Valid() && ZeroEncoding(okvs, xs).Some?
    ensures |ZeroEncoding(okvs, xs).value| == okvs.size
    ensures forall i :: 0 <= i < |xs| ==> okvs.Decode(ZeroEncoding(okvs, xs).value, xs[i]) == ZERO_BLOCK
  {
    assert okvs.Solves(xs, Zeros(|xs|), ZeroEncoding(okvs, xs).value);
  }

  // The blocks of the server's key after a run with a client that has the inputs xs.
  function OprfKey(okvs: Okvs, vole: Vole, xs: seq<Block>): Option<seq<Block>> {
    match ZeroEncoding(okvs, xs)
    case None => None
    case Some(p) => if |p| == |vole.a| == |vole.b| then Some(ServerKey(okvs, vole, p)) else None
  }

  // With the solution p of that system the key is B + Delta * (P + A).
  lemma OprfKeyIs(okvs: Okvs, vole: Vole, xs: seq<Block>, zeros: seq<Block>, p: seq<Block>, key: seq<Block>)
    requires |zeros| == |xs| && forall i :: 0 <= i < |zeros| ==> zeros[i] == Block(0, 0)
    requires okvs.solve(xs, zeros) == Some(p) && |p| == |vole.a| == |vole.b| == |key|
    requires forall i :: 0 <= i < |key| ==> key[i] == Xor(vole.b[i], okvs.mul(vole.delta, Xor(p[i], vole.a[i])))
    ensures OprfKey(okvs, vole, xs) == Some(key)
  {
    hide Xor;
    ZeroEncodingIs(okvs, xs, zeros);
    assert key == ServerKey(okvs, vole, p);
  }

  // The key exists exactly when the client's system can be solved.
  lemma OprfKeyIff(okvs: Okvs, vole: Vole, xs: seq<Block>)
    requires okvs.Valid() && vole.Valid(okvs.mul, okvs.size)
    ensures OprfKey(okvs, vole, xs).Some? <==> ZeroEncoding(okvs, xs).Some?
  {
    if ZeroEncoding(okvs, xs).Some? {
      ZeroEncodingSolves(okvs, xs);
    }
  }

  // Client1: what the client sends, and its outputs for its inputs.
  method Client1(okvs: Okvs, xs: seq<Block>, vole: Vole) returns (sent: Option<seq<Block>>, output: seq<Block>)
    requires okvs.Valid() && vole.Valid(okvs.mul, okvs.size)
    ensures |output| == |xs| && forall i :: 0 <= i < |xs| ==> output[i] == okvs.Decode(vole.c, xs[i])
    ensures sent.None? <==> okvs.solve(xs, seq(|xs|, i => ZERO_BLOCK)).None?
    ensures sent.None? <==> ZeroEncoding(okvs, xs).None?
    ensures sent.Some? ==> |ZeroEncoding(okvs, xs).value| == |vole.a| && sent.value == XorAll(ZeroEncoding(okvs, xs).value, vole.a)
  {
    hide Xor, Okvs.Decode;
    output := seq(|xs|, i requires 0 <= i < |xs| => okvs.Decode(vole.c, xs[i]));
    var zeros := seq(|xs|, i => ZERO_BLOCK);
    var solved := okvs.solve(xs, zeros);
    assert zeros == Zeros(|xs|);
    sent := None;
    if solved.Some? {
      ZeroEncodingSolves(okvs, xs);
      var v := solved.value;
      var buffer := new Block[|v|](i requires 0 <= i < |v| => v[i]);
      assert buffer[..] == v;
      XorInto(buffer, vole.a);
      sent := Some(buffer[..]);
    }
  }

  // Server1: the key as bytes.
  method Server1(okvs: Okvs, received: seq<Block>, vole: Vole) returns (key: seq<Octet>)
    requires vole.Valid(okvs.mul, okvs.size) && |received| == okvs.size
    ensures KeyEncodes(key, XorAll(vole.b, Scale(okvs.mul, vole.delta, received)))
    ensures |key| == 16 * |received| == 16 * |vole.b|
    ensures forall t :: 0 <= t < |key| ==>
              var k := Xor(vole.b[t / 16], okvs.mul(vole.delta, received[t / 16]));
              key[t] == (k.hi * TWO_64 + k.lo) / Pow2(8 * (t % 16)) % 256
  {
    hide Xor, Pow2, KeyEncodes;
    var b := vole.b;
    var k := new Block[|b|](i requires 0 <= i < |b| => b[i]);
    assert k[..] == b;
    AddScaled(okvs.mul, k, vole.delta, received);
    key := BlockToByte(k[..]);
  }

  // Evaluate1: the PRF under a key, at any inputs.
  method Evaluate1(okvs: Okvs, key: seq<Octet>, ys: seq<Block>, ghost blocks: seq<Block>) returns (output: seq<Block>)
    requires KeyEncodes(key, blocks)
    ensures |output| == |ys| && forall i :: 0 <= i < |ys| ==> output[i] == okvs.Decode(blocks, ys[i])
  {
    hide BlockBytes, BytesBlock;
    var v := ByteToBlock(key);
    forall i | 0 <= i < |blocks|
      ensures v[i] == blocks[i]
    {
      BlockRoundTrip(blocks[i]);
    }
    assert v == blocks;
    output := seq(|ys|, i requires 0 <= i < |ys| => okvs.Decode(v, ys[i]));
  }

  // The PRF the two parties have set up agrees with every client output.
  lemma ClientAgrees(okvs: Okvs, vole: Vole, p: seq<Block>, x: Block)
    requires okvs.Valid() && vole.Valid(okvs.mul, okvs.size) && |p| == okvs.size && okvs.Decode(p, x) == ZERO_BLOCK
    ensures okvs.Decode(ServerKey(okvs, vole, p), x) == okvs.Decode(vole.c, x)
  {
    hide Xor;
    KeyRelation(okvs, vole, p, x);
    ProductOfZero(okvs.mul, vole.delta);
    XorZero(okvs.Decode(vole.c, x));
  }

  // Client outputs under c are PRF values under the server's key.
  lemma ClientValues(okvs: Okvs, vole: Vole, xs: seq<Block>)
    requires okvs.Valid() && vole.Valid(okvs.mul, okvs.size) && OprfKey(okvs, vole, xs).Some?
    ensures forall k :: 0 <= k < |xs| ==> okvs.Decode(vole.c, xs[k]) == okvs.Decode(OprfKey(okvs, vole, xs).value, xs[k])
  {
    hide Okvs.Decode, Xor, Okvs.Valid, Vole.Valid, ServerKey;
    ZeroEncodingSolves(okvs, xs);
    forall k | 0 <= k < |xs|
      ensures okvs.Decode(vole.c, xs[k]) == okvs.Decode(OprfKey(okvs, vole, xs).value, xs[k])
    {
      ClientAgrees(okvs, vole, ZeroEncoding(okvs, xs).value, xs[k]);
    }
  }

  /**
   Client and server together: the run succeeds exactly when the client's system can be solved. The server's key is then
   that of the client's solution, and the client's outputs are the values of the PRF under it.
   */
  method RunOprf(okvs: Okvs, xs: seq<Block>, vole: Vole) returns (ok: bool, output: seq<Block>, key: seq<Octet>)
    requires okvs.Valid() && vole.Valid(okvs.mul, okvs.size)
    ensures ok <==> okvs.solve(xs, seq(|xs|, i => ZERO_BLOCK)).Some?
    ensures ok <==> ZeroEncoding(okvs, xs).Some?
    ensures ok ==> OprfKey(okvs, vole, xs).Some? && KeyEncodes(key, OprfKey(okvs, vole, xs).value)
    ensures ok ==> |output| == |xs|
                   && forall k :: 0 <= k < |xs| ==> output[k] == okvs.Decode(OprfKey(okvs, vole, xs).value, xs[k])
  {
    hide Okvs.Decode, Xor, Okvs.Valid, Vole.Valid, FieldProduct, KeyEncodes, ZeroEncoding;
    var sent;
    sent, output := Client1(okvs, xs, vole);
    ok := sent.Some?;
    key := [];
    OprfKeyIff(okvs, vole, xs);
    if ok {
      SameSize(okvs, vole, xs);
      key := Server1(okvs, sent.value, vole);
      ClientValues(okvs, vole, xs);
    }
  }

  lemma SameSize(okvs: Okvs, vole: Vole, xs: seq<Block>)
    requires okvs.Valid() && vole.Valid(okvs.mul, okvs.size) && ZeroEncoding(okvs, xs).Some?
    ensures |ZeroEncoding(okvs, xs).value| == okvs.size == |vole.a| == |vole.b|
  {
    ZeroEncodingSolves(okvs, xs);
  }
}
