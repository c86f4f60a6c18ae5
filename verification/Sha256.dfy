/**
 SHA-256: the streaming interface (a 64-byte buffer compressed whenever it fills) against
 the definition of FIPS 180-4, padding the whole message and folding it block by block.
 */
module Sha256 {
  import opened Bytes

  const WORD: nat := 0x1_0000_0000
  const U64: nat := 0x1_0000_0000_0000_0000

  const K: seq<u32> := [
    0x428a2f98, 0x71374491, 0xb5c0fbcf, 0xe9b5dba5, 0x3956c25b, 0x59f111f1, 0x923f82a4, 0xab1c5ed5,
    0xd807aa98, 0x12835b01, 0x243185be, 0x550c7dc3, 0x72be5d74, 0x80deb1fe, 0x9bdc06a7, 0xc19bf174,
    0xe49b69c1, 0xefbe4786, 0x0fc19dc6, 0x240ca1cc, 0x2de92c6f, 0x4a7484aa, 0x5cb0a9dc, 0x76f988da,
    0x983e5152, 0xa831c66d, 0xb00327c8, 0xbf597fc7, 0xc6e00bf3, 0xd5a79147, 0x06ca6351, 0x14292967,
    0x27b70a85, 0x2e1b2138, 0x4d2c6dfc, 0x53380d13, 0x650a7354, 0x766a0abb, 0x81c2c92e, 0x92722c85,
    0xa2bfe8a1, 0xa81a664b, 0xc24b8b70, 0xc76c51a3, 0xd192e819, 0xd6990624, 0xf40e3585, 0x106aa070,
    0x19a4c116, 0x1e376c08, 0x2748774c, 0x34b0bcb5, 0x391c0cb3, 0x4ed8aa4a, 0x5b9cca4f, 0x682e6ff3,
    0x748f82ee, 0x78a5636f, 0x84c87814, 0x8cc70208, 0x90befffa, 0xa4506ceb, 0xbef9a3f7, 0xc67178f2]

  const INITIAL: seq<u32> :=
    [0x6a09e667, 0xbb67ae85, 0x3c6ef372, 0xa54ff53a, 0x510e527f, 0x9b05688c, 0x1f83d9ab, 0x5be0cd19]

  // ---- word operations ----

  function Pow2(n: nat): (p: nat)
    ensures p > 0
  {
    if n == 0 then 1 else 2 * Pow2(n - 1)
  }

  lemma Pow32()
    ensures Pow2(32) == WORD
  {
    assert Pow2(8) == 0x100;
    assert Pow2(16) == 0x1_0000;
    assert Pow2(24) == 0x100_0000;
    assert Pow2(32) == 0x1_0000_0000;
  }

  /** Exclusive or of the low `n` bits. */
  function XorBits(x: nat, y: nat, n: nat): (r: nat)
    ensures r < Pow2(n)
  {
    if n == 0 then 0 else 2 * XorBits(x / 2, y / 2, n - 1) + (x % 2 + y % 2) % 2
  }

  /** Conjunction of the low `n` bits. */
  function AndBits(x: nat, y: nat, n: nat): (r: nat)
    ensures r < Pow2(n)
  {
    if n == 0 then 0 else 2 * AndBits(x / 2, y / 2, n - 1) + if x % 2 == 1 && y % 2 == 1 then 1 else 0
  }

  function Xor(x: u32, y: u32): (r: u32) {
    Pow32();
    XorBits(x, y, 32)
  }

  function And(x: u32, y: u32): (r: u32) {
    Pow32();
    AndBits(x, y, 32)
  }

  function Not(x: u32): (r: u32) {
    0xFFFF_FFFF - x
  }

  function Shr(x: u32, n: nat): (r: u32) {
    if n == 0 then x else Shr(x / 2, n - 1)
  }

  /** Right rotation: the bits shifted out come back at the top. */
  function Rotr(x: u32, n: nat): (r: u32)
    requires 0 < n < 32
  {
    (Shr(x, n) + x * Pow2(32 - n)) % WORD
  }

  function Add(x: u32, y: u32): (r: u32) {
    (x + y) % WORD
  }

  function Ch(x: u32, y: u32, z: u32): (r: u32) {
    Xor(And(x, y), And(Not(x), z))
  }

  function Maj(x: u32, y: u32, z: u32): (r: u32) {
    Xor(Xor(And(x, y), And(x, z)), And(y, z))
  }

  function BigSigma0(x: u32): (r: u32) {
    Xor(Xor(Rotr(x, 2), Rotr(x, 13)), Rotr(x, 22))
  }

  function BigSigma1(x: u32): (r: u32) {
    Xor(Xor(Rotr(x, 6), Rotr(x, 11)), Rotr(x, 25))
  }

  function Sigma0(x: u32): (r: u32) {
    Xor(Xor(Rotr(x, 7), Rotr(x, 18)), Shr(x, 3))
  }

  function Sigma1(x: u32): (r: u32) {
    Xor(Xor(Rotr(x, 17), Rotr(x, 19)), Shr(x, 10))
  }

  function Be32(b: seq<byte>): (x: u32)
    requires |b| == 4
  {
    0x100_0000 * b[0] as int + 0x1_0000 * b[1] as int + 0x100 * b[2] as int + b[3] as int
  }

  function ToBe32(x: u32): (b: seq<byte>)
    ensures |b| == 4
  {
    [x / 0x100_0000, x / 0x1_0000 % 0x100, x / 0x100 % 0x100, x % 0x100]
  }

  // ---- compression, as the standard defines it ----

  /** Word `t` of the message schedule. */
  function Schedule(block: seq<byte>, t: nat): (w: u32)
    requires |block| == 64 && t < 64
    decreases t
  {
    if t < 16 then Be32(block[4 * t..4 * t + 4])
    else Add(Add(Add(Sigma1(Schedule(block, t - 2)), Schedule(block, t - 7)), Sigma0(Schedule(block, t - 15))),
             Schedule(block, t - 16))
  }

  datatype Vars = Vars(a: u32, b: u32, c: u32, d: u32, e: u32, f: u32, g: u32, h: u32)

  function T1(v: Vars, k: u32, w: u32): (r: u32) {
    Add(Add(Add(Add(v.h, BigSigma1(v.e)), Ch(v.e, v.f, v.g)), k), w)
  }

  function T2(v: Vars): (r: u32) {
    Add(BigSigma0(v.a), Maj(v.a, v.b, v.c))
  }

  function Round(v: Vars, k: u32, w: u32): (r: Vars) {
    Vars(Add(T1(v, k, w), T2(v)), v.a, v.b, v.c, Add(v.d, T1(v, k, w)), v.e, v.f, v.g)
  }

  function Rounds(v: Vars, block: seq<byte>, t: nat): (r: Vars)
    requires |block| == 64 && t <= 64
  {
    if t == 0 then v else Round(Rounds(v, block, t - 1), K[t - 1], Schedule(block, t - 1))
  }

  function Load(h: seq<u32>): (v: Vars)
    requires |h| == 8
  {
    Vars(h[0], h[1], h[2], h[3], h[4], h[5], h[6], h[7])
  }

  function Compress(h: seq<u32>, block: seq<byte>): (r: seq<u32>)
    requires |h| == 8 && |block| == 64
    ensures |r| == 8
  {
    var v := Rounds(Load(h), block, 64);
    [Add(h[0], v.a), Add(h[1], v.b), Add(h[2], v.c), Add(h[3], v.d),
     Add(h[4], v.e), Add(h[5], v.f), Add(h[6], v.g), Add(h[7], v.h)]
  }

  // ---- the hash of a message, as the standard defines it ----

  /** Whole blocks folded in order. */
  function Fold(data: seq<byte>): (h: seq<u32>)
    requires |data| % 64 == 0
    ensures |h| == 8
    decreases |data|
  {
    if data == [] then INITIAL
    else Compress(Fold(data[..|data| - 64]), data[|data| - 64..])
  }

  /** Zero bytes of padding: the least number that brings the length to 56 modulo 64. */
  function Zeros(len: nat): (z: nat)
    ensures z < 64 && (len + 1 + z) % 64 == 56
  {
    (119 - len % 64) % 64
  }

  function ToBe64(x: u64): (b: seq<byte>)
    ensures |b| == 8
  {
    ToBe32(x / WORD) + ToBe32(x % WORD)
  }

  lemma PadLength(len: nat)
    ensures (len + 1 + Zeros(len) + 8) % 64 == 0
  {
  }

  function Pad(msg: seq<byte>): (p: seq<byte>)
    ensures |p| % 64 == 0 && |p| >= |msg| + 9
  {
    PadLength(|msg|);
    msg + [0x80] + Fill(Zeros(|msg|), 0) + ToBe64(8 * |msg| % U64)
  }

  function Output(h: seq<u32>): (out: seq<byte>)
    requires |h| == 8
    ensures |out| == 32
  {
    ToBe32(h[0]) + ToBe32(h[1]) + ToBe32(h[2]) + ToBe32(h[3])
    + ToBe32(h[4]) + ToBe32(h[5]) + ToBe32(h[6]) + ToBe32(h[7])
  }

  function Digest(msg: seq<byte>): (out: seq<byte>)
    ensures |out| == 32
  {
    Output(Fold(Pad(msg)))
  }

  // ---- the code ----

  lemma ScheduleStep(block: seq<byte>, t: nat)
    requires |block| == 64 && 16 <= t < 64
    ensures Schedule(block, t)
         == Add(Add(Add(Sigma1(Schedule(block, t - 2)), Schedule(block, t - 7)), Sigma0(Schedule(block, t - 15))),
                Schedule(block, t - 16))
  {
    hide Add, Sigma0, Sigma1;
  }

  lemma ScheduleLoad(block: seq<byte>, t: nat)
    requires |block| == 64 && t < 16
    ensures Schedule(block, t) == Be32(block[4 * t..4 * t + 4])
  {
    hide Add, Sigma0, Sigma1;
  }

  method Expand(block: seq<byte>) returns (w: array<u32>)
    requires |block| == 64
    ensures fresh(w) && w.Length == 64 && forall t :: 0 <= t < 64 ==> w[t] == Schedule(block, t)
  {
    hide Add, Sigma0, Sigma1, Schedule, Be32;
    w := new u32[64](_ => 0);
    for t := 0 to 16
      invariant forall i :: 0 <= i < t ==> w[i] == Schedule(block, i)
    {
      ScheduleLoad(block, t);
      w[t] := Be32(block[4 * t..4 * t + 4]);
    }
    for t := 16 to 64
      invariant forall i :: 0 <= i < t ==> w[i] == Schedule(block, i)
    {
      ScheduleStep(block, t);
      w[t] := Add(Add(Add(Sigma1(w[t - 2]), w[t - 7]), Sigma0(w[t - 15])), w[t - 16]);
    }
  }

  lemma RoundsStep(v: Vars, block: seq<byte>, t: nat)
    requires |block| == 64 && t < 64
    ensures Rounds(v, block, t + 1) == Round(Rounds(v, block, t), K[t], Schedule(block, t))
    ensures Rounds(v, block, 0) == v
  {
    hide Round, Schedule;
  }

  lemma RoundIs(v: Vars, k: u32, w: u32)
    ensures var t1 := Add(Add(Add(Add(v.h, BigSigma1(v.e)), Ch(v.e, v.f, v.g)), k), w);
            Round(v, k, w)
            == Vars(Add(t1, Add(BigSigma0(v.a), Maj(v.a, v.b, v.c))), v.a, v.b, v.c, Add(v.d, t1), v.e, v.f, v.g)
  {
    hide Add, BigSigma0, BigSigma1, Ch, Maj;
  }

  method CompressBlock(state: seq<u32>, block: seq<byte>) returns (r: seq<u32>)
    requires |state| == 8 && |block| == 64
    ensures r == Compress(state, block)
  {
    hide Add, BigSigma0, BigSigma1, Ch, Maj, Schedule, Rounds, Round;
    var schedule := Expand(block);
    var w := schedule[..];
    var a, b, c, d, e, f, g, h := state[0], state[1], state[2], state[3], state[4], state[5], state[6], state[7];
    ghost var v := Load(state);
    RoundsStep(v, block, 0);
    for t := 0 to 64
      invariant Vars(a, b, c, d, e, f, g, h) == Rounds(v, block, t)
    {
      RoundsStep(v, block, t);
      RoundIs(Vars(a, b, c, d, e, f, g, h), K[t], w[t]);
      var t1 := Add(Add(Add(Add(h, BigSigma1(e)), Ch(e, f, g)), K[t]), w[t]);
      var t2 := Add(BigSigma0(a), Maj(a, b, c));
      h := g;
      g := f;
      f := e;
      e := Add(d, t1);
      d := c;
      c := b;
      b := a;
      a := Add(t1, t2);
    }
    r := [Add(state[0], a), Add(state[1], b), Add(state[2], c), Add(state[3], d),
          Add(state[4], e), Add(state[5], f), Add(state[6], g), Add(state[7], h)];
  }

  /** The chaining value and buffer after absorbing `data`, `len` bytes of it still buffered. */
  ghost predicate Holds(state: seq<u32>, buf: seq<byte>, len: nat, data: seq<byte>) {
    && len <= 64 == |buf| && len <= |data| && (|data| - len) % 64 == 0
    && state == Fold(data[..|data| - len])
    && buf[..len] == data[|data| - len..]
  }

  lemma PushHolds(state: seq<u32>, buf: seq<byte>, len: nat, data: seq<byte>, b: byte)
    requires Holds(state, buf, len, data) && len < 64
    ensures Holds(state, buf[len := b], len + 1, data + [b])
  {
    hide Fold;
    assert (data + [b])[..|data| - len] == data[..|data| - len];
    assert buf[len := b][..len + 1] == buf[..len] + [b];
    assert (data + [b])[|data| - len..] == data[|data| - len..] + [b];
  }

  lemma FlushHolds(state: seq<u32>, buf: seq<byte>, data: seq<byte>)
    requires Holds(state, buf, 64, data)
    ensures |state| == 8 && Holds(Compress(state, buf), buf, 0, data)
  {
    hide Compress;
    assert buf[..64] == buf;
    assert data[..|data| - 0] == data;
    assert data != [];
  }

  class Hasher {
    var state: seq<u32>
    var buf: seq<byte>
    var bufLen: nat
    var totalLen: nat

    /** The hasher has been fed exactly `msg`. */
    ghost predicate Fed(msg: seq<byte>)
      reads this
    {
      bufLen < 64 && totalLen == |msg| % U64 && Holds(state, buf, bufLen, msg)
    }

    constructor ()
      ensures Fed([])
    {
      state, buf, bufLen, totalLen := INITIAL, Fill(64, 0), 0, 0;
    }

    method Update(data: seq<byte>, ghost msg: seq<byte>)
      requires Fed(msg)
      modifies this
      ensures Fed(msg + data)
    {
      hide Holds, Compress;
      assert msg + data[..0] == msg;
      for i := 0 to |data|
        invariant Fed(msg + data[..i])
      {
        Shape(msg + data[..i]);
        PushHolds(state, buf, bufLen, msg + data[..i], data[i]);
        Extend(msg, data, i);
        buf := buf[bufLen := data[i]];
        bufLen := bufLen + 1;
        totalLen := (totalLen + 1) % U64;
        if bufLen == 64 {
          FlushHolds(state, buf, msg + data[..i + 1]);
          Shape(msg + data[..i + 1]);
          state := CompressBlock(state, buf);
          bufLen := 0;
        }
      }
      assert data[..|data|] == data;
    }

    lemma Shape(data: seq<byte>)
      requires Holds(state, buf, bufLen, data)
      ensures |buf| == 64 && |state| == 8
    {
    }

    method Final(ghost msg: seq<byte>) returns (out: seq<byte>)
      requires Fed(msg)
      modifies this
      ensures out == Digest(msg)
    {
      hide Holds, Compress, Fold, ToBe64, Output, Zeros, Patch;
      var bitLen: u64 := totalLen * 8 % U64;
      BitLength(|msg|);
      Shape(msg);
      PushHolds(state, buf, bufLen, msg, 0x80);
      buf := buf[bufLen := 0x80];
      bufLen := bufLen + 1;
      ghost var data := PadZeros(msg);
      Shape(data);
      LengthHolds(state, buf, data, ToBe64(bitLen));
      buf := Patch(buf, 56, ToBe64(bitLen));
      FlushHolds(state, buf, data + ToBe64(bitLen));
      state := CompressBlock(state, buf);
      WholeHolds(state, buf, data + ToBe64(bitLen));
      out := Output(state);
    }

    /** Zero bytes until the buffer has exactly its length field left. */
    method PadZeros(ghost msg: seq<byte>) returns (ghost data: seq<byte>)
      requires Holds(state, buf, bufLen, msg + [0x80])
      modifies this
      ensures data == msg + [0x80] + Fill(Zeros(|msg|), 0)
      ensures bufLen == 56 && Holds(state, buf, bufLen, data)
    {
      hide Holds, Compress, Zeros;
      ghost var z := 0;
      data := msg + [0x80];
      assert data == msg + [0x80] + Fill(0, 0);
      while bufLen % 64 != 56
        invariant 0 <= z <= Zeros(|msg|) && data == msg + [0x80] + Fill(z, 0)
        invariant Holds(state, buf, bufLen, data)
        decreases Zeros(|msg|) - z
      {
        Shape(data);
        HeldMod(state, buf, bufLen, data);
        if bufLen == 64 {
          FlushHolds(state, buf, data);
          state := CompressBlock(state, buf);
          bufLen := 0;
        }
        PushHolds(state, buf, bufLen, data, 0);
        MoreZeros(msg, z);
        buf := buf[bufLen := 0];
        bufLen := bufLen + 1;
        z := z + 1;
        data := data + [0];
      }
      HeldMod(state, buf, bufLen, data);
      LastZero(|msg|, z);
    }
  }

  lemma HeldMod(state: seq<u32>, buf: seq<byte>, len: nat, data: seq<byte>)
    requires Holds(state, buf, len, data)
    ensures len <= 64 && len % 64 == |data| % 64
  {
    hide Fold;
  }

  lemma Extend(msg: seq<byte>, data: seq<byte>, i: nat)
    requires i < |data|
    ensures msg + data[..i] + [data[i]] == msg + data[..i + 1]
    ensures (|msg + data[..i]| % U64 + 1) % U64 == |msg + data[..i + 1]| % U64
  {
    assert data[..i + 1] == data[..i] + [data[i]];
  }

  lemma BitLength(n: nat)
    ensures n % U64 * 8 % U64 == 8 * n % U64
  {
    Wraps(n % U64 * 8, 8 * (n / U64));
  }

  lemma {:induction false} Wraps(a: nat, k: nat)
    ensures (a + k * U64) % U64 == a % U64
  {
    if k > 0 {
      Wraps(a, k - 1);
    }
  }

  lemma MoreZeros(msg: seq<byte>, z: nat)
    requires (|msg| + 1 + z) % 64 != 56 && z <= Zeros(|msg|)
    ensures msg + [0x80] + Fill(z, 0) + [0] == msg + [0x80] + Fill(z + 1, 0) && z + 1 <= Zeros(|msg|)
  {
    assert Fill(z + 1, 0) == Fill(z, 0) + [0];
  }

  lemma LastZero(len: nat, z: nat)
    requires z <= Zeros(len) && (len + 1 + z) % 64 == 56
    ensures z == Zeros(len)
  {
  }

  lemma LengthHolds(state: seq<u32>, buf: seq<byte>, data: seq<byte>, tail: seq<byte>)
    requires Holds(state, buf, 56, data) && |tail| == 8
    ensures Holds(state, Patch(buf, 56, tail), 64, data + tail)
  {
    hide Fold;
    assert (data + tail)[..|data| - 56] == data[..|data| - 56];
    assert Patch(buf, 56, tail) == buf[..56] + tail;
    assert (data + tail)[|data| - 56..] == data[|data| - 56..] + tail;
  }

  lemma WholeHolds(state: seq<u32>, buf: seq<byte>, data: seq<byte>)
    requires Holds(state, buf, 0, data)
    ensures |data| % 64 == 0 && state == Fold(data)
  {
    assert data[..|data| - 0] == data;
  }

  /** One call over the whole message. */
  method Hash(data: seq<byte>) returns (out: seq<byte>)
    ensures out == Digest(data)
  {
    var h := new Hasher();
    h.Update(data, []);
    assert [] + data == data;
    out := h.Final(data);
  }

  /** Any way of cutting a message into pieces gives the digest of the whole. */
  method HashPieces(pieces: seq<seq<byte>>) returns (out: seq<byte>)
    ensures out == Digest(Flatten(pieces))
  {
    hide Digest, Flatten;
    var h := new Hasher();
    ghost var msg := [];
    FlattenNothing(pieces);
    for i := 0 to |pieces|
      invariant fresh(h) && msg == Flatten(pieces[..i]) && h.Fed(msg)
    {
      h.Update(pieces[i], msg);
      FlattenNext(pieces, i);
      msg := msg + pieces[i];
    }
    assert pieces[..|pieces|] == pieces;
    out := h.Final(msg);
  }

  lemma FlattenNothing(ps: seq<seq<byte>>)
    ensures Flatten(ps[..0]) == []
  {
  }

  lemma FlattenNext(ps: seq<seq<byte>>, i: nat)
    requires i < |ps|
    ensures Flatten(ps[..i + 1]) == Flatten(ps[..i]) + ps[i]
  {
    assert ps[..i + 1][..i] == ps[..i];
  }
}
