/**
 The Internet checksum shared by IPv4, ICMP, UDP and TCP: a wrapping 32-bit sum of
 big-endian words, folded and complemented.
 */
module Checksum {
  import opened Bytes

  const WRAP: nat := 0x1_0000_0000

  /** A big-endian 16-bit word. */
  function Word(hi: byte, lo: byte): (w: u16) {
    256 * hi as int + lo as int
  }

  /** The unbounded word sum, byte by byte. */
  function WordSum(data: seq<byte>): (n: nat)
    decreases |data|
  {
    if data == [] then 0
    else WordSum(data[..|data| - 1]) + Scaled(data[|data| - 1], |data| - 1)
  }

  /** Even positions hold the high byte of a word; a missing low byte counts as zero. */
  function Scaled(b: byte, i: nat): (n: nat) {
    if i % 2 == 0 then 256 * b as int else b as int
  }

  /** What folding the carries back in converges to: the residue 1..65535, or 0 for 0. */
  function Folded(sum: nat): (f: u16)
    ensures f == 0 <==> sum == 0
  {
    if sum == 0 then 0 else (sum - 1) % 65535 + 1
  }

  /** Checksum of `data` on top of the partial sum `init` of a pseudo-header. */
  function Sum(init: nat, data: seq<byte>): (c: u16) {
    65535 - Folded(Raw(init, data))
  }

  function Raw(init: nat, data: seq<byte>): (s: u32) {
    (init + WordSum(data)) % WRAP
  }

  // ---- the loops ----

  lemma WordSumStep(data: seq<byte>, i: nat)
    requires i < |data|
    ensures WordSum(data[..i + 1]) == WordSum(data[..i]) + Scaled(data[i], i)
  {
    assert data[..i + 1][..i] == data[..i];
  }

  lemma WrapAdd(a: nat, b: nat)
    ensures (a % WRAP + b) % WRAP == (a + b) % WRAP
    ensures (b + a % WRAP) % WRAP == (a + b) % WRAP
  {
  }

  /** `u32::wrapping_add`. */
  function AddWrap(a: u32, b: u32): (r: u32)
    ensures a + b < WRAP ==> r == a + b
  {
    (a + b) % WRAP
  }

  method RawSum(data: seq<byte>) returns (sum: u32)
    ensures sum == WordSum(data) % WRAP
  {
    hide WordSum, Scaled;
    sum := 0;
    var i := 0;
    SumOfNothing(data);
    while i + 1 < |data|
      invariant 0 <= i <= |data| && i % 2 == 0
      invariant sum == WordSum(data[..i]) % WRAP
    {
      TwoBytes(data, i);
      WrapAdd(WordSum(data[..i]), Word(data[i], data[i + 1]));
      sum := AddWrap(sum, Word(data[i], data[i + 1]));
      i := i + 2;
    }
    if i < |data| {
      LastByte(data, i);
      WrapAdd(WordSum(data[..i]), 256 * data[i] as int);
      sum := AddWrap(sum, 256 * data[i] as int);
    }
    assert data[..|data|] == data;
  }

  lemma SumOfNothing(data: seq<byte>)
    ensures WordSum(data[..0]) == 0
  {
  }

  lemma TwoBytes(data: seq<byte>, i: nat)
    requires i + 1 < |data| && i % 2 == 0
    ensures WordSum(data[..i + 2]) == WordSum(data[..i]) + Word(data[i], data[i + 1])
  {
    WordSumStep(data, i);
    WordSumStep(data, i + 1);
  }

  lemma LastByte(data: seq<byte>, i: nat)
    requires i < |data| && i % 2 == 0
    ensures WordSum(data[..i + 1]) == WordSum(data[..i]) + 256 * data[i] as int
  {
    WordSumStep(data, i);
  }

  lemma FoldStep(x: nat)
    requires x >= 65536
    ensures Folded(x % 65536 + x / 65536) == Folded(x)
    ensures x % 65536 + x / 65536 < x
  {
    var q := x / 65536;
    assert x - 1 == 65535 * q + (x % 65536 + q - 1);
    FoldShift(x % 65536 + q - 1, q);
  }

  lemma FoldShift(x: nat, q: nat)
    ensures (65535 * q + x) % 65535 == x % 65535
  {
    DivUnique(65535 * q + x, 65535, q + x / 65535);
  }

  method Fold(sum: u32) returns (c: u16)
    ensures c == 65535 - Folded(sum)
  {
    hide Folded;
    var s: u32 := sum;
    while s / 65536 != 0
      invariant Folded(s) == Folded(sum)
      decreases s
    {
      FoldStep(s);
      s := s % 65536 + s / 65536;
    }
    FoldedSmall(s);
    c := 65535 - s;
  }

  lemma FoldedSmall(s: nat)
    requires s < 65536
    ensures Folded(s) == s
  {
  }

  /** The plain form, over an IPv4 header or an ICMP message. */
  method Compute(data: seq<byte>) returns (c: u16)
    ensures c == Sum(0, data)
  {
    var s := RawSum(data);
    c := Fold(s);
  }

  /** The partial sum of the transport pseudo-header. */
  function PseudoSum(src: seq<byte>, dst: seq<byte>, proto: byte, length: nat): (n: nat)
    requires |src| == 4 && |dst| == 4
  {
    Word(src[0], src[1]) as nat + Word(src[2], src[3]) as nat
    + Word(dst[0], dst[1]) as nat + Word(dst[2], dst[3]) as nat + proto as nat + length % WRAP
  }

  /** The transport form. */
  method Pseudo(src: seq<byte>, dst: seq<byte>, proto: byte, segment: seq<byte>) returns (c: u16)
    requires |src| == 4 && |dst| == 4
    ensures c == Sum(PseudoSum(src, dst, proto, |segment|), segment)
  {
    hide WordSum, AddWrap, Word;
    var sum := AddWrap(0, Word(src[0], src[1]));
    sum := AddWrap(sum, Word(src[2], src[3]));
    sum := AddWrap(sum, Word(dst[0], dst[1]));
    sum := AddWrap(sum, Word(dst[2], dst[3]));
    sum := AddWrap(sum, proto);
    PseudoTotal(sum, |segment|, WordSum(segment));
    sum := AddWrap(sum, |segment| % WRAP);
    var body := RawSum(segment);
    c := Fold(AddWrap(sum, body));
  }

  lemma PseudoTotal(head: u32, length: nat, body: nat)
    ensures AddWrap(AddWrap(head, length % WRAP), body % WRAP) == (head + length % WRAP + body) % WRAP
  {
    WrapAdd(head + length % WRAP, body % WRAP);
    WrapAdd(body, head + length % WRAP);
  }

  // ---- meaning ----

  /** Concatenation after an even number of bytes adds the sums. */
  lemma {:induction false} SumConcat(a: seq<byte>, b: seq<byte>)
    requires |a| % 2 == 0
    ensures WordSum(a + b) == WordSum(a) + WordSum(b)
    decreases |b|
  {
    if b == [] {
      assert a + b == a;
    } else {
      var front := b[..|b| - 1];
      SumConcat(a, front);
      assert (a + b)[..|a + b| - 1] == a + front;
      assert (|a| + |b| - 1) % 2 == (|b| - 1) % 2;
    }
  }

  function PseudoHeader(src: seq<byte>, dst: seq<byte>, proto: byte, length: u16): (h: seq<byte>)
    requires |src| == 4 && |dst| == 4
    ensures |h| == 12
  {
    src + dst + [0, proto, length / 256, length % 256]
  }

  lemma SumOfFour(s: seq<byte>)
    requires |s| == 4
    ensures WordSum(s) == Word(s[0], s[1]) as nat + Word(s[2], s[3]) as nat
  {
    SumOfNothing(s);
    TwoBytes(s, 0);
    TwoBytes(s, 2);
    assert s[..4] == s;
  }

  /** The transport checksum is the plain one over the pseudo-header followed by the segment. */
  lemma {:induction false} PseudoIsPlain(src: seq<byte>, dst: seq<byte>, proto: byte, segment: seq<byte>)
    requires |src| == 4 && |dst| == 4 && |segment| < 65536
    ensures Sum(PseudoSum(src, dst, proto, |segment|), segment)
         == Sum(0, PseudoHeader(src, dst, proto, |segment|) + segment)
  {
    hide WordSum, PseudoHeader, PseudoSum, Folded;
    HeaderSum(src, dst, proto, |segment|);
    SumConcat(PseudoHeader(src, dst, proto, |segment|), segment);
  }

  lemma HeaderSum(src: seq<byte>, dst: seq<byte>, proto: byte, length: u16)
    requires |src| == 4 && |dst| == 4
    ensures WordSum(PseudoHeader(src, dst, proto, length)) == PseudoSum(src, dst, proto, length)
  {
    hide WordSum;
    var tail := [0, proto, length / 256, length % 256];
    SumOfFour(src);
    SumOfFour(dst);
    SumOfFour(tail);
    SumConcat(src, dst);
    SumConcat(src + dst, tail);
  }

  /** Rewriting one byte moves the sum by its weighted difference. */
  lemma {:induction false} SumUpdate(data: seq<byte>, k: nat, b: byte)
    requires k < |data|
    ensures WordSum(data[k := b]) + Scaled(data[k], k) == WordSum(data) + Scaled(b, k)
    decreases |data|
  {
    var n := |data| - 1;
    var front := data[..n];
    if k == n {
      assert data[k := b][..n] == front;
    } else {
      SumUpdate(front, k, b);
      assert data[k := b][..n] == front[k := b];
    }
  }

  /** Data with a 16-bit field stored big-endian at offset `k`. */
  function WithField(data: seq<byte>, k: nat, v: u16): (d: seq<byte>)
    requires k + 2 <= |data|
    ensures |d| == |data|
  {
    data[k := v / 256][k + 1 := v % 256]
  }

  lemma SumField(data: seq<byte>, k: nat, v: u16)
    requires k + 2 <= |data| && k % 2 == 0
    ensures WordSum(WithField(data, k, v)) == WordSum(WithField(data, k, 0)) + v
  {
    hide WordSum;
    SumUpdate(data, k, v / 256);
    SumUpdate(data[k := v / 256], k + 1, v % 256);
    SumUpdate(data, k, 0);
    SumUpdate(data[k := 0], k + 1, 0);
  }

  // ---- acceptance ----

  /** A receiver accepts a partial sum exactly when it is a nonzero multiple of 65535. */
  lemma AcceptedIff(s: u32)
    ensures 65535 - Folded(s) == 0 <==> s % 65535 == 0 && s > 0
  {
    if s > 0 {
      var q, r := (s - 1) / 65535, (s - 1) % 65535;
      assert s == 65535 * q + (r + 1);
      FoldShift(r + 1, q);
    }
  }

  /** Adding the complement makes a multiple of 65535, with no room left to wrap. */
  lemma ComplementFits(s: u32)
    ensures var c := 65535 - Folded(s);
            s + c < WRAP && (s + c) % 65535 == 0 && s + c > 0
  {
    if s > 0 {
      var q, r := (s - 1) / 65535, (s - 1) % 65535;
      assert s == 65535 * q + r + 1;
      FoldShift(0, q + 1);
    }
  }

  /**
   Exactly which 16-bit values a receiver accepts on top of the sum `s`: the computed
   checksum, and all-ones in place of a computed zero (unless that addition wraps).
   */
  lemma AcceptedField(s: u32, v: u16)
    ensures var c := 65535 - Folded(s);
            65535 - Folded((s + v) % WRAP) == 0 <==> v == c || (c == 0 && v == 65535 && s != WRAP - 1)
  {
    hide Folded;
    ComplementFits(s);
    AcceptedIff((s + v) % WRAP);
    var c := 65535 - Folded(s);
    SameResidue(s, c, v);
  }

  lemma SameResidue(s: u32, c: u16, v: u16)
    requires s + c < WRAP && (s + c) % 65535 == 0 && s + c > 0 && (s > 0 ==> c < 65535)
    ensures ((s + v) % WRAP % 65535 == 0 && (s + v) % WRAP > 0)
        <==> (v == c || (c == 0 && v == 65535 && s != WRAP - 1))
  {
    var q := (s + c) / 65535;
    assert s + c == 65535 * q;
    if s + v >= WRAP {
      assert (s + v) % WRAP == s + v - WRAP;
    }
  }

  /**
   Verify-to-zero, for data of every length: with the field zeroed, the computed checksum
   stored in it makes the whole sum to zero; and no other value does, except all-ones for
   a computed zero.
   */
  lemma {:induction false} VerifiesIff(init: nat, data: seq<byte>, k: nat, v: u16)
    requires k + 2 <= |data| && k % 2 == 0
    ensures var c := Sum(init, WithField(data, k, 0));
            Sum(init, WithField(data, k, v)) == 0
            <==> v == c || (c == 0 && v == 65535 && Raw(init, WithField(data, k, 0)) != WRAP - 1)
  {
    hide WordSum, Folded, WithField;
    SumField(data, k, v);
    var t := init + WordSum(WithField(data, k, 0));
    WrapAdd(t, v);
    AcceptedField(t % WRAP, v);
  }

  lemma FieldIsZero(data: seq<byte>, k: nat)
    requires k + 2 <= |data| && data[k] == 0 && data[k + 1] == 0
    ensures WithField(data, k, 0) == data
  {
    assert data[k := 0] == data;
    assert data[k + 1 := 0] == data;
  }

  lemma {:induction false} SealedVerifies(data: seq<byte>, k: nat)
    requires k + 2 <= |data| && k % 2 == 0 && data[k] == 0 && data[k + 1] == 0
    ensures Sum(0, WithField(data, k, Sum(0, data))) == 0
  {
    hide Sum, Raw, WithField;
    FieldIsZero(data, k);
    VerifiesIff(0, data, k, Sum(0, data));
  }

  /** Any single corrupted byte of accepted data, of any length, is noticed. */
  lemma {:induction false} CorruptionDetected(init: nat, data: seq<byte>, k: nat, b: byte)
    requires k < |data| && b != data[k] && Sum(init, data) == 0
    ensures Sum(init, data[k := b]) != 0
  {
    hide WordSum, Folded;
    SumUpdate(data, k, b);
    var t, t' := init + WordSum(data), init + WordSum(data[k := b]);
    AcceptedIff(t % WRAP);
    AcceptedIff(t' % WRAP);
    NearbyRejected(t, t');
  }

  lemma NearbyRejected(t: nat, t': nat)
    requires t != t' && t < t' + 65534 && t' < t + 65534
    requires t % WRAP % 65535 == 0 && t % WRAP > 0
    ensures !(t' % WRAP % 65535 == 0 && t' % WRAP > 0)
  {
    var s, s' := t % WRAP, t' % WRAP;
    var q, q' := t / WRAP, t' / WRAP;
    assert t == WRAP * q + s && t' == WRAP * q' + s';
    assert -1 <= q - q' <= 1;
  }
}
