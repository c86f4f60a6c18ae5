/**
 Fixed-width integers, byte buffers and the little- and big-endian codecs that
 every on-disk and on-wire format of the system is built from.
 */
module Bytes {
  type byte = x: int | 0 <= x < 0x100
  type u16 = x: int | 0 <= x < 0x1_0000
  type u32 = x: int | 0 <= x < 0x1_0000_0000
  type u64 = x: int | 0 <= x < 0x1_0000_0000_0000_0000

  datatype Option<+T> = None | Some(value: T)

  function Min(a: int, b: int): (r: int)
    ensures r <= a && r <= b && (r == a || r == b)
  {
    if a <= b then a else b
  }

  /** The number of blocks of `size` bytes that cover `n` bytes. */
  function DivCeil(n: nat, size: nat): (r: nat)
    requires size > 0
  {
    (n + size - 1) / size
  }

  lemma SmallProduct(e: int, size: int)
    requires size > 0 && 0 - size < e * size < size
    ensures e == 0
  {
    assert e >= 1 ==> e * size >= size;
    assert e <= -1 ==> e * size <= 0 - size;
  }

  lemma DivUnique(m: nat, size: nat, q: nat)
    requires size > 0 && q * size <= m < q * size + size
    ensures m / size == q && m % size == m - q * size
  {
    var d := m / size;
    assert m == d * size + m % size;
    var e := d - q;
    assert e * size == d * size - q * size;
    assert 0 - size as int < e * size < size;
    SmallProduct(e, size);
  }

  lemma DivCeilCovers(n: nat, size: nat)
    requires size > 0
    ensures DivCeil(n, size) * size >= n
    ensures n > 0 ==> DivCeil(n, size) > 0 && (DivCeil(n, size) - 1) * size < n
    ensures n == 0 ==> DivCeil(n, size) == 0
  {
    var q := DivCeil(n, size);
    var m := n + size - 1;
    assert m == q * size + m % size;
    assert (q - 1) * size == q * size - size;
    if n == 0 {
      assert m < size;
      DivUnique(m, size, 0);
    } else {
      assert m >= size;
    }
  }

  // ---- little endian ----

  function Le16(s: seq<byte>): (x: u16)
    requires |s| >= 2
  {
    s[0] as int + 0x100 * s[1] as int
  }

  function Le32(s: seq<byte>): (x: u32)
    requires |s| >= 4
  {
    s[0] as int + 0x100 * s[1] as int + 0x1_0000 * s[2] as int + 0x100_0000 * s[3] as int
  }

  function ToLe32(x: u32): (s: seq<byte>)
    ensures |s| == 4 && Le32(s) == x
  {
    var y := x / 0x100;
    var z := y / 0x100;
    [x % 0x100, y % 0x100, z % 0x100, z / 0x100]
  }

  function Le64(s: seq<byte>): (x: u64)
    requires |s| >= 8
  {
    s[0] as int + 0x100 * s[1] as int + 0x1_0000 * s[2] as int + 0x100_0000 * s[3] as int
    + 0x1_0000_0000 * (s[4] as int + 0x100 * s[5] as int + 0x1_0000 * s[6] as int + 0x100_0000 * s[7] as int)
  }

  function ToLe64(x: u64): (s: seq<byte>)
    ensures |s| == 8 && Le64(s) == x
  {
    ToLe32(x % 0x1_0000_0000) + ToLe32(x / 0x1_0000_0000)
  }

  /** `n` copies of `b`. */
  function Fill(n: nat, b: byte): (s: seq<byte>)
    ensures |s| == n && forall i :: 0 <= i < n ==> s[i] == b
  {
    seq(n, i => b)
  }

  lemma Assoc<T>(x: seq<T>, y: seq<T>, z: seq<T>)
    ensures x + (y + z) == (x + y) + z
  {
  }

  lemma SliceOfSlice(buf: seq<byte>, lo: nat, hi: nat, a: nat, b: nat)
    requires lo <= hi <= |buf| && a <= b <= hi - lo
    ensures buf[lo..hi][a..b] == buf[lo + a..lo + b]
  {
    var x, y := buf[lo..hi][a..b], buf[lo + a..lo + b];
    assert forall i :: 0 <= i < |x| ==> x[i] == y[i];
  }

  /** A slice inside the front part of a concatenation. */
  lemma SliceFront(front: seq<byte>, back: seq<byte>, lo: nat, hi: nat)
    requires lo <= hi <= |front|
    ensures (front + back)[lo..hi] == front[lo..hi]
  {
  }

  lemma SliceBack(front: seq<byte>, back: seq<byte>)
    ensures (front + back)[|front|..|front| + |back|] == back
  {
  }

  /** Records laid end to end. */
  function Flatten(rs: seq<seq<byte>>): (b: seq<byte>)
  {
    if rs == [] then [] else Flatten(rs[..|rs| - 1]) + rs[|rs| - 1]
  }

  ghost predicate Uniform(rs: seq<seq<byte>>, size: nat) {
    forall i :: 0 <= i < |rs| ==> |rs[i]| == size
  }

  lemma {:induction false} FlattenLength(rs: seq<seq<byte>>, size: nat)
    requires Uniform(rs, size)
    ensures |Flatten(rs)| == |rs| * size
  {
    if rs != [] {
      var n := |rs| - 1;
      FlattenLength(rs[..n], size);
      assert n * size + size == (n + 1) * size;
    }
  }

  /** Record `i` of a uniform layout sits at offset `i * size`. */
  lemma {:induction false} FlattenAt(rs: seq<seq<byte>>, size: nat, i: nat, off: nat)
    requires Uniform(rs, size) && i < |rs| && off == i * size
    ensures off + size <= |Flatten(rs)| && Flatten(rs)[off..off + size] == rs[i]
    decreases |rs|
  {
    var n := |rs| - 1;
    var front := Flatten(rs[..n]);
    FlattenLength(rs[..n], size);
    if i < n {
      FlattenAt(rs[..n], size, i, off);
      SliceFront(front, rs[n], off, off + size);
    } else {
      SliceBack(front, rs[n]);
    }
  }

  /** `buf` with the bytes from `off` on replaced by `data`, as `copy_from_slice` does. */
  function Patch(buf: seq<byte>, off: nat, data: seq<byte>): (r: seq<byte>)
    requires off + |data| <= |buf|
    ensures |r| == |buf|
    ensures r[off..off + |data|] == data
    ensures forall i :: 0 <= i < off || off + |data| <= i < |buf| ==> r[i] == buf[i]
  {
    buf[..off] + data + buf[off + |data|..]
  }

  lemma PatchPrefix(buf: seq<byte>, off: nat, data: seq<byte>)
    requires off + |data| <= |buf|
    ensures Patch(buf, off, data)[..off + |data|] == buf[..off] + data
  {
  }

  /** Filling a zeroed buffer front to back: `b` holds `done` and then zeros. */
  method Put(b: seq<byte>, ghost done: seq<byte>, off: nat, data: seq<byte>)
    returns (r: seq<byte>, ghost now: seq<byte>)
    requires off == |done| && off + |data| <= |b| && b == done + Fill(|b| - off, 0)
    ensures now == done + data && |r| == |b| && r == now + Fill(|b| - |now|, 0)
  {
    r := Patch(b, off, data);
    now := done + data;
  }

  /** `copy_from_slice` into a buffer. */
  method CopyInto(dst: array<byte>, off: nat, data: seq<byte>)
    requires off + |data| <= dst.Length
    modifies dst
    ensures dst[..] == Patch(old(dst[..]), off, data)
  {
    var j := 0;
    while j < |data|
      invariant 0 <= j <= |data|
      invariant dst[..] == Patch(old(dst[..]), off, data[..j])
    {
      dst[off + j] := data[j];
      j := j + 1;
    }
    assert data[..j] == data;
  }
}
