/**
 The OnyxExec executable format: segment and header codecs (versions 1 and 2).
 `SegmentBytes`/`HeaderBytes` give the bytes on disk, `ParseSegment`/`ParseHeader`
 read them back; the byte-filling and segment-pushing loops are proved against them.
 */
module OnxFormat {
  import opened Bytes

  const ONX_MAGIC: u32 := 0x31584E4F
  const ONX_FLAGS_RING1: u32 := 2
  const ONX_FLAGS_COMPRESSED: u32 := 4
  const ONX_MAX_SEGS: nat := 256

  datatype Segment = Segment(vaddr: u64, filesz: u64, memsz: u64, offset: u32, flags: u32,
                             align: u32, reserved: u32, compressedSize: u32)

  datatype Header = Header(magic: u32, version: u32, entry: u64, nsegs: u32, flags: u32, segs: seq<Segment>)

  function SegmentSize(v2: bool): (n: nat) {
    if v2 then 48 else 40
  }

  /** Where the segment table starts. */
  function TableStart(v2: bool): (n: nat) {
    if v2 then 32 else 24
  }

  function MaxSegs(v2: bool): (n: nat) {
    if v2 then ONX_MAX_SEGS else 8
  }

  /** Where segment `i` starts: a fixed part, then records of one size. */
  function SegmentOffset(v2: bool, i: nat): (n: nat) {
    if v2 then 32 + i * 48 else 24 + i * 40
  }

  // ---- segments ----

  /** The 40 bytes both versions share. */
  function SegmentCore(s: Segment): (b: seq<byte>)
    ensures |b| == 40
  {
    ToLe64(s.vaddr) + ToLe64(s.filesz) + ToLe64(s.memsz)
    + ToLe32(s.offset) + ToLe32(s.flags) + ToLe32(s.align) + ToLe32(s.reserved)
  }

  function SegmentBytes(s: Segment, v2: bool): (b: seq<byte>)
    ensures |b| == SegmentSize(v2)
  {
    if v2 then SegmentCore(s) + ToLe32(s.compressedSize) + Fill(4, 0) else SegmentCore(s)
  }

  function ParseSegment(b: seq<byte>, v2: bool): (r: Option<Segment>)
    ensures r.Some? <==> |b| >= SegmentSize(v2)
  {
    if |b| < SegmentSize(v2) then None
    else
      Some(Segment(Le64(b[0..8]), Le64(b[8..16]), Le64(b[16..24]), Le32(b[24..28]), Le32(b[28..32]),
                   Le32(b[32..36]), Le32(b[36..40]), if v2 then Le32(b[40..44]) else 0))
  }

  /** Version 1 has no room for the compressed size; everything else survives. */
  function AsStored(s: Segment, v2: bool): (r: Segment) {
    if v2 then s else s.(compressedSize := 0)
  }

  function StoredSegs(segs: seq<Segment>, v2: bool): (r: seq<Segment>)
    ensures |r| == |segs| && forall i :: 0 <= i < |segs| ==> r[i] == AsStored(segs[i], v2)
  {
    seq(|segs|, i requires 0 <= i < |segs| => AsStored(segs[i], v2))
  }

  lemma SegmentRoundTrip(s: Segment, v2: bool)
    ensures ParseSegment(SegmentBytes(s, v2), v2) == Some(AsStored(s, v2))
  {
    var core := SegmentCore(s);
    var b := SegmentBytes(s, v2);
    CoreFields(s);
    assert b[..40] == core;
    forall lo: nat, hi: nat | lo <= hi <= 40
      ensures b[lo..hi] == core[lo..hi]
    {
      SliceOfSlice(b, 0, 40, lo, hi);
    }
    assert v2 ==> b[40..44] == ToLe32(s.compressedSize);
  }

  lemma CoreFields(s: Segment)
    ensures var b := SegmentCore(s);
            b[0..8] == ToLe64(s.vaddr) && b[8..16] == ToLe64(s.filesz) && b[16..24] == ToLe64(s.memsz)
            && b[24..28] == ToLe32(s.offset) && b[28..32] == ToLe32(s.flags)
            && b[32..36] == ToLe32(s.align) && b[36..40] == ToLe32(s.reserved)
  {
    var wide := ToLe64(s.vaddr) + ToLe64(s.filesz) + ToLe64(s.memsz);
    Words64(ToLe64(s.vaddr), ToLe64(s.filesz), ToLe64(s.memsz));
    Words32(wide, ToLe32(s.offset), ToLe32(s.flags), ToLe32(s.align), ToLe32(s.reserved));
  }

  lemma Words64(x: seq<byte>, y: seq<byte>, z: seq<byte>)
    requires |x| == |y| == |z| == 8
    ensures var b := x + y + z; b[0..8] == x && b[8..16] == y && b[16..24] == z
  {
  }

  lemma Words32(front: seq<byte>, x: seq<byte>, y: seq<byte>, z: seq<byte>, w: seq<byte>)
    requires |front| == 24 && |x| == |y| == |z| == |w| == 4
    ensures var b := front + x + y + z + w;
            b[0..8] == front[0..8] && b[8..16] == front[8..16] && b[16..24] == front[16..24]
            && b[24..28] == x && b[28..32] == y && b[32..36] == z && b[36..40] == w
  {
  }

  /** The byte-filling form of a segment record. */
  method SegmentToBytes(s: Segment, v2: bool) returns (b: seq<byte>)
    ensures b == SegmentBytes(s, v2)
  {
    b := Fill(SegmentSize(v2), 0);
    ghost var p;
    b, p := PutWide(b, s);
    b, p := PutNarrow(b, p, s);
    if v2 {
      b, p := Put(b, p, 40, ToLe32(s.compressedSize));
    } else {
      assert p + Fill(0, 0) == p;
    }
  }

  method PutWide(b: seq<byte>, s: Segment) returns (r: seq<byte>, ghost p: seq<byte>)
    requires |b| >= 40 && b == Fill(|b|, 0)
    ensures p == ToLe64(s.vaddr) + ToLe64(s.filesz) + ToLe64(s.memsz)
    ensures |r| == |b| && r == p + Fill(|b| - 24, 0)
  {
    r, p := b, [];
    r, p := Put(r, p, 0, ToLe64(s.vaddr));
    r, p := Put(r, p, 8, ToLe64(s.filesz));
    r, p := Put(r, p, 16, ToLe64(s.memsz));
  }

  method PutNarrow(b: seq<byte>, ghost p: seq<byte>, s: Segment) returns (r: seq<byte>, ghost q: seq<byte>)
    requires |b| >= 40 && |p| == 24 && b == p + Fill(|b| - 24, 0)
    ensures q == p + ToLe32(s.offset) + ToLe32(s.flags) + ToLe32(s.align) + ToLe32(s.reserved)
    ensures |r| == |b| && r == q + Fill(|b| - 40, 0)
  {
    r, q := b, p;
    r, q := Put(r, q, 24, ToLe32(s.offset));
    r, q := Put(r, q, 28, ToLe32(s.flags));
    r, q := Put(r, q, 32, ToLe32(s.align));
    r, q := Put(r, q, 36, ToLe32(s.reserved));
  }

  // ---- headers ----

  function Records(segs: seq<Segment>, v2: bool): (rs: seq<seq<byte>>)
    ensures |rs| == |segs| && Uniform(rs, SegmentSize(v2))
  {
    seq(|segs|, i requires 0 <= i < |segs| => SegmentBytes(segs[i], v2))
  }

  /** The segment table on disk. */
  function Table(segs: seq<Segment>, v2: bool): (b: seq<byte>)
    ensures TableStart(v2) + |b| == SegmentOffset(v2, |segs|)
  {
    if v2 then
      FlattenLength(Records(segs, true), 48);
      Flatten(Records(segs, true))
    else
      FlattenLength(Records(segs, false), 40);
      Flatten(Records(segs, false))
  }

  lemma TableGrows(segs: seq<Segment>, v2: bool, i: nat)
    requires i < |segs|
    ensures Table(segs[..i + 1], v2) == Table(segs[..i], v2) + SegmentBytes(segs[i], v2)
  {
    assert Records(segs[..i + 1], v2)[..i] == Records(segs[..i], v2);
  }

  lemma TableAt(segs: seq<Segment>, v2: bool, i: nat)
    requires i < |segs|
    ensures var lo, hi := SegmentOffset(v2, i) - TableStart(v2), SegmentOffset(v2, i + 1) - TableStart(v2);
            hi <= |Table(segs, v2)| && Table(segs, v2)[lo..hi] == SegmentBytes(segs[i], v2)
  {
    hide SegmentBytes, Flatten;
    if v2 {
      FlattenAt(Records(segs, true), 48, i, i * 48);
    } else {
      FlattenAt(Records(segs, false), 40, i, i * 40);
    }
  }

  /** The fixed part in front of the table. */
  function FixedBytes(h: Header, v2: bool): (b: seq<byte>)
    ensures |b| == TableStart(v2)
  {
    ToLe32(h.magic) + ToLe32(if v2 then 2 else 1) + ToLe64(h.entry) + ToLe32(h.nsegs) + ToLe32(h.flags)
    + Fill(TableStart(v2) - 24, 0)
  }

  function HeaderSize(v2: bool, n: nat): (size: nat)
  {
    if v2 then 32 + n * 48 else 344
  }

  /** The header on disk. Version 1 always has eight slots and drops any further segment. */
  function HeaderBytes(h: Header, v2: bool): (b: seq<byte>)
    ensures |b| == HeaderSize(v2, |h.segs|)
  {
    if v2 then FixedBytes(h, v2) + Table(h.segs, v2)
    else
      var kept := h.segs[..Min(|h.segs|, 8)];
      FixedBytes(h, v2) + Table(kept, v2) + Fill(320 - |kept| * 40, 0)
  }

  function ParseHeader(buf: seq<byte>): (r: Option<Header>)
  {
    if |buf| < 24 || Le32(buf[0..4]) != ONX_MAGIC then None
    else
      var version := Le32(buf[4..8]);
      var nsegs := Le32(buf[16..20]);
      if version != 1 && version != 2 then None
      else
        var v2 := version == 2;
        if |buf| < HeaderSize(v2, 0) || nsegs > MaxSegs(v2) || |buf| < SegmentOffset(v2, nsegs) then None
        else
          Some(Header(ONX_MAGIC, version, Le64(buf[8..16]), nsegs, Le32(buf[20..24]), ParseTable(buf, v2, nsegs)))
  }

  function ParseTable(buf: seq<byte>, v2: bool, n: nat): (segs: seq<Segment>)
    requires |buf| >= SegmentOffset(v2, n)
    ensures |segs| == n
  {
    if n == 0 then []
    else
      ParseTable(buf, v2, n - 1) + [SegmentAt(buf, v2, n - 1)]
  }

  function SegmentAt(buf: seq<byte>, v2: bool, i: nat): (s: Segment)
    requires |buf| >= SegmentOffset(v2, i + 1)
  {
    ParseSegment(buf[SegmentOffset(v2, i)..SegmentOffset(v2, i + 1)], v2).value
  }

  lemma SlotBytes(buf: seq<byte>, segs: seq<Segment>, v2: bool, i: nat)
    requires i < |segs| && |buf| >= SegmentOffset(v2, |segs|)
    requires buf[TableStart(v2)..SegmentOffset(v2, |segs|)] == Table(segs, v2)
    ensures SegmentOffset(v2, i + 1) <= |buf|
    ensures buf[SegmentOffset(v2, i)..SegmentOffset(v2, i + 1)] == SegmentBytes(segs[i], v2)
  {
    hide SegmentBytes, Table;
    TableAt(segs, v2, i);
    var start := TableStart(v2);
    SliceOfSlice(buf, start, SegmentOffset(v2, |segs|), SegmentOffset(v2, i) - start, SegmentOffset(v2, i + 1) - start);
  }

  lemma ParseSlot(buf: seq<byte>, segs: seq<Segment>, v2: bool, i: nat)
    requires i < |segs| && |buf| >= SegmentOffset(v2, |segs|)
    requires buf[TableStart(v2)..SegmentOffset(v2, |segs|)] == Table(segs, v2)
    ensures SegmentOffset(v2, i + 1) <= |buf|
    ensures SegmentAt(buf, v2, i) == AsStored(segs[i], v2)
  {
    hide SegmentBytes, Table, ParseSegment, AsStored;
    SlotBytes(buf, segs, v2, i);
    SegmentRoundTrip(segs[i], v2);
  }

  lemma StoredSegsGrow(segs: seq<Segment>, v2: bool, i: nat)
    requires i < |segs|
    ensures StoredSegs(segs[..i + 1], v2) == StoredSegs(segs[..i], v2) + [AsStored(segs[i], v2)]
  {
  }

  lemma {:induction false} ParseTableRecovers(buf: seq<byte>, segs: seq<Segment>, v2: bool, n: nat)
    requires n <= |segs| && |buf| >= SegmentOffset(v2, |segs|)
    requires buf[TableStart(v2)..SegmentOffset(v2, |segs|)] == Table(segs, v2)
    ensures ParseTable(buf, v2, n) == StoredSegs(segs[..n], v2)
  {
    hide Table, ParseSegment, AsStored;
    if n > 0 {
      ParseTableRecovers(buf, segs, v2, n - 1);
      ParseSlot(buf, segs, v2, n - 1);
      StoredSegsGrow(segs, v2, n - 1);
    }
  }

  /** The header that reading `HeaderBytes(h, v2)` gives back. */
  function StoredHeader(h: Header, v2: bool): (r: Header) {
    h.(version := if v2 then 2 else 1, segs := StoredSegs(h.segs, v2))
  }

  /**
   Parsing what was serialised, with any payload behind it, recovers every field
   and every segment.
   */
  lemma HeaderRoundTrip(h: Header, v2: bool, payload: seq<byte>)
    requires h.magic == ONX_MAGIC && h.nsegs == |h.segs| <= MaxSegs(v2)
    ensures ParseHeader(HeaderBytes(h, v2) + payload) == Some(StoredHeader(h, v2))
  {
    hide FixedBytes, Table, HeaderBytes, StoredSegs, ParseTable, Le32, Le64;
    var buf := HeaderBytes(h, v2) + payload;
    var rest := buf[TableStart(v2)..];
    HeaderParts(h, v2, payload);
    FixedFields(h, v2, rest);
    ParseTableRecovers(buf, h.segs, v2, |h.segs|);
    assert h.segs[..|h.segs|] == h.segs;
  }

  lemma HeaderParts(h: Header, v2: bool, payload: seq<byte>)
    requires |h.segs| <= MaxSegs(v2)
    ensures var buf := HeaderBytes(h, v2) + payload;
            |buf| >= HeaderSize(v2, |h.segs|) >= SegmentOffset(v2, |h.segs|)
            && buf == FixedBytes(h, v2) + buf[TableStart(v2)..]
            && buf[TableStart(v2)..SegmentOffset(v2, |h.segs|)] == Table(h.segs, v2)
  {
    var fixed, table := FixedBytes(h, v2), Table(h.segs, v2);
    if v2 {
      ThreeParts(fixed, table, payload);
    } else {
      assert h.segs[..Min(|h.segs|, 8)] == h.segs;
      var zeros := Fill(320 - |h.segs| * 40, 0);
      ThreeParts(fixed, table, zeros + payload);
      Assoc(fixed + table, zeros, payload);
    }
  }

  lemma ThreeParts(x: seq<byte>, y: seq<byte>, z: seq<byte>)
    ensures var b := x + y + z; b == x + b[|x|..] && b[|x|..|x| + |y|] == y
  {
  }

  lemma FixedFields(h: Header, v2: bool, rest: seq<byte>)
    ensures var buf := FixedBytes(h, v2) + rest;
            Le32(buf[0..4]) == h.magic && Le32(buf[4..8]) == (if v2 then 2 else 1) && Le64(buf[8..16]) == h.entry
            && Le32(buf[16..20]) == h.nsegs && Le32(buf[20..24]) == h.flags
  {
    var buf := FixedBytes(h, v2) + rest;
    assert buf[0..4] == ToLe32(h.magic);
    assert buf[4..8] == ToLe32(if v2 then 2 else 1);
    assert buf[8..16] == ToLe64(h.entry);
    assert buf[16..20] == ToLe32(h.nsegs);
    assert buf[20..24] == ToLe32(h.flags);
  }

  /** Version 1 keeps the segment list exactly when there are at most eight and none is compressed. */
  lemma Version1RecoversIff(h: Header)
    requires h.magic == ONX_MAGIC && h.nsegs == |h.segs|
    ensures (var r := ParseHeader(HeaderBytes(h, false)); r.Some? && r.value.segs == h.segs)
       <==> |h.segs| <= 8 && forall i :: 0 <= i < |h.segs| ==> h.segs[i].compressedSize == 0
  {
    var b := HeaderBytes(h, false);
    assert b + [] == b;
    if |h.segs| <= 8 {
      HeaderRoundTrip(h, false, []);
      var stored := StoredHeader(h, false).segs;
      assert forall i :: 0 <= i < |h.segs| ==> stored[i] == AsStored(h.segs[i], false);
    } else {
      var kept := h.segs[..8];
      var rest := Table(kept, false) + Fill(320 - |kept| * 40, 0);
      FixedFields(h, false, rest);
      assert FixedBytes(h, false) + rest == b;
    }
  }

  /** The serialiser: refuses a segment count that does not match or is too large. */
  method HeaderToBytesV2(h: Header) returns (r: Option<seq<byte>>)
    ensures r == if h.nsegs == |h.segs| <= ONX_MAX_SEGS then Some(HeaderBytes(h, true)) else None
  {
    if h.nsegs != |h.segs| || |h.segs| > ONX_MAX_SEGS {
      return None;
    }
    var b := Fill(32 + |h.segs| * 48, 0);
    ghost var p;
    b, p := PutFixed(b, h, true);
    b, p := PutTable(b, p, h.segs, true);
    assert b == p + Fill(0, 0) == p;
    r := Some(b);
  }

  /** Version 1 writes at most eight segments. */
  method HeaderToBytesV1(h: Header) returns (r: seq<byte>)
    ensures r == HeaderBytes(h, false)
  {
    r := Fill(344, 0);
    ghost var p;
    r, p := PutFixed(r, h, false);
    r, p := PutTable(r, p, h.segs[..Min(|h.segs|, 8)], false);
  }

  method PutFixed(b: seq<byte>, h: Header, v2: bool) returns (r: seq<byte>, ghost p: seq<byte>)
    requires |b| >= TableStart(v2) && b == Fill(|b|, 0)
    ensures p == FixedBytes(h, v2) && |r| == |b| && r == p + Fill(|b| - |p|, 0)
  {
    p := [];
    r := b;
    r, p := Put(r, p, 0, ToLe32(h.magic));
    r, p := Put(r, p, 4, ToLe32(if v2 then 2 else 1));
    r, p := Put(r, p, 8, ToLe64(h.entry));
    r, p := Put(r, p, 16, ToLe32(h.nsegs));
    r, p := Put(r, p, 20, ToLe32(h.flags));
    SkipZeros(p, |b| - 24, TableStart(v2) - 24);
    p := p + Fill(TableStart(v2) - 24, 0);
  }

  lemma SkipZeros(p: seq<byte>, n: nat, k: nat)
    requires k <= n
    ensures p + Fill(n, 0) == p + Fill(k, 0) + Fill(n - k, 0)
  {
  }

  method PutTable(b: seq<byte>, ghost p: seq<byte>, segs: seq<Segment>, v2: bool)
    returns (r: seq<byte>, ghost q: seq<byte>)
    requires |p| == TableStart(v2) && |b| >= SegmentOffset(v2, |segs|) && b == p + Fill(|b| - |p|, 0)
    ensures q == p + Table(segs, v2) && |r| == |b| && r == q + Fill(|b| - |q|, 0)
  {
    hide SegmentBytes, Records;
    r, q := b, p;
    var i := 0;
    assert p + Table(segs[..0], v2) == p;
    while i < |segs|
      invariant 0 <= i <= |segs| && |r| == |b| && |q| == SegmentOffset(v2, i)
      invariant q == p + Table(segs[..i], v2) && r == q + Fill(|b| - |q|, 0)
    {
      var s := SegmentToBytes(segs[i], v2);
      TableGrows(segs, v2, i);
      Assoc(p, Table(segs[..i], v2), s);
      assert SegmentOffset(v2, i) + SegmentSize(v2) == SegmentOffset(v2, i + 1) <= |b|;
      r, q := Put(r, q, SegmentOffset(v2, i), s);
      i := i + 1;
    }
    assert segs[..i] == segs;
  }

  /** The parser, with its segment-pushing loop. */
  method HeaderFromBytes(buf: seq<byte>) returns (r: Option<Header>)
    ensures r == ParseHeader(buf)
  {
    if |buf| < 24 {
      return None;
    }
    var magic := Le32(buf[0..4]);
    if magic != ONX_MAGIC {
      return None;
    }
    var version := Le32(buf[4..8]);
    var nsegs := Le32(buf[16..20]);
    if version != 1 && version != 2 {
      return None;
    }
    var v2 := version == 2;
    if v2 {
      if |buf| < 32 || nsegs > ONX_MAX_SEGS || |buf| < 32 + nsegs * 48 {
        return None;
      }
    } else {
      if |buf| < 344 || nsegs > 8 {
        return None;
      }
    }
    var segs := ReadTable(buf, v2, nsegs);
    r := Some(Header(magic, version, Le64(buf[8..16]), nsegs, Le32(buf[20..24]), segs));
  }

  method ReadTable(buf: seq<byte>, v2: bool, nsegs: nat) returns (segs: seq<Segment>)
    requires |buf| >= SegmentOffset(v2, nsegs)
    ensures segs == ParseTable(buf, v2, nsegs)
  {
    segs := [];
    var i := 0;
    while i < nsegs
      invariant 0 <= i <= nsegs
      invariant segs == ParseTable(buf, v2, i)
    {
      segs := segs + [SegmentAt(buf, v2, i)];
      i := i + 1;
    }
  }
}
