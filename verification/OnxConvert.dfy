/**
 The ELF to OnyxExec converter (program-header scan, optional compression, offset
 assignment, file assembly) and the kernel's loader of such files: what is loaded
 from a converted file is what the ELF file asked for.
 */
module OnxConvert {
  import opened Bytes
  import opened OnxFormat
  import Rle

  const U32_MOD: nat := 0x1_0000_0000

  /** The fields of an ELF64 program header that the converter uses. */
  datatype ProgramHeader = ProgramHeader(flags: u32, offset: u64, vaddr: u64, filesz: u64, memsz: u64, align: u64)

  datatype Load = Load(seg: Segment, data: seq<byte>)

  function IsLoad(elf: seq<byte>, off: nat): (r: bool)
    requires off + 56 <= |elf|
  {
    Le32(elf[off..off + 4]) == 1
  }

  function ReadHeader(elf: seq<byte>, off: nat): (ph: ProgramHeader)
    requires off + 56 <= |elf|
  {
    ProgramHeader(Le32(elf[off + 4..off + 8]), Le64(elf[off + 8..off + 16]), Le64(elf[off + 16..off + 24]),
                  Le64(elf[off + 32..off + 40]), Le64(elf[off + 40..off + 48]), Le64(elf[off + 48..off + 56]))
  }

  /** Every loadable program header from entry `i` on, in table order. */
  function LoadHeaders(elf: seq<byte>, phoff: nat, entsize: nat, phnum: nat, i: nat): (r: seq<ProgramHeader>)
    decreases phnum - i
  {
    var off := phoff + i * entsize;
    if i >= phnum || off + 56 > |elf| then []
    else (if IsLoad(elf, off) then [ReadHeader(elf, off)] else []) + LoadHeaders(elf, phoff, entsize, phnum, i + 1)
  }

  /** ELF read/write/execute bits 4, 2, 1 become the VMM's 2, 4, 8. */
  function SegmentFlags(pflags: u32): (f: u32) {
    (if pflags / 4 % 2 == 1 then 2 else 0) + (if pflags / 2 % 2 == 1 then 4 else 0) + (if pflags % 2 == 1 then 8 else 0)
  }

  /** The bytes of the input file a program header covers, clamped to the file. */
  function RawBytes(elf: seq<byte>, ph: ProgramHeader): (raw: seq<byte>)
    requires ph.offset <= |elf|
  {
    elf[ph.offset..Min(ph.offset + ph.filesz, |elf|)]
  }

  /** One collected segment; compression is kept only when it saves bytes. */
  function MakeLoad(elf: seq<byte>, ph: ProgramHeader, v2: bool, compress: bool): (l: Load)
    requires ph.offset <= |elf|
  {
    var raw := RawBytes(elf, ph);
    var packed := Rle.Compress(raw);
    var size := |packed| % U32_MOD;
    var use := compress && v2 && ph.filesz > 0 && size < ph.filesz % U32_MOD;
    Load(Segment(ph.vaddr, ph.filesz, ph.memsz, 0, SegmentFlags(ph.flags), ph.align % U32_MOD, 0,
                 if use then size else 0),
         if use then packed else raw)
  }

  function MakeLoads(elf: seq<byte>, phs: seq<ProgramHeader>, v2: bool, compress: bool): (r: seq<Load>)
    requires forall k :: 0 <= k < |phs| ==> phs[k].offset <= |elf|
    ensures |r| == |phs|
    ensures forall k :: 0 <= k < |phs| ==> r[k] == MakeLoad(elf, phs[k], v2, compress)
  {
    seq(|phs|, k requires 0 <= k < |phs| => MakeLoad(elf, phs[k], v2, compress))
  }

  /** Payloads in order. */
  function Payload(loads: seq<Load>): (b: seq<byte>)
  {
    if loads == [] then [] else Payload(loads[..|loads| - 1]) + loads[|loads| - 1].data
  }

  /** The next payload offset after the first `k` payloads, saturating like the source. */
  function OffsetOf(loads: seq<Load>, hdr: u32, k: nat): (off: u32)
    requires k <= |loads|
  {
    if k == 0 then hdr
    else Min(OffsetOf(loads, hdr, k - 1) + |loads[k - 1].data| % U32_MOD, U32_MOD - 1)
  }

  function Placed(loads: seq<Load>, hdr: u32): (r: seq<Load>)
    ensures |r| == |loads|
    ensures forall k :: 0 <= k < |loads| ==> r[k] == loads[k].(seg := loads[k].seg.(offset := OffsetOf(loads, hdr, k)))
  {
    seq(|loads|, k requires 0 <= k < |loads| =>
      loads[k].(seg := loads[k].seg.(offset := OffsetOf(loads, hdr, k))))
  }

  predicate AnyCompressed(loads: seq<Load>) {
    exists k :: 0 <= k < |loads| && loads[k].seg.compressedSize > 0
  }

  function Segs(loads: seq<Load>): (r: seq<Segment>)
    ensures |r| == |loads| && forall k :: 0 <= k < |loads| ==> r[k] == loads[k].seg
  {
    seq(|loads|, k requires 0 <= k < |loads| => loads[k].seg)
  }

  function MakeHeader(loads: seq<Load>, entry: u64, ring1: bool, v2: bool): (h: Header)
    requires |loads| < U32_MOD
  {
    Header(ONX_MAGIC, if v2 then 2 else 1, entry, |loads|,
           (if ring1 then ONX_FLAGS_RING1 else 0) + (if AnyCompressed(loads) then ONX_FLAGS_COMPRESSED else 0),
           Segs(loads))
  }

  /** What the kernel's loader copies to `seg.vaddr` out of a parsed image. */
  function LoaderBytes(image: seq<byte>, h: Header, seg: Segment): (r: Option<seq<byte>>)
  {
    var packed := h.flags / ONX_FLAGS_COMPRESSED % 2 == 1 && seg.compressedSize > 0;
    var size := if packed then seg.compressedSize else seg.filesz;
    if seg.offset + size > |image| then None
    else if packed then Rle.LoadExpand(image[seg.offset..seg.offset + size], seg.filesz)
    else Some(image[seg.offset..seg.offset + size])
  }

  // ---- payload placement ----

  lemma {:induction false} PayloadTotal(loads: seq<Load>, hdr: u32, k: nat)
    requires k <= |loads| && hdr + |Payload(loads)| < U32_MOD
    ensures |Payload(loads[..k])| <= |Payload(loads)|
    ensures OffsetOf(loads, hdr, k) == hdr + |Payload(loads[..k])|
    decreases |loads|, k
  {
    PayloadMonotone(loads, k);
    if k > 0 {
      PayloadTotal(loads, hdr, k - 1);
      assert loads[..k][..k - 1] == loads[..k - 1];
    }
  }

  lemma {:induction false} PayloadMonotone(loads: seq<Load>, k: nat)
    requires k <= |loads|
    ensures |Payload(loads[..k])| <= |Payload(loads)|
    decreases |loads|
  {
    if k == |loads| {
      assert loads[..k] == loads;
    } else {
      PayloadMonotone(loads[..|loads| - 1], k);
      assert loads[..|loads| - 1][..k] == loads[..k];
    }
  }

  /** Payload `k` sits right after the first `k` payloads. */
  lemma {:induction false} PayloadAt(loads: seq<Load>, k: nat)
    requires k < |loads|
    ensures var lo := |Payload(loads[..k])|;
            lo + |loads[k].data| <= |Payload(loads)| && Payload(loads)[lo..lo + |loads[k].data|] == loads[k].data
    decreases |loads|
  {
    var n := |loads| - 1;
    var front := Payload(loads[..n]);
    if k < n {
      PayloadAt(loads[..n], k);
      assert loads[..n][..k] == loads[..k];
      var lo := |Payload(loads[..k])|;
      SliceFront(front, loads[n].data, lo, lo + |loads[k].data|);
    } else {
      SliceBack(front, loads[n].data);
    }
  }

  /** Placing offsets does not change any payload. */
  lemma {:induction false} PlacedPayload(loads: seq<Load>, placed: seq<Load>)
    requires |loads| == |placed| && forall k :: 0 <= k < |loads| ==> placed[k].data == loads[k].data
    ensures Payload(placed) == Payload(loads)
  {
    if loads != [] {
      PlacedPayload(loads[..|loads| - 1], placed[..|loads| - 1]);
    }
  }

  // ---- the emitted file ----

  function FileBytes(loads: seq<Load>, entry: u64, ring1: bool, v2: bool): (b: seq<byte>)
    requires |loads| <= MaxSegs(v2)
  {
    var placed := Placed(loads, HeaderSize(v2, |loads|));
    HeaderBytes(MakeHeader(placed, entry, ring1, v2), v2) + Payload(placed)
  }

  /** File ranges in bounds and everything addressable with 32-bit offsets. */
  ghost predicate WellFormed(elf: seq<byte>, phs: seq<ProgramHeader>, v2: bool, compress: bool) {
    && (forall k :: 0 <= k < |phs| ==> phs[k].offset + phs[k].filesz <= |elf|)
    && HeaderSize(v2, |phs|) + |Payload(MakeLoads(elf, phs, v2, compress))| < U32_MOD
  }

  lemma {:induction false} PlacedRange(loads: seq<Load>, v2: bool, entry: u64, ring1: bool, k: nat)
    requires |loads| <= MaxSegs(v2) && k < |loads|
    requires HeaderSize(v2, |loads|) + |Payload(loads)| < U32_MOD
    ensures var placed := Placed(loads, HeaderSize(v2, |loads|));
            var off := placed[k].seg.offset;
            var file := FileBytes(loads, entry, ring1, v2);
            off == HeaderSize(v2, |loads|) + |Payload(loads[..k])|
            && off + |loads[k].data| <= |file| && file[off..off + |loads[k].data|] == loads[k].data
  {
    hide HeaderBytes, Payload, OffsetOf;
    var hdr := HeaderSize(v2, |loads|);
    var placed := Placed(loads, hdr);
    PayloadTotal(loads, hdr, k);
    PlacedPayload(loads, placed);
    PayloadAt(loads, k);
    var lo := |Payload(loads[..k])|;
    SliceBehind(HeaderBytes(MakeHeader(placed, entry, ring1, v2), v2), Payload(placed), lo, lo + |loads[k].data|);
  }

  lemma SliceBehind(front: seq<byte>, back: seq<byte>, lo: nat, hi: nat)
    requires lo <= hi <= |back|
    ensures (front + back)[|front| + lo..|front| + hi] == back[lo..hi]
  {
  }

  /** Payload ranges of distinct segments do not overlap. */
  lemma {:induction false} PayloadsDisjoint(loads: seq<Load>, hdr: u32, j: nat, k: nat)
    requires j < k < |loads| && hdr + |Payload(loads)| < U32_MOD
    ensures var placed := Placed(loads, hdr);
            placed[j].seg.offset + |loads[j].data| <= placed[k].seg.offset
  {
    hide OffsetOf;
    PayloadTotal(loads, hdr, j);
    PayloadTotal(loads, hdr, k);
    assert loads[..k][..j + 1] == loads[..j + 1] && loads[..j + 1][..j] == loads[..j];
    PayloadMonotone(loads[..k], j + 1);
  }

  /** The stored payload means the original file bytes, whichever form was kept. */
  lemma LoadMeaning(elf: seq<byte>, ph: ProgramHeader, v2: bool, compress: bool)
    requires ph.offset + ph.filesz <= |elf|
    requires |MakeLoad(elf, ph, v2, compress).data| < U32_MOD
    ensures var l := MakeLoad(elf, ph, v2, compress);
            var raw := elf[ph.offset..ph.offset + ph.filesz];
            if l.seg.compressedSize > 0
            then v2 && l.seg.compressedSize == |l.data| && Rle.LoadExpand(l.data, ph.filesz) == Some(raw)
            else l.data == raw
  {
    hide Rle.Compress, Rle.Expand, Rle.LoadExpand;
    var raw := RawBytes(elf, ph);
    Rle.ExpandCompress(raw);
    Rle.LoadExpandMeaning(Rle.Compress(raw), ph.filesz);
    Rle.CompressNonEmpty(raw);
    assert raw[..|raw|] == raw;
  }

  lemma DataFits(loads: seq<Load>, k: nat)
    requires k < |loads| && |Payload(loads)| < U32_MOD
    ensures |loads[k].data| < U32_MOD
  {
    PayloadAt(loads, k);
  }

  /** The emitted file parses back to exactly the header that was built. */
  lemma {:induction false} FileParses(loads: seq<Load>, entry: u64, ring1: bool, v2: bool)
    requires |loads| <= MaxSegs(v2)
    requires !v2 ==> forall k :: 0 <= k < |loads| ==> loads[k].seg.compressedSize == 0
    ensures var placed := Placed(loads, HeaderSize(v2, |loads|));
            ParseHeader(FileBytes(loads, entry, ring1, v2)) == Some(MakeHeader(placed, entry, ring1, v2))
  {
    hide HeaderBytes, Payload, OffsetOf, ParseHeader, AnyCompressed;
    var placed := Placed(loads, HeaderSize(v2, |loads|));
    var h := MakeHeader(placed, entry, ring1, v2);
    HeaderRoundTrip(h, v2, Payload(placed));
    assert StoredSegs(h.segs, v2) == h.segs;
  }

  /** Header `h` describes segment `k` as `ph` does and carries the entry point and ring. */
  predicate Describes(h: Header, phs: seq<ProgramHeader>, entry: u64, ring1: bool, k: nat)
    requires k < |phs|
  {
    && h.entry == entry && (h.flags / ONX_FLAGS_RING1 % 2 == 1 <==> ring1) && |h.segs| == |phs|
    && h.segs[k].vaddr == phs[k].vaddr && h.segs[k].filesz == phs[k].filesz
    && h.segs[k].memsz == phs[k].memsz && h.segs[k].flags == SegmentFlags(phs[k].flags)
    && h.segs[k].align == phs[k].align % U32_MOD
  }

  /**
   The translation theorem: for every well-formed list of loadable headers, the
   emitted file parses, carries entry, ring and every header field, and the kernel
   loads from it exactly the bytes the ELF file held for that segment.
   */
  lemma {:induction false} ConvertPreserves(elf: seq<byte>, phs: seq<ProgramHeader>, entry: u64, ring1: bool,
                                            v2: bool, compress: bool, k: nat)
    requires WellFormed(elf, phs, v2, compress) && |phs| <= MaxSegs(v2) && k < |phs|
    ensures var file := FileBytes(MakeLoads(elf, phs, v2, compress), entry, ring1, v2);
            var parsed := ParseHeader(file);
            && parsed.Some? && Describes(parsed.value, phs, entry, ring1, k)
            && LoaderBytes(file, parsed.value, parsed.value.segs[k])
               == Some(elf[phs[k].offset..phs[k].offset + phs[k].filesz])
  {
    hide MakeLoad, MakeLoads, MakeHeader, Placed, FileBytes, ParseHeader, LoaderBytes, Payload, HeaderSize;
    hide Rle.LoadExpand, Describes, AnyCompressed, WellFormed;
    WellFormedAt(elf, phs, v2, compress, k);
    var loads := MakeLoads(elf, phs, v2, compress);
    var placed := Placed(loads, HeaderSize(v2, |loads|));
    SegmentStored(elf, phs, entry, ring1, v2, compress, k);
    LoadMeaning(elf, phs[k], v2, compress);
    LoadFields(elf, phs[k], v2, compress);
    PlacedRange(loads, v2, entry, ring1, k);
    var seg, data := placed[k].seg, loads[k].data;
    assert seg.compressedSize == loads[k].seg.compressedSize && seg.filesz == phs[k].filesz;
    LoaderReads(FileBytes(loads, entry, ring1, v2), MakeHeader(placed, entry, ring1, v2), seg, data,
                elf[phs[k].offset..phs[k].offset + phs[k].filesz]);
  }

  lemma WellFormedAt(elf: seq<byte>, phs: seq<ProgramHeader>, v2: bool, compress: bool, k: nat)
    requires WellFormed(elf, phs, v2, compress) && k < |phs|
    ensures forall i :: 0 <= i < |phs| ==> phs[i].offset <= |elf|
    ensures phs[k].offset + phs[k].filesz <= |elf| && |MakeLoad(elf, phs[k], v2, compress).data| < U32_MOD
    ensures HeaderSize(v2, |phs|) + |Payload(MakeLoads(elf, phs, v2, compress))| < U32_MOD
  {
    hide MakeLoad, Payload;
    DataFits(MakeLoads(elf, phs, v2, compress), k);
  }

  /** The file parses to the header that was built, which describes every segment. */
  lemma {:induction false} SegmentStored(elf: seq<byte>, phs: seq<ProgramHeader>, entry: u64, ring1: bool,
                                         v2: bool, compress: bool, k: nat)
    requires (forall i :: 0 <= i < |phs| ==> phs[i].offset <= |elf|) && |phs| <= MaxSegs(v2) && k < |phs|
    ensures var loads := MakeLoads(elf, phs, v2, compress);
            var placed := Placed(loads, HeaderSize(v2, |loads|));
            var h := MakeHeader(placed, entry, ring1, v2);
            && ParseHeader(FileBytes(loads, entry, ring1, v2)) == Some(h)
            && |h.segs| == |phs| && Describes(h, phs, entry, ring1, k) && h.segs[k] == placed[k].seg
            && (placed[k].seg.compressedSize > 0 ==> h.flags / ONX_FLAGS_COMPRESSED % 2 == 1)
  {
    hide MakeLoad, MakeLoads, MakeHeader, Placed, FileBytes, ParseHeader;
    var loads := MakeLoads(elf, phs, v2, compress);
    UncompressedV1(elf, phs, v2, compress);
    FileParses(loads, entry, ring1, v2);
    LoadFields(elf, phs[k], v2, compress);
    HeaderDescribes(Placed(loads, HeaderSize(v2, |loads|)), phs, entry, ring1, v2, k);
  }

  lemma {:induction false} HeaderDescribes(placed: seq<Load>, phs: seq<ProgramHeader>, entry: u64, ring1: bool,
                                           v2: bool, k: nat)
    requires k < |phs| == |placed| <= MaxSegs(v2)
    requires placed[k].seg.vaddr == phs[k].vaddr && placed[k].seg.filesz == phs[k].filesz
    requires placed[k].seg.memsz == phs[k].memsz && placed[k].seg.flags == SegmentFlags(phs[k].flags)
    requires placed[k].seg.align == phs[k].align % U32_MOD
    ensures var h := MakeHeader(placed, entry, ring1, v2);
            && Describes(h, phs, entry, ring1, k) && h.segs[k] == placed[k].seg
            && (placed[k].seg.compressedSize > 0 ==> h.flags / ONX_FLAGS_COMPRESSED % 2 == 1)
  {
    assert placed[k].seg.compressedSize > 0 ==> AnyCompressed(placed);
  }

  lemma UncompressedV1(elf: seq<byte>, phs: seq<ProgramHeader>, v2: bool, compress: bool)
    requires forall k :: 0 <= k < |phs| ==> phs[k].offset <= |elf|
    ensures !v2 ==> forall k :: 0 <= k < |phs| ==> MakeLoads(elf, phs, v2, compress)[k].seg.compressedSize == 0
  {
    hide Rle.Compress;
  }

  lemma LoadFields(elf: seq<byte>, ph: ProgramHeader, v2: bool, compress: bool)
    requires ph.offset <= |elf|
    ensures var s := MakeLoad(elf, ph, v2, compress).seg;
            && s.vaddr == ph.vaddr && s.filesz == ph.filesz && s.memsz == ph.memsz
            && s.flags == SegmentFlags(ph.flags) && s.align == ph.align % U32_MOD
  {
    hide Rle.Compress;
  }

  lemma {:induction false} LoaderReads(image: seq<byte>, h: Header, seg: Segment, data: seq<byte>, raw: seq<byte>)
    requires seg.offset + |data| <= |image| && image[seg.offset..seg.offset + |data|] == data
    requires |raw| == seg.filesz
    requires if seg.compressedSize > 0
             then h.flags / ONX_FLAGS_COMPRESSED % 2 == 1 && seg.compressedSize == |data|
                  && Rle.LoadExpand(data, seg.filesz) == Some(raw)
             else data == raw
    ensures LoaderBytes(image, h, seg) == Some(raw)
  {
    hide Rle.LoadExpand;
  }

  // ---- the kernel's loader ----

  const USER_BASE: nat := 0x10000

  /** One segment put into the new address space: `memsz` zeroed bytes at `vaddr`, then `bytes` over their start. */
  datatype Mapping = Mapping(vaddr: u64, memsz: u64, flags: u32, bytes: seq<byte>)

  datatype Loaded = Loaded(entry: u64, ring1: bool, maps: seq<Mapping>)

  predicate InUserRange(vaddr: nat, memsz: nat, top: u64) {
    USER_BASE <= vaddr && vaddr + memsz <= top
  }

  /** The checks made before anything is mapped. */
  predicate ValidImage(h: Header, top: u64) {
    && (forall k :: 0 <= k < |h.segs| ==> InUserRange(h.segs[k].vaddr, h.segs[k].memsz, top))
    && USER_BASE <= h.entry < top
    && exists k :: 0 <= k < |h.segs| && h.segs[k].vaddr <= h.entry < h.segs[k].vaddr + h.segs[k].memsz
  }

  /** The mappings of the first `n` segments, unless one of them is refused. */
  function MapSegs(image: seq<byte>, h: Header, top: u64, n: nat): (r: Option<seq<Mapping>>)
    requires n <= |h.segs|
  {
    if n == 0 then Some([])
    else
      var front, s := MapSegs(image, h, top, n - 1), h.segs[n - 1];
      var bytes := LoaderBytes(image, h, s);
      if front.None? || s.vaddr < USER_BASE || s.vaddr >= top || s.filesz > s.memsz || bytes.None? then None
      else Some(front.value + [Mapping(s.vaddr, s.memsz, s.flags, bytes.value)])
  }

  function LoadImage(image: seq<byte>, top: u64): (r: Option<Loaded>) {
    var h := ParseHeader(image);
    if h.None? || !ValidImage(h.value, top) then None
    else
      var maps := MapSegs(image, h.value, top, |h.value.segs|);
      if maps.None? then None
      else Some(Loaded(h.value.entry, h.value.flags / ONX_FLAGS_RING1 % 2 == 1, maps.value))
  }

  /** The loader, with its two segment loops. */
  method LoadProgram(image: seq<byte>, top: u64) returns (r: Option<Loaded>)
    ensures r == LoadImage(image, top)
  {
    hide ParseHeader, LoaderBytes;
    var parsed := HeaderFromBytes(image);
    if parsed.None? {
      return None;
    }
    var h := parsed.value;
    var ok := ValidateImage(h, top);
    if !ok {
      return None;
    }
    var maps: seq<Mapping> := [];
    var k := 0;
    while k < |h.segs|
      invariant 0 <= k <= |h.segs|
      invariant MapSegs(image, h, top, k) == Some(maps)
    {
      var s := h.segs[k];
      var bytes := LoaderBytes(image, h, s);
      if s.vaddr < USER_BASE || s.vaddr >= top || s.filesz > s.memsz || bytes.None? {
        MapRefused(image, h, top, k + 1, |h.segs|);
        return None;
      }
      maps := maps + [Mapping(s.vaddr, s.memsz, s.flags, bytes.value)];
      k := k + 1;
    }
    r := Some(Loaded(h.entry, h.flags / ONX_FLAGS_RING1 % 2 == 1, maps));
  }

  method ValidateImage(h: Header, top: u64) returns (ok: bool)
    ensures ok == ValidImage(h, top)
  {
    var k, mapped := 0, false;
    while k < |h.segs|
      invariant 0 <= k <= |h.segs|
      invariant forall j :: 0 <= j < k ==> InUserRange(h.segs[j].vaddr, h.segs[j].memsz, top)
      invariant mapped <==> exists j :: 0 <= j < k && h.segs[j].vaddr <= h.entry < h.segs[j].vaddr + h.segs[j].memsz
    {
      if !InUserRange(h.segs[k].vaddr, h.segs[k].memsz, top) {
        return false;
      }
      mapped := mapped || h.segs[k].vaddr <= h.entry < h.segs[k].vaddr + h.segs[k].memsz;
      k := k + 1;
    }
    ok := USER_BASE <= h.entry < top && mapped;
  }

  /** A refused segment refuses the image. */
  lemma {:induction false} MapRefused(image: seq<byte>, h: Header, top: u64, n: nat, m: nat)
    requires n <= m <= |h.segs| && MapSegs(image, h, top, n).None?
    ensures MapSegs(image, h, top, m).None?
    decreases m
  {
    if n < m {
      MapRefused(image, h, top, n, m - 1);
    }
  }

  // ---- what the ELF file asks for ----

  /** The address rules the loader imposes, read off the program headers. */
  predicate Loadable(phs: seq<ProgramHeader>, entry: u64, top: u64) {
    && (forall k :: 0 <= k < |phs| ==> FitsUser(phs[k], top))
    && USER_BASE <= entry < top
    && exists k :: 0 <= k < |phs| && phs[k].vaddr <= entry < phs[k].vaddr + phs[k].memsz
  }

  predicate FitsUser(ph: ProgramHeader, top: u64) {
    InUserRange(ph.vaddr, ph.memsz, top) && ph.vaddr < top && ph.filesz <= ph.memsz
  }

  ghost predicate InsideFile(elf: seq<byte>, phs: seq<ProgramHeader>) {
    forall k :: 0 <= k < |phs| ==> phs[k].offset + phs[k].filesz <= |elf|
  }

  function ElfMapping(elf: seq<byte>, ph: ProgramHeader): (m: Mapping)
    requires ph.offset + ph.filesz <= |elf|
  {
    Mapping(ph.vaddr, ph.memsz, SegmentFlags(ph.flags), elf[ph.offset..ph.offset + ph.filesz])
  }

  function ElfMappings(elf: seq<byte>, phs: seq<ProgramHeader>): (r: seq<Mapping>)
    requires InsideFile(elf, phs)
    ensures |r| == |phs| && forall k :: 0 <= k < |phs| ==> r[k] == ElfMapping(elf, phs[k])
  {
    seq(|phs|, k requires 0 <= k < |phs| => ElfMapping(elf, phs[k]))
  }

  /** Loading the program headers straight from the ELF file, under the same address rules. */
  function LoadElf(elf: seq<byte>, phs: seq<ProgramHeader>, entry: u64, ring1: bool, top: u64): (r: Option<Loaded>)
    requires InsideFile(elf, phs)
  {
    if Loadable(phs, entry, top) then Some(Loaded(entry, ring1, ElfMappings(elf, phs))) else None
  }

  /** Whatever the top of user memory is, loading `file` is loading these headers of `elf`. */
  ghost predicate LoadsAs(file: seq<byte>, elf: seq<byte>, phs: seq<ProgramHeader>, entry: u64, ring1: bool) {
    InsideFile(elf, phs) && forall top: u64 :: LoadImage(file, top) == LoadElf(elf, phs, entry, ring1, top)
  }

  // ---- a converted file loads as the ELF file ----

  /** What a parsed header and the file behind it must say about every segment. */
  ghost predicate Faithful(elf: seq<byte>, phs: seq<ProgramHeader>, entry: u64, ring1: bool, file: seq<byte>, h: Header)
    requires InsideFile(elf, phs)
  {
    && |h.segs| == |phs| && h.entry == entry && (h.flags / ONX_FLAGS_RING1 % 2 == 1 <==> ring1)
    && forall k :: 0 <= k < |phs| ==>
         Describes(h, phs, entry, ring1, k) && LoaderBytes(file, h, h.segs[k]) == Some(ElfMapping(elf, phs[k]).bytes)
  }

  lemma {:induction false} FileFaithful(elf: seq<byte>, phs: seq<ProgramHeader>, entry: u64, ring1: bool, v2: bool,
                                        compress: bool)
    requires WellFormed(elf, phs, v2, compress) && |phs| <= MaxSegs(v2)
    ensures var file := FileBytes(MakeLoads(elf, phs, v2, compress), entry, ring1, v2);
            ParseHeader(file).Some? && Faithful(elf, phs, entry, ring1, file, ParseHeader(file).value)
  {
    hide FileBytes, ParseHeader, LoaderBytes, WellFormed, MakeLoad, MakeLoads, MakeHeader, Placed;
    InBounds(elf, phs, v2, compress);
    var loads := MakeLoads(elf, phs, v2, compress);
    var file := FileBytes(loads, entry, ring1, v2);
    HeaderFields(Placed(loads, HeaderSize(v2, |loads|)), entry, ring1, v2);
    UncompressedV1(elf, phs, v2, compress);
    FileParses(loads, entry, ring1, v2);
    forall k | 0 <= k < |phs|
      ensures var h := ParseHeader(file).value;
              && Describes(h, phs, entry, ring1, k)
              && LoaderBytes(file, h, h.segs[k]) == Some(ElfMapping(elf, phs[k]).bytes)
    {
      ConvertPreserves(elf, phs, entry, ring1, v2, compress, k);
    }
  }

  lemma HeaderFields(placed: seq<Load>, entry: u64, ring1: bool, v2: bool)
    requires |placed| <= MaxSegs(v2)
    ensures var h := MakeHeader(placed, entry, ring1, v2);
            |h.segs| == |placed| && h.entry == entry && (h.flags / ONX_FLAGS_RING1 % 2 == 1 <==> ring1)
  {
    hide AnyCompressed;
  }

  lemma InBounds(elf: seq<byte>, phs: seq<ProgramHeader>, v2: bool, compress: bool)
    requires WellFormed(elf, phs, v2, compress)
    ensures InsideFile(elf, phs)
  {
  }

  lemma FaithfulAt(elf: seq<byte>, phs: seq<ProgramHeader>, entry: u64, ring1: bool, file: seq<byte>, h: Header, k: nat)
    requires InsideFile(elf, phs) && Faithful(elf, phs, entry, ring1, file, h) && k < |phs|
    ensures var bytes := LoaderBytes(file, h, h.segs[k]);
            && h.segs[k].vaddr == phs[k].vaddr && h.segs[k].filesz == phs[k].filesz && bytes.Some?
            && Mapping(h.segs[k].vaddr, h.segs[k].memsz, h.segs[k].flags, bytes.value) == ElfMapping(elf, phs[k])
  {
    hide LoaderBytes, SegmentFlags;
    assert Describes(h, phs, entry, ring1, k);
  }

  lemma MappingsGrow(elf: seq<byte>, phs: seq<ProgramHeader>, n: nat)
    requires InsideFile(elf, phs) && n < |phs|
    ensures ElfMappings(elf, phs)[..n + 1] == ElfMappings(elf, phs)[..n] + [ElfMapping(elf, phs[n])]
  {
    hide ElfMapping;
  }

  /** The segment loop over a faithful file maps what the headers say, or refuses it for the same reason. */
  lemma {:induction false} MapsFaithful(elf: seq<byte>, phs: seq<ProgramHeader>, entry: u64, ring1: bool,
                                        file: seq<byte>, h: Header, top: u64, n: nat)
    requires InsideFile(elf, phs) && Faithful(elf, phs, entry, ring1, file, h) && n <= |phs| == |h.segs|
    ensures MapSegs(file, h, top, n)
         == if forall k :: 0 <= k < n ==> USER_BASE <= phs[k].vaddr < top && phs[k].filesz <= phs[k].memsz
            then Some(ElfMappings(elf, phs)[..n]) else None
  {
    hide LoaderBytes, ElfMappings, Faithful, Describes;
    if n > 0 {
      MapsFaithful(elf, phs, entry, ring1, file, h, top, n - 1);
      FaithfulAt(elf, phs, entry, ring1, file, h, n - 1);
      MappingsGrow(elf, phs, n - 1);
    }
  }

  /**
   The end-to-end theorem: whatever the headers, the kernel loads the emitted file
   exactly when their addresses are acceptable, and then it is the program the ELF
   file described, segment for segment and byte for byte.
   */
  lemma {:induction false} FileLoads(elf: seq<byte>, phs: seq<ProgramHeader>, entry: u64, ring1: bool, v2: bool,
                                     compress: bool, top: u64)
    requires WellFormed(elf, phs, v2, compress) && |phs| <= MaxSegs(v2)
    ensures LoadImage(FileBytes(MakeLoads(elf, phs, v2, compress), entry, ring1, v2), top)
         == LoadElf(elf, phs, entry, ring1, top)
  {
    hide FileBytes, ParseHeader, LoaderBytes, MapSegs, MakeLoads;
    var file := FileBytes(MakeLoads(elf, phs, v2, compress), entry, ring1, v2);
    FileFaithful(elf, phs, entry, ring1, v2, compress);
    var h := ParseHeader(file).value;
    MapsFaithful(elf, phs, entry, ring1, file, h, top, |phs|);
    assert forall k :: 0 <= k < |phs| ==> Describes(h, phs, entry, ring1, k);
    ValidFaithful(elf, phs, entry, ring1, file, h, top);
    assert ElfMappings(elf, phs)[..|phs|] == ElfMappings(elf, phs);
  }

  lemma ValidFaithful(elf: seq<byte>, phs: seq<ProgramHeader>, entry: u64, ring1: bool, file: seq<byte>, h: Header,
                      top: u64)
    requires InsideFile(elf, phs) && Faithful(elf, phs, entry, ring1, file, h)
    ensures Loadable(phs, entry, top)
       <==> ValidImage(h, top)
            && forall k :: 0 <= k < |phs| ==> USER_BASE <= phs[k].vaddr < top && phs[k].filesz <= phs[k].memsz
  {
    hide LoaderBytes;
    assert forall k :: 0 <= k < |phs| ==> Describes(h, phs, entry, ring1, k);
  }

  // ---- the converter's loops ----

  predicate ElfHeaderOk(elf: seq<byte>) {
    |elf| >= 64 && elf[0..4] == [0x7f, 0x45, 0x4c, 0x46] && elf[4] == 2 && elf[5] == 1
    && elf[16] == 2 && elf[17] == 0 && elf[18] == 243 && elf[19] == 0
  }

  /** The loadable headers of an ELF file, in table order. */
  function ElfLoadHeaders(elf: seq<byte>): (phs: seq<ProgramHeader>)
    requires |elf| >= 64
  {
    LoadHeaders(elf, Le64(elf[32..40]), Le16(elf[54..56]), Le16(elf[56..58]), 0)
  }

  /** The header list the converter keeps: the first `MaxSegs` of them. */
  function Kept(phs: seq<ProgramHeader>, v2: bool): (r: seq<ProgramHeader>) {
    phs[..Min(|phs|, MaxSegs(v2))]
  }

  ghost predicate OffsetsInside(elf: seq<byte>, phs: seq<ProgramHeader>) {
    forall k :: 0 <= k < |phs| ==> phs[k].offset <= |elf|
  }

  /** The program-header scan: skips other types, stops at the table's end or at the segment limit. */
  method CollectLoads(elf: seq<byte>, v2: bool, compress: bool) returns (loads: seq<Load>)
    requires |elf| >= 64 && OffsetsInside(elf, Kept(ElfLoadHeaders(elf), v2))
    ensures loads == MakeLoads(elf, Kept(ElfLoadHeaders(elf), v2), v2, compress)
  {
    hide LoadHeaders, ReadHeader, MakeLoad, MakeLoads, IsLoad, Le16, Le64;
    var phoff: nat := Le64(elf[32..40]);
    var entsize: nat, phnum: nat := Le16(elf[54..56]), Le16(elf[56..58]);
    ghost var all := ElfLoadHeaders(elf);
    ghost var rest := all;
    loads := [];
    var i := 0;
    NoLoads(elf, all, v2, compress);
    while i < phnum
      invariant 0 <= i <= phnum && |loads| <= |all| && |loads| <= MaxSegs(v2)
      invariant rest == LoadHeaders(elf, phoff, entsize, phnum, i) && rest == all[|loads|..]
      invariant loads == MakeLoads(elf, all[..|loads|], v2, compress)
    {
      var off := phoff + i * entsize;
      LoadHeadersUnfold(elf, phoff, entsize, phnum, i, off);
      if off + 56 > |elf| {
        break;
      }
      ghost var later := LoadHeaders(elf, phoff, entsize, phnum, i + 1);
      if IsLoad(elf, off) {
        if |loads| >= MaxSegs(v2) {
          break;
        }
        var ph := ReadHeader(elf, off);
        NextHeader(all, |loads|, ph, later);
        assert Kept(all, v2)[|loads|] == ph;
        var l := CollectLoad(elf, ph, v2, compress);
        MakeLoadsGrow(elf, all, |loads|, v2, compress);
        loads := loads + [l];
      }
      rest := later;
      i := i + 1;
    }
    LoadHeadersEnd(elf, phoff, entsize, phnum);
    assert |loads| == |all| || |loads| == MaxSegs(v2);
    assert all[..|loads|] == Kept(all, v2);
  }

  lemma NoLoads(elf: seq<byte>, all: seq<ProgramHeader>, v2: bool, compress: bool)
    ensures all[0..] == all && MakeLoads(elf, all[..0], v2, compress) == []
  {
  }

  lemma LoadHeadersEnd(elf: seq<byte>, phoff: nat, entsize: nat, phnum: nat)
    ensures LoadHeaders(elf, phoff, entsize, phnum, phnum) == []
  {
  }

  lemma {:induction false} LoadHeadersUnfold(elf: seq<byte>, phoff: nat, entsize: nat, phnum: nat, i: nat, off: nat)
    requires off == phoff + i * entsize
    ensures var r := LoadHeaders(elf, phoff, entsize, phnum, i);
            if i >= phnum || off + 56 > |elf| then r == []
            else if IsLoad(elf, off) then r == [ReadHeader(elf, off)] + LoadHeaders(elf, phoff, entsize, phnum, i + 1)
            else r == LoadHeaders(elf, phoff, entsize, phnum, i + 1)
  {
    hide ReadHeader, IsLoad;
  }

  /** Slices one segment out of the file and compresses it when asked to and worth it. */
  method CollectLoad(elf: seq<byte>, ph: ProgramHeader, v2: bool, compress: bool) returns (l: Load)
    requires ph.offset <= |elf|
    ensures l == MakeLoad(elf, ph, v2, compress)
  {
    hide Rle.Compress, Rle.Expand;
    var raw := elf[ph.offset..Min(ph.offset + ph.filesz, |elf|)];
    var data, size := raw, 0;
    if compress && v2 && ph.filesz > 0 {
      var packed := Rle.RleCompress(raw);
      var packedSize := |packed| % U32_MOD;
      if packedSize < ph.filesz % U32_MOD {
        data, size := packed, packedSize;
      }
    }
    var flags := SegmentFlags(ph.flags);
    l := Load(Segment(ph.vaddr, ph.filesz, ph.memsz, 0, flags, ph.align % U32_MOD, 0, size), data);
  }

  lemma {:induction false} NextHeader(all: seq<ProgramHeader>, n: nat, ph: ProgramHeader, rest: seq<ProgramHeader>)
    requires n <= |all| && all[n..] == [ph] + rest
    ensures n < |all| && all[n] == ph && all[n + 1..] == rest
  {
    assert all[n..][0] == ph && all[n..][1..] == rest;
  }

  lemma MakeLoadsGrow(elf: seq<byte>, all: seq<ProgramHeader>, n: nat, v2: bool, compress: bool)
    requires n < |all| && forall k :: 0 <= k <= n ==> all[k].offset <= |elf|
    ensures MakeLoads(elf, all[..n + 1], v2, compress)
         == MakeLoads(elf, all[..n], v2, compress) + [MakeLoad(elf, all[n], v2, compress)]
  {
    hide MakeLoad;
  }

  /** The offset-assigning loop: each segment gets the running offset, in place. */
  method PlaceLoads(loads: seq<Load>, hdr: u32) returns (r: seq<Load>)
    ensures r == Placed(loads, hdr)
  {
    r := loads;
    var dataOff: u32 := hdr;
    var k := 0;
    while k < |r|
      invariant 0 <= k <= |r| == |loads|
      invariant dataOff == OffsetOf(loads, hdr, k)
      invariant forall j :: 0 <= j < k ==> r[j] == Placed(loads, hdr)[j]
      invariant forall j :: k <= j < |loads| ==> r[j] == loads[j]
    {
      r := r[k := r[k].(seg := r[k].seg.(offset := dataOff))];
      dataOff := Min(dataOff + |loads[k].data| % U32_MOD, U32_MOD - 1);
      k := k + 1;
    }
  }

  method FindCompressed(loads: seq<Load>) returns (any: bool)
    ensures any == AnyCompressed(loads)
  {
    any := false;
    var k := 0;
    while k < |loads|
      invariant 0 <= k <= |loads|
      invariant !any && forall j :: 0 <= j < k ==> loads[j].seg.compressedSize == 0
    {
      if loads[k].seg.compressedSize > 0 {
        return true;
      }
      k := k + 1;
    }
  }

  /** What the converter writes for an ELF file. */
  function Converted(elf: seq<byte>, ring1: bool, v2: bool, compress: bool): (file: seq<byte>)
    requires |elf| >= 64 && OffsetsInside(elf, Kept(ElfLoadHeaders(elf), v2))
  {
    FileBytes(MakeLoads(elf, Kept(ElfLoadHeaders(elf), v2), v2, compress), Le64(elf[24..32]), ring1, v2)
  }

  /** If the kept headers are well formed, the kernel loads from `file` what they describe. */
  ghost predicate LoadsBack(file: seq<byte>, elf: seq<byte>, ring1: bool, v2: bool, compress: bool)
    requires |elf| >= 64
  {
    var kept := Kept(ElfLoadHeaders(elf), v2);
    WellFormed(elf, kept, v2, compress) ==> LoadsAs(file, elf, kept, Le64(elf[24..32]), ring1)
  }

  /**
   The whole conversion. None stands for the converter's error exits; a kept program
   header whose file offset lies past the end of the file is outside its contract.
   The kernel loads the result exactly when it would accept the kept headers, and
   then loads what they describe.
   */
  method Convert(elf: seq<byte>, ring1: bool, v2: bool, compress: bool) returns (r: Option<seq<byte>>)
    requires |elf| >= 64 ==> OffsetsInside(elf, Kept(ElfLoadHeaders(elf), v2))
    ensures r.Some? <==> ElfHeaderOk(elf)
    ensures r.Some? ==> r.value == Converted(elf, ring1, v2, compress)
    ensures r.Some? ==> LoadsBack(r.value, elf, ring1, v2, compress)
  {
    hide MakeLoads, ElfLoadHeaders, Placed, HeaderBytes, AnyCompressed, Payload, Segs, Le64, LoadsBack;
    if !ElfHeaderOk(elf) {
      return None;
    }
    var entry := Le64(elf[24..32]);
    var loads := CollectLoads(elf, v2, compress);
    loads := PlaceLoads(loads, HeaderSize(v2, |loads|));
    var any := FindCompressed(loads);
    var flags := (if ring1 then ONX_FLAGS_RING1 else 0) + (if any then ONX_FLAGS_COMPRESSED else 0);
    var header := Header(ONX_MAGIC, if v2 then 2 else 1, entry, |loads|, flags, Segs(loads));
    var out;
    if v2 {
      var bytes := HeaderToBytesV2(header);
      out := bytes.value;
    } else {
      out := HeaderToBytesV1(header);
    }
    out := WritePayloads(out, loads);
    r := Some(out);
    ConvertedLoads(elf, entry, ring1, v2, compress);
  }

  /** Appends every payload to the file. */
  method WritePayloads(head: seq<byte>, loads: seq<Load>) returns (out: seq<byte>)
    ensures out == head + Payload(loads)
  {
    out := head;
    var k := 0;
    while k < |loads|
      invariant 0 <= k <= |loads|
      invariant out == head + Payload(loads[..k])
    {
      assert loads[..k + 1][..k] == loads[..k];
      Assoc(head, Payload(loads[..k]), loads[k].data);
      out := out + loads[k].data;
      k := k + 1;
    }
    assert loads[..k] == loads;
  }

  lemma ConvertedLoads(elf: seq<byte>, entry: u64, ring1: bool, v2: bool, compress: bool)
    requires |elf| >= 64 && entry == Le64(elf[24..32]) && OffsetsInside(elf, Kept(ElfLoadHeaders(elf), v2))
    ensures LoadsBack(Converted(elf, ring1, v2, compress), elf, ring1, v2, compress)
  {
    hide WellFormed, LoadImage, ElfLoadHeaders, FileBytes, MakeLoads, Le64;
    var kept := Kept(ElfLoadHeaders(elf), v2);
    if WellFormed(elf, kept, v2, compress) {
      InBounds(elf, kept, v2, compress);
      forall top: u64
        ensures LoadImage(Converted(elf, ring1, v2, compress), top) == LoadElf(elf, kept, entry, ring1, top)
      {
        FileLoads(elf, kept, entry, ring1, v2, compress, top);
      }
    }
  }

  /**
   For an ELF file whose load headers are all well formed and acceptable to the
   loader, converting and loading gives all of them exactly when there are no more
   than the format holds; beyond that the rest are silently lost.
   */
  lemma {:induction false} EveryHeaderLoadsIff(elf: seq<byte>, ring1: bool, v2: bool, compress: bool, top: u64)
    requires ElfHeaderOk(elf) && WellFormed(elf, ElfLoadHeaders(elf), v2, compress)
    requires Loadable(ElfLoadHeaders(elf), Le64(elf[24..32]), top)
    ensures OffsetsInside(elf, Kept(ElfLoadHeaders(elf), v2)) && InsideFile(elf, ElfLoadHeaders(elf))
    ensures LoadImage(Converted(elf, ring1, v2, compress), top)
              == Some(Loaded(Le64(elf[24..32]), ring1, ElfMappings(elf, ElfLoadHeaders(elf))))
       <==> |ElfLoadHeaders(elf)| <= (if v2 then 256 else 8)
  {
    hide LoadImage, ElfLoadHeaders, FileBytes, MakeLoads, Le64, Loadable;
    var all, entry := ElfLoadHeaders(elf), Le64(elf[24..32]);
    var kept := Kept(all, v2);
    KeptWellFormed(elf, all, v2, compress);
    InBounds(elf, kept, v2, compress);
    FileLoads(elf, kept, entry, ring1, v2, compress, top);
    if |all| <= MaxSegs(v2) {
      assert kept == all;
    } else {
      assert |ElfMappings(elf, kept)| < |ElfMappings(elf, all)|;
    }
  }

  lemma {:induction false} KeptWellFormed(elf: seq<byte>, all: seq<ProgramHeader>, v2: bool, compress: bool)
    requires WellFormed(elf, all, v2, compress)
    ensures WellFormed(elf, Kept(all, v2), v2, compress) && InsideFile(elf, all)
  {
    hide Payload, MakeLoad;
    var kept := Kept(all, v2);
    var loads := MakeLoads(elf, all, v2, compress);
    assert MakeLoads(elf, kept, v2, compress) == loads[..|kept|];
    PayloadMonotone(loads, |kept|);
  }
}
