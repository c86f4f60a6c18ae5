/** The OnyxFS v2 on-disk inode and the kernel's path from an inode number to file bytes. */
module OnyxFs {
  import opened Bytes
  import opened Disk

  const DIRECT: nat := 10
  const INODE_SIZE: nat := 128
  const INODES_PER_BLOCK: nat := 32
  /** Entries of the single-indirect table. */
  const INDIRECT: nat := 1024
  /** Bytes reachable through direct and single-indirect blocks. */
  const REACH: nat := 1034 * 4096
  const U32_MAX: nat := 0xFFFF_FFFF

  const DT_REG: u32 := 0x81ED
  const DT_DIR: u32 := 0x41ED

  /** The inode fields a reader of regular files depends on. */
  datatype Inode = Inode(mode: u32, size: u64, blocks: seq<u32>, nlink: u32, indirect: u32)

  /** The fields beside them. */
  datatype Attributes = Attributes(uid: u32, gid: u32, flags: u32, reserved: u32, doubleIndirect: u32,
                                   crtime: u64, mtime: u64, atime: u64)

  // ---- the inode record ----

  /** The stores that fill a zeroed 128-byte record. */
  ghost function InodeWrites(n: Inode, now: u64): (ws: seq<Write>)
    ensures |ws| == 8
  {
    [Write(0, ToLe32(n.mode)), Write(8, ToLe64(n.size)), Write(16, WordBytes(n.blocks)),
     Write(96, ToLe32(n.indirect)), Write(64, ToLe32(n.nlink)),
     Write(104, ToLe64(now)), Write(112, ToLe64(now)), Write(120, ToLe64(now))]
  }

  ghost function InodeBytes(n: Inode, now: u64): (b: seq<byte>)
    ensures |b| == INODE_SIZE
  {
    ApplyAll(Fill(INODE_SIZE, 0), InodeWrites(n, now))
  }

  function DecodeInode(b: seq<byte>): (r: Option<Inode>) {
    if |b| < INODE_SIZE then None
    else Some(Inode(Le32(b[0..4]), Le64(b[8..16]),
                    seq(DIRECT, i requires 0 <= i < DIRECT => Le32(b[16 + 4 * i..20 + 4 * i])),
                    Le32(b[64..68]), Le32(b[96..100])))
  }

  function DecodeAttributes(b: seq<byte>): (a: Option<Attributes>) {
    if |b| < INODE_SIZE then None
    else Some(Attributes(Le32(b[56..60]), Le32(b[60..64]), Le32(b[68..72]), Le32(b[72..76]), Le32(b[100..104]),
                         Le64(b[104..112]), Le64(b[112..120]), Le64(b[120..128])))
  }

  /** The direct window: unused entries are zero. */
  function Padded(blocks: seq<u32>): (r: seq<u32>)
    requires |blocks| <= DIRECT
    ensures |r| == DIRECT && r[..|blocks|] == blocks && (|blocks| == DIRECT ==> r == blocks)
    ensures forall i :: |blocks| <= i < DIRECT ==> r[i] == 0
  {
    blocks + seq(DIRECT - |blocks|, _ => 0)
  }

  /** Writing an inode and decoding it gives it back, owned by root, stamped `now` and with nothing else set. */
  lemma {:induction false} InodeRoundTrip(n: Inode, now: u64)
    requires |n.blocks| <= DIRECT
    ensures DecodeInode(InodeBytes(n, now)) == Some(n.(blocks := Padded(n.blocks)))
    ensures DecodeAttributes(InodeBytes(n, now)) == Some(Attributes(0, 0, 0, 0, 0, now, now, now))
  {
    hide ApplyAll, WordBytes, InodeBytes, InodeWrites;
    var b := InodeBytes(n, now);
    FixedFields(n, now);
    forall i | 0 <= i < DIRECT
      ensures Le32(b[16 + 4 * i..20 + 4 * i]) == Padded(n.blocks)[i]
    {
      if i < |n.blocks| {
        BlockField(n, now, i);
        assert Padded(n.blocks)[..|n.blocks|][i] == n.blocks[i];
      } else {
        UnusedField(n, now, i);
      }
    }
    assert DecodeInode(b).value.blocks == Padded(n.blocks);
    Unset(n, now);
    Stamps(n, now);
  }

  lemma Unset(n: Inode, now: u64)
    requires |n.blocks| <= DIRECT
    ensures var b := InodeBytes(n, now);
            Le32(b[56..60]) == Le32(b[60..64]) == Le32(b[68..72]) == Le32(b[72..76]) == Le32(b[100..104]) == 0
  {
    hide ApplyAll, WordBytes, ToLe32, ToLe64;
    var zero, ws := Fill(INODE_SIZE, 0), InodeWrites(n, now);
    WordBytesLength(n.blocks);
    ApplyMiss(zero, ws, 56, 60);
    ApplyMiss(zero, ws, 60, 64);
    ApplyMiss(zero, ws, 68, 72);
    ApplyMiss(zero, ws, 72, 76);
    ApplyMiss(zero, ws, 100, 104);
    assert zero[56..60] == zero[60..64] == zero[68..72] == zero[72..76] == zero[100..104] == [0, 0, 0, 0];
  }

  lemma Stamps(n: Inode, now: u64)
    requires |n.blocks| <= DIRECT
    ensures var b := InodeBytes(n, now);
            b[104..112] == b[112..120] == b[120..128] == ToLe64(now)
  {
    hide ApplyAll, WordBytes, ToLe32, ToLe64, Le32, Le64;
    var zero, ws := Fill(INODE_SIZE, 0), InodeWrites(n, now);
    WordBytesLength(n.blocks);
    ApplyHit(zero, ws, 5, 104, 112);
    ApplyHit(zero, ws, 6, 112, 120);
    ApplyHit(zero, ws, 7, 120, 128);
  }

  lemma FixedFields(n: Inode, now: u64)
    requires |n.blocks| <= DIRECT
    ensures var b := InodeBytes(n, now);
            && b[0..4] == ToLe32(n.mode) && b[8..16] == ToLe64(n.size)
            && b[64..68] == ToLe32(n.nlink) && b[96..100] == ToLe32(n.indirect)
  {
    hide ApplyAll, WordBytes, ToLe32, ToLe64, Le32, Le64;
    var zero, ws := Fill(INODE_SIZE, 0), InodeWrites(n, now);
    WordBytesLength(n.blocks);
    ApplyHit(zero, ws, 0, 0, 4);
    ApplyHit(zero, ws, 1, 8, 16);
    ApplyHit(zero, ws, 3, 96, 100);
    ApplyHit(zero, ws, 4, 64, 68);
  }

  lemma UnusedField(n: Inode, now: u64, i: nat)
    requires |n.blocks| <= i < DIRECT
    ensures Le32(InodeBytes(n, now)[16 + 4 * i..20 + 4 * i]) == 0
  {
    hide ApplyAll, WordBytes, ToLe32, ToLe64;
    var zero, ws := Fill(INODE_SIZE, 0), InodeWrites(n, now);
    WordBytesLength(n.blocks);
    ApplyMiss(zero, ws, 16 + 4 * i, 20 + 4 * i);
    assert zero[16 + 4 * i..20 + 4 * i] == [0, 0, 0, 0];
  }

  lemma BlockField(n: Inode, now: u64, i: nat)
    requires i < |n.blocks| <= DIRECT
    ensures InodeBytes(n, now)[16 + 4 * i..20 + 4 * i] == ToLe32(n.blocks[i])
  {
    hide ApplyAll, WordBytes, ToLe32, ToLe64, Le32, Le64;
    var zero, ws := Fill(INODE_SIZE, 0), InodeWrites(n, now);
    WordBytesLength(n.blocks);
    ApplyHit(zero, ws, 2, 16 + 4 * i, 20 + 4 * i);
    WordBytesAt(n.blocks, i);
  }

  /** Fills the record; `blocks` may be shorter than the direct window. */
  method WriteInode(img: array<byte>, off: nat, n: Inode, now: u64)
    requires off + INODE_SIZE <= img.Length && |n.blocks| <= DIRECT
    modifies img
    ensures img[..] == Poke(old(img[..]), Write(off, InodeBytes(n, now)))
  {
    hide Poke, ApplyAll, WordBytes, Patch;
    var buf := new byte[INODE_SIZE](_ => 0);
    ghost var ws := InodeWrites(n, now);
    ghost var zero := Fill(INODE_SIZE, 0);
    assert buf[..] == zero;
    ApplyNothing(zero, ws);
    Store(buf, ws, 0, 0, ToLe32(n.mode));
    Store(buf, ws, 1, 8, ToLe64(n.size));
    WordBytesLength(n.blocks);
    StoreWords(buf, 16, n.blocks);
    ApplySnoc(zero, ws, 2);
    Store(buf, ws, 3, 96, ToLe32(n.indirect));
    Store(buf, ws, 4, 64, ToLe32(n.nlink));
    Store(buf, ws, 5, 104, ToLe64(now));
    Store(buf, ws, 6, 112, ToLe64(now));
    Store(buf, ws, 7, 120, ToLe64(now));
    assert ws[..8] == ws;
    PokeCopy(img, off, buf[..]);
  }

  /** The next of a record's stores. */
  method Store(buf: array<byte>, ghost ws: seq<Write>, ghost k: nat, off: nat, data: seq<byte>)
    requires k < |ws| && ws[k] == Write(off, data) && off + |data| <= buf.Length == INODE_SIZE
    requires buf[..] == ApplyAll(Fill(INODE_SIZE, 0), ws[..k])
    modifies buf
    ensures buf[..] == ApplyAll(Fill(INODE_SIZE, 0), ws[..k + 1])
  {
    hide ApplyAll, Patch;
    ApplySnoc(Fill(INODE_SIZE, 0), ws, k);
    CopyInto(buf, off, data);
  }

  method PokeCopy(img: array<byte>, off: nat, data: seq<byte>)
    requires off + |data| <= img.Length
    modifies img
    ensures img[..] == Poke(old(img[..]), Write(off, data))
  {
    hide Patch;
    CopyInto(img, off, data);
  }

  /** Little-endian words stored one after the other. */
  method StoreWords(img: array<byte>, off: nat, xs: seq<u32>)
    requires off + 4 * |xs| <= img.Length
    modifies img
    ensures img[..] == Poke(old(img[..]), Write(off, WordBytes(xs)))
  {
    hide Patch, WordBytes;
    ghost var before := img[..];
    WordBytesLength(xs);
    WordBytesLength(xs[..0]);
    assert Patch(before, off, WordBytes(xs[..0])) == before;
    for i := 0 to |xs|
      invariant img.Length == |before|
      invariant |WordBytes(xs[..i])| == 4 * i
      invariant img[..] == Patch(before, off, WordBytes(xs[..i]))
    {
      WordBytesSnoc(xs, i);
      PatchAppend(before, off, WordBytes(xs[..i]), ToLe32(xs[i]));
      CopyInto(img, off + 4 * i, ToLe32(xs[i]));
    }
    assert xs[..|xs|] == xs;
  }

  lemma PatchAppend(buf: seq<byte>, off: nat, a: seq<byte>, b: seq<byte>)
    requires off + |a| + |b| <= |buf|
    ensures Patch(Patch(buf, off, a), off + |a|, b) == Patch(buf, off, a + b)
  {
  }

  // ---- the kernel's read path ----

  datatype Errno = Inval | Io | NoEnt

  datatype Result<T> = Ok(value: T) | Err(error: Errno)

  /** The mounted superblock fields the read path uses. */
  datatype Super = Super(inodeTableStart: nat, inodeCount: nat)

  /** One device block, or nothing past the end of the medium. */
  function ReadBlock(img: seq<byte>, blk: nat): (r: Option<seq<byte>>)
    ensures r.Some? ==> |r.value| == BLOCK
  {
    if (blk + 1) * BLOCK <= |img| then Some(img[blk * BLOCK..(blk + 1) * BLOCK]) else None
  }

  function ReadInode(img: seq<byte>, sb: Super, ino: u32): (r: Result<Inode>)
    ensures r.Ok? ==> |r.value.blocks| == DIRECT
  {
    if ino == 0 then Err(Inval)
    else
      var idx := ino - 1;
      var blk := sb.inodeTableStart + idx / INODES_PER_BLOCK;
      if blk >= sb.inodeTableStart + DivCeil(sb.inodeCount, INODES_PER_BLOCK) then Err(Inval)
      else match ReadBlock(img, blk)
        case None => Err(Io)
        case Some(buf) =>
          var off := idx % INODES_PER_BLOCK * INODE_SIZE;
          Ok(DecodeInode(buf[off..off + INODE_SIZE]).value)
  }

  /** Where a file block lives: a device block, nowhere, or an unreadable indirect table. */
  datatype Location = At(blk: nat) | Nowhere | Failed

  function Locate(img: seq<byte>, n: Inode, k: nat): (l: Location)
    requires |n.blocks| == DIRECT
  {
    if k < DIRECT then (if n.blocks[k] == 0 then Nowhere else At(n.blocks[k]))
    else if n.indirect == 0 || k - DIRECT >= INDIRECT then Nowhere
    else match ReadBlock(img, n.indirect)
      case None => Failed
      case Some(table) =>
        var e := 4 * (k - DIRECT);
        var blk: nat := Le32(table[e..e + 4]);
        if blk == 0 then Nowhere else At(blk)
  }

  /** What a read of `remaining` bytes at `off` returns, block by block. */
  function ReadFrom(img: seq<byte>, n: Inode, off: nat, remaining: nat): (r: Result<seq<byte>>)
    requires |n.blocks| == DIRECT
    decreases remaining
  {
    if remaining == 0 then Ok([])
    else match Locate(img, n, off / BLOCK)
      case Nowhere => Ok([])
      case Failed => Err(Io)
      case At(blk) =>
        match ReadBlock(img, blk)
        case None => Err(Io)
        case Some(buf) =>
          var start := off % BLOCK;
          var chunk := Min(BLOCK - start, remaining);
          match ReadFrom(img, n, off + chunk, remaining - chunk)
          case Err(e) => Err(e)
          case Ok(rest) => Ok(buf[start..start + chunk] + rest)
  }

  /** Bytes the call will try for: the request cut to the file. */
  function Wanted(n: Inode, off: u32, len: u32): (w: u32) {
    var size := Min(n.size, U32_MAX);
    Min(len, if off <= size then size - off else 0)
  }

  /** A whole read call. */
  function ReadFile(img: seq<byte>, sb: Super, ino: u32, off: u32, len: u32): (r: Result<seq<byte>>) {
    match ReadInode(img, sb, ino)
    case Err(e) => Err(e)
    case Ok(n) => ReadFrom(img, n, off, Wanted(n, off, len))
  }

  /** The kernel's loop over blocks. */
  method Read(img: seq<byte>, sb: Super, ino: u32, off: u32, len: u32) returns (r: Result<seq<byte>>)
    ensures r == ReadFile(img, sb, ino, off, len)
  {
    hide Locate, ReadBlock, Wanted, ReadInode, ReadFrom;
    var inode := ReadInode(img, sb, ino);
    if inode.Err? {
      return Err(inode.error);
    }
    var n := inode.value;
    var pos: nat := off;
    var remaining: nat := Wanted(n, off, len);
    var k := off / BLOCK;
    var out: seq<byte> := [];
    ghost var whole := ReadFrom(img, n, off, Wanted(n, off, len));
    Continues(out, whole);
    while remaining > 0
      invariant remaining > 0 ==> k == pos / BLOCK
      invariant Continuation(whole, out, ReadFrom(img, n, pos, remaining))
      decreases remaining
    {
      ReadStep(img, n, pos, remaining);
      NothingLeft(out);
      match Locate(img, n, k)
      case Nowhere => return Ok(out);
      case Failed => return Err(Io);
      case At(blk) =>
        var block := ReadBlock(img, blk);
        if block.None? {
          return Err(Io);
        }
        var start := pos % BLOCK;
        var chunk := Min(BLOCK - start, remaining);
        Extends(whole, out, block.value[start..start + chunk], ReadFrom(img, n, pos + chunk, remaining - chunk));
        NextIndex(pos, chunk, remaining);
        out := out + block.value[start..start + chunk];
        pos := pos + chunk;
        remaining := remaining - chunk;
        k := k + 1;
    }
    ReadNothing(img, n, pos);
    NothingLeft(out);
    r := Ok(out);
  }

  /** The whole read is what has been copied, then the rest. */
  ghost predicate Continuation(whole: Result<seq<byte>>, out: seq<byte>, rest: Result<seq<byte>>) {
    if rest.Err? then whole == rest else whole == Ok(out + rest.value)
  }

  lemma Continues(out: seq<byte>, whole: Result<seq<byte>>)
    requires out == []
    ensures Continuation(whole, out, whole)
  {
    if whole.Ok? {
      assert out + whole.value == whole.value;
    }
  }

  lemma NothingLeft(out: seq<byte>)
    ensures out + [] == out
  {
  }

  ghost function Prefixed(chunk: seq<byte>, rest: Result<seq<byte>>): (r: Result<seq<byte>>) {
    if rest.Err? then rest else Ok(chunk + rest.value)
  }

  lemma Extends(whole: Result<seq<byte>>, out: seq<byte>, chunk: seq<byte>, rest: Result<seq<byte>>)
    requires Continuation(whole, out, Prefixed(chunk, rest))
    ensures Continuation(whole, out + chunk, rest)
  {
    if rest.Ok? {
      Assoc(out, chunk, rest.value);
    }
  }

  lemma NextIndex(pos: nat, chunk: nat, remaining: nat)
    requires chunk == Min(BLOCK - pos % BLOCK, remaining) && remaining > 0
    ensures remaining - chunk > 0 ==> (pos + chunk) / BLOCK == pos / BLOCK + 1
    ensures chunk > 0
  {
  }

  /** One turn of the loop in front of whatever the rest of the read returns. */
  ghost function Turn(img: seq<byte>, n: Inode, pos: nat, remaining: nat): (r: Result<seq<byte>>)
    requires |n.blocks| == DIRECT && remaining > 0
  {
    match Locate(img, n, pos / BLOCK)
    case Nowhere => Ok([])
    case Failed => Err(Io)
    case At(blk) =>
      match ReadBlock(img, blk)
      case None => Err(Io)
      case Some(buf) =>
        var start := pos % BLOCK;
        var chunk := Min(BLOCK - start, remaining);
        Prefixed(buf[start..start + chunk], ReadFrom(img, n, pos + chunk, remaining - chunk))
  }

  lemma ReadStep(img: seq<byte>, n: Inode, pos: nat, remaining: nat)
    requires |n.blocks| == DIRECT && remaining > 0
    ensures ReadFrom(img, n, pos, remaining) == Turn(img, n, pos, remaining)
  {
    hide Locate, ReadBlock;
  }

  // ---- images that hold a file ----

  /** Length of file block `k`. */
  function ChunkLen(size: nat, k: nat): (c: nat)
    requires k * BLOCK <= size
    ensures c <= BLOCK
  {
    Min(BLOCK, size - k * BLOCK)
  }

  /** File block `k` can be found, and its device block starts with the file's bytes. */
  ghost predicate HoldsBlock(img: seq<byte>, n: Inode, data: seq<byte>, k: nat)
    requires |n.blocks| == DIRECT && k * BLOCK <= |data|
  {
    && Locate(img, n, k).At?
    && var lo := Locate(img, n, k).blk * BLOCK;
       lo + BLOCK <= |img|
       && img[lo..lo + ChunkLen(|data|, k)] == data[k * BLOCK..k * BLOCK + ChunkLen(|data|, k)]
  }

  /** The image holds `data` under inode `n`, as far as the indirect table reaches. */
  ghost predicate Holds(img: seq<byte>, n: Inode, data: seq<byte>) {
    && |n.blocks| == DIRECT && n.size == |data|
    && (forall k :: 0 <= k && k * BLOCK < |data| && k < DIRECT + INDIRECT ==> HoldsBlock(img, n, data, k))
  }

  /** End of the part of a `len`-byte request at `off` that a read returns. */
  function End(size: nat, off: nat, len: nat): (e: nat)
    ensures e <= size && e <= REACH && e <= off + len
  {
    Min(off + len, Min(size, REACH))
  }

  lemma BlockSlice(img: seq<byte>, blk: nat, a: nat, b: nat)
    requires (blk + 1) * BLOCK <= |img| && a <= b <= BLOCK
    ensures ReadBlock(img, blk) == Some(img[blk * BLOCK..blk * BLOCK + BLOCK])
    ensures img[blk * BLOCK..blk * BLOCK + BLOCK][a..b] == img[blk * BLOCK + a..blk * BLOCK + b]
  {
    SliceOfSlice(img, blk * BLOCK, blk * BLOCK + BLOCK, a, b);
  }

  /** The bytes of one block of a held file. */
  lemma HeldChunk(img: seq<byte>, n: Inode, data: seq<byte>, off: nat, chunk: nat)
    requires |n.blocks| == DIRECT && off % BLOCK + chunk <= BLOCK && off + chunk <= |data|
    requires HoldsBlock(img, n, data, off / BLOCK)
    ensures var l := Locate(img, n, off / BLOCK);
            && l.At? && ReadBlock(img, l.blk).Some?
            && ReadBlock(img, l.blk).value[off % BLOCK..off % BLOCK + chunk] == data[off..off + chunk]
  {
    hide Locate, ReadBlock;
    var k, s := off / BLOCK, off % BLOCK;
    var lo := Locate(img, n, k).blk * BLOCK;
    var c := ChunkLen(|data|, k);
    BlockSlice(img, Locate(img, n, k).blk, s, s + chunk);
    SliceOfSlice(img, lo, lo + c, s, s + chunk);
    SliceOfSlice(data, k * BLOCK, k * BLOCK + c, s, s + chunk);
  }

  /** Reading a held file returns exactly the requested bytes that exist and are reachable. */
  lemma {:induction false} HeldFileReads(img: seq<byte>, n: Inode, data: seq<byte>, off: nat, remaining: nat)
    requires Holds(img, n, data) && off + remaining <= |data|
    ensures ReadFrom(img, n, off, remaining) ==
            Ok(if off <= End(|data|, off, remaining) then data[off..End(|data|, off, remaining)] else [])
    decreases remaining
  {
    hide Locate, ReadBlock, ReadFrom, HoldsBlock;
    if remaining == 0 {
      ReadNothing(img, n, off);
    } else if off / BLOCK >= DIRECT + INDIRECT {
      PastReach(img, n, off / BLOCK);
      assert off >= REACH && data[off..off] == [];
      ReadStep(img, n, off, remaining);
    } else {
      var chunk := Min(BLOCK - off % BLOCK, remaining);
      assert HoldsBlock(img, n, data, off / BLOCK);
      HeldChunk(img, n, data, off, chunk);
      ReadStep(img, n, off, remaining);
      HeldFileReads(img, n, data, off + chunk, remaining - chunk);
      assert off + chunk <= REACH;
      Join(data, off, off + chunk, End(|data|, off, remaining));
    }
  }

  lemma ReadNothing(img: seq<byte>, n: Inode, off: nat)
    requires |n.blocks| == DIRECT
    ensures ReadFrom(img, n, off, 0) == Ok([])
  {
  }

  lemma PastReach(img: seq<byte>, n: Inode, k: nat)
    requires |n.blocks| == DIRECT && k >= DIRECT + INDIRECT
    ensures Locate(img, n, k) == Nowhere
  {
  }

  lemma Join(data: seq<byte>, a: nat, b: nat, c: nat)
    requires a <= b <= c <= |data|
    ensures data[a..b] + data[b..c] == data[a..c]
  {
  }
}
