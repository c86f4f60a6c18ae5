/**
 The image builder: two passes over the same directories and files, the first writing
 inodes and indirect tables, the second directory and file blocks.
 */
module MkImage {
  import opened Bytes
  import opened Disk
  import opened OnyxFs

  const TABLE_START: nat := 3
  const SPARE_INODES: nat := 256
  const SNAPSHOT_BLOCKS: nat := 4 * 64
  const JOURNAL_BLOCKS: nat := 32
  const RESERVED_BLOCKS: nat := 256
  const DIRENT_SIZE: nat := 40
  const DIRENTS_PER_BLOCK: nat := 102
  const NAME_MAX: nat := 32
  const U32: nat := 0x1_0000_0000

  datatype File = File(ino: u32, data: seq<byte>)

  datatype Entry = Entry(name: seq<byte>, ino: u32, isDir: bool)

  datatype Dir = Dir(ino: u32, parent: u32, entries: seq<Entry>)

  datatype Tree = Tree(dirs: seq<Dir>, files: seq<File>, nextIno: u32)

  // ---- numbering ----

  /** The inode number of member `k`, directories first. */
  function Ino(t: Tree, k: nat): (ino: u32)
    requires k < |t.dirs| + |t.files|
  {
    if k < |t.dirs| then t.dirs[k].ino else t.files[k - |t.dirs|].ino
  }

  /** Every member has its own number below the next free one. */
  ghost predicate Numbered(t: Tree) {
    && (forall k :: 0 <= k < |t.dirs| + |t.files| ==> 1 <= Ino(t, k) < t.nextIno)
    && (forall j, k :: 0 <= j < k < |t.dirs| + |t.files| ==> Ino(t, j) != Ino(t, k))
  }

  ghost predicate Used(t: Tree, ino: u32) {
    exists k :: 0 <= k < |t.dirs| + |t.files| && Ino(t, k) == ino
  }

  function Root(): (t: Tree)
    ensures Numbered(t)
  {
    Tree([Dir(1, 1, [])], [], 2)
  }

  /** A directory with the next number, listed in its parent. */
  function AddDir(t: Tree, parent: nat, name: seq<byte>): (t': Tree)
    requires parent < |t.dirs| && t.nextIno < U32 - 1
  {
    var p := t.dirs[parent];
    Tree(t.dirs[parent := p.(entries := p.entries + [Entry(name, t.nextIno, true)])] + [Dir(t.nextIno, p.ino, [])],
         t.files, t.nextIno + 1)
  }

  function AddFile(t: Tree, parent: nat, name: seq<byte>, data: seq<byte>): (t': Tree)
    requires parent < |t.dirs| && t.nextIno < U32 - 1
  {
    var p := t.dirs[parent];
    Tree(t.dirs[parent := p.(entries := p.entries + [Entry(name, t.nextIno, false)])],
         t.files + [File(t.nextIno, data)], t.nextIno + 1)
  }

  /** One manifest line: its parent is the directory the path lookup found, the root when there is none. */
  datatype Addition = NewDir(parent: nat, name: seq<byte>) | NewFile(parent: nat, name: seq<byte>, data: seq<byte>)

  function Add(t: Tree, a: Addition): (t': Tree)
    requires a.parent < |t.dirs| && t.nextIno < U32 - 1
  {
    if a.NewDir? then AddDir(t, a.parent, a.name) else AddFile(t, a.parent, a.name, a.data)
  }

  function DirCount(adds: seq<Addition>): (n: nat) {
    if adds == [] then 1 else DirCount(adds[..|adds| - 1]) + if adds[|adds| - 1].NewDir? then 1 else 0
  }

  /** Every parent is a directory that exists by then, and the numbers fit 32 bits. */
  predicate Placeable(adds: seq<Addition>) {
    adds == [] || (var front, last := adds[..|adds| - 1], adds[|adds| - 1];
                   Placeable(front) && last.parent < DirCount(front) && |adds| < U32 - 2)
  }

  /** The tree a manifest describes, starting from the root directory alone. */
  function FromManifest(adds: seq<Addition>): (t: Tree)
    requires Placeable(adds)
    ensures |t.dirs| == DirCount(adds) && |t.dirs| + |t.files| == 1 + |adds| && t.nextIno == 2 + |adds|
  {
    if adds == [] then Root() else Add(FromManifest(adds[..|adds| - 1]), adds[|adds| - 1])
  }

  /** However the manifest is written, inode numbers never collide, and every number handed out is used. */
  lemma {:induction false} ManifestNumbered(adds: seq<Addition>)
    requires Placeable(adds)
    ensures var t := FromManifest(adds);
            && Numbered(t) && |t.dirs| + |t.files| == t.nextIno - 1
            && forall ino: u32 :: 1 <= ino < t.nextIno ==> Used(t, ino)
  {
    hide Numbered, AddDir, AddFile;
    if adds == [] {
      assert Ino(Root(), 0) == 1 && Used(Root(), 1);
    } else {
      var front, last := adds[..|adds| - 1], adds[|adds| - 1];
      ManifestNumbered(front);
      var t := FromManifest(front);
      if last.NewDir? {
        AddDirNumbered(t, last.parent, last.name);
      } else {
        AddFileNumbered(t, last.parent, last.name, last.data);
      }
      AddUses(t, last);
    }
  }

  /** An addition keeps every number in use and uses the next one. */
  lemma AddUses(t: Tree, a: Addition)
    requires a.parent < |t.dirs| && t.nextIno < U32 - 1
    requires forall ino: u32 :: 1 <= ino < t.nextIno ==> Used(t, ino)
    ensures forall ino: u32 :: 1 <= ino < Add(t, a).nextIno ==> Used(Add(t, a), ino)
  {
    var t', d, n := Add(t, a), |t.dirs|, |t.dirs| + |t.files|;
    assert Ino(t', if a.NewDir? then d else n) == t.nextIno;
    forall ino: u32 | 1 <= ino < t.nextIno
      ensures Used(t', ino)
    {
      assert Used(t, ino);
      var k :| 0 <= k < n && Ino(t, k) == ino;
      assert Ino(t', if a.NewDir? && k >= d then k + 1 else k) == ino;
    }
  }

  lemma AddDirNumbered(t: Tree, parent: nat, name: seq<byte>)
    requires parent < |t.dirs| && t.nextIno < U32 - 1 && Numbered(t)
    ensures Numbered(AddDir(t, parent, name))
  {
    var t', d, n := AddDir(t, parent, name), |t.dirs|, |t.dirs| + |t.files|;
    forall k | 0 <= k < n + 1
      ensures k != d ==> Ino(t', k) == Ino(t, if k < d then k else k - 1)
      ensures k == d ==> Ino(t', k) == t.nextIno
    {
    }
    forall j, k | 0 <= j < k < n + 1
      ensures Ino(t', j) != Ino(t', k)
    {
      var j', k' := if j < d then j else j - 1, if k < d then k else k - 1;
      assert j != d && k != d ==> Ino(t, j') != Ino(t, k');
    }
  }

  lemma AddFileNumbered(t: Tree, parent: nat, name: seq<byte>, data: seq<byte>)
    requires parent < |t.dirs| && t.nextIno < U32 - 1 && Numbered(t)
    ensures Numbered(AddFile(t, parent, name, data))
  {
    var t', n := AddFile(t, parent, name, data), |t.dirs| + |t.files|;
    forall k | 0 <= k < n + 1
      ensures Ino(t', k) == if k < n then Ino(t, k) else t.nextIno
      ensures 1 <= Ino(t', k) < t'.nextIno
    {
      assert 1 <= Ino(t, 0) < t.nextIno;
    }
    assert |t'.dirs| + |t'.files| == n + 1;
    forall j, k | 0 <= j < k < n + 1
      ensures Ino(t', j) != Ino(t', k)
    {
      assert k < n ==> Ino(t, j) != Ino(t, k);
    }
  }

  // ---- layout ----

  function BlocksOf(f: File): (n: nat) {
    DivCeil(|f.data|, BLOCK)
  }

  /** Device blocks a file takes, with its indirect table. */
  function Span(f: File): (n: nat) {
    BlocksOf(f) + if BlocksOf(f) > DIRECT then 1 else 0
  }

  function SpanSum(files: seq<File>, i: nat): (n: nat)
    requires i <= |files|
  {
    if i == 0 then 0 else SpanSum(files, i - 1) + Span(files[i - 1])
  }

  function TableBlocks(t: Tree): (n: nat) {
    DivCeil(t.nextIno + SPARE_INODES, INODES_PER_BLOCK)
  }

  function DataStart(t: Tree): (n: nat) {
    TABLE_START + TableBlocks(t) + SNAPSHOT_BLOCKS + JOURNAL_BLOCKS
  }

  function Needed(t: Tree): (n: nat) {
    |t.dirs| + SpanSum(t.files, |t.files|)
  }

  function TotalBlocks(t: Tree): (n: nat) {
    DataStart(t) + Needed(t) + RESERVED_BLOCKS
  }

  /** First device block of file `i`. */
  function FileStart(t: Tree, i: nat): (n: nat)
    requires i <= |t.files|
  {
    DataStart(t) + |t.dirs| + SpanSum(t.files, i)
  }

  /** Block numbers are 32-bit. */
  ghost predicate Sized(t: Tree) {
    TotalBlocks(t) < U32
  }

  lemma {:induction false} SpanSumMono(files: seq<File>, i: nat, j: nat)
    requires i <= j <= |files|
    ensures SpanSum(files, i) <= SpanSum(files, j)
    decreases j
  {
    if i < j {
      SpanSumMono(files, i, j - 1);
    }
  }

  /** Files follow one another, and all lie inside the image. */
  lemma FilesInOrder(t: Tree, i: nat, j: nat)
    requires i < j <= |t.files|
    ensures FileStart(t, i) + Span(t.files[i]) <= FileStart(t, j) <= DataStart(t) + Needed(t)
    ensures j == i + 1 ==> FileStart(t, j) == FileStart(t, i) + Span(t.files[i])
    ensures DataStart(t) + |t.dirs| <= FileStart(t, i)
  {
    hide Span, DataStart;
    SpanSumMono(t.files, i + 1, j);
    SpanSumMono(t.files, j, |t.files|);
  }

  lemma CeilFacts(size: nat)
    ensures var n := DivCeil(size, BLOCK);
            size <= n * BLOCK && (n > 0 ==> (n - 1) * BLOCK < size) && (n == 0 <==> size == 0)
  {
    DivCeilCovers(size, BLOCK);
  }

  // ---- pass one: inodes and indirect tables ----

  function InodeOff(ino: u32): (off: nat)
    requires ino >= 1
  {
    TABLE_START * BLOCK + (ino - 1) * INODE_SIZE
  }

  function DirInode(t: Tree, i: nat): (n: Inode)
    requires i < |t.dirs| && DataStart(t) + i < U32
  {
    Inode(DT_DIR, 0, [DataStart(t) + i], 2, 0)
  }

  function DirectBlocks(first: nat, n: nat): (b: seq<u32>)
    requires first + n < U32
    ensures |b| == DIRECT
  {
    seq(DIRECT, k requires 0 <= k < DIRECT => if k < n then first + k else 0)
  }

  function TailBlocks(first: nat, n: nat): (b: seq<u32>)
    requires DIRECT < n && first + n + 1 < U32
    ensures |b| == n - DIRECT
  {
    seq(n - DIRECT, e requires 0 <= e < n - DIRECT => first + DIRECT + 1 + e)
  }

  ghost predicate Placed(t: Tree, i: nat) {
    && i < |t.files|
    && FileStart(t, i) + BlocksOf(t.files[i]) + 1 < U32
    && |t.files[i].data| < 0x1_0000_0000_0000_0000
    && t.files[i].ino >= 1
  }

  function FileInode(f: File, first: nat): (n: Inode)
    requires first + BlocksOf(f) + 1 < U32 && |f.data| < 0x1_0000_0000_0000_0000
    ensures |n.blocks| == DIRECT
  {
    Inode(DT_REG, |f.data|, DirectBlocks(first, BlocksOf(f)), 1,
          if BlocksOf(f) > DIRECT then first + DIRECT else 0)
  }

  ghost function IndirectWrite(f: File, first: nat): (w: Write)
    requires first + BlocksOf(f) + 1 < U32
  {
    if BlocksOf(f) > DIRECT then Write((first + DIRECT) * BLOCK, WordBytes(TailBlocks(first, BlocksOf(f))))
    else Write(0, [])
  }

  ghost function DirTableList(t: Tree, now: u64): (ls: seq<seq<Write>>)
    requires Sized(t) && Numbered(t)
    ensures |ls| == |t.dirs|
  {
    seq(|t.dirs|, i requires 0 <= i < |t.dirs| =>
      assert Ino(t, i) >= 1;
      [Write(InodeOff(t.dirs[i].ino), InodeBytes(DirInode(t, i), now))])
  }

  ghost function FileTableWrites(f: File, first: nat, now: u64): (ws: seq<Write>)
    requires first + BlocksOf(f) + 1 < U32 && |f.data| < 0x1_0000_0000_0000_0000 && f.ino >= 1
    ensures |ws| == 2
  {
    [IndirectWrite(f, first), Write(InodeOff(f.ino), InodeBytes(FileInode(f, first), now))]
  }

  ghost function FileTableList(t: Tree, now: u64): (ls: seq<seq<Write>>)
    requires Sized(t) && Numbered(t)
    ensures |ls| == |t.files|
  {
    seq(|t.files|, i requires 0 <= i < |t.files| =>
      PlacedFile(t, i);
      FileTableWrites(t.files[i], FileStart(t, i), now))
  }

  lemma PlacedFile(t: Tree, i: nat)
    requires Sized(t) && Numbered(t) && i < |t.files|
    ensures Placed(t, i)
    ensures FileStart(t, i) + BlocksOf(t.files[i]) < TotalBlocks(t) - 1
  {
    hide SpanSum, DataStart, Needed;
    FilesInOrder(t, i, i + 1);
    CeilFacts(|t.files[i].data|);
    assert Ino(t, |t.dirs| + i) >= 1;
  }

  // ---- pass two: directory and file blocks ----

  function Kind(isDir: bool): (b: byte) {
    if isDir then 1 else 2
  }

  /** The stored part of a name. */
  function NameBytes(e: Entry): (b: seq<byte>)
    ensures |b| <= NAME_MAX
  {
    e.name[..Min(|e.name|, NAME_MAX)]
  }

  /** Inode number, kind and name length. */
  function MetaBytes(e: Entry): (b: seq<byte>)
    ensures |b| == 6
  {
    ToLe32(e.ino) + [Kind(e.isDir), |NameBytes(e)|]
  }

  /** The two stores of one directory record. */
  ghost function DirentWrites(off: nat, e: Entry): (ws: seq<Write>)
    ensures |ws| == 2
  {
    [Write(off, NameBytes(e)), Write(off + NAME_MAX, MetaBytes(e))]
  }

  /** The records of a directory that fit its single block. */
  function Records(d: Dir): (es: seq<Entry>)
    ensures |es| == Min(|d.entries| + 2, DIRENTS_PER_BLOCK)
  {
    ([Entry([46], d.ino, true), Entry([46, 46], d.parent, true)]
     + d.entries)[..Min(|d.entries| + 2, DIRENTS_PER_BLOCK)]
  }

  ghost function RecordLists(off: nat, es: seq<Entry>): (ls: seq<seq<Write>>)
    ensures |ls| == |es|
  {
    seq(|es|, r requires 0 <= r < |es| => DirentWrites(off + r * DIRENT_SIZE, es[r]))
  }

  /** The image after the blocks of the first `i` directories. */
  ghost function AfterDirs(img: seq<byte>, t: Tree, i: nat): (r: seq<byte>)
    requires i <= |t.dirs|
    ensures |r| == |img|
  {
    if i == 0 then img
    else ApplyLists(AfterDirs(img, t, i - 1), RecordLists((DataStart(t) + i - 1) * BLOCK, Records(t.dirs[i - 1])))
  }

  /** Direct blocks are adjacent, and so are the blocks behind the indirect table. */
  ghost function FileDataWrites(f: File, first: nat): (ws: seq<Write>)
    ensures |ws| == 2
  {
    [Write(first * BLOCK, f.data[..Min(|f.data|, DIRECT * BLOCK)]),
     if BlocksOf(f) > DIRECT then
       CeilFacts(|f.data|);
       Write((first + DIRECT + 1) * BLOCK, f.data[DIRECT * BLOCK..])
     else Write(0, [])]
  }

  ghost function FileDataList(t: Tree): (ls: seq<seq<Write>>)
    ensures |ls| == |t.files|
  {
    seq(|t.files|, i requires 0 <= i < |t.files| => FileDataWrites(t.files[i], FileStart(t, i)))
  }

  /** The finished image. */
  ghost function AfterTable(img: seq<byte>, t: Tree, now: u64): (r: seq<byte>)
    requires Sized(t) && Numbered(t)
    ensures |r| == |img|
  {
    ApplyLists(ApplyLists(img, DirTableList(t, now)), FileTableList(t, now))
  }

  ghost function AfterBlocks(img: seq<byte>, t: Tree): (r: seq<byte>)
    ensures |r| == |img|
  {
    ApplyLists(AfterDirs(img, t, |t.dirs|), FileDataList(t))
  }

  ghost function Image(base: seq<byte>, t: Tree, now: u64): (r: seq<byte>)
    requires Sized(t) && Numbered(t)
    ensures |r| == |base|
  {
    AfterBlocks(AfterTable(base, t, now), t)
  }

  // ---- regions ----

  /** An inode record lies in the table, before the data blocks. */
  lemma InodeInTable(t: Tree, ino: u32)
    requires 1 <= ino < t.nextIno
    ensures TABLE_START * BLOCK <= InodeOff(ino)
    ensures InodeOff(ino) + INODE_SIZE <= (TABLE_START + TableBlocks(t)) * BLOCK <= DataStart(t) * BLOCK
  {
    DivCeilCovers(t.nextIno + SPARE_INODES, INODES_PER_BLOCK);
  }

  lemma InodesApart(a: u32, b: u32, w: Write)
    requires a >= 1 && b >= 1 && a != b && w.off == InodeOff(b) && |w.data| == INODE_SIZE
    ensures Misses(w, InodeOff(a), InodeOff(a) + INODE_SIZE)
  {
  }

  lemma TailLength(f: File, first: nat)
    requires first + BlocksOf(f) + 1 < U32 && BlocksOf(f) > DIRECT
    ensures |IndirectWrite(f, first).data| == 4 * (BlocksOf(f) - DIRECT)
  {
    WordBytesLength(TailBlocks(first, BlocksOf(f)));
  }

  /** The indirect table stays among the file's own blocks, even past its own block. */
  lemma IndirectWithin(f: File, first: nat)
    requires first + BlocksOf(f) + 1 < U32
    ensures Within([IndirectWrite(f, first)], (first + DIRECT) * BLOCK, (first + Span(f)) * BLOCK)
  {
    if BlocksOf(f) > DIRECT {
      TailLength(f, first);
    }
  }

  lemma FileDataWithin(f: File, first: nat)
    ensures Within(FileDataWrites(f, first), first * BLOCK, (first + Span(f)) * BLOCK)
  {
    CeilFacts(|f.data|);
  }

  lemma DirentsWithin(off: nat, es: seq<Entry>)
    requires |es| <= DIRENTS_PER_BLOCK
    ensures forall r :: 0 <= r < |es| ==> Within(RecordLists(off, es)[r], off, off + BLOCK)
  {
    hide NameBytes, MetaBytes;
  }

  // ---- pass two leaves everything before the data blocks alone ----

  lemma {:induction false} DirsMiss(img: seq<byte>, t: Tree, i: nat, lo: nat, hi: nat)
    requires i <= |t.dirs| && lo <= hi <= |img|
    requires hi <= DataStart(t) * BLOCK || (DataStart(t) + |t.dirs|) * BLOCK <= lo
    ensures AfterDirs(img, t, i)[lo..hi] == img[lo..hi]
    decreases i
  {
    hide Records, RecordLists, DataStart;
    if i > 0 {
      var off := (DataStart(t) + i - 1) * BLOCK;
      var es := Records(t.dirs[i - 1]);
      DirsMiss(img, t, i - 1, lo, hi);
      DirentsWithin(off, es);
      forall r | 0 <= r < |es|
        ensures AllMiss(RecordLists(off, es)[r], lo, hi)
      {
        WithinMisses(RecordLists(off, es)[r], off, off + BLOCK, lo, hi);
      }
      ListsUntouched(AfterDirs(img, t, i - 1), RecordLists(off, es), lo, hi);
    }
  }

  /** File data of file `j` misses a range outside file `j`'s blocks. */
  lemma FileDataMisses(t: Tree, j: nat, lo: nat, hi: nat)
    requires j < |t.files|
    requires hi <= FileStart(t, j) * BLOCK || FileStart(t, j + 1) * BLOCK <= lo
    ensures AllMiss(FileDataList(t)[j], lo, hi)
  {
    hide DataStart, SpanSum, FileDataWrites;
    FilesInOrder(t, j, j + 1);
    FileDataWithin(t.files[j], FileStart(t, j));
    WithinMisses(FileDataList(t)[j], FileStart(t, j) * BLOCK, FileStart(t, j + 1) * BLOCK, lo, hi);
  }

  lemma {:induction false} BlocksMissTable(img: seq<byte>, t: Tree, lo: nat, hi: nat)
    requires lo <= hi <= |img| && hi <= DataStart(t) * BLOCK
    ensures AfterBlocks(img, t)[lo..hi] == img[lo..hi]
  {
    hide FileStart, DataStart, FileDataList, AfterDirs, AllMiss;
    DirsMiss(img, t, |t.dirs|, lo, hi);
    forall j | 0 <= j < |t.files|
      ensures AllMiss(FileDataList(t)[j], lo, hi)
    {
      FilesInOrder(t, j, j + 1);
      FileDataMisses(t, j, lo, hi);
    }
    ListsUntouched(AfterDirs(img, t, |t.dirs|), FileDataList(t), lo, hi);
  }

  // ---- what the finished image holds ----

  /** An image large enough for the tree. */
  ghost predicate Room(img: seq<byte>, t: Tree) {
    TotalBlocks(t) * BLOCK <= |img|
  }

  /** Writes for file `j` in the table pass miss a range clear of its inode and its blocks. */
  lemma FileTableMisses(t: Tree, now: u64, j: nat, lo: nat, hi: nat)
    requires Sized(t) && Numbered(t) && j < |t.files|
    requires hi <= FileStart(t, j) * BLOCK || FileStart(t, j + 1) * BLOCK <= lo
    requires Ino(t, |t.dirs| + j) >= 1 && Misses(Write(InodeOff(t.files[j].ino), Fill(INODE_SIZE, 0)), lo, hi)
    ensures AllMiss(FileTableList(t, now)[j], lo, hi)
  {
    hide DataStart, SpanSum, IndirectWrite, InodeBytes, Span;
    PlacedFile(t, j);
    FilesInOrder(t, j, j + 1);
    var f, first := t.files[j], FileStart(t, j);
    IndirectWithin(f, first);
    WithinMisses([IndirectWrite(f, first)], (first + DIRECT) * BLOCK, (first + Span(f)) * BLOCK, lo, hi);
    assert Misses([IndirectWrite(f, first)][0], lo, hi);
  }

  lemma InodeMissesData(t: Tree, ino: u32, lo: nat, hi: nat)
    requires 1 <= ino < t.nextIno && DataStart(t) * BLOCK <= lo
    ensures Misses(Write(InodeOff(ino), Fill(INODE_SIZE, 0)), lo, hi)
  {
    InodeInTable(t, ino);
  }

  /** The table pass leaves file `i`'s inode record in its slot. */
  lemma {:induction false} InodeWritten(base: seq<byte>, t: Tree, now: u64, i: nat)
    requires Sized(t) && Numbered(t) && Room(base, t) && i < |t.files| && Placed(t, i)
    ensures var off := InodeOff(t.files[i].ino);
            && off + INODE_SIZE <= |base|
            && AfterTable(base, t, now)[off..off + INODE_SIZE]
               == InodeBytes(FileInode(t.files[i], FileStart(t, i)), now)
  {
    hide ApplyLists, ApplyAll, InodeBytes, DataStart, FileStart, AllMiss, InodeOff, DirTableList;
    var ino := t.files[i].ino;
    assert ino == Ino(t, |t.dirs| + i);
    InodeInTable(t, ino);
    var lo, hi := InodeOff(ino), InodeOff(ino) + INODE_SIZE;
    var img, ls := ApplyLists(base, DirTableList(t, now)), FileTableList(t, now);
    forall j | i < j < |ls|
      ensures AllMiss(ls[j], lo, hi)
    {
      assert Ino(t, |t.dirs| + j) != Ino(t, |t.dirs| + i);
      InodesApart(ino, t.files[j].ino, Write(InodeOff(t.files[j].ino), Fill(INODE_SIZE, 0)));
      FilesInOrder(t, j, j + 1);
      FileTableMisses(t, now, j, lo, hi);
    }
    ListsLast(img, ls, i, lo, hi);
    ApplyHit(ApplyLists(img, ls[..i]), ls[i], 1, lo, hi);
  }

  /** The kernel decodes exactly the inode the tool meant. */
  lemma {:induction false} InodeStored(base: seq<byte>, t: Tree, now: u64, i: nat)
    requires Sized(t) && Numbered(t) && Room(base, t) && i < |t.files| && Placed(t, i)
    ensures ReadInode(Image(base, t, now), Super(TABLE_START, t.nextIno + SPARE_INODES), t.files[i].ino)
         == Ok(FileInode(t.files[i], FileStart(t, i)))
  {
    hide AfterTable, AfterBlocks, InodeBytes, DataStart, FileStart, FileInode, DecodeInode, ReadInode, InodeOff;
    var n := FileInode(t.files[i], FileStart(t, i));
    var ino := t.files[i].ino;
    assert ino == Ino(t, |t.dirs| + i);
    InodeWritten(base, t, now, i);
    InodeInTable(t, ino);
    BlocksMissTable(AfterTable(base, t, now), t, InodeOff(ino), InodeOff(ino) + INODE_SIZE);
    InodeRoundTrip(n, now);
    SlotRead(Image(base, t, now), t, ino);
  }

  /** Block and slot arithmetic agree with the record's byte offset. */
  lemma SlotRead(img: seq<byte>, t: Tree, ino: u32)
    requires Room(img, t) && 1 <= ino < t.nextIno
    ensures var off := InodeOff(ino);
            && off + INODE_SIZE <= |img|
            && ReadInode(img, Super(TABLE_START, t.nextIno + SPARE_INODES), ino)
               == Ok(DecodeInode(img[off..off + INODE_SIZE]).value)
  {
    hide DecodeInode, Needed;
    InodeInTable(t, ino);
    var idx := ino - 1;
    var blk, slot := TABLE_START + idx / INODES_PER_BLOCK, idx % INODES_PER_BLOCK * INODE_SIZE;
    DivCeilCovers(t.nextIno + SPARE_INODES, INODES_PER_BLOCK);
    assert idx / INODES_PER_BLOCK < TableBlocks(t);
    assert blk * BLOCK + slot == InodeOff(ino);
    BlockSlice(img, blk, slot, slot + INODE_SIZE);
  }

  /** Length of the part of the indirect table a reader can use. */
  function TableLen(f: File): (n: nat) {
    if BlocksOf(f) > DIRECT then 4 * Min(BlocksOf(f) - DIRECT, INDIRECT) else 0
  }

  lemma OwnDataMissesTable(f: File, first: nat)
    requires BlocksOf(f) > DIRECT
    ensures AllMiss(FileDataWrites(f, first), (first + DIRECT) * BLOCK, (first + DIRECT) * BLOCK + TableLen(f))
  {
  }

  /** The usable part of the indirect table survives both passes. */
  lemma {:induction false} IndirectStored(base: seq<byte>, t: Tree, now: u64, i: nat)
    requires Sized(t) && Numbered(t) && Room(base, t) && i < |t.files| && Placed(t, i)
    requires BlocksOf(t.files[i]) > DIRECT
    ensures var f := t.files[i];
            var lo := (FileStart(t, i) + DIRECT) * BLOCK;
            && lo + BLOCK <= |base| && TableLen(f) <= |IndirectWrite(f, FileStart(t, i)).data|
            && Image(base, t, now)[lo..lo + TableLen(f)]
               == IndirectWrite(f, FileStart(t, i)).data[..TableLen(f)]
  {
    hide AfterTable, AfterDirs, FileDataList, DataStart, FileStart, AllMiss, ApplyLists, IndirectWrite, Needed;
    var f, first := t.files[i], FileStart(t, i);
    var lo := (first + DIRECT) * BLOCK;
    var hi := lo + TableLen(f);
    FilesInOrder(t, i, i + 1);
    TailLength(f, first);
    IndirectWritten(base, t, now, i);
    var img := AfterTable(base, t, now);
    SliceOfSlice(img, lo, lo + |IndirectWrite(f, first).data|, 0, TableLen(f));
    DirsMiss(img, t, |t.dirs|, lo, hi);
    forall j | 0 <= j < |t.files|
      ensures AllMiss(FileDataList(t)[j], lo, hi)
    {
      OtherOrOwn(t, i, j, lo, hi);
    }
    ListsUntouched(AfterDirs(img, t, |t.dirs|), FileDataList(t), lo, hi);
  }

  lemma OtherOrOwn(t: Tree, i: nat, j: nat, lo: nat, hi: nat)
    requires i < |t.files| && j < |t.files| && BlocksOf(t.files[i]) > DIRECT
    requires lo == (FileStart(t, i) + DIRECT) * BLOCK && hi == lo + TableLen(t.files[i])
    ensures AllMiss(FileDataList(t)[j], lo, hi)
  {
    hide DataStart, FileStart, AllMiss, FileDataWrites, SpanSum;
    FilesInOrder(t, i, i + 1);
    if j < i {
      FilesInOrder(t, j, i);
      FilesInOrder(t, j, j + 1);
      Chain(t, j, i);
      FileDataMisses(t, j, lo, hi);
    } else if j == i {
      OwnDataMissesTable(t.files[i], FileStart(t, i));
    } else {
      FilesInOrder(t, i, j);
      FileDataMisses(t, j, lo, hi);
    }
  }

  lemma Chain(t: Tree, j: nat, i: nat)
    requires j < i <= |t.files|
    ensures FileStart(t, j + 1) <= FileStart(t, i)
  {
    hide DataStart;
    SpanSumMono(t.files, j + 1, i);
  }

  lemma {:induction false} IndirectWritten(base: seq<byte>, t: Tree, now: u64, i: nat)
    requires Sized(t) && Numbered(t) && Room(base, t) && i < |t.files| && Placed(t, i)
    requires BlocksOf(t.files[i]) > DIRECT
    ensures var w := IndirectWrite(t.files[i], FileStart(t, i));
            && w.off + |w.data| <= |base| && w.off == (FileStart(t, i) + DIRECT) * BLOCK
            && AfterTable(base, t, now)[w.off..w.off + |w.data|] == w.data
  {
    hide ApplyLists, ApplyAll, InodeBytes, DataStart, FileStart, AllMiss, InodeOff, DirTableList, Needed;
    var f, first := t.files[i], FileStart(t, i);
    var w := IndirectWrite(f, first);
    TailLength(f, first);
    FilesInOrder(t, i, i + 1);
    var lo, hi := w.off, w.off + |w.data|;
    var img, ls := ApplyLists(base, DirTableList(t, now)), FileTableList(t, now);
    forall j | i < j < |ls|
      ensures AllMiss(ls[j], lo, hi)
    {
      assert 1 <= Ino(t, |t.dirs| + j) < t.nextIno;
      InodeMissesData(t, t.files[j].ino, lo, hi);
      FilesInOrder(t, i, j);
      FileTableMisses(t, now, j, lo, hi);
    }
    ListsLast(img, ls, i, lo, hi);
    assert 1 <= Ino(t, |t.dirs| + i) < t.nextIno;
    InodeMissesData(t, f.ino, lo, hi);
    ApplyHit(ApplyLists(img, ls[..i]), ls[i], 0, lo, hi);
    assert w.data[0..|w.data|] == w.data;
  }

  /** Device block of file block `k`. */
  function PlaceOf(first: nat, k: nat): (b: nat) {
    if k < DIRECT then first + k else first + k + 1
  }

  /** The bytes of file block `k` sit at the start of its device block. */
  lemma {:induction false} ChunkStored(base: seq<byte>, t: Tree, now: u64, i: nat, k: nat)
    requires Sized(t) && Numbered(t) && Room(base, t) && i < |t.files|
    requires k * BLOCK < |t.files[i].data|
    ensures var data := t.files[i].data;
            var lo := PlaceOf(FileStart(t, i), k) * BLOCK;
            && lo + BLOCK <= |base|
            && Image(base, t, now)[lo..lo + ChunkLen(|data|, k)]
               == data[k * BLOCK..k * BLOCK + ChunkLen(|data|, k)]
  {
    hide AfterTable, AfterDirs, ApplyAll, ApplyLists, DataStart, FileStart, AllMiss, Needed;
    var f, first := t.files[i], FileStart(t, i);
    var lo := PlaceOf(first, k) * BLOCK;
    var hi := lo + ChunkLen(|f.data|, k);
    FilesInOrder(t, i, i + 1);
    PlaceInSpan(f, first, k);
    var img, ls := AfterDirs(AfterTable(base, t, now), t, |t.dirs|), FileDataList(t);
    forall j | i < j < |ls|
      ensures AllMiss(ls[j], lo, hi)
    {
      FilesInOrder(t, i, j);
      FileDataMisses(t, j, lo, hi);
    }
    ListsLast(img, ls, i, lo, hi);
    if k < DIRECT {
      OwnHead(ApplyLists(img, ls[..i]), f, first, k);
    } else {
      OwnTail(ApplyLists(img, ls[..i]), f, first, k);
    }
  }

  lemma PlaceInSpan(f: File, first: nat, k: nat)
    requires k * BLOCK < |f.data|
    ensures first <= PlaceOf(first, k) && PlaceOf(first, k) + 1 <= first + Span(f)
  {
    CeilFacts(|f.data|);
  }

  lemma OwnHead(img: seq<byte>, f: File, first: nat, k: nat)
    requires k * BLOCK < |f.data| && (first + Span(f)) * BLOCK <= |img| && k < DIRECT
    ensures var lo := PlaceOf(first, k) * BLOCK;
            && lo + ChunkLen(|f.data|, k) <= |img|
            && ApplyAll(img, FileDataWrites(f, first))[lo..lo + ChunkLen(|f.data|, k)]
               == f.data[k * BLOCK..k * BLOCK + ChunkLen(|f.data|, k)]
  {
    hide ApplyAll, FileDataWrites, ChunkLen, Span, PlaceOf, Misses;
    var ws := FileDataWrites(f, first);
    var lo, c := PlaceOf(first, k) * BLOCK, ChunkLen(|f.data|, k);
    HeadFacts(f, first, k, lo, c);
    var w := ws[0];
    assert Fits(w, |img|) && |ws| == 2;
    ApplyHitPart(img, ws, 0, f.data, 0, lo, k * BLOCK, c);
  }

  lemma OwnTail(img: seq<byte>, f: File, first: nat, k: nat)
    requires k * BLOCK < |f.data| && (first + Span(f)) * BLOCK <= |img| && k >= DIRECT
    ensures var lo := PlaceOf(first, k) * BLOCK;
            && lo + ChunkLen(|f.data|, k) <= |img|
            && ApplyAll(img, FileDataWrites(f, first))[lo..lo + ChunkLen(|f.data|, k)]
               == f.data[k * BLOCK..k * BLOCK + ChunkLen(|f.data|, k)]
  {
    hide ApplyAll, FileDataWrites, ChunkLen, Span, PlaceOf, Misses;
    var lo, c := PlaceOf(first, k) * BLOCK, ChunkLen(|f.data|, k);
    TailFacts(f, first, k, lo, c);
    TailHeld(img, FileDataWrites(f, first), f.data, lo, k * BLOCK, c);
  }

  /** The second of two writes holds a part of `whole` from the direct window on. */
  lemma TailHeld(img: seq<byte>, ws: seq<Write>, whole: seq<byte>, lo: nat, at: nat, c: nat)
    requires |ws| == 2 && Fits(ws[1], |img|) && DIRECT * BLOCK + |ws[1].data| <= |whole| && at >= DIRECT * BLOCK
    requires ws[1].data == whole[DIRECT * BLOCK..DIRECT * BLOCK + |ws[1].data|]
    requires lo == ws[1].off + (at - DIRECT * BLOCK) && at - DIRECT * BLOCK + c <= |ws[1].data|
    ensures lo + c <= |img| && ApplyAll(img, ws)[lo..lo + c] == whole[at..at + c]
  {
    hide ApplyAll;
    ApplyHitPart(img, ws, 1, whole, DIRECT * BLOCK, lo, at - DIRECT * BLOCK, c);
  }

  lemma HeadFacts(f: File, first: nat, k: nat, lo: nat, c: nat)
    requires k * BLOCK < |f.data| && k < DIRECT
    requires lo == PlaceOf(first, k) * BLOCK && c == ChunkLen(|f.data|, k)
    ensures var w := FileDataWrites(f, first)[0];
            && |w.data| <= |f.data| && w.data == f.data[0..|w.data|]
            && w.off + |w.data| <= (first + Span(f)) * BLOCK
            && lo == w.off + k * BLOCK && k * BLOCK + c <= |w.data|
            && Misses(FileDataWrites(f, first)[1], lo, lo + c)
  {
    CeilFacts(|f.data|);
  }

  lemma TailFacts(f: File, first: nat, k: nat, lo: nat, c: nat)
    requires k * BLOCK < |f.data| && k >= DIRECT
    requires lo == PlaceOf(first, k) * BLOCK && c == ChunkLen(|f.data|, k)
    ensures var w := FileDataWrites(f, first)[1];
            && DIRECT * BLOCK + |w.data| <= |f.data|
            && w.data == f.data[DIRECT * BLOCK..DIRECT * BLOCK + |w.data|]
            && w.off + |w.data| <= (first + Span(f)) * BLOCK
            && lo == w.off + (k - DIRECT) * BLOCK && (k - DIRECT) * BLOCK + c <= |w.data|
  {
    CeilFacts(|f.data|);
  }

  // ---- the kernel reads back what the tool stored ----

  /** Following the direct window or the indirect table leads to the block the tool used. */
  lemma {:induction false} Located(base: seq<byte>, t: Tree, now: u64, i: nat, k: nat)
    requires Sized(t) && Numbered(t) && Room(base, t) && i < |t.files| && Placed(t, i)
    requires k * BLOCK < |t.files[i].data| && k < DIRECT + INDIRECT
    ensures Locate(Image(base, t, now), FileInode(t.files[i], FileStart(t, i)), k)
         == At(PlaceOf(FileStart(t, i), k))
  {
    hide Image, FileStart, ReadBlock, WordBytes, IndirectWrite;
    var f, first := t.files[i], FileStart(t, i);
    FilesInOrder(t, i, i + 1);
    CeilFacts(|f.data|);
    if k >= DIRECT {
      IndirectStored(base, t, now, i);
      TableEntry(Image(base, t, now), f, first, k);
    }
  }

  lemma TableEntry(img: seq<byte>, f: File, first: nat, k: nat)
    requires first + BlocksOf(f) + 1 < U32 && DIRECT <= k < BlocksOf(f) && k < DIRECT + INDIRECT
    requires var lo := (first + DIRECT) * BLOCK;
             && lo + BLOCK <= |img| && TableLen(f) <= |IndirectWrite(f, first).data|
             && img[lo..lo + TableLen(f)] == IndirectWrite(f, first).data[..TableLen(f)]
    ensures ReadBlock(img, first + DIRECT).Some?
    ensures var e := 4 * (k - DIRECT);
            Le32(ReadBlock(img, first + DIRECT).value[e..e + 4]) == first + k + 1
  {
    hide WordBytes, ReadBlock, Le32, ToLe32;
    var lo, e := (first + DIRECT) * BLOCK, 4 * (k - DIRECT);
    BlockSlice(img, first + DIRECT, e, e + 4);
    SliceOfSlice(img, lo, lo + TableLen(f), e, e + 4);
    SliceOfSlice(IndirectWrite(f, first).data, 0, TableLen(f), e, e + 4);
    WordBytesAt(TailBlocks(first, BlocksOf(f)), k - DIRECT);
  }

  /** The finished image holds every file under its own inode. */
  lemma {:induction false} FileHeld(base: seq<byte>, t: Tree, now: u64, i: nat)
    requires Sized(t) && Numbered(t) && Room(base, t) && i < |t.files| && Placed(t, i)
    ensures Holds(Image(base, t, now), FileInode(t.files[i], FileStart(t, i)), t.files[i].data)
  {
    hide Image, FileStart, Locate, ChunkLen;
    var f, n := t.files[i], FileInode(t.files[i], FileStart(t, i));
    forall k | 0 <= k && k * BLOCK < |f.data| && k < DIRECT + INDIRECT
      ensures HoldsBlock(Image(base, t, now), n, f.data, k)
    {
      Located(base, t, now, i, k);
      ChunkStored(base, t, now, i, k);
    }
  }

  /** What the kernel's read returns from an image of this tree. */
  ghost function KernelRead(img: seq<byte>, t: Tree, ino: u32, off: u32, len: u32): (r: Result<seq<byte>>) {
    ReadFile(img, Super(TABLE_START, t.nextIno + SPARE_INODES), ino, off, len)
  }

  /**
   Build, then read: whatever the starting contents of the image, the kernel's read of file
   `i` at any offset and length returns the bytes the tool was given, up to the reach of
   the indirect table.
   */
  lemma {:induction false} BuiltFileReads(base: seq<byte>, t: Tree, now: u64, i: nat, off: u32, len: u32)
    requires Sized(t) && Numbered(t) && Room(base, t) && i < |t.files|
    ensures var data := t.files[i].data;
            var end := End(|data|, off, len);
            KernelRead(Image(base, t, now), t, t.files[i].ino, off, len)
            == Ok(if off <= end then data[off..end] else [])
  {
    hide Image, FileStart, Locate, Holds, ReadFrom, ReadInode;
    PlacedFile(t, i);
    var data, n := t.files[i].data, FileInode(t.files[i], FileStart(t, i));
    InodeStored(base, t, now, i);
    FileHeld(base, t, now, i);
    var wanted := Wanted(n, off, len);
    if off <= |data| {
      HeldFileReads(Image(base, t, now), n, data, off, wanted);
    } else {
      ReadNothing(Image(base, t, now), n, off);
    }
  }

  /** A file comes back whole exactly when its blocks fit the direct window and one indirect table. */
  lemma {:induction false} WholeFileIff(base: seq<byte>, t: Tree, now: u64, i: nat)
    requires Sized(t) && Numbered(t) && Room(base, t) && i < |t.files|
    ensures KernelRead(Image(base, t, now), t, t.files[i].ino, 0, U32_MAX) == Ok(t.files[i].data)
        <==> BlocksOf(t.files[i]) <= DIRECT + INDIRECT
  {
    hide Image, KernelRead;
    BuiltFileReads(base, t, now, i, 0, U32_MAX);
    var data := t.files[i].data;
    CeilFacts(|data|);
    assert |data| <= REACH <==> BlocksOf(t.files[i]) <= DIRECT + INDIRECT;
    assert data[0..|data|] == data;
  }

  // ---- the passes themselves ----

  lemma ApplyOne(img: seq<byte>, w: Write)
    ensures ApplyAll(img, [w]) == Poke(img, w)
  {
    hide Poke;
    ApplyNothing(img, [w]);
    ApplySnoc(img, [w], 0);
    assert [w][..1] == [w];
  }

  lemma TailAt(first: nat, n: nat, e: nat)
    requires DIRECT < n && first + n + 1 < U32 && e < n - DIRECT
    ensures TailBlocks(first, n)[e] == first + DIRECT + 1 + e
  {
  }

  /** Consecutive block numbers as an indirect table. */
  method WriteIndirect(img: array<byte>, off: nat, f: File, first: nat)
    requires first + BlocksOf(f) + 1 < U32 && BlocksOf(f) > DIRECT
    requires off == (first + DIRECT) * BLOCK && off + 4 * (BlocksOf(f) - DIRECT) <= img.Length
    modifies img
    ensures img[..] == Poke(old(img[..]), IndirectWrite(f, first))
  {
    hide Patch, WordBytes, BlocksOf, TailBlocks, ToLe32;
    var n := BlocksOf(f);
    ghost var xs := TailBlocks(first, n);
    ghost var before := img[..];
    WordBytesLength(xs);
    WordBytesLength(xs[..0]);
    assert Patch(before, off, WordBytes(xs[..0])) == before;
    for e := 0 to n - DIRECT
      invariant img.Length == |before| && |WordBytes(xs[..e])| == 4 * e
      invariant img[..] == Patch(before, off, WordBytes(xs[..e]))
    {
      WordBytesSnoc(xs, e);
      TailAt(first, n, e);
      PatchAppend(before, off, WordBytes(xs[..e]), ToLe32(xs[e]));
      CopyInto(img, off + 4 * e, ToLe32(first + DIRECT + 1 + e));
    }
    assert xs[..n - DIRECT] == xs;
  }

  /** The table pass for one file, from the running block number to the next. */
  method WriteFileInode(img: array<byte>, f: File, first: nat, now: u64) returns (next: nat)
    requires first + BlocksOf(f) + 1 < U32 && |f.data| < 0x1_0000_0000_0000_0000 && f.ino >= 1
    requires InodeOff(f.ino) + INODE_SIZE <= img.Length && (first + Span(f)) * BLOCK <= img.Length
    modifies img
    ensures img[..] == ApplyAll(old(img[..]), FileTableWrites(f, first, now))
    ensures next == first + Span(f)
  {
    hide BlocksOf, Poke, WordBytes, InodeBytes, ApplyAll, InodeOff;
    var n := BlocksOf(f);
    var blocks: seq<u32> := seq(DIRECT, _ => 0);
    next := first;
    for i := 0 to Min(n, DIRECT)
      invariant next == first + i && |blocks| == DIRECT
      invariant forall k :: 0 <= k < DIRECT ==> blocks[k] == if k < i then first + k else 0
    {
      blocks := blocks[i := next];
      next := next + 1;
    }
    assert blocks == DirectBlocks(first, n);
    var indirect: u32 := 0;
    ghost var before := img[..];
    PokeEmpty(before);
    if n > DIRECT {
      indirect := next;
      next := next + 1;
      WriteIndirect(img, indirect * BLOCK, f, first);
      next := next + (n - DIRECT);
    }
    assert img[..] == Poke(before, IndirectWrite(f, first));
    WriteInode(img, InodeOff(f.ino), Inode(DT_REG, |f.data|, blocks, 1, indirect), now);
    ApplyPair(before, IndirectWrite(f, first), Write(InodeOff(f.ino), InodeBytes(FileInode(f, first), now)));
  }

  lemma PokeEmpty(img: seq<byte>)
    ensures Poke(img, Write(0, [])) == img
  {
  }

  lemma DirTableAt(t: Tree, i: nat, now: u64)
    requires Sized(t) && Numbered(t) && i < |t.dirs| && t.dirs[i].ino >= 1
    ensures DirTableList(t, now)[i] == [Write(InodeOff(t.dirs[i].ino), InodeBytes(DirInode(t, i), now))]
  {
  }

  method WriteDirInodes(img: array<byte>, t: Tree, now: u64) returns (blk: nat)
    requires Sized(t) && Numbered(t) && Room(img[..], t)
    modifies img
    ensures img[..] == ApplyLists(old(img[..]), DirTableList(t, now))
    ensures blk == DataStart(t) + |t.dirs|
  {
    hide ApplyLists, ApplyAll, InodeBytes, DataStart, InodeOff, SpanSum, DirTableList, Poke;
    blk := DataStart(t);
    ghost var base := img[..];
    ghost var ds := DirTableList(t, now);
    ListsNothing(base, ds);
    for i := 0 to |t.dirs|
      invariant blk == DataStart(t) + i && img.Length == |base|
      invariant img[..] == ApplyLists(base, ds[..i])
    {
      assert 1 <= Ino(t, i) < t.nextIno;
      InodeInTable(t, t.dirs[i].ino);
      ListsSnoc(base, ds, i);
      DirTableAt(t, i, now);
      ApplyOne(img[..], ds[i][0]);
      WriteInode(img, InodeOff(t.dirs[i].ino), Inode(DT_DIR, 0, [blk], 2, 0), now);
      blk := blk + 1;
    }
    assert ds[..|t.dirs|] == ds;
  }

  method WriteFileInodes(img: array<byte>, t: Tree, start: nat, now: u64)
    requires Sized(t) && Numbered(t) && Room(img[..], t) && start == DataStart(t) + |t.dirs|
    modifies img
    ensures img[..] == ApplyLists(old(img[..]), FileTableList(t, now))
  {
    hide ApplyLists, ApplyAll, InodeBytes, DataStart, FileTableWrites, InodeOff, Span, SpanSum, FileTableList, Needed;
    var blk := start;
    ghost var base := img[..];
    ghost var fs := FileTableList(t, now);
    ListsNothing(base, fs);
    StartsAtFirst(t);
    for i := 0 to |t.files|
      invariant blk == FileStart(t, i) && img.Length == |base|
      invariant img[..] == ApplyLists(base, fs[..i])
    {
      FileTurn(t, i, now);
      ListsSnoc(base, fs, i);
      blk := WriteFileInode(img, t.files[i], blk, now);
    }
    assert fs[..|t.files|] == fs;
  }

  lemma FileTurn(t: Tree, i: nat, now: u64)
    requires Sized(t) && Numbered(t) && i < |t.files|
    ensures Placed(t, i) && FileTableList(t, now)[i] == FileTableWrites(t.files[i], FileStart(t, i), now)
    ensures InodeOff(t.files[i].ino) + INODE_SIZE <= TotalBlocks(t) * BLOCK
    ensures (FileStart(t, i) + Span(t.files[i])) * BLOCK <= TotalBlocks(t) * BLOCK
    ensures FileStart(t, i + 1) == FileStart(t, i) + Span(t.files[i])
  {
    hide DataStart, FileTableWrites, InodeOff, Span, SpanSum, Needed;
    PlacedFile(t, i);
    FilesInOrder(t, i, i + 1);
    assert 1 <= Ino(t, |t.dirs| + i) < t.nextIno;
    InodeInTable(t, t.files[i].ino);
  }

  /** Pass one. */
  method WriteTable(img: array<byte>, t: Tree, now: u64)
    requires Sized(t) && Numbered(t) && Room(img[..], t)
    modifies img
    ensures img[..] == AfterTable(old(img[..]), t, now)
  {
    hide ApplyLists, DirTableList, FileTableList, DataStart;
    var blk := WriteDirInodes(img, t, now);
    WriteFileInodes(img, t, blk, now);
  }

  lemma StartsAtFirst(t: Tree)
    ensures FileStart(t, 0) == DataStart(t) + |t.dirs|
  {
  }

  /** File blocks `from` up to `to`, copied to consecutive device blocks. */
  method CopyBlocks(img: array<byte>, blk: nat, data: seq<byte>, from: nat, to: nat) returns (next: nat)
    requires from <= to && (to > from ==> (to - 1) * BLOCK < |data|) && from * BLOCK <= |data|
    requires (blk + to - from) * BLOCK <= img.Length
    modifies img
    ensures img[..] == Poke(old(img[..]), Write(blk * BLOCK, data[from * BLOCK..Min(to * BLOCK, |data|)]))
    ensures next == blk + (to - from)
  {
    hide Patch;
    ghost var before := img[..];
    ghost var lo := from * BLOCK;
    next := blk;
    assert Patch(before, blk * BLOCK, data[lo..lo]) == before;
    for i := from to to
      invariant next == blk + (i - from) && img.Length == |before|
      invariant i * BLOCK <= |data| || i == to
      invariant img[..] == Patch(before, blk * BLOCK, data[lo..Min(i * BLOCK, |data|)])
    {
      var start := i * BLOCK;
      var end := Min(start + BLOCK, |data|);
      Join(data, lo, start, end);
      PatchAppend(before, blk * BLOCK, data[lo..start], data[start..end]);
      CopyInto(img, next * BLOCK, data[start..end]);
      next := next + 1;
    }
  }

  /** The block pass for one file. */
  method WriteFileBlocks(img: array<byte>, f: File, first: nat) returns (next: nat)
    requires (first + Span(f)) * BLOCK <= img.Length
    modifies img
    ensures img[..] == ApplyAll(old(img[..]), FileDataWrites(f, first))
    ensures next == first + Span(f)
  {
    hide Poke, ApplyAll, BlocksOf;
    FileDataShape(f, first);
    var n := BlocksOf(f);
    var head := Min(n, DIRECT);
    ghost var before := img[..];
    next := CopyBlocks(img, first, f.data, 0, head);
    if head < n {
      next := next + 1;
      next := CopyBlocks(img, next, f.data, head, n);
    } else {
      PokeEmpty(img[..]);
    }
    ApplyPair(before, FileDataWrites(f, first)[0], FileDataWrites(f, first)[1]);
  }

  lemma FileDataShape(f: File, first: nat)
    ensures var n := BlocksOf(f);
            && (n > 0 ==> (n - 1) * BLOCK < |f.data|) && |f.data| <= n * BLOCK
            && FileDataWrites(f, first)[0]
               == Write(first * BLOCK, f.data[0 * BLOCK..Min(Min(n, DIRECT) * BLOCK, |f.data|)])
            && FileDataWrites(f, first)[1] ==
               if n > DIRECT then Write((first + DIRECT + 1) * BLOCK, f.data[DIRECT * BLOCK..Min(n * BLOCK, |f.data|)])
               else Write(0, [])
  {
    CeilFacts(|f.data|);
  }

  /** One directory record, over whatever the block held. */
  method WriteDirent(img: array<byte>, off: nat, e: Entry)
    requires off + DIRENT_SIZE <= img.Length
    modifies img
    ensures img[..] == ApplyAll(old(img[..]), DirentWrites(off, e))
  {
    hide Poke, ApplyAll, NameBytes, MetaBytes;
    ghost var ws := DirentWrites(off, e);
    ApplyPair(img[..], ws[0], ws[1]);
    PokeCopy(img, off, NameBytes(e));
    PokeCopy(img, off + NAME_MAX, MetaBytes(e));
  }

  /** A directory's records, until its block is full. */
  method WriteDir(img: array<byte>, off: nat, d: Dir)
    requires off + BLOCK <= img.Length
    modifies img
    ensures img[..] == ApplyLists(old(img[..]), RecordLists(off, Records(d)))
  {
    hide ApplyLists, ApplyAll, DirentWrites;
    ghost var before := img[..];
    ghost var ls := RecordLists(off, Records(d));
    ListsNothing(before, ls);
    ListsSnoc(before, ls, 0);
    WriteDirent(img, off, Entry([46], d.ino, true));
    ListsSnoc(before, ls, 1);
    WriteDirent(img, off + DIRENT_SIZE, Entry([46, 46], d.parent, true));
    var at := off + 2 * DIRENT_SIZE;
    var i := 0;
    while i < |d.entries| && at + DIRENT_SIZE <= off + BLOCK
      invariant 0 <= i && i + 2 <= |ls| && at == off + (i + 2) * DIRENT_SIZE && img.Length == |before|
      invariant img[..] == ApplyLists(before, ls[..i + 2])
    {
      ListsSnoc(before, ls, i + 2);
      WriteDirent(img, at, d.entries[i]);
      at := at + DIRENT_SIZE;
      i := i + 1;
    }
    assert ls[..i + 2] == ls;
  }

  method WriteDirBlocks(img: array<byte>, t: Tree) returns (blk: nat)
    requires Room(img[..], t)
    modifies img
    ensures img[..] == AfterDirs(old(img[..]), t, |t.dirs|)
    ensures blk == DataStart(t) + |t.dirs|
  {
    hide ApplyLists, DataStart, RecordLists, Records, SpanSum;
    blk := DataStart(t);
    ghost var base := img[..];
    for i := 0 to |t.dirs|
      invariant blk == DataStart(t) + i && img.Length == |base|
      invariant img[..] == AfterDirs(base, t, i)
    {
      WriteDir(img, blk * BLOCK, t.dirs[i]);
      blk := blk + 1;
    }
  }

  method WriteAllFiles(img: array<byte>, t: Tree, start: nat)
    requires Room(img[..], t) && start == DataStart(t) + |t.dirs|
    modifies img
    ensures img[..] == ApplyLists(old(img[..]), FileDataList(t))
  {
    hide ApplyLists, ApplyAll, DataStart, FileDataWrites, Span, FileStart, FileDataList, Needed;
    var blk := start;
    ghost var base := img[..];
    ghost var fs := FileDataList(t);
    ListsNothing(base, fs);
    StartsAtFirst(t);
    for i := 0 to |t.files|
      invariant blk == FileStart(t, i) && img.Length == |base|
      invariant img[..] == ApplyLists(base, fs[..i])
    {
      FilesInOrder(t, i, i + 1);
      DataAt(t, i);
      ListsSnoc(base, fs, i);
      blk := WriteFileBlocks(img, t.files[i], blk);
    }
    assert fs[..|t.files|] == fs;
  }

  lemma DataAt(t: Tree, i: nat)
    requires i < |t.files|
    ensures FileDataList(t)[i] == FileDataWrites(t.files[i], FileStart(t, i))
  {
  }

  /** Pass two. */
  method WriteBlocks(img: array<byte>, t: Tree)
    requires Room(img[..], t)
    modifies img
    ensures img[..] == AfterBlocks(old(img[..]), t)
  {
    hide ApplyLists, DataStart, FileDataList, AfterDirs;
    var blk := WriteDirBlocks(img, t);
    WriteAllFiles(img, t, blk);
  }
}
