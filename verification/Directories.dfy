/**
 Directories: the records the image builder stores, and the kernel's search for a name
 in a directory, from the directory's inode to the inode number found.
 */
module Directories {
  import opened Bytes
  import opened Disk
  import opened OnyxFs
  import opened MkImage

  // ---- directory records ----

  /** A record as the kernel reads it; the kind byte is passed on as stored. */
  datatype Dirent = Dirent(name: seq<byte>, ino: u32, kind: byte)

  function DecodeDirent(b: seq<byte>): (d: Option<Dirent>)
    ensures d.Some? <==> |b| >= DIRENT_SIZE
  {
    if |b| < DIRENT_SIZE then None else Some(Dirent(NameOf(b), Le32(b[32..36]), b[36]))
  }

  /** The name field, by its stored length or up to the first zero. */
  function NameOf(b: seq<byte>): (name: seq<byte>)
    requires |b| >= DIRENT_SIZE
    ensures 0 < b[37] <= NAME_MAX ==> name == b[..b[37]]
  {
    if 0 < b[37] <= NAME_MAX then b[..b[37]] else b[..FirstZero(b, 0)]
  }

  function FirstZero(b: seq<byte>, i: nat): (k: nat)
    requires |b| >= DIRENT_SIZE && i <= NAME_MAX
    ensures i <= k <= NAME_MAX
    decreases NAME_MAX - i
  {
    if i == NAME_MAX || b[i] == 0 then i else FirstZero(b, i + 1)
  }

  /** A directory's block is settled once its own turn is over. */
  lemma {:induction false} DirSettled(img: seq<byte>, t: Tree, i: nat, m: nat, lo: nat, hi: nat)
    requires i < m <= |t.dirs| && (DataStart(t) + i) * BLOCK <= lo <= hi <= (DataStart(t) + i + 1) * BLOCK <= |img|
    ensures AfterDirs(img, t, m)[lo..hi] == AfterDirs(img, t, i + 1)[lo..hi]
    decreases m
  {
    hide Records, RecordLists, DataStart;
    if m > i + 1 {
      var off := (DataStart(t) + m - 1) * BLOCK;
      var es := Records(t.dirs[m - 1]);
      DirSettled(img, t, i, m - 1, lo, hi);
      DirentsWithin(off, es);
      forall r | 0 <= r < |es|
        ensures AllMiss(RecordLists(off, es)[r], lo, hi)
      {
        WithinMisses(RecordLists(off, es)[r], off, off + BLOCK, lo, hi);
      }
      ListsUntouched(AfterDirs(img, t, m - 1), RecordLists(off, es), lo, hi);
    }
  }

  /** File blocks come after every directory block. */
  lemma {:induction false} FilesMissDirs(img: seq<byte>, t: Tree, lo: nat, hi: nat)
    requires lo <= hi <= |img| && hi <= (DataStart(t) + |t.dirs|) * BLOCK
    ensures ApplyLists(img, FileDataList(t))[lo..hi] == img[lo..hi]
  {
    hide FileStart, DataStart, FileDataList, AllMiss;
    forall j | 0 <= j < |t.files|
      ensures AllMiss(FileDataList(t)[j], lo, hi)
    {
      FilesInOrder(t, j, j + 1);
      FileDataMisses(t, j, lo, hi);
    }
    ListsUntouched(img, FileDataList(t), lo, hi);
  }

  /** Both stores of a record read back. */
  ghost predicate RecordHeld(img: seq<byte>, at: nat, e: Entry) {
    && at + DIRENT_SIZE <= |img|
    && img[at..at + |NameBytes(e)|] == NameBytes(e)
    && img[at + NAME_MAX..at + NAME_MAX + 6] == MetaBytes(e)
  }

  lemma RecordBytes(img: seq<byte>, off: nat, es: seq<Entry>, r: nat)
    requires r < |es| <= DIRENTS_PER_BLOCK && off + BLOCK <= |img|
    ensures RecordHeld(ApplyLists(img, RecordLists(off, es)), off + r * DIRENT_SIZE, es[r])
  {
    hide ApplyLists, ApplyAll, RecordLists, DirentWrites, AllMiss, NameBytes, MetaBytes, RecordHeld;
    var ls := RecordLists(off, es);
    var at, n := off + r * DIRENT_SIZE, |NameBytes(es[r])|;
    var mid := ApplyLists(img, ls[..r]);
    LaterRecords(off, es, r);
    ListsLast(img, ls, r, at, at + n);
    ListsLast(img, ls, r, at + NAME_MAX, at + NAME_MAX + 6);
    RecordAt(off, es, r);
    PairStored(mid, at, es[r]);
    HeldSame(ApplyAll(mid, ls[r]), ApplyLists(img, ls), at, es[r]);
  }

  lemma HeldSame(x: seq<byte>, y: seq<byte>, at: nat, e: Entry)
    requires RecordHeld(x, at, e) && |x| == |y|
    requires x[at..at + |NameBytes(e)|] == y[at..at + |NameBytes(e)|]
    requires x[at + NAME_MAX..at + NAME_MAX + 6] == y[at + NAME_MAX..at + NAME_MAX + 6]
    ensures RecordHeld(y, at, e)
  {
    hide NameBytes, MetaBytes;
  }

  lemma RecordAt(off: nat, es: seq<Entry>, r: nat)
    requires r < |es|
    ensures RecordLists(off, es)[r] == DirentWrites(off + r * DIRENT_SIZE, es[r])
  {
  }

  lemma PairStored(img: seq<byte>, at: nat, e: Entry)
    requires at + DIRENT_SIZE <= |img|
    ensures RecordHeld(ApplyAll(img, DirentWrites(at, e)), at, e)
  {
    hide Poke, ApplyAll, NameBytes, MetaBytes;
    var a, b := Write(at, NameBytes(e)), Write(at + NAME_MAX, MetaBytes(e));
    var mid := Poke(img, a);
    ApplyPair(img, a, b);
    assert DirentWrites(at, e) == [a, b];
    PokeWhole(img, a);
    PokeMiss(mid, b, at, at + |NameBytes(e)|);
    assert Poke(mid, b)[at..at + |NameBytes(e)|] == NameBytes(e);
    PokeWhole(mid, b);
  }

  lemma PokeWhole(img: seq<byte>, w: Write)
    requires Fits(w, |img|)
    ensures Poke(img, w)[w.off..w.off + |w.data|] == w.data
  {
  }

  lemma LaterRecords(off: nat, es: seq<Entry>, r: nat)
    requires r < |es|
    ensures var at := off + r * DIRENT_SIZE;
            forall j :: r < j < |es| ==>
              && AllMiss(RecordLists(off, es)[j], at, at + |NameBytes(es[r])|)
              && AllMiss(RecordLists(off, es)[j], at + NAME_MAX, at + NAME_MAX + 6)
  {
    hide NameBytes, MetaBytes;
  }

  lemma DirTurn(img: seq<byte>, t: Tree, i: nat, r: nat)
    requires i < |t.dirs| && r < |Records(t.dirs[i])| && Room(img, t)
    ensures RecordHeld(AfterDirs(img, t, i + 1), (DataStart(t) + i) * BLOCK + r * DIRENT_SIZE, Records(t.dirs[i])[r])
  {
    hide ApplyLists, DataStart, Records, RecordLists, SpanSum, RecordHeld;
    RecordBytes(AfterDirs(img, t, i), (DataStart(t) + i) * BLOCK, Records(t.dirs[i]), r);
  }

  lemma DecodeRecord(img: seq<byte>, at: nat, e: Entry)
    requires RecordHeld(img, at, e) && (e.name == [] ==> img[at] == 0)
    ensures DecodeDirent(img[at..at + DIRENT_SIZE]) == Some(Dirent(NameBytes(e), e.ino, Kind(e.isDir)))
  {
    hide ToLe32, Le32, FirstZero;
    var b, m := img[at..at + DIRENT_SIZE], MetaBytes(e);
    SliceOfSlice(img, at, at + DIRENT_SIZE, 0, |NameBytes(e)|);
    SliceOfSlice(img, at, at + DIRENT_SIZE, NAME_MAX, NAME_MAX + 6);
    assert m[..4] == ToLe32(e.ino);
    SliceOfSlice(b, NAME_MAX, NAME_MAX + 6, 0, 4);
    assert b[36] == b[NAME_MAX..NAME_MAX + 6][4] && b[37] == b[NAME_MAX..NAME_MAX + 6][5];
    if e.name == [] {
      StartsBlank(b);
    }
  }

  lemma StartsBlank(b: seq<byte>)
    requires |b| >= DIRENT_SIZE && b[0] == 0
    ensures b[..FirstZero(b, 0)] == []
  {
  }

  // ---- the kernel's search ----

  function Slot(block: seq<byte>, r: nat): (d: Dirent)
    requires |block| == BLOCK && r < DIRENTS_PER_BLOCK
  {
    DecodeDirent(block[r * DIRENT_SIZE..(r + 1) * DIRENT_SIZE]).value
  }

  /** The first used slot with this name, from slot `r` on. */
  function FindName(block: seq<byte>, name: seq<byte>, r: nat): (ino: Option<u32>)
    requires |block| == BLOCK && r <= DIRENTS_PER_BLOCK
    decreases DIRENTS_PER_BLOCK - r
  {
    if r == DIRENTS_PER_BLOCK then None
    else
      var d := Slot(block, r);
      if d.ino != 0 && d.name == name then Some(d.ino) else FindName(block, name, r + 1)
  }

  /** The search over the direct window, from entry `b` on. */
  function Search(img: seq<byte>, blocks: seq<u32>, name: seq<byte>, b: nat): (r: Result<u32>)
    requires b <= |blocks| == DIRECT
    decreases DIRECT - b
  {
    if b == DIRECT then Err(NoEnt)
    else if blocks[b] == 0 then Search(img, blocks, name, b + 1)
    else
      var block := ReadBlock(img, blocks[b]);
      if block.None? then Err(Io)
      else
        var ino := FindName(block.value, name, 0);
        if ino.Some? then Ok(ino.value) else Search(img, blocks, name, b + 1)
  }

  /** Finds a name in a directory, and makes sure that what it names can be read. */
  function LookupIn(img: seq<byte>, sb: Super, dir: u32, name: seq<byte>): (r: Result<u32>) {
    var n := ReadInode(img, sb, dir);
    if n.Err? then Err(n.error)
    else
      var ino := Search(img, n.value.blocks, name, 0);
      if ino.Err? then ino
      else
        var found := ReadInode(img, sb, ino.value);
        if found.Err? then Err(found.error) else ino
  }

  /** The two nested loops of the search. */
  method Lookup(img: seq<byte>, sb: Super, dir: u32, name: seq<byte>) returns (r: Result<u32>)
    ensures r == LookupIn(img, sb, dir, name)
  {
    hide ReadInode, ReadBlock, Slot;
    var n := ReadInode(img, sb, dir);
    if n.Err? {
      return Err(n.error);
    }
    var blocks := n.value.blocks;
    for b := 0 to DIRECT
      invariant Search(img, blocks, name, 0) == Search(img, blocks, name, b)
    {
      if blocks[b] != 0 {
        var block := ReadBlock(img, blocks[b]);
        if block.None? {
          return Err(Io);
        }
        var ino := ScanBlock(block.value, name);
        if ino.Some? {
          var found := ReadInode(img, sb, ino.value);
          return if found.Err? then Err(found.error) else Ok(ino.value);
        }
      }
    }
    r := Err(NoEnt);
  }

  method ScanBlock(block: seq<byte>, name: seq<byte>) returns (ino: Option<u32>)
    requires |block| == BLOCK
    ensures ino == FindName(block, name, 0)
  {
    hide Slot;
    for r := 0 to DIRENTS_PER_BLOCK
      invariant FindName(block, name, 0) == FindName(block, name, r)
    {
      var d := Slot(block, r);
      if d.ino != 0 && d.name == name {
        return Some(d.ino);
      }
    }
    ino := None;
  }

  // ---- a directory's inode ----

  lemma {:induction false} DirInodeWritten(base: seq<byte>, t: Tree, now: u64, i: nat)
    requires Sized(t) && Numbered(t) && Room(base, t) && i < |t.dirs|
    ensures var off := InodeOff(Ino(t, i));
            && off + INODE_SIZE <= |base|
            && AfterTable(base, t, now)[off..off + INODE_SIZE] == InodeBytes(DirInode(t, i), now)
  {
    hide ApplyLists, ApplyAll, InodeBytes, DataStart, AllMiss, InodeOff, SpanSum, DirTableList, FileTableList;
    var ino := Ino(t, i);
    InodeInTable(t, ino);
    var lo, hi := InodeOff(ino), InodeOff(ino) + INODE_SIZE;
    var ls := DirTableList(t, now);
    forall j | i < j < |ls|
      ensures AllMiss(ls[j], lo, hi)
    {
      DirTableApart(t, now, i, j);
    }
    ListsLast(base, ls, i, lo, hi);
    DirTableAt(t, i, now);
    ApplyHit(ApplyLists(base, ls[..i]), ls[i], 0, lo, hi);
    forall j | 0 <= j < |t.files|
      ensures AllMiss(FileTableList(t, now)[j], lo, hi)
    {
      assert Ino(t, |t.dirs| + j) != Ino(t, i);
      InodesApart(ino, t.files[j].ino, Write(InodeOff(t.files[j].ino), Fill(INODE_SIZE, 0)));
      FilesInOrder(t, j, j + 1);
      FileTableMisses(t, now, j, lo, hi);
    }
    ListsUntouched(ApplyLists(base, ls), FileTableList(t, now), lo, hi);
  }

  lemma DirTableApart(t: Tree, now: u64, i: nat, j: nat)
    requires Sized(t) && Numbered(t) && i < j < |t.dirs|
    ensures AllMiss(DirTableList(t, now)[j], InodeOff(Ino(t, i)), InodeOff(Ino(t, i)) + INODE_SIZE)
  {
    hide InodeBytes, InodeOff, SpanSum, DataStart;
    assert Ino(t, i) != Ino(t, j) && Ino(t, i) >= 1 && Ino(t, j) >= 1;
    DirTableAt(t, j, now);
    InodesApart(t.dirs[i].ino, t.dirs[j].ino, DirTableList(t, now)[j][0]);
  }

  /** The inode of a directory leads to its block. */
  lemma {:induction false} DirInodeStored(base: seq<byte>, t: Tree, now: u64, i: nat)
    requires Sized(t) && Numbered(t) && Room(base, t) && i < |t.dirs|
    ensures var n := ReadInode(Image(base, t, now), Super(TABLE_START, t.nextIno + SPARE_INODES), t.dirs[i].ino);
            n.Ok? && n.value.mode == DT_DIR && n.value.blocks == Padded([DataStart(t) + i])
  {
    hide AfterTable, AfterBlocks, InodeBytes, DataStart, DecodeInode, ReadInode, InodeOff, SpanSum, Padded;
    var ino := t.dirs[i].ino;
    assert ino == Ino(t, i);
    DirInodeWritten(base, t, now, i);
    InodeInTable(t, ino);
    BlocksMissTable(AfterTable(base, t, now), t, InodeOff(ino), InodeOff(ino) + INODE_SIZE);
    InodeRoundTrip(DirInode(t, i), now);
    SlotRead(Image(base, t, now), t, ino);
  }

  // ---- what a directory's block holds ----

  /** Both passes leave a directory's block alone, outside its records. */
  lemma {:induction false} DirBlockUntouched(base: seq<byte>, t: Tree, now: u64, i: nat, lo: nat, hi: nat)
    requires Sized(t) && Numbered(t) && Room(base, t) && i < |t.dirs|
    requires (DataStart(t) + i) * BLOCK <= lo <= hi <= (DataStart(t) + i + 1) * BLOCK
    requires ListsMiss(RecordLists((DataStart(t) + i) * BLOCK, Records(t.dirs[i])), lo, hi)
    ensures Image(base, t, now)[lo..hi] == base[lo..hi]
  {
    hide AfterTable, AfterDirs, ApplyLists, DataStart, Records, RecordLists, FileDataList, ListsMiss, SpanSum;
    BlockInside(base, t, i);
    var before := AfterTable(base, t, now);
    FilesMissDirs(AfterDirs(before, t, |t.dirs|), t, lo, hi);
    DirSettled(before, t, i, |t.dirs|, lo, hi);
    NextDir(before, t, i);
    ListsUntouched(AfterDirs(before, t, i), RecordLists((DataStart(t) + i) * BLOCK, Records(t.dirs[i])), lo, hi);
    EarlierDirs(before, t, i, lo, hi);
    TableMissesDirs(base, t, now, lo, hi);
  }

  lemma BlockInside(img: seq<byte>, t: Tree, i: nat)
    requires Room(img, t) && i < |t.dirs|
    ensures (DataStart(t) + i + 1) * BLOCK <= (DataStart(t) + |t.dirs|) * BLOCK <= |img|
  {
    hide SpanSum, DataStart;
  }

  lemma NextDir(img: seq<byte>, t: Tree, i: nat)
    requires i < |t.dirs|
    ensures AfterDirs(img, t, i + 1)
         == ApplyLists(AfterDirs(img, t, i), RecordLists((DataStart(t) + i) * BLOCK, Records(t.dirs[i])))
  {
    hide DataStart, Records, RecordLists, ApplyLists;
  }

  lemma {:induction false} EarlierDirs(img: seq<byte>, t: Tree, i: nat, lo: nat, hi: nat)
    requires i <= |t.dirs| && (DataStart(t) + i) * BLOCK <= lo <= hi <= |img|
    ensures AfterDirs(img, t, i)[lo..hi] == img[lo..hi]
    decreases i
  {
    hide Records, RecordLists, DataStart;
    if i > 0 {
      EarlierDirs(img, t, i - 1, lo, hi);
      var off := (DataStart(t) + i - 1) * BLOCK;
      var es := Records(t.dirs[i - 1]);
      DirentsWithin(off, es);
      forall r | 0 <= r < |es|
        ensures AllMiss(RecordLists(off, es)[r], lo, hi)
      {
        WithinMisses(RecordLists(off, es)[r], off, off + BLOCK, lo, hi);
      }
      ListsUntouched(AfterDirs(img, t, i - 1), RecordLists(off, es), lo, hi);
    }
  }

  /** The first pass writes inodes before the directory blocks and indirect tables after them. */
  lemma {:induction false} TableMissesDirs(base: seq<byte>, t: Tree, now: u64, lo: nat, hi: nat)
    requires Sized(t) && Numbered(t) && DataStart(t) * BLOCK <= lo <= hi <= (DataStart(t) + |t.dirs|) * BLOCK <= |base|
    ensures AfterTable(base, t, now)[lo..hi] == base[lo..hi]
  {
    hide ApplyLists, DirTableList, FileTableList, AllMiss, SpanSum, DataStart, FileStart, InodeOff;
    forall i | 0 <= i < |t.dirs|
      ensures AllMiss(DirTableList(t, now)[i], lo, hi)
    {
      DirInodeBefore(t, now, i, lo, hi);
    }
    ListsUntouched(base, DirTableList(t, now), lo, hi);
    var mid := ApplyLists(base, DirTableList(t, now));
    forall i | 0 <= i < |t.files|
      ensures AllMiss(FileTableList(t, now)[i], lo, hi)
    {
      assert 1 <= Ino(t, |t.dirs| + i) < t.nextIno;
      InodeMissesData(t, t.files[i].ino, lo, hi);
      FilesInOrder(t, i, i + 1);
      FileTableMisses(t, now, i, lo, hi);
    }
    ListsUntouched(mid, FileTableList(t, now), lo, hi);
  }

  lemma DirInodeBefore(t: Tree, now: u64, i: nat, lo: nat, hi: nat)
    requires Sized(t) && Numbered(t) && i < |t.dirs| && DataStart(t) * BLOCK <= lo
    ensures AllMiss(DirTableList(t, now)[i], lo, hi)
  {
    hide InodeBytes, SpanSum, DataStart, InodeOff;
    assert 1 <= Ino(t, i) < t.nextIno;
    DirTableAt(t, i, now);
    InodeInTable(t, t.dirs[i].ino);
  }

  /** The directory's block was blank before its records were written. */
  ghost predicate Blank(base: seq<byte>, t: Tree, i: nat)
    requires (DataStart(t) + i + 1) * BLOCK <= |base|
  {
    forall p :: (DataStart(t) + i) * BLOCK <= p < (DataStart(t) + i + 1) * BLOCK ==> base[p] == 0
  }

  /** What slot `r` of a directory's block reads as: its record, or unused. */
  ghost predicate SlotHolds(block: seq<byte>, es: seq<Entry>, r: nat)
    requires |block| == BLOCK && r < DIRENTS_PER_BLOCK
  {
    if r < |es| then Slot(block, r) == Dirent(NameBytes(es[r]), es[r].ino, Kind(es[r].isDir))
    else Slot(block, r).ino == 0
  }

  /** The stores of other records miss slot `r`. */
  lemma SlotMissed(off: nat, es: seq<Entry>, r: nat, lo: nat, hi: nat)
    requires off + r * DIRENT_SIZE <= lo <= hi <= off + (r + 1) * DIRENT_SIZE
    ensures forall j :: 0 <= j < |es| && j != r ==> AllMiss(RecordLists(off, es)[j], lo, hi)
  {
    hide MetaBytes, NameBytes;
    forall j | 0 <= j < |es| && j != r
      ensures AllMiss(RecordLists(off, es)[j], lo, hi)
    {
      RecordAt(off, es, j);
    }
  }

  /**
   Every record that fits a directory's block (the two dot entries and the first hundred
   children) decodes to its name, cut to 32 bytes, its inode number and the kind byte the
   tool stores: 1 for a directory, 2 for a file. An empty name relies on a blank image.
   */
  lemma {:induction false} DirectoryReads(base: seq<byte>, t: Tree, now: u64, i: nat, r: nat)
    requires Sized(t) && Numbered(t) && Room(base, t) && i < |t.dirs| && r < |Records(t.dirs[i])|
    requires (DataStart(t) + i + 1) * BLOCK <= |base|
    requires Records(t.dirs[i])[r].name == [] ==> base[(DataStart(t) + i) * BLOCK + r * DIRENT_SIZE] == 0
    ensures var e := Records(t.dirs[i])[r];
            var at := (DataStart(t) + i) * BLOCK + r * DIRENT_SIZE;
            DecodeDirent(Image(base, t, now)[at..at + DIRENT_SIZE])
            == Some(Dirent(NameBytes(e), e.ino, if e.isDir then 1 else 2))
  {
    hide AfterTable, AfterDirs, ApplyLists, DataStart, Records, RecordLists, FileDataList, DecodeDirent, SpanSum;
    var e := Records(t.dirs[i])[r];
    var at := (DataStart(t) + i) * BLOCK + r * DIRENT_SIZE;
    var before := AfterTable(base, t, now);
    var img := AfterDirs(before, t, |t.dirs|);
    DirTurn(before, t, i, r);
    FilesMissDirs(img, t, at, at + DIRENT_SIZE);
    DirSettled(before, t, i, |t.dirs|, at, at + DIRENT_SIZE);
    if e.name == [] {
      NamelessBlank(base, t, now, i, r);
      SameByte(Image(base, t, now), AfterDirs(before, t, i + 1), at, at + DIRENT_SIZE);
    }
    DecodeRecord(AfterDirs(before, t, i + 1), at, e);
  }

  lemma SameByte(x: seq<byte>, y: seq<byte>, lo: nat, hi: nat)
    requires lo < hi <= |x| == |y| && x[lo..hi] == y[lo..hi]
    ensures x[lo] == y[lo]
  {
    assert x[lo..hi][0] == y[lo..hi][0];
  }

  lemma {:induction false} NamelessBlank(base: seq<byte>, t: Tree, now: u64, i: nat, r: nat)
    requires Sized(t) && Numbered(t) && Room(base, t) && i < |t.dirs| && r < |Records(t.dirs[i])|
    requires (DataStart(t) + i + 1) * BLOCK <= |base| && Records(t.dirs[i])[r].name == []
    ensures var at := (DataStart(t) + i) * BLOCK + r * DIRENT_SIZE;
            Image(base, t, now)[at] == base[at]
  {
    hide Image, DataStart, Records, RecordLists, SpanSum;
    var off, es := (DataStart(t) + i) * BLOCK, Records(t.dirs[i]);
    var at := off + r * DIRENT_SIZE;
    SlotMissed(off, es, r, at, at + 1);
    RecordAt(off, es, r);
    DirBlockUntouched(base, t, now, i, at, at + 1);
    SameByte(Image(base, t, now), base, at, at + 1);
  }

  /** Slots behind the last record are unused. */
  lemma {:induction false} UnusedSlot(base: seq<byte>, t: Tree, now: u64, i: nat, r: nat)
    requires Sized(t) && Numbered(t) && Room(base, t) && i < |t.dirs|
    requires |Records(t.dirs[i])| <= r < DIRENTS_PER_BLOCK
    requires (DataStart(t) + i + 1) * BLOCK <= |base| && Blank(base, t, i)
    ensures var at := (DataStart(t) + i) * BLOCK + r * DIRENT_SIZE;
            DecodeDirent(Image(base, t, now)[at..at + DIRENT_SIZE]).value.ino == 0
  {
    hide Image, DataStart, Records, RecordLists, SpanSum;
    var off, es := (DataStart(t) + i) * BLOCK, Records(t.dirs[i]);
    var at := off + r * DIRENT_SIZE;
    SlotMissed(off, es, r, at, at + DIRENT_SIZE);
    DirBlockUntouched(base, t, now, i, at, at + DIRENT_SIZE);
    var b := base[at..at + DIRENT_SIZE];
    assert forall p :: 0 <= p < DIRENT_SIZE ==> b[p] == base[at + p] == 0;
    assert b[32..36] == [0, 0, 0, 0];
  }

  lemma {:induction false} SlotsHold(base: seq<byte>, t: Tree, now: u64, i: nat, r: nat)
    requires Sized(t) && Numbered(t) && Room(base, t) && i < |t.dirs| && r < DIRENTS_PER_BLOCK
    requires (DataStart(t) + i + 1) * BLOCK <= |base| && Blank(base, t, i)
    ensures SlotHolds(Image(base, t, now)[(DataStart(t) + i) * BLOCK..(DataStart(t) + i + 1) * BLOCK],
                      Records(t.dirs[i]), r)
  {
    hide Image, DataStart, Records, DecodeDirent, SpanSum, NameBytes;
    var img, off := Image(base, t, now), (DataStart(t) + i) * BLOCK;
    SliceOfSlice(img, off, off + BLOCK, r * DIRENT_SIZE, (r + 1) * DIRENT_SIZE);
    if r < |Records(t.dirs[i])| {
      DirectoryReads(base, t, now, i, r);
    } else {
      UnusedSlot(base, t, now, i, r);
    }
  }

  // ---- names resolve ----

  /** The first record with this name, from record `r` on. */
  function FirstNamed(es: seq<Entry>, name: seq<byte>, r: nat): (ino: Option<u32>)
    requires r <= |es|
    decreases |es| - r
  {
    if r == |es| then None else if NameBytes(es[r]) == name then Some(es[r].ino) else FirstNamed(es, name, r + 1)
  }

  /** Every listed number belongs to a member. */
  ghost predicate Listed(t: Tree) {
    forall i, r :: 0 <= i < |t.dirs| && 0 <= r < |Records(t.dirs[i])| ==> 1 <= Records(t.dirs[i])[r].ino < t.nextIno
  }

  lemma {:induction false} FindsFirst(block: seq<byte>, es: seq<Entry>, name: seq<byte>, r: nat)
    requires |block| == BLOCK && r <= DIRENTS_PER_BLOCK && |es| <= DIRENTS_PER_BLOCK
    requires forall k :: 0 <= k < DIRENTS_PER_BLOCK ==> SlotHolds(block, es, k)
    requires forall k :: 0 <= k < |es| ==> es[k].ino != 0
    ensures FindName(block, name, r) == if r <= |es| then FirstNamed(es, name, r) else None
    decreases DIRENTS_PER_BLOCK - r
  {
    hide Slot, NameBytes;
    if r < DIRENTS_PER_BLOCK {
      assert SlotHolds(block, es, r);
      FindsFirst(block, es, name, r + 1);
    }
  }

  lemma {:induction false} NoMoreBlocks(img: seq<byte>, blocks: seq<u32>, name: seq<byte>, b: nat)
    requires b <= |blocks| == DIRECT && forall k :: b <= k < DIRECT ==> blocks[k] == 0
    ensures Search(img, blocks, name, b) == Err(NoEnt)
    decreases DIRECT - b
  {
    hide ReadBlock, FindName;
    if b < DIRECT {
      NoMoreBlocks(img, blocks, name, b + 1);
    }
  }

  /** What a search for `name` in directory `i` should say. */
  function Named(t: Tree, i: nat, name: seq<byte>): (r: Result<u32>)
    requires i < |t.dirs|
  {
    var ino := FirstNamed(Records(t.dirs[i]), name, 0);
    if ino.Some? then Ok(ino.value) else Err(NoEnt)
  }

  lemma {:induction false} SearchFinds(base: seq<byte>, t: Tree, now: u64, i: nat, name: seq<byte>)
    requires Sized(t) && Numbered(t) && Room(base, t) && Listed(t) && i < |t.dirs|
    requires (DataStart(t) + i + 1) * BLOCK <= |base| && Blank(base, t, i)
    ensures Search(Image(base, t, now), Padded([DataStart(t) + i]), name, 0) == Named(t, i, name)
  {
    hide Image, DataStart, Records, FindName, FirstNamed, SlotHolds, SpanSum, Blank;
    var img, es, at := Image(base, t, now), Records(t.dirs[i]), DataStart(t) + i;
    var block := img[at * BLOCK..(at + 1) * BLOCK];
    forall r | 0 <= r < DIRENTS_PER_BLOCK
      ensures SlotHolds(block, es, r)
    {
      SlotsHold(base, t, now, i, r);
    }
    FindsFirst(block, es, name, 0);
    StartsLate(t);
    assert Padded([at])[0] == at;
    NoMoreBlocks(img, Padded([at]), name, 1);
  }

  lemma StartsLate(t: Tree)
    ensures DataStart(t) > 0
  {
  }

  /**
   Names resolve: in a finished image, a search for any name in any directory, through the
   directory's inode, gives the inode of the first record with that name, or "no entry".
   */
  lemma {:induction false} NamesResolve(base: seq<byte>, t: Tree, now: u64, i: nat, name: seq<byte>)
    requires Sized(t) && Numbered(t) && Room(base, t) && Listed(t) && i < |t.dirs|
    requires (DataStart(t) + i + 1) * BLOCK <= |base| && Blank(base, t, i)
    ensures LookupIn(Image(base, t, now), Super(TABLE_START, t.nextIno + SPARE_INODES), t.dirs[i].ino, name)
         == Named(t, i, name)
  {
    hide Image, DataStart, ReadInode, Search, Padded, Blank, SpanSum, Records;
    DirInodeStored(base, t, now, i);
    SearchFinds(base, t, now, i, name);
    var ino := FirstNamed(Records(t.dirs[i]), name, 0);
    if ino.Some? {
      FirstIsListed(t, i, name, 0);
      SlotRead(Image(base, t, now), t, ino.value);
    }
  }

  lemma {:induction false} FirstIsListed(t: Tree, i: nat, name: seq<byte>, r: nat)
    requires Listed(t) && i < |t.dirs| && r <= |Records(t.dirs[i])|
    requires FirstNamed(Records(t.dirs[i]), name, r).Some?
    ensures 1 <= FirstNamed(Records(t.dirs[i]), name, r).value < t.nextIno
    decreases |Records(t.dirs[i])| - r
  {
    hide Records, NameBytes;
    if NameBytes(Records(t.dirs[i])[r]) != name {
      FirstIsListed(t, i, name, r + 1);
    }
  }

  // ---- manifests list only members ----

  ghost predicate DirListed(d: Dir, next: nat) {
    1 <= d.ino < next && 1 <= d.parent < next && forall k :: 0 <= k < |d.entries| ==> 1 <= d.entries[k].ino < next
  }

  lemma {:induction false} ManifestDirs(adds: seq<Addition>)
    requires Placeable(adds)
    ensures forall i :: 0 <= i < |FromManifest(adds).dirs| ==>
              DirListed(FromManifest(adds).dirs[i], FromManifest(adds).nextIno)
    decreases |adds|
  {
    if adds != [] {
      ManifestDirs(adds[..|adds| - 1]);
      AddListed(FromManifest(adds[..|adds| - 1]), adds[|adds| - 1]);
    }
  }

  lemma AddListed(t: Tree, a: Addition)
    requires a.parent < |t.dirs| && 1 <= t.nextIno < U32 - 1
    requires forall i :: 0 <= i < |t.dirs| ==> DirListed(t.dirs[i], t.nextIno)
    ensures forall i :: 0 <= i < |Add(t, a).dirs| ==> DirListed(Add(t, a).dirs[i], Add(t, a).nextIno)
  {
    assert DirListed(t.dirs[a.parent], t.nextIno);
  }

  /** Whatever a manifest adds, every record of every directory names a member. */
  lemma {:induction false} ManifestListed(adds: seq<Addition>)
    requires Placeable(adds)
    ensures Listed(FromManifest(adds))
  {
    hide FromManifest;
    var t := FromManifest(adds);
    ManifestDirs(adds);
    forall i, r | 0 <= i < |t.dirs| && 0 <= r < |Records(t.dirs[i])|
      ensures 1 <= Records(t.dirs[i])[r].ino < t.nextIno
    {
      assert DirListed(t.dirs[i], t.nextIno);
    }
  }
}
