/** Allocation bitmaps and the whole build of an image. */
module ImageChecks {
  import opened Bytes
  import opened Disk
  import opened OnyxFs
  import opened MkImage
  import opened Directories

  // ---- allocation bitmaps ----

  function Power(n: nat): (p: nat) {
    if n == 0 then 1 else 2 * Power(n - 1)
  }

  predicate BitOf(b: nat, k: nat) {
    if k == 0 then b % 2 == 1 else BitOf(b / 2, k - 1)
  }

  /** `b | 1 << k` in an `n`-bit word. */
  function Or(b: nat, k: nat, n: nat): (r: nat)
    requires k < n && b < Power(n)
    ensures r < Power(n)
  {
    if k == 0 then b / 2 * 2 + 1 else 2 * Or(b / 2, k - 1, n - 1) + b % 2
  }

  function WithBit(b: byte, k: nat): (r: byte)
    requires k < 8
  {
    assert Power(8) == 256;
    Or(b, k, 8)
  }

  lemma {:induction false} OrSets(b: nat, k: nat, n: nat, j: nat)
    requires k < n && b < Power(n)
    ensures BitOf(Or(b, k, n), j) <==> j == k || BitOf(b, j)
  {
    if k > 0 && j > 0 {
      OrSets(b / 2, k - 1, n - 1, j - 1);
    }
  }

  /** Bit `p` of an image, eight to a byte, lowest first. */
  predicate BitAt(img: seq<byte>, p: nat)
    requires p < 8 * |img|
  {
    BitOf(img[p / 8], p % 8)
  }

  /** `now` is `was` with the bits of `[lo, hi)` set besides. */
  ghost predicate Raised(was: seq<byte>, now: seq<byte>, lo: nat, hi: nat) {
    && |now| == |was|
    && forall p: nat :: p < 8 * |was| ==> (BitAt(now, p) <==> BitAt(was, p) || lo <= p < hi)
  }

  lemma RaiseOne(was: seq<byte>, img: seq<byte>, lo: nat, p: nat)
    requires lo <= p < 8 * |was| && Raised(was, img, lo, p)
    ensures Raised(was, img[p / 8 := WithBit(img[p / 8], p % 8)], lo, p + 1)
  {
    hide BitOf, Or;
    var img' := img[p / 8 := WithBit(img[p / 8], p % 8)];
    forall q: nat | q < 8 * |was|
      ensures BitAt(img', q) <==> BitAt(was, q) || lo <= q < p + 1
    {
      assert BitAt(img, q) <==> BitAt(was, q) || lo <= q < p;
      if q / 8 == p / 8 {
        assert Power(8) == 256;
        OrSets(img[p / 8], p % 8, 8, q % 8);
      }
    }
  }

  /** Sets `count` bits from the start of block `blk` on, one at a time, wherever they end. */
  method SetBits(img: array<byte>, blk: nat, count: nat)
    requires blk * BLOCK + (count + 7) / 8 <= img.Length
    modifies img
    ensures Raised(old(img[..]), img[..], 8 * blk * BLOCK, 8 * blk * BLOCK + count)
  {
    hide WithBit, BitAt;
    ghost var was := img[..];
    for i := 0 to count
      invariant Raised(was, img[..], 8 * blk * BLOCK, 8 * blk * BLOCK + i)
    {
      RaiseOne(was, img[..], 8 * blk * BLOCK, 8 * blk * BLOCK + i);
      var j := blk * BLOCK + i / 8;
      assert (8 * blk * BLOCK + i) / 8 == j && (8 * blk * BLOCK + i) % 8 == i % 8;
      ghost var before := img[..];
      img[j] := WithBit(img[j], i % 8);
      assert img[..] == before[j := WithBit(before[j], i % 8)];
    }
  }

  /** Bit `i` of the bitmap in block `blk`. */
  predicate Marked(img: seq<byte>, blk: nat, i: nat)
    requires i < 8 * BLOCK && (blk + 1) * BLOCK <= |img|
  {
    BitAt(img, 8 * blk * BLOCK + i)
  }

  /** Both bitmaps over a blank image: a count above 32768 runs on into the following blocks. */
  ghost predicate BitmapsOver(img: seq<byte>, inodes: nat, blocks: nat) {
    forall p: nat :: p < 8 * |img| ==>
      (BitAt(img, p) <==> 8 * BLOCK <= p < 8 * BLOCK + inodes || 16 * BLOCK <= p < 16 * BLOCK + blocks)
  }

  method WriteBitmaps(img: array<byte>, inodes: nat, blocks: nat)
    requires BLOCK + (inodes + 7) / 8 <= img.Length && 2 * BLOCK + (blocks + 7) / 8 <= img.Length
    requires forall j :: 0 <= j < img.Length ==> img[j] == 0
    modifies img
    ensures BitmapsOver(img[..], inodes, blocks)
  {
    hide BitAt;
    ghost var zero := img[..];
    SetBits(img, 1, inodes);
    ghost var mid := img[..];
    SetBits(img, 2, blocks);
    forall p: nat | p < 8 * |img[..]|
      ensures BitAt(img[..], p) <==> 8 * BLOCK <= p < 8 * BLOCK + inodes || 16 * BLOCK <= p < 16 * BLOCK + blocks
    {
      NoBit(zero, p);
      assert BitAt(mid, p) <==> BitAt(zero, p) || 8 * BLOCK <= p < 8 * BLOCK + inodes;
    }
  }

  lemma NoBit(zero: seq<byte>, p: nat)
    requires p < 8 * |zero| && forall j :: 0 <= j < |zero| ==> zero[j] == 0
    ensures !BitAt(zero, p)
  {
    ZeroBit(p % 8);
  }

  lemma {:induction false} ZeroBit(k: nat)
    ensures !BitOf(0, k)
  {
    if k > 0 {
      ZeroBit(k - 1);
    }
  }

  // ---- the bitmaps say exactly what the passes use ----

  /** Both passes leave the blocks before the inode table alone. */
  lemma {:induction false} PassesMissBitmaps(base: seq<byte>, t: Tree, now: u64, lo: nat, hi: nat)
    requires Sized(t) && Numbered(t) && Room(base, t) && lo <= hi <= TABLE_START * BLOCK
    ensures Image(base, t, now)[lo..hi] == base[lo..hi]
  {
    hide AfterBlocks, ApplyLists, DirTableList, FileTableList, AllMiss, SpanSum;
    forall i | 0 <= i < |t.dirs|
      ensures AllMiss(DirTableList(t, now)[i], lo, hi)
    {
      DirInodeMisses(t, now, i, lo, hi);
    }
    ListsUntouched(base, DirTableList(t, now), lo, hi);
    var mid := ApplyLists(base, DirTableList(t, now));
    forall i | 0 <= i < |t.files|
      ensures AllMiss(FileTableList(t, now)[i], lo, hi)
    {
      FileInodeMisses(t, now, i, lo, hi);
    }
    ListsUntouched(mid, FileTableList(t, now), lo, hi);
    BlocksMissTable(AfterTable(base, t, now), t, lo, hi);
  }

  lemma DirInodeMisses(t: Tree, now: u64, i: nat, lo: nat, hi: nat)
    requires Sized(t) && Numbered(t) && i < |t.dirs| && hi <= TABLE_START * BLOCK
    ensures AllMiss(DirTableList(t, now)[i], lo, hi)
  {
    hide InodeBytes;
    assert 1 <= Ino(t, i) < t.nextIno;
    InodeInTable(t, t.dirs[i].ino);
  }

  lemma FileInodeMisses(t: Tree, now: u64, i: nat, lo: nat, hi: nat)
    requires Sized(t) && Numbered(t) && i < |t.files| && hi <= TABLE_START * BLOCK
    ensures AllMiss(FileTableList(t, now)[i], lo, hi)
  {
    hide InodeBytes, SpanSum;
    assert 1 <= Ino(t, |t.dirs| + i) < t.nextIno;
    InodeInTable(t, t.files[i].ino);
    FilesInOrder(t, i, i + 1);
    FileTableMisses(t, now, i, lo, hi);
  }

  /** Who uses data block `b`: a directory, a file's data, or a file's indirect table. */
  datatype Owner = OfDir(i: nat) | OfFile(i: nat, k: nat) | OfTable(i: nat)

  ghost predicate Uses(t: Tree, o: Owner, b: nat) {
    match o
    case OfDir(i) => i < |t.dirs| && b == i
    case OfFile(i, k) =>
      && i < |t.files| && k < BlocksOf(t.files[i])
      && DataStart(t) + b == PlaceOf(FileStart(t, i), k)
    case OfTable(i) =>
      && i < |t.files| && BlocksOf(t.files[i]) > DIRECT
      && DataStart(t) + b == FileStart(t, i) + DIRECT
  }

  /** The blocks counted for the image are the blocks the passes use: each has an owner. */
  lemma {:induction false} EveryBlockOwned(t: Tree, b: nat) returns (o: Owner)
    requires b < Needed(t)
    ensures Uses(t, o, b)
  {
    hide DataStart, SpanSum, BlocksOf;
    if b < |t.dirs| {
      o := OfDir(b);
    } else {
      var i := FindFile(t.files, b - |t.dirs|, |t.files|);
      FilesInOrder(t, i, i + 1);
      var x := b - |t.dirs| - SpanSum(t.files, i);
      if x < DIRECT {
        o := OfFile(i, x);
      } else if x == DIRECT {
        o := OfTable(i);
      } else {
        o := OfFile(i, x - 1);
      }
    }
  }

  lemma {:induction false} FindFile(files: seq<File>, x: nat, n: nat) returns (i: nat)
    requires n <= |files| && x < SpanSum(files, n)
    ensures i < n && SpanSum(files, i) <= x < SpanSum(files, i) + Span(files[i])
    decreases n
  {
    hide Span;
    if x < SpanSum(files, n - 1) {
      i := FindFile(files, x, n - 1);
    } else {
      i := n - 1;
    }
  }

  /** No block is used twice, and none outside the count is used. */
  lemma {:induction false} OwnersDistinct(t: Tree, o: Owner, p: Owner, b: nat)
    requires Uses(t, o, b) && Uses(t, p, b)
    ensures o == p && b < Needed(t)
  {
    hide DataStart, SpanSum, BlocksOf;
    OwnerInFile(t, o, b);
    OwnerInFile(t, p, b);
    if !o.OfDir? && !p.OfDir? {
      if o.i < p.i {
        FilesInOrder(t, o.i, p.i);
      } else if p.i < o.i {
        FilesInOrder(t, p.i, o.i);
      }
    }
  }

  lemma OwnerInFile(t: Tree, o: Owner, b: nat)
    requires Uses(t, o, b)
    ensures b < Needed(t)
    ensures o.OfDir? <==> b < |t.dirs|
    ensures !o.OfDir? ==>
              FileStart(t, o.i) <= DataStart(t) + b < FileStart(t, o.i) + Span(t.files[o.i])
  {
    hide DataStart, SpanSum, BlocksOf;
    if !o.OfDir? {
      FilesInOrder(t, o.i, o.i + 1);
    }
  }

  lemma SameBit(x: seq<byte>, y: seq<byte>, lo: nat, hi: nat, p: nat)
    requires lo <= hi <= |x| && hi <= |y| && x[lo..hi] == y[lo..hi] && 8 * lo <= p < 8 * hi
    ensures BitAt(x, p) <==> BitAt(y, p)
  {
    hide BitOf;
    assert x[lo..hi][p / 8 - lo] == y[lo..hi][p / 8 - lo];
  }

  /**
   The finished image's inode bitmap marks the numbers handed out. Its data bitmap marks a
   block when a directory, a file or an indirect table uses it, and also where the inode
   bitmap has run over into it.
   */
  lemma {:induction false} BitmapsExact(base: seq<byte>, t: Tree, now: u64, i: nat)
    requires Sized(t) && Numbered(t) && Room(base, t) && i < 8 * BLOCK
    requires BitmapsOver(base, t.nextIno, Needed(t))
    ensures Marked(Image(base, t, now), 1, i) <==> i < t.nextIno
    ensures Marked(Image(base, t, now), 2, i) <==> (exists o :: Uses(t, o, i)) || 8 * BLOCK + i < t.nextIno
  {
    hide Image, BitAt, Uses, Needed, DataStart;
    var img := Image(base, t, now);
    PassesMissBitmaps(base, t, now, BLOCK, 3 * BLOCK);
    SameBit(img, base, BLOCK, 3 * BLOCK, 8 * BLOCK + i);
    SameBit(img, base, BLOCK, 3 * BLOCK, 16 * BLOCK + i);
    UsedIff(t, i);
  }

  // ---- the whole build ----

  /** Reading any file at any offset and length gives its bytes, as far as the indirect table reaches. */
  ghost predicate FilesReadBack(img: seq<byte>, t: Tree) {
    forall i: nat, off: u32, len: u32 :: i < |t.files| ==>
      KernelRead(img, t, t.files[i].ino, off, len)
      == Ok(if off <= End(|t.files[i].data|, off, len)
            then t.files[i].data[off..End(|t.files[i].data|, off, len)] else [])
  }

  /** Looking up any name in any directory gives its first record's inode, or "no entry". */
  ghost predicate NamesFound(img: seq<byte>, t: Tree) {
    forall i: nat, name: seq<byte> :: i < |t.dirs| ==>
      LookupIn(img, Super(TABLE_START, t.nextIno + SPARE_INODES), t.dirs[i].ino, name) == Named(t, i, name)
  }

  /** The data bitmap, however long, ends before the directory blocks. */
  predicate BitmapsClear(t: Tree) {
    16 * BLOCK + Needed(t) <= 8 * DataStart(t) * BLOCK
  }

  ghost predicate BitmapRight(img: seq<byte>, t: Tree)
    requires 3 * BLOCK <= |img|
  {
    forall b: nat :: b < 8 * BLOCK ==> (Marked(img, 2, b) <==> exists o :: Uses(t, o, b))
  }

  lemma ReadsRight(base: seq<byte>, t: Tree, now: u64)
    requires Sized(t) && Numbered(t) && Room(base, t)
    ensures FilesReadBack(Image(base, t, now), t)
  {
    hide Image, DataStart, KernelRead, End;
    var img := Image(base, t, now);
    forall i: nat, off: u32, len: u32 | i < |t.files|
      ensures KernelRead(img, t, t.files[i].ino, off, len)
              == Ok(if off <= End(|t.files[i].data|, off, len)
                    then t.files[i].data[off..End(|t.files[i].data|, off, len)] else [])
    {
      BuiltFileReads(base, t, now, i, off, len);
    }
  }

  lemma {:induction false} NamesRight(base: seq<byte>, t: Tree, now: u64)
    requires Sized(t) && Numbered(t) && Room(base, t) && Listed(t) && BitmapsClear(t)
    requires BitmapsOver(base, t.nextIno, Needed(t))
    ensures NamesFound(Image(base, t, now), t)
  {
    hide Image, DataStart, Needed, LookupIn, Named, BitmapsOver, Blank, Listed;
    forall i: nat, name: seq<byte> | i < |t.dirs|
      ensures LookupIn(Image(base, t, now), Super(TABLE_START, t.nextIno + SPARE_INODES), t.dirs[i].ino, name)
              == Named(t, i, name)
    {
      BlockInside(base, t, i);
      BlankBehindBitmaps(base, t, i);
      NamesResolve(base, t, now, i, name);
    }
  }

  lemma {:induction false} BlankBehindBitmaps(base: seq<byte>, t: Tree, i: nat)
    requires BitmapsOver(base, t.nextIno, Needed(t)) && BitmapsClear(t) && (DataStart(t) + i + 1) * BLOCK <= |base|
    ensures Blank(base, t, i)
  {
    hide Needed, BitAt;
    InodeBitsClear(t);
    forall p | (DataStart(t) + i) * BLOCK <= p < (DataStart(t) + i + 1) * BLOCK
      ensures base[p] == 0
    {
      assert forall q: nat :: 8 * p <= q < 8 * (p + 1) ==> !BitAt(base, q);
      NoBitsNoByte(base, p);
    }
  }

  lemma InodeBitsClear(t: Tree)
    ensures 8 * BLOCK + t.nextIno <= 8 * DataStart(t) * BLOCK
  {
    DivCeilCovers(t.nextIno + SPARE_INODES, INODES_PER_BLOCK);
  }

  lemma NoBitsNoByte(img: seq<byte>, p: nat)
    requires p < |img| && forall q: nat :: 8 * p <= q < 8 * (p + 1) ==> !BitAt(img, q)
    ensures img[p] == 0
  {
    hide BitOf;
    forall k: nat | k < 8
      ensures !BitOf(img[p], k)
    {
      assert !BitAt(img, 8 * p + k);
    }
    assert Power(8) == 256;
    NoBits(img[p], 8);
  }

  lemma {:induction false} NoBits(b: nat, n: nat)
    requires b < Power(n) && forall k: nat :: k < n ==> !BitOf(b, k)
    ensures b == 0
  {
    if n > 0 {
      assert !BitOf(b, 0);
      forall k: nat | k < n - 1
        ensures !BitOf(b / 2, k)
      {
        assert !BitOf(b, k + 1);
      }
      NoBits(b / 2, n - 1);
    }
  }

  /**
   The data bitmap is right exactly when the inode bitmap does not run over past the blocks
   in use: always up to 32768 inodes, and beyond only with as many more blocks in use.
   */
  lemma {:induction false} BitmapRightIff(base: seq<byte>, t: Tree, now: u64)
    requires Sized(t) && Numbered(t) && Room(base, t) && BitmapsOver(base, t.nextIno, Needed(t))
    ensures BitmapRight(Image(base, t, now), t) <==> Min(t.nextIno, 16 * BLOCK) <= 8 * BLOCK + Needed(t)
  {
    hide Image, Uses, Needed, DataStart, Marked, BitmapsOver;
    var img := Image(base, t, now);
    forall b: nat | b < 8 * BLOCK
      ensures Marked(img, 2, b) <==> (exists o :: Uses(t, o, b)) || 8 * BLOCK + b < t.nextIno
      ensures (exists o :: Uses(t, o, b)) <==> b < Needed(t)
    {
      BitmapsExact(base, t, now, b);
      UsedIff(t, b);
    }
    if Min(t.nextIno, 16 * BLOCK) > 8 * BLOCK + Needed(t) {
      assert Marked(img, 2, Needed(t)) && !exists o :: Uses(t, o, Needed(t));
    }
  }

  lemma UsedIff(t: Tree, b: nat)
    ensures (exists o :: Uses(t, o, b)) <==> b < Needed(t)
  {
    hide Uses, Needed;
    if b < Needed(t) {
      var o := EveryBlockOwned(t, b);
      assert Uses(t, o, b);
    }
    forall o | Uses(t, o, b)
      ensures b < Needed(t)
    {
      OwnersDistinct(t, o, o, b);
    }
  }

  /** A manifest of empty files in the root directory. */
  predicate OnlyEmptyFiles(adds: seq<Addition>) {
    forall i :: 0 <= i < |adds| ==> adds[i].NewFile? && adds[i].parent == 0 && adds[i].data == []
  }

  lemma {:induction false} EmptyTree(adds: seq<Addition>)
    requires OnlyEmptyFiles(adds) && |adds| < U32 - 2
    ensures Placeable(adds) && DirCount(adds) == 1
    ensures forall k :: 0 <= k < |FromManifest(adds).files| ==> FromManifest(adds).files[k].data == []
    decreases |adds|
  {
    if adds != [] {
      EmptyTree(adds[..|adds| - 1]);
    }
  }

  lemma {:induction false} NoSpans(files: seq<File>, i: nat)
    requires i <= |files| && forall k :: 0 <= k < |files| ==> files[k].data == []
    ensures SpanSum(files, i) == 0
    decreases i
  {
    if i > 0 {
      NoSpans(files, i - 1);
    }
  }

  /** The failing case: a manifest of 32768 empty files or more marks blocks nobody uses. */
  lemma {:induction false} EmptyFilesOverrun(base: seq<byte>, adds: seq<Addition>, now: u64)
    requires OnlyEmptyFiles(adds) && 8 * BLOCK <= |adds| && Placeable(adds)
    requires Room(base, FromManifest(adds))
    requires BitmapsOver(base, FromManifest(adds).nextIno, Needed(FromManifest(adds)))
    ensures Sized(FromManifest(adds)) && Numbered(FromManifest(adds)) && 3 * BLOCK <= |base|
    ensures !BitmapRight(Image(base, FromManifest(adds), now), FromManifest(adds))
  {
    hide BitmapsOver, BitmapRight, Image, FromManifest, Numbered;
    var t := FromManifest(adds);
    EmptyTree(adds);
    ManifestNumbered(adds);
    NoSpans(t.files, |t.files|);
    BitmapRightIff(base, t, now);
  }

  /** The data blocks the image needs: one a directory, and each file's blocks and table. */
  method CountBlocks(t: Tree) returns (n: nat)
    ensures n == Needed(t)
  {
    n := 0;
    for i := 0 to |t.dirs|
      invariant n == i
    {
      n := n + 1;
    }
    for i := 0 to |t.files|
      invariant n == |t.dirs| + SpanSum(t.files, i)
    {
      var blocks := BlocksOf(t.files[i]);
      n := n + blocks;
      if blocks > DIRECT {
        n := n + 1;
      }
    }
  }

  /** Bitmaps, then both passes, over a zeroed image. */
  method Build(t: Tree, now: u64) returns (img: array<byte>)
    requires Sized(t) && Numbered(t)
    ensures fresh(img) && img.Length == TotalBlocks(t) * BLOCK
    ensures FilesReadBack(img[..], t)
    ensures Listed(t) && BitmapsClear(t) ==> NamesFound(img[..], t)
    ensures BitmapRight(img[..], t) <==> Min(t.nextIno, 16 * BLOCK) <= 8 * BLOCK + Needed(t)
  {
    hide AfterTable, AfterBlocks, Needed, FilesReadBack, BitmapRight, BitmapsOver, NamesFound, Listed, BitmapsClear;
    var needed := CountBlocks(t);
    img := new byte[(DataStart(t) + needed + RESERVED_BLOCKS) * BLOCK](_ => 0);
    BitmapsFit(t);
    WriteBitmaps(img, t.nextIno, needed);
    ghost var base := img[..];
    WriteTable(img, t, now);
    WriteBlocks(img, t);
    ReadsRight(base, t, now);
    if Listed(t) && BitmapsClear(t) {
      NamesRight(base, t, now);
    }
    BitmapRightIff(base, t, now);
  }

  /** Even a bitmap that runs over stays inside the image. */
  lemma BitmapsFit(t: Tree)
    ensures BLOCK + (t.nextIno + 7) / 8 <= TotalBlocks(t) * BLOCK
    ensures 2 * BLOCK + (Needed(t) + 7) / 8 <= TotalBlocks(t) * BLOCK
  {
    hide SpanSum;
  }

  // ---- version 1 ----

  /** First block of file `i` as the version 1 table pass counts: only direct blocks. */
  function TableStartV1(files: seq<File>, start: nat, i: nat): (b: nat)
    requires i <= |files|
  {
    if i == 0 then start else TableStartV1(files, start, i - 1) + Min(BlocksOf(files[i - 1]), DIRECT)
  }

  /** And as the version 1 block pass counts: every block. */
  function DataStartV1(files: seq<File>, start: nat, i: nat): (b: nat)
    requires i <= |files|
  {
    if i == 0 then start else DataStartV1(files, start, i - 1) + BlocksOf(files[i - 1])
  }

  /** In a version 1 image the passes agree on file `i` exactly when no earlier file outgrows the direct window. */
  lemma {:induction false} PassesAgreeV1Iff(files: seq<File>, start: nat, i: nat)
    requires i <= |files|
    ensures TableStartV1(files, start, i) <= DataStartV1(files, start, i)
    ensures TableStartV1(files, start, i) == DataStartV1(files, start, i)
        <==> forall j :: 0 <= j < i ==> BlocksOf(files[j]) <= DIRECT
    decreases i
  {
    hide BlocksOf;
    if i > 0 {
      PassesAgreeV1Iff(files, start, i - 1);
    }
  }
}
