/** Images as byte sequences changed by in-order writes. */
module Disk {
  import opened Bytes

  const BLOCK: nat := 4096

  datatype Write = Write(off: nat, data: seq<byte>)

  ghost predicate Fits(w: Write, size: nat) {
    w.off + |w.data| <= size
  }

  /** One write; a write outside the image changes nothing here (the tool never issues one). */
  ghost function Poke(img: seq<byte>, w: Write): (r: seq<byte>)
    ensures |r| == |img|
  {
    if Fits(w, |img|) then Patch(img, w.off, w.data) else img
  }

  ghost function ApplyAll(img: seq<byte>, ws: seq<Write>): (r: seq<byte>)
    ensures |r| == |img|
    decreases |ws|
  {
    if ws == [] then img else Poke(ApplyAll(img, ws[..|ws| - 1]), ws[|ws| - 1])
  }

  ghost function ApplyLists(img: seq<byte>, ls: seq<seq<Write>>): (r: seq<byte>)
    ensures |r| == |img|
    decreases |ls|
  {
    if ls == [] then img else ApplyAll(ApplyLists(img, ls[..|ls| - 1]), ls[|ls| - 1])
  }

  /** The write leaves the range alone. */
  ghost predicate Misses(w: Write, lo: nat, hi: nat) {
    w.data == [] || w.off + |w.data| <= lo || hi <= w.off
  }

  ghost predicate AllMiss(ws: seq<Write>, lo: nat, hi: nat) {
    forall i :: 0 <= i < |ws| ==> Misses(ws[i], lo, hi)
  }

  /** Every write of the list stays inside the range. */
  ghost predicate Within(ws: seq<Write>, lo: nat, hi: nat) {
    forall i :: 0 <= i < |ws| ==> ws[i].data == [] || (lo <= ws[i].off && ws[i].off + |ws[i].data| <= hi)
  }

  lemma WithinMisses(ws: seq<Write>, lo: nat, hi: nat, a: nat, b: nat)
    requires Within(ws, lo, hi) && (hi <= a || b <= lo)
    ensures AllMiss(ws, a, b)
  {
  }

  lemma PokeMiss(img: seq<byte>, w: Write, lo: nat, hi: nat)
    requires lo <= hi <= |img| && Misses(w, lo, hi)
    ensures Poke(img, w)[lo..hi] == img[lo..hi]
  {
    var r := Poke(img, w);
    if Fits(w, |img|) {
      if w.data == [] {
        assert r == img;
      } else {
        assert forall i :: lo <= i < hi ==> r[i] == img[i];
      }
    }
  }

  lemma PokeHit(img: seq<byte>, w: Write, lo: nat, hi: nat)
    requires Fits(w, |img|) && w.off <= lo <= hi <= w.off + |w.data|
    ensures Poke(img, w)[lo..hi] == w.data[lo - w.off..hi - w.off]
  {
    hide Patch;
    var r := Poke(img, w);
    assert r[w.off..w.off + |w.data|] == w.data;
    SliceOfSlice(r, w.off, w.off + |w.data|, lo - w.off, hi - w.off);
  }

  lemma {:induction false} ApplyMiss(img: seq<byte>, ws: seq<Write>, lo: nat, hi: nat)
    requires lo <= hi <= |img| && AllMiss(ws, lo, hi)
    ensures ApplyAll(img, ws)[lo..hi] == img[lo..hi]
    decreases |ws|
  {
    hide Poke;
    if ws != [] {
      var n := |ws| - 1;
      ApplyMiss(img, ws[..n], lo, hi);
      PokeMiss(ApplyAll(img, ws[..n]), ws[n], lo, hi);
    }
  }

  lemma ApplySnoc(img: seq<byte>, ws: seq<Write>, i: nat)
    requires i < |ws|
    ensures ApplyAll(img, ws[..i + 1]) == Poke(ApplyAll(img, ws[..i]), ws[i])
  {
    assert ws[..i + 1][..i] == ws[..i];
  }

  lemma ApplyNothing(img: seq<byte>, ws: seq<Write>)
    ensures ApplyAll(img, ws[..0]) == img
  {
  }

  /** Two writes in a row. */
  lemma ApplyPair(img: seq<byte>, a: Write, b: Write)
    ensures ApplyAll(img, [a, b]) == Poke(Poke(img, a), b)
  {
    hide Poke;
    var ws := [a, b];
    ApplyNothing(img, ws);
    ApplySnoc(img, ws, 0);
    ApplySnoc(img, ws, 1);
    assert ws[..2] == ws;
  }

  /** A range written by write `i` and missed by everything after it. */
  lemma {:induction false} ApplyHit(img: seq<byte>, ws: seq<Write>, i: nat, lo: nat, hi: nat)
    requires i < |ws| && Fits(ws[i], |img|) && ws[i].off <= lo <= hi <= ws[i].off + |ws[i].data|
    requires forall j :: i < j < |ws| ==> Misses(ws[j], lo, hi)
    ensures ApplyAll(img, ws)[lo..hi] == ws[i].data[lo - ws[i].off..hi - ws[i].off]
    decreases |ws|
  {
    hide Poke, Misses;
    var n := |ws| - 1;
    if i == n {
      PokeHit(ApplyAll(img, ws[..n]), ws[n], lo, hi);
    } else {
      ApplyHit(img, ws[..n], i, lo, hi);
      PokeMiss(ApplyAll(img, ws[..n]), ws[n], lo, hi);
    }
  }

  /** The same, when the data written is itself part of something larger. */
  lemma ApplyHitPart(img: seq<byte>, ws: seq<Write>, i: nat, whole: seq<byte>, from: nat, lo: nat, rel: nat, c: nat)
    requires i < |ws| && Fits(ws[i], |img|) && lo == ws[i].off + rel && rel + c <= |ws[i].data|
    requires from + |ws[i].data| <= |whole| && ws[i].data == whole[from..from + |ws[i].data|]
    requires forall j :: i < j < |ws| ==> Misses(ws[j], lo, lo + c)
    ensures ApplyAll(img, ws)[lo..lo + c] == whole[from + rel..from + rel + c]
  {
    hide ApplyAll, Misses;
    ApplyHit(img, ws, i, lo, lo + c);
    PartOf(whole, ws[i].data, from, rel, c);
  }

  lemma PartOf(whole: seq<byte>, part: seq<byte>, from: nat, rel: nat, c: nat)
    requires from + |part| <= |whole| && part == whole[from..from + |part|] && rel + c <= |part|
    ensures part[rel..rel + c] == whole[from + rel..from + rel + c]
  {
    SliceOfSlice(whole, from, from + |part|, rel, rel + c);
  }

  ghost predicate ListsMiss(ls: seq<seq<Write>>, lo: nat, hi: nat) {
    forall i :: 0 <= i < |ls| ==> AllMiss(ls[i], lo, hi)
  }

  lemma {:induction false} ListsUntouched(img: seq<byte>, ls: seq<seq<Write>>, lo: nat, hi: nat)
    requires lo <= hi <= |img| && ListsMiss(ls, lo, hi)
    ensures ApplyLists(img, ls)[lo..hi] == img[lo..hi]
    decreases |ls|
  {
    hide ApplyAll, AllMiss;
    if ls != [] {
      var n := |ls| - 1;
      ListsUntouched(img, ls[..n], lo, hi);
      ApplyMiss(ApplyLists(img, ls[..n]), ls[n], lo, hi);
    }
  }

  /** A range that no list after list `i` touches holds what list `i` left there. */
  lemma {:induction false} ListsLast(img: seq<byte>, ls: seq<seq<Write>>, i: nat, lo: nat, hi: nat)
    requires i < |ls| && lo <= hi <= |img|
    requires forall j :: i < j < |ls| ==> AllMiss(ls[j], lo, hi)
    ensures ApplyLists(img, ls)[lo..hi] == ApplyAll(ApplyLists(img, ls[..i]), ls[i])[lo..hi]
    decreases |ls|
  {
    hide ApplyAll, AllMiss;
    var n := |ls| - 1;
    if i < n {
      ListsLast(img, ls[..n], i, lo, hi);
      assert ls[..n][..i] == ls[..i];
      ApplyMiss(ApplyLists(img, ls[..n]), ls[n], lo, hi);
    }
  }

  lemma ListsSnoc(img: seq<byte>, ls: seq<seq<Write>>, i: nat)
    requires i < |ls|
    ensures ApplyLists(img, ls[..i + 1]) == ApplyAll(ApplyLists(img, ls[..i]), ls[i])
  {
    assert ls[..i + 1][..i] == ls[..i];
  }

  lemma ListsNothing(img: seq<byte>, ls: seq<seq<Write>>)
    ensures ApplyLists(img, ls[..0]) == img
  {
  }

  // ---- little-endian tables ----

  function Words(xs: seq<u32>): (rs: seq<seq<byte>>)
    ensures |rs| == |xs| && forall i :: 0 <= i < |xs| ==> rs[i] == ToLe32(xs[i])
  {
    seq(|xs|, i requires 0 <= i < |xs| => ToLe32(xs[i]))
  }

  /** Little-endian words end to end. */
  function WordBytes(xs: seq<u32>): (b: seq<byte>) {
    Flatten(Words(xs))
  }

  lemma WordBytesLength(xs: seq<u32>)
    ensures |WordBytes(xs)| == 4 * |xs|
  {
    FlattenLength(Words(xs), 4);
  }

  lemma WordBytesAt(xs: seq<u32>, i: nat)
    requires i < |xs|
    ensures 4 * i + 4 <= |WordBytes(xs)| && WordBytes(xs)[4 * i..4 * i + 4] == ToLe32(xs[i])
  {
    FlattenAt(Words(xs), 4, i, 4 * i);
  }

  lemma WordBytesSnoc(xs: seq<u32>, i: nat)
    requires i < |xs|
    ensures WordBytes(xs[..i + 1]) == WordBytes(xs[..i]) + ToLe32(xs[i])
  {
    var rs := Words(xs[..i + 1]);
    assert rs[..i] == Words(xs[..i]);
  }
}
