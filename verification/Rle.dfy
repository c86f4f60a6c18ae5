/**
 The run-length coder shared by the OnyxExec converter and the snapshot
 subsystem. `Compress` is the packet stream the encoder emits, `Expand` the
 meaning of a packet stream; the encoder and both kernel decoders are proved
 against these two.
 */
module Rle {
  import opened Bytes

  const MAX_PACKET: nat := 128
  const MIN_RUN: nat := 3

  // ---- the packet language ----

  /** A whole packet stands at the front of `s`. */
  predicate HasPacket(s: seq<byte>) {
    s != [] && if s[0] >= 0x80 then |s| >= 2 else |s| >= s[0] + 2
  }

  function PacketLen(s: seq<byte>): (n: nat)
    requires HasPacket(s)
    ensures 2 <= n <= |s|
  {
    if s[0] >= 0x80 then 2 else s[0] + 2
  }

  /** The bytes the first packet of `s` stands for. */
  function PacketMeaning(s: seq<byte>): (v: seq<byte>)
    requires HasPacket(s)
    ensures v != []
  {
    if s[0] >= 0x80 then Fill(s[0] - 0x80 + 1, s[1]) else s[1..s[0] + 2]
  }

  /** Meaning of a packet stream; None when the stream is truncated. */
  function Expand(s: seq<byte>): (r: Option<seq<byte>>)
    decreases |s|
  {
    if s == [] then Some([])
    else if !HasPacket(s) then None
    else
      match Expand(s[PacketLen(s)..])
      case None => None
      case Some(rest) => Some(PacketMeaning(s) + rest)
  }

  /** A packet in front of a stream contributes its own meaning and nothing else. */
  lemma ExpandCons(packet: seq<byte>, rest: seq<byte>)
    requires HasPacket(packet) && PacketLen(packet) == |packet|
    ensures HasPacket(packet + rest)
    ensures Expand(rest).Some? ==> Expand(packet + rest) == Some(PacketMeaning(packet) + Expand(rest).value)
    ensures Expand(rest).None? ==> Expand(packet + rest).None?
  {
    var s := packet + rest;
    assert s[0] == packet[0] && s[1] == packet[1];
    assert s[|packet|..] == rest;
    assert s[1..|packet|] == packet[1..|packet|];
  }

  /** Whole-packet streams concatenate, and so do their meanings. */
  lemma {:induction false} ExpandConcat(a: seq<byte>, b: seq<byte>)
    requires Expand(a).Some?
    ensures Expand(b).Some? <==> Expand(a + b).Some?
    ensures Expand(b).Some? ==> Expand(a + b).value == Expand(a).value + Expand(b).value
    decreases |a|
  {
    if a == [] {
      assert a + b == b;
    } else {
      var packet, rest := a[..PacketLen(a)], a[PacketLen(a)..];
      FirstPacket(a);
      ExpandConcat(rest, b);
      ExpandCons(packet, rest + b);
      Assoc(packet, rest, b);
      if Expand(b).Some? {
        Assoc(PacketMeaning(packet), Expand(rest).value, Expand(b).value);
      }
    }
  }

  lemma FirstPacket(s: seq<byte>)
    requires HasPacket(s)
    ensures var p := s[..PacketLen(s)];
            HasPacket(p) && PacketLen(p) == |p| && PacketMeaning(p) == PacketMeaning(s)
            && s == p + s[PacketLen(s)..]
  {
  }

  // ---- the encoder ----

  /** Length of the run of equal bytes at `i`, counting on from `run`, at most `cap`. */
  function RunFrom(src: seq<byte>, i: nat, run: nat, cap: nat): (r: nat)
    requires i < |src| && i + run <= |src| && run <= cap
    requires forall j :: i <= j < i + run ==> src[j] == src[i]
    ensures run <= r <= cap && i + r <= |src|
    ensures forall j :: i <= j < i + r ==> src[j] == src[i]
    ensures r < cap && i + r < |src| ==> src[i + r] != src[i]
    decreases cap - run
  {
    if i + run < |src| && src[i + run] == src[i] && run < cap then RunFrom(src, i, run + 1, cap) else run
  }

  function Run(src: seq<byte>, i: nat, cap: nat): (r: nat)
    requires i < |src|
    ensures r <= cap && i + r <= |src|
  {
    RunFrom(src, i, 0, cap)
  }

  lemma RunIsUniform(src: seq<byte>, i: nat, cap: nat)
    requires i < |src|
    ensures forall j :: i <= j < i + Run(src, i, cap) ==> src[j] == src[i]
  {
  }

  /** A run packet starts at `i`. */
  predicate StartsRun(src: seq<byte>, i: nat)
    requires i < |src|
  {
    i + 2 < |src| && src[i] == src[i + 1] == src[i + 2]
  }

  lemma RunAtLeastThree(src: seq<byte>, i: nat, cap: nat)
    requires i < |src| && cap >= MIN_RUN
    ensures Run(src, i, cap) >= MIN_RUN <==> StartsRun(src, i)
    ensures Run(src, i, cap) >= 1
  {
    var r := Run(src, i, cap);
    assert r < cap && i + r < |src| ==> src[i + r] != src[i];
    assert r >= 2 ==> src[i + 1] == src[i];
    assert r >= 3 ==> src[i + 2] == src[i];
  }

  /** Length of the literal packet at `i`, counting on from `lit`: stops where a run starts. */
  function LitFrom(src: seq<byte>, i: nat, lit: nat): (r: nat)
    requires i + lit <= |src| && lit <= MAX_PACKET
    ensures lit <= r <= MAX_PACKET && i + r <= |src|
    ensures r < MAX_PACKET && i + r < |src| ==> StartsRun(src, i + r)
    decreases MAX_PACKET - lit
  {
    if i + lit < |src| && lit < MAX_PACKET && !StartsRun(src, i + lit) then LitFrom(src, i, lit + 1) else lit
  }

  /** How many input bytes the packet at `i` takes. */
  function Advance(src: seq<byte>, i: nat): (n: nat)
    requires i < |src|
    ensures 1 <= n <= MAX_PACKET && i + n <= |src|
    ensures n < MAX_PACKET && i + n < |src| && !StartsRun(src, i) ==> StartsRun(src, i + n)
    ensures StartsRun(src, i) ==> n == Run(src, i, MAX_PACKET) >= MIN_RUN
  {
    RunAtLeastThree(src, i, MAX_PACKET);
    if StartsRun(src, i) then Run(src, i, MAX_PACKET)
    else
      assert LitFrom(src, i, 0) == LitFrom(src, i, 1);
      LitFrom(src, i, 0)
  }

  /** The packet emitted at `i`. */
  function Packet(src: seq<byte>, i: nat): (p: seq<byte>)
    requires i < |src|
    ensures HasPacket(p) && PacketLen(p) == |p|
    ensures |p| == if StartsRun(src, i) then 2 else 1 + Advance(src, i)
    ensures PacketMeaning(p) == src[i..i + Advance(src, i)]
  {
    var n := Advance(src, i);
    if StartsRun(src, i) then
      assert Fill(n, src[i]) == src[i..i + n] by { RunIsUniform(src, i, MAX_PACKET); }
      [0x80 + (n - 1), src[i]]
    else
      [n - 1] + src[i..i + n]
  }

  /** Packets emitted for `src[i..]`. */
  function CompressFrom(src: seq<byte>, i: nat): (r: seq<byte>)
    requires i <= |src|
    decreases |src| - i
  {
    if i == |src| then [] else Packet(src, i) + CompressFrom(src, i + Advance(src, i))
  }

  function Compress(src: seq<byte>): (r: seq<byte>)
  {
    CompressFrom(src, 0)
  }

  lemma CompressFromUnfold(src: seq<byte>, i: nat)
    requires i <= |src|
    ensures i < |src| ==> CompressFrom(src, i) == Packet(src, i) + CompressFrom(src, i + Advance(src, i))
    ensures i == |src| ==> CompressFrom(src, i) == []
  {
  }

  lemma {:induction false} ExpandCompressFrom(src: seq<byte>, i: nat)
    requires i <= |src|
    ensures Expand(CompressFrom(src, i)) == Some(src[i..])
    decreases |src| - i
  {
    hide CompressFrom, Packet, Advance, Expand, PacketMeaning, PacketLen, HasPacket;
    CompressFromUnfold(src, i);
    if i < |src| {
      var next := i + Advance(src, i);
      ExpandCompressFrom(src, next);
      ExpandCons(Packet(src, i), CompressFrom(src, next));
      SplitAt(src, i, next);
    } else {
      ExpandNothing();
      assert src[i..] == [];
    }
  }

  lemma SplitAt(src: seq<byte>, i: nat, next: nat)
    requires i <= next <= |src|
    ensures src[i..] == src[i..next] + src[next..]
  {
  }

  /** Decoding inverts encoding, for every input. */
  lemma ExpandCompress(src: seq<byte>)
    ensures Expand(Compress(src)) == Some(src)
  {
    ExpandCompressFrom(src, 0);
    assert src[0..] == src;
  }

  /**
   Every 128 bytes of input pay for one tag byte. A literal packet shorter than
   128 is followed by a run packet, which pays back its tag, or by nothing.
   */
  lemma {:induction false} CompressFromBound(src: seq<byte>, i: nat)
    requires i <= |src|
    ensures SizeFrom(src, i) <= (|src| - i) + (|src| - i + 127) / 128
    ensures i == |src| || StartsRun(src, i) ==> SizeFrom(src, i) <= (|src| - i) + (|src| - i) / 128
    decreases |src| - i
  {
    hide Advance, StartsRun;
    if i < |src| {
      var n := Advance(src, i);
      CompressFromBound(src, i + n);
      var closed := i + n == |src| || StartsRun(src, i + n);
      BoundStep(|src| - i, n, StartsRun(src, i), closed, SizeFrom(src, i + n));
    }
  }

  /** Number of bytes emitted for `src[i..]`. */
  function SizeFrom(src: seq<byte>, i: nat): (n: nat)
    requires i <= |src|
    decreases |src| - i
  {
    if i == |src| then 0
    else (if StartsRun(src, i) then 2 else 1 + Advance(src, i)) + SizeFrom(src, i + Advance(src, i))
  }

  lemma {:induction false} SizeFromIsLength(src: seq<byte>, i: nat)
    requires i <= |src|
    ensures |CompressFrom(src, i)| == SizeFrom(src, i)
    decreases |src| - i
  {
    hide Advance, Packet;
    if i < |src| {
      SizeFromIsLength(src, i + Advance(src, i));
    }
  }

  lemma BoundStep(left: nat, n: nat, isRun: bool, closed: bool, rest: nat)
    requires 1 <= n <= left && n <= 128
    requires isRun ==> n >= 3
    requires !isRun && n < 128 ==> closed
    requires rest <= (left - n) + (left - n + 127) / 128
    requires closed ==> rest <= (left - n) + (left - n) / 128
    ensures (if isRun then 2 else 1 + n) + rest <= left + (left + 127) / 128
    ensures isRun ==> 2 + rest <= left + left / 128
  {
    if isRun {
      assert (left - n + 127) / 128 <= left / 128 + 1;
    } else if n == 128 {
      assert (left - n + 127) / 128 + 1 == (left + 127) / 128;
    } else {
      assert (left - n) / 128 + 1 <= (left + 127) / 128;
    }
  }

  /**
   One byte in 128 is added at most, rounded up; so the output fits the encoder's buffer of
   n + n/128 + 2 bytes with a byte to spare.
   */
  lemma CompressBound(src: seq<byte>)
    ensures |Compress(src)| <= |src| + (|src| + 127) / 128
    ensures |Compress(src)| <= |src| + |src| / 128 + 1
  {
    CompressFromBound(src, 0);
    SizeFromIsLength(src, 0);
  }

  lemma CompressNonEmpty(src: seq<byte>)
    ensures src != [] ==> Compress(src) != []
  {
  }

  /** Zeros and ones in turn: nothing to run together. */
  function Alternating(n: nat): (s: seq<byte>)
    ensures |s| == n
  {
    seq(n, (i: nat) => i % 2)
  }

  lemma NoRuns(n: nat, i: nat)
    requires i < n
    ensures !StartsRun(Alternating(n), i)
  {
    var s := Alternating(n);
    if i + 2 < n {
      assert s[i] == i % 2 && s[i + 1] == (i + 1) % 2;
    }
  }

  lemma {:induction false} LongLiterals(n: nat, i: nat, lit: nat)
    requires i + lit <= n && lit <= MAX_PACKET
    ensures LitFrom(Alternating(n), i, lit) == Min(MAX_PACKET, n - i)
    decreases MAX_PACKET - lit
  {
    hide StartsRun, Alternating;
    if i + lit < n && lit < MAX_PACKET {
      NoRuns(n, i + lit);
      LongLiterals(n, i, lit + 1);
    }
  }

  lemma {:induction false} AlternatingSize(n: nat, i: nat)
    requires i <= n
    ensures SizeFrom(Alternating(n), i) == (n - i) + (n - i + 127) / 128
    decreases n - i
  {
    hide StartsRun, Alternating, LitFrom;
    if i < n {
      NoRuns(n, i);
      LongLiterals(n, i, 0);
      AlternatingSize(n, i + Min(MAX_PACKET, n - i));
    }
  }

  /** The bound is reached at every length. */
  lemma {:induction false} CompressBoundIsTight(n: nat)
    ensures |Compress(Alternating(n))| == n + (n + 127) / 128
  {
    hide CompressFrom, SizeFrom, Alternating;
    AlternatingSize(n, 0);
    SizeFromIsLength(Alternating(n), 0);
  }

  /**
   The encoder. Its output buffer holds n + n/128 + 2 bytes and every write is
   an in-bounds store; the one-byte fallback for an empty literal is dead code.
   */
  method RleCompress(src: seq<byte>) returns (r: seq<byte>)
    ensures r == Compress(src)
    ensures Expand(r) == Some(src)
    ensures |r| <= |src| + |src| / 128 + 1
  {
    ExpandCompress(src);
    CompressBound(src);
    r := EmitAll(src);
  }

  method EmitAll(src: seq<byte>) returns (r: seq<byte>)
    requires |Compress(src)| <= |src| + |src| / 128 + 1
    ensures r == Compress(src)
  {
    hide Packet, Advance, CompressFrom, HasPacket, PacketLen, PacketMeaning, Patch;
    var maxDst := |src| + |src| / 128 + 2;
    var dst := new byte[maxDst](_ => 0);
    var i := 0;
    var out := 0;
    while i < |src|
      invariant 0 <= i <= |src| && 0 <= out <= dst.Length
      invariant dst[..out] + CompressFrom(src, i) == Compress(src)
      decreases |src| - i
    {
      ghost var buf := dst[..];
      ghost var packet, later := Packet(src, i), CompressFrom(src, i + Advance(src, i));
      CompressFromUnfold(src, i);
      Assoc(buf[..out], packet, later);
      assert |buf[..out]| + |packet| + |later| == |Compress(src)|;
      var taken, written := EmitPacket(src, i, dst, out);
      PatchPrefix(buf, out, packet);
      i := i + taken;
      out := out + written;
    }
    r := dst[..out];
    CompressFromUnfold(src, i);
    assert r + [] == r;
  }

  /** One turn of the encoder's loop: one packet written, the input consumed. */
  method EmitPacket(src: seq<byte>, i: nat, dst: array<byte>, out: nat) returns (taken: nat, written: nat)
    requires i < |src| && out + |Packet(src, i)| <= dst.Length
    modifies dst
    ensures taken == Advance(src, i) && written == |Packet(src, i)|
    ensures dst[..] == Patch(old(dst[..]), out, Packet(src, i))
  {
    hide Packet, Patch;
    var packet;
    packet, taken := NextPacket(src, i);
    CopyInto(dst, out, packet);
    written := |packet|;
  }

  method NextPacket(src: seq<byte>, i: nat) returns (packet: seq<byte>, taken: nat)
    requires i < |src|
    ensures packet == Packet(src, i) && taken == Advance(src, i)
  {
    hide HasPacket, PacketLen, PacketMeaning, RunFrom, LitFrom;
    var run := RunLength(src, i);
    RunAtLeastThree(src, i, MAX_PACKET);
    if run >= MIN_RUN {
      packet := [0x80 + (run - 1), src[i]];
      taken := run;
    } else {
      var lit := LiteralLength(src, i);
      assert lit == Advance(src, i) && lit != 0;
      packet := [lit - 1] + src[i..i + lit];
      taken := lit;
    }
  }

  /** The run-counting loop, at most 128 bytes long. */
  method RunLength(src: seq<byte>, i: nat) returns (run: nat)
    requires i < |src|
    ensures run == Run(src, i, MAX_PACKET)
  {
    run := 1;
    while i + run < |src| && src[i + run] == src[i] && run < MAX_PACKET
      invariant 1 <= run <= MAX_PACKET && i + run <= |src|
      invariant forall j :: i <= j < i + run ==> src[j] == src[i]
      invariant RunFrom(src, i, run, MAX_PACKET) == Run(src, i, MAX_PACKET)
    {
      run := run + 1;
    }
  }

  method LookAhead(src: seq<byte>, p: nat) returns (k: nat)
    requires p < |src|
    ensures k >= MIN_RUN <==> StartsRun(src, p)
  {
    k := 0;
    while p + k < |src| && src[p + k] == src[p] && k < MIN_RUN
      invariant 0 <= k <= MIN_RUN && p + k <= |src|
      invariant k >= 2 ==> src[p + 1] == src[p]
      invariant k >= 3 ==> src[p + 2] == src[p]
    {
      k := k + 1;
    }
  }

  /** The literal-collecting loop, with its three-byte look-ahead. */
  method LiteralLength(src: seq<byte>, i: nat) returns (lit: nat)
    requires i < |src|
    ensures lit == LitFrom(src, i, 0)
  {
    lit := 0;
    while i + lit < |src| && lit < MAX_PACKET
      invariant i + lit <= |src| && lit <= MAX_PACKET
      invariant LitFrom(src, i, lit) == LitFrom(src, i, 0)
    {
      var k := LookAhead(src, i + lit);
      if k >= MIN_RUN {
        break;
      }
      lit := lit + 1;
    }
  }

  // ---- the kernel decoders ----

  /**
   The snapshot decoder. A result of 0 reports overflow or truncation; any other
   result is the meaning of a whole-packet prefix of the input.
   */
  method RleDecompress(src: seq<byte>, dst: array<byte>) returns (out: nat)
    modifies dst
    ensures out <= dst.Length
    ensures Expand(src).Some? && |Expand(src).value| <= dst.Length
            ==> out == |Expand(src).value| && dst[..out] == Expand(src).value
    ensures out > 0 ==> exists k :: 0 <= k <= |src| && Expand(src[..k]) == Some(dst[..out])
  {
    hide Expand, PacketMeaning, Patch;
    var i := 0;
    out := 0;
    ExpandNothing();
    while i < |src| && out < dst.Length
      invariant 0 <= i <= |src| && out <= dst.Length
      invariant Expand(src[..i]) == Some(dst[..out])
      decreases |src| - i
    {
      ghost var buf := dst[..];
      assert buf[..out] == dst[..out];
      var ok, taken, count := DecodePacket(src, i, dst, out);
      if !ok {
        PrefixMeaning(src, i);
        TruncatedOrTooLong(src[i..]);
        out := 0;
        return;
      }
      PatchPrefix(buf, out, PacketMeaning(src[i..]));
      ExtendPrefix(src, i, buf[..out]);
      i := i + taken;
      out := out + count;
    }
    PrefixMeaning(src, i);
    assert i == |src| ==> src[..i] == src;
    TruncatedOrTooLong(src[i..]);
  }

  /** One turn of the decoder's loop; refuses when input or room runs out. */
  method DecodePacket(src: seq<byte>, i: nat, dst: array<byte>, out: nat)
    returns (ok: bool, taken: nat, count: nat)
    requires i < |src| && out < dst.Length
    modifies dst
    ensures ok <==> HasPacket(src[i..]) && out + |PacketMeaning(src[i..])| <= dst.Length
    ensures ok ==> taken == PacketLen(src[i..]) && count == |PacketMeaning(src[i..])|
    ensures ok ==> dst[..] == Patch(old(dst[..]), out, PacketMeaning(src[i..]))
  {
    var tag := src[i];
    count := if tag >= 0x80 then tag - 0x80 + 1 else tag + 1;
    if tag >= 0x80 {
      if i + 1 >= |src| || out + count > dst.Length {
        return false, 0, 0;
      }
      CopyInto(dst, out, Fill(count, src[i + 1]));
      return true, 2, count;
    } else {
      if i + 1 + count > |src| || out + count > dst.Length {
        return false, 0, 0;
      }
      assert src[i..][1..tag + 2] == src[i + 1..i + 1 + count];
      CopyInto(dst, out, src[i + 1..i + 1 + count]);
      return true, 1 + count, count;
    }
  }

  lemma ExpandNothing()
    ensures Expand([]) == Some([])
  {
  }

  lemma TruncatedOrTooLong(s: seq<byte>)
    ensures s != [] && Expand(s).Some? ==> HasPacket(s) && |Expand(s).value| >= |PacketMeaning(s)| > 0
  {
  }

  lemma PrefixMeaning(src: seq<byte>, i: nat)
    requires i <= |src| && Expand(src[..i]).Some?
    ensures Expand(src).Some? <==> Expand(src[i..]).Some?
    ensures Expand(src).Some? ==> Expand(src).value == Expand(src[..i]).value + Expand(src[i..]).value
  {
    assert src[..i] + src[i..] == src;
    ExpandConcat(src[..i], src[i..]);
  }

  lemma ExtendPrefix(src: seq<byte>, i: nat, done: seq<byte>)
    requires i < |src| && Expand(src[..i]) == Some(done) && HasPacket(src[i..])
    ensures var k := i + PacketLen(src[i..]); Expand(src[..k]) == Some(done + PacketMeaning(src[i..]))
  {
    hide Expand, PacketMeaning, PacketLen, HasPacket;
    var rest := src[i..];
    var k := PacketLen(rest);
    FirstPacket(rest);
    ExpandSingle(rest[..k]);
    ExpandConcat(src[..i], rest[..k]);
    assert src[..i] + rest[..k] == src[..i + k];
  }

  lemma ExpandSingle(packet: seq<byte>)
    requires HasPacket(packet) && PacketLen(packet) == |packet|
    ensures Expand(packet) == Some(PacketMeaning(packet))
  {
    ExpandCons(packet, []);
    assert packet + [] == packet;
    assert PacketMeaning(packet) + [] == PacketMeaning(packet);
  }

  /** The program loader's decoder: like `Expand`, but never writes past `room` bytes. */
  function LoadExpand(s: seq<byte>, room: nat): (r: Option<seq<byte>>)
    decreases |s|
  {
    if s == [] || room == 0 then Some([])
    else if s[0] >= 0x80 then
      if |s| < 2 then None
      else
        var left := Min(s[0] - 0x80 + 1, room);
        match LoadExpand(s[2..], room - left)
        case None => None
        case Some(rest) => Some(Fill(left, s[1]) + rest)
    else
      var left := Min(s[0] + 1, room);
      if 1 + left > |s| then None
      else
        match LoadExpand(s[1 + left..], room - left)
        case None => None
        case Some(rest) => Some(s[1..1 + left] + rest)
  }

  /** On a well-formed stream the loader produces exactly the meaning, clamped to its room. */
  lemma {:induction false} LoadExpandMeaning(s: seq<byte>, room: nat)
    requires Expand(s).Some?
    ensures LoadExpand(s, room) == Some(Expand(s).value[..Min(|Expand(s).value|, room)])
    decreases |s|
  {
    var v := Expand(s).value;
    if s == [] || room == 0 {
      assert v[..Min(|v|, room)] == [];
    } else {
      var head := PacketMeaning(s);
      var left := Min(|head|, room);
      var tail := s[PacketLen(s)..];
      var w := Expand(tail).value;
      assert v == head + w;
      if left == |head| {
        LoadExpandMeaning(tail, room - left);
        LoadWhole(s, room);
        TakeConcat(head, w, room);
      } else {
        assert v[..Min(|v|, room)] == head[..left] + [];
        LoadClamped(s, room);
      }
    }
  }

  lemma TakeConcat(head: seq<byte>, w: seq<byte>, room: nat)
    requires |head| <= room
    ensures (head + w)[..Min(|head + w|, room)] == head + w[..Min(|w|, room - |head|)]
  {
  }

  lemma LoadWhole(s: seq<byte>, room: nat)
    requires HasPacket(s) && |PacketMeaning(s)| <= room
    requires LoadExpand(s[PacketLen(s)..], room - |PacketMeaning(s)|).Some?
    ensures LoadExpand(s, room)
         == Some(PacketMeaning(s) + LoadExpand(s[PacketLen(s)..], room - |PacketMeaning(s)|).value)
  {
    var head := PacketMeaning(s);
    if s[0] >= 0x80 {
      assert Min(s[0] - 0x80 + 1, room) == |head|;
    } else {
      assert Min(s[0] + 1, room) == |head| && 1 + |head| == PacketLen(s);
    }
  }

  lemma LoadClamped(s: seq<byte>, room: nat)
    requires HasPacket(s) && 0 < room < |PacketMeaning(s)|
    ensures LoadExpand(s, room) == Some(PacketMeaning(s)[..room] + [])
  {
    if s[0] >= 0x80 {
      assert Fill(room, s[1]) == PacketMeaning(s)[..room];
    } else {
      assert s[1..1 + room] == PacketMeaning(s)[..room];
    }
  }
}
