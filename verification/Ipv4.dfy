/** IPv4 framing: what the sender builds, the receiver accepts and reads back. */
module Ipv4 {
  import opened Bytes
  import Checksum

  const ETH_HLEN := 14
  const IP_HLEN := 20
  const PAYLOAD_MAX := 1480

  datatype Packet = Packet(headerLen: nat, totalLen: nat, protocol: byte, source: seq<byte>, destination: seq<byte>)

  function Parse(frame: seq<byte>): (p: Option<Packet>)
    ensures p.Some? ==> 20 <= p.value.headerLen <= 60 && p.value.headerLen <= p.value.totalLen
                        && ETH_HLEN + p.value.totalLen <= |frame|
  {
    if |frame| < ETH_HLEN then None
    else
      var ip := frame[ETH_HLEN..];
      if |ip| < 20 || ip[0] / 16 != 4 || ip[8] == 0 then None
      else
        var headerLen: nat := ip[0] % 16 * 4;
        var totalLen: nat := Checksum.Word(ip[2], ip[3]);
        if headerLen < 20 || totalLen < headerLen || totalLen > |ip| then None
        else if Checksum.Sum(0, ip[..headerLen]) != 0 then None
        else if Checksum.Word(ip[6], ip[7]) % 0x4000 != 0 then None
        else Some(Packet(headerLen, totalLen, ip[9], ip[12..16], ip[16..20]))
  }

  /** The header before its checksum is stored. */
  function BareHeader(id: u16, protocol: byte, src: seq<byte>, dst: seq<byte>, payloadLen: nat): (h: seq<byte>)
    requires |src| == 4 && |dst| == 4
    ensures |h| == 20
  {
    var total := (IP_HLEN + payloadLen) % 0x10000;
    [0x45, 0, total / 256, total % 256, id / 256, id % 256, 0, 0, 64, protocol, 0, 0] + src + dst
  }

  /** The datagram handed to the link layer. */
  function Datagram(id: u16, protocol: byte, src: seq<byte>, dst: seq<byte>, payload: seq<byte>): (d: seq<byte>)
    requires |src| == 4 && |dst| == 4
    ensures |d| == IP_HLEN + |payload|
  {
    var bare := BareHeader(id, protocol, src, dst, |payload|);
    Checksum.WithField(bare, 10, Checksum.Sum(0, bare)) + payload
  }

  /** Fills the packet buffer the way the sender does, checksum last. */
  method Build(id: u16, protocol: byte, src: seq<byte>, dst: seq<byte>, payload: seq<byte>) returns (pkt: array<byte>)
    requires |src| == 4 && |dst| == 4
    ensures fresh(pkt) && pkt[..] == Datagram(id, protocol, src, dst, payload)
  {
    hide Checksum.Sum, Checksum.WithField, Patch, BareHeader;
    var total := IP_HLEN + |payload|;
    pkt := new byte[total](_ => 0);
    var field: u16 := total % 0x10000;
    var fixed: seq<byte> := [0x45, 0, field / 256, field % 256, id / 256, id % 256, 0, 0, 64, protocol, 0, 0];
    ghost var blank := pkt[..];
    CopyInto(pkt, 0, fixed);
    CopyInto(pkt, 12, src);
    CopyInto(pkt, 16, dst);
    CopyInto(pkt, 20, payload);
    ghost var bare := BareHeader(id, protocol, src, dst, |payload|);
    Laid(blank, fixed, src, dst, payload);
    IsBare(id, protocol, src, dst, |payload|);
    var ck := Checksum.Compute(pkt[..IP_HLEN]);
    CopyInto(pkt, 10, [ck / 256, ck % 256]);
    Sealed(bare, payload, ck);
  }

  /** Four copies, front to back, leave nothing of the old buffer. */
  lemma Laid(blank: seq<byte>, a: seq<byte>, b: seq<byte>, c: seq<byte>, d: seq<byte>)
    requires |a| == 12 && |b| == 4 && |c| == 4 && |blank| == 20 + |d|
    ensures Patch(Patch(Patch(Patch(blank, 0, a), 12, b), 16, c), 20, d) == a + b + c + d
    ensures (a + b + c + d)[..20] == a + b + c
  {
    var p1 := Patch(blank, 0, a);
    var p2 := Patch(p1, 12, b);
    var p3 := Patch(p2, 16, c);
    assert p2[..16] == a + b;
    assert p3[..20] == a + b + c;
  }

  lemma IsBare(id: u16, protocol: byte, src: seq<byte>, dst: seq<byte>, payloadLen: nat)
    requires |src| == 4 && |dst| == 4
    ensures var field := (IP_HLEN + payloadLen) % 0x10000;
            BareHeader(id, protocol, src, dst, payloadLen)
            == [0x45, 0, field / 256, field % 256, id / 256, id % 256, 0, 0, 64, protocol, 0, 0] + src + dst
  {
  }

  lemma Sealed(bare: seq<byte>, payload: seq<byte>, ck: u16)
    requires |bare| == 20
    ensures Patch(bare + payload, 10, [ck / 256, ck % 256]) == Checksum.WithField(bare, 10, ck) + payload
  {
  }

  /** The fields a receiver reads, at their offsets. */
  lemma HeaderFields(id: u16, protocol: byte, src: seq<byte>, dst: seq<byte>, payloadLen: nat, ck: u16)
    requires |src| == 4 && |dst| == 4
    ensures var h := Checksum.WithField(BareHeader(id, protocol, src, dst, payloadLen), 10, ck);
            && h[0] == 0x45 && h[6] == 0 && h[7] == 0 && h[8] == 64 && h[9] == protocol
            && Checksum.Word(h[2], h[3]) == (IP_HLEN + payloadLen) % 0x10000
            && h[12..16] == src && h[16..20] == dst
  {
  }

  lemma HeaderVerifies(id: u16, protocol: byte, src: seq<byte>, dst: seq<byte>, payloadLen: nat)
    requires |src| == 4 && |dst| == 4
    ensures var bare := BareHeader(id, protocol, src, dst, payloadLen);
            Checksum.Sum(0, Checksum.WithField(bare, 10, Checksum.Sum(0, bare))) == 0
  {
    Checksum.SealedVerifies(BareHeader(id, protocol, src, dst, payloadLen), 10);
  }

  /** Parsing a plain 20-byte header followed by anything. */
  lemma ParsePlain(link: seq<byte>, h: seq<byte>, rest: seq<byte>)
    requires |link| == ETH_HLEN && |h| == 20 && h[0] == 0x45 && h[6] == 0 && h[7] == 0 && h[8] != 0
    requires Checksum.Sum(0, h) == 0
    ensures var total: nat := Checksum.Word(h[2], h[3]);
            Parse(link + h + rest) ==
            if 20 <= total <= 20 + |rest| then Some(Packet(20, total, h[9], h[12..16], h[16..20])) else None
  {
    hide Checksum.Sum;
    var frame := link + h + rest;
    var ip := frame[ETH_HLEN..];
    assert ip == h + rest;
    assert ip[..20] == h;
    assert ip[12..16] == h[12..16] && ip[16..20] == h[16..20];
  }

  /**
   Send then receive: behind any link header, and with any trailing padding, the receiver
   reads back protocol, addresses and payload, exactly when the total length fits its field.
   */
  lemma {:induction false} SentIsReceived(link: seq<byte>, id: u16, protocol: byte, src: seq<byte>, dst: seq<byte>,
                                          payload: seq<byte>, padding: seq<byte>)
    requires |link| == ETH_HLEN && |src| == 4 && |dst| == 4
    ensures var frame := link + Datagram(id, protocol, src, dst, payload) + padding;
            var sent := Packet(20, IP_HLEN + |payload|, protocol, src, dst);
            && (Parse(frame) == Some(sent) <==> |payload| <= 65515)
            && frame[ETH_HLEN + sent.headerLen..ETH_HLEN + sent.totalLen] == payload
  {
    hide Checksum.Sum, BareHeader, Parse, Checksum.WithField, Checksum.Word;
    var bare := BareHeader(id, protocol, src, dst, |payload|);
    var header := Checksum.WithField(bare, 10, Checksum.Sum(0, bare));
    HeaderFields(id, protocol, src, dst, |payload|, Checksum.Sum(0, bare));
    HeaderVerifies(id, protocol, src, dst, |payload|);
    ParsePlain(link, header, payload + padding);
    Regroup(link, header, payload, padding);
    var frame := link + Datagram(id, protocol, src, dst, payload) + padding;
    assert frame == link + header + (payload + padding);
    assert frame[ETH_HLEN + 20..ETH_HLEN + (IP_HLEN + |payload|)] == payload;
    assert Parse(frame) == Some(Packet(20, IP_HLEN + |payload|, protocol, src, dst)) <==> |payload| <= 65515;
  }

  /** Behind any link header and before any padding, `d` parses to `p` and carries `payload`. */
  ghost predicate ReceivedAs(d: seq<byte>, p: Packet, payload: seq<byte>) {
    forall link: seq<byte>, padding: seq<byte> :: |link| == ETH_HLEN ==>
      && Parse(link + d + padding) == Some(p) && ETH_HLEN + p.headerLen <= ETH_HLEN + p.totalLen <= |link + d + padding|
      && (link + d + padding)[ETH_HLEN + p.headerLen..ETH_HLEN + p.totalLen] == payload
  }

  /**
   The sender: refuses a payload over 1480 bytes, else takes an identifier and builds
   the datagram. Whatever it accepts, the receiver reads back.
   */
  method SendPacket(id: u16, protocol: byte, src: seq<byte>, dst: seq<byte>, payload: seq<byte>)
    returns (sent: Option<seq<byte>>, next: u16)
    requires |src| == 4 && |dst| == 4
    ensures sent.Some? <==> |payload| <= PAYLOAD_MAX
    ensures next == if sent.Some? then (id + 1) % 0x10000 else id
    ensures sent.Some? ==> sent.value == Datagram(id, protocol, src, dst, payload)
    ensures sent.Some? ==> ReceivedAs(sent.value, Packet(20, IP_HLEN + |payload|, protocol, src, dst), payload)
  {
    hide Datagram, Parse;
    if |payload| > PAYLOAD_MAX {
      return None, id;
    }
    next := (id + 1) % 0x10000;
    var pkt := Build(id, protocol, src, dst, payload);
    sent := Some(pkt[..]);
    forall link: seq<byte>, padding: seq<byte> | |link| == ETH_HLEN
      ensures var frame := link + Datagram(id, protocol, src, dst, payload) + padding;
              && Parse(frame) == Some(Packet(20, IP_HLEN + |payload|, protocol, src, dst))
              && frame[ETH_HLEN + 20..ETH_HLEN + (IP_HLEN + |payload|)] == payload
    {
      SentIsReceived(link, id, protocol, src, dst, payload, padding);
    }
  }

  lemma Regroup(a: seq<byte>, b: seq<byte>, c: seq<byte>, d: seq<byte>)
    ensures a + (b + c) + d == a + b + (c + d)
    ensures (a + (b + c) + d)[|a| + |b|..|a| + |b| + |c|] == c
  {
    var s := a + (b + c) + d;
    assert s == a + b + (c + d);
    assert s[|a| + |b|..|a| + |b| + |c|] == c;
  }

  /** A header damaged in any one byte after the first is dropped. */
  lemma {:induction false} DamageDropped(frame: seq<byte>, k: nat, b: byte)
    requires Parse(frame).Some? && 1 <= k < Parse(frame).value.headerLen && b != frame[ETH_HLEN + k]
    ensures Parse(frame[ETH_HLEN + k := b]) == None
  {
    hide Checksum.Sum;
    var ip := frame[ETH_HLEN..];
    var hl := Parse(frame).value.headerLen;
    var frame' := frame[ETH_HLEN + k := b];
    Checksum.CorruptionDetected(0, ip[..hl], k, b);
    assert frame'[ETH_HLEN..][..hl] == ip[..hl][k := b];
  }

  lemma {:induction false} SumBound(data: seq<byte>)
    ensures Checksum.WordSum(data) <= 65280 * |data|
    decreases |data|
  {
    if data != [] {
      SumBound(data[..|data| - 1]);
    }
  }

  /** A header verifies exactly when its word sum is a multiple of 65535. */
  lemma {:induction false} HeaderSumIff(h: seq<byte>)
    requires 0 < |h| <= 60 && h[0] > 0
    ensures Checksum.Sum(0, h) == 0 <==> Checksum.WordSum(h) % 65535 == 0
  {
    hide Checksum.WordSum, Checksum.Folded;
    SumBound(h);
    Checksum.SumUpdate(h, 0, 0);
    Checksum.AcceptedIff(Checksum.WordSum(h));
  }

  /** Changing the first byte and the length of a verified header: by how much the sum is off. */
  lemma {:induction false} FirstByteSum(ip: seq<byte>, from: nat, to: nat, b: byte)
    requires 0 < from <= |ip| && 0 < to <= |ip| && from % 2 == 0 && to % 2 == 0
    requires (from <= to && ip[0] <= b) || (to <= from && b <= ip[0])
    requires Checksum.WordSum(ip[..from]) % 65535 == 0
    ensures Checksum.WordSum(ip[0 := b][..to]) % 65535 == 0
       <==> (Checksum.WordSum(ip[Min(from, to)..Max(from, to)]) + 256 * Distance(b, ip[0])) % 65535 == 0
  {
    hide Checksum.WordSum;
    var lo, hi := Min(from, to), Max(from, to);
    assert ip[..hi] == ip[..lo] + ip[lo..hi];
    Checksum.SumConcat(ip[..lo], ip[lo..hi]);
    Checksum.SumUpdate(ip[..to], 0, b);
    assert ip[0 := b][..to] == ip[..to][0 := b];
    var off := Checksum.WordSum(ip[lo..hi]) + 256 * Distance(b, ip[0]);
    if from <= to {
      Multiples(Checksum.WordSum(ip[..from]), off);
    } else {
      Multiples(Checksum.WordSum(ip[0 := b][..to]), off);
    }
  }

  function Max(a: int, b: int): (r: int) {
    if a <= b then b else a
  }

  function Distance(a: int, b: int): (d: nat) {
    if a <= b then b - a else a - b
  }

  lemma Multiples(w: nat, d: nat)
    ensures w % 65535 == 0 ==> ((w + d) % 65535 == 0 <==> d % 65535 == 0)
    ensures (w + d) % 65535 == 0 ==> (w % 65535 == 0 <==> d % 65535 == 0)
  {
  }

  /** The header length a first byte announces. */
  function Announced(b: byte): (n: nat) {
    b % 16 * 4
  }

  /**
   A damaged first byte: a wrong version is always dropped. A wrong header length gets through
   exactly when it is still within the packet and the words it adds or takes away happen to
   make up for the change.
   */
  lemma {:induction false} FirstByteDamage(frame: seq<byte>, b: byte)
    requires Parse(frame).Some? && b != frame[ETH_HLEN]
    ensures var p, ip, n := Parse(frame).value, frame[ETH_HLEN..], Announced(b);
            Parse(frame[ETH_HLEN := b]).Some? <==>
            && b / 16 == 4 && 20 <= n <= p.totalLen
            && (Checksum.WordSum(ip[Min(p.headerLen, n)..Max(p.headerLen, n)]) + 256 * Distance(b, ip[0])) % 65535 == 0
  {
    hide Checksum.Sum, Checksum.WordSum, Parse, Announced;
    var ip, p, n := frame[ETH_HLEN..], Parse(frame).value, Announced(b);
    ParsedAgain(frame, b);
    ParsedFacts(frame);
    if b / 16 == 4 && 20 <= n <= p.totalLen {
      SameOrder(b, ip[0]);
      HeaderSumIff(ip[..p.headerLen]);
      HeaderSumIff(ip[0 := b][..n]);
      FirstByteSum(ip, p.headerLen, n, b);
    }
  }

  lemma ParsedFacts(frame: seq<byte>)
    requires Parse(frame).Some?
    ensures var p, ip := Parse(frame).value, frame[ETH_HLEN..];
            && 20 <= p.headerLen == Announced(ip[0]) <= p.totalLen <= |ip| && ip[0] / 16 == 4
            && Checksum.Sum(0, ip[..p.headerLen]) == 0
  {
    hide Checksum.Sum, Checksum.Word;
  }

  lemma ParsedAgain(frame: seq<byte>, b: byte)
    requires Parse(frame).Some?
    ensures var p, ip, n := Parse(frame).value, frame[ETH_HLEN..], Announced(b);
            Parse(frame[ETH_HLEN := b]).Some? <==>
            b / 16 == 4 && 20 <= n <= p.totalLen && Checksum.Sum(0, ip[0 := b][..n]) == 0
  {
    hide Checksum.Sum, Checksum.Word;
    assert frame[ETH_HLEN := b][ETH_HLEN..] == frame[ETH_HLEN..][0 := b];
  }

  lemma SameOrder(a: byte, b: byte)
    requires a / 16 == b / 16
    ensures a <= b <==> Announced(a) <= Announced(b)
    ensures Announced(a) % 4 == Announced(b) % 4 == 0 && Announced(a) <= 60 && Announced(b) <= 60
  {
  }

  /** Such a case: a payload that starts FE FF 00 00, sent, with its header length damaged from 5 to 6 words. */
  lemma {:induction false} LengthDamageAccepted(link: seq<byte>, id: u16, protocol: byte, src: seq<byte>, dst: seq<byte>,
                                                rest: seq<byte>)
    requires |link| == ETH_HLEN && |src| == 4 && |dst| == 4 && 4 + |rest| <= PAYLOAD_MAX
    ensures var frame := link + Datagram(id, protocol, src, dst, [0xFE, 0xFF, 0, 0] + rest);
            Parse(frame).Some? && frame[ETH_HLEN] == 0x45 && Parse(frame[ETH_HLEN := 0x46]).Some?
  {
    hide Checksum.Sum, Checksum.WordSum, Parse, Datagram;
    var payload := [0xFE, 0xFF, 0, 0] + rest;
    var d := Datagram(id, protocol, src, dst, payload);
    var frame := link + d;
    SentIsReceived(link, id, protocol, src, dst, payload, []);
    assert frame + [] == frame;
    FirstByteOf(id, protocol, src, dst, payload);
    assert frame[ETH_HLEN] == d[0];
    FirstByteDamage(frame, 0x46);
    var ip := frame[ETH_HLEN..];
    assert ip[20..24] == frame[ETH_HLEN + 20..ETH_HLEN + (IP_HLEN + |payload|)][..4] == [0xFE, 0xFF, 0, 0];
    Checksum.SumOfFour(ip[20..24]);
  }

  lemma FirstByteOf(id: u16, protocol: byte, src: seq<byte>, dst: seq<byte>, payload: seq<byte>)
    requires |src| == 4 && |dst| == 4
    ensures Datagram(id, protocol, src, dst, payload)[0] == 0x45
  {
    hide Checksum.Sum;
  }

  /** The answer to an ICMP echo request. */
  method EchoReply(request: seq<byte>) returns (reply: Option<seq<byte>>)
    ensures reply.Some? <==>
              |request| >= 8 && request[0] == 8 && request[1] == 0 && Checksum.Sum(0, request) == 0
    ensures reply.Some? ==>
              && |reply.value| == |request|
              && reply.value[0] == 0 && reply.value[1] == 0
              && reply.value[4..] == request[4..]
              && Checksum.Sum(0, reply.value) == 0
  {
    hide Checksum.Sum;
    if |request| < 8 || request[0] != 8 || request[1] != 0 {
      return None;
    }
    var ok := Checksum.Compute(request);
    if ok != 0 {
      return None;
    }
    var cleared: seq<byte> := request[0 := 0][2 := 0][3 := 0];
    var sum := Checksum.Compute(cleared);
    var sealed := cleared[2 := sum / 256][3 := sum % 256];
    Checksum.SealedVerifies(cleared, 2);
    assert sealed == Checksum.WithField(cleared, 2, sum);
    assert sealed[4..] == request[4..];
    reply := Some(sealed);
  }
}
