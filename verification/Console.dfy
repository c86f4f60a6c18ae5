/**
 The virtio console byte stream: a driver and a device sharing one receive and one
 transmit buffer through free-running 16-bit ring indices. The device may run between any
 two of the driver's steps: each loads or stores one index, one ring entry, one descriptor
 length or one buffer. A step that publishes an index also covers the ring slot stored just
 before it, which always holds descriptor 0 and is read only once the index has moved.
 */
module Console {
  import opened Bytes

  const BUF_SIZE: nat := 4096
  const QUEUE_SIZE: nat := 4

  /** `u16::wrapping_add(1)`. */
  function Next(x: u16): (y: u16)
    ensures y != x
  {
    (x + 1) % 0x10000
  }

  /** Where the driver is, under its lock; `Idle` between calls. */
  datatype Pc =
    | Idle
    | RxTake(want: nat) | RxCopy(want: nat) | RxPush
    | TxCopy(data: seq<byte>, completed: u16) | TxDesc(chunk: seq<byte>, completed: u16) | TxArm(completed: u16) | TxPush

  datatype State = State(
    // receive ring and buffer, shared
    rxAvail: u16, rxUsed: u16, rxRing: seq<u32>, rxBuf: seq<byte>,
    // transmit ring, descriptor length and buffer, shared
    txAvail: u16, txUsed: u16, txLen: nat, txBuf: seq<byte>,
    // driver
    rxLast: u16, rxOffset: nat, rxLen: nat, txLast: u16, txBusy: bool, pc: Pc,
    // device
    rxSeen: u16, txSeen: u16, txTaken: bool,
    // history: bytes the device delivered, callers received, callers handed over, the device sent
    delivered: seq<byte>, returned: seq<byte>, accepted: seq<byte>, sent: seq<byte>)

  /** A step of the driver (a call starting or continuing) or of the device. */
  datatype Event =
    | StartRead(want: nat) | StartWrite(data: seq<byte>) | Continue
    | DevScribble(content: seq<byte>) | DevPost(len: u32) | DevTake | DevDone

  /** Right after `init`: the receive buffer has been posted. */
  function Init(): (s: State) {
    State(1, 0, [0, 0, 0, 0], Fill(BUF_SIZE, 0), 0, 0, 0, Fill(BUF_SIZE, 0),
          0, 0, 0, 0, false, Idle, 0, 0, false, [], [], [], [])
  }

  predicate RxDevice(s: State) {
    s.rxAvail != s.rxSeen
  }

  predicate TxDevice(s: State) {
    s.txAvail != s.txSeen
  }

  predicate Enabled(s: State, e: Event) {
    match e
    case StartRead(want) => s.pc.Idle? && want > 0
    case StartWrite(data) => s.pc.Idle? && data != []
    case Continue => !s.pc.Idle?
    case DevScribble(content) => RxDevice(s) && |content| == BUF_SIZE
    case DevPost(_) => RxDevice(s)
    case DevTake => TxDevice(s) && !s.txTaken
    case DevDone => s.txTaken
  }

  function Clamp(len: nat): (n: nat)
    ensures n <= BUF_SIZE
  {
    Min(len, BUF_SIZE)
  }

  function FireStart(s: State, e: Event): (s': State)
    requires e.StartRead? || e.StartWrite?
  {
    match e
    case StartRead(want) =>
      if s.rxOffset != s.rxLen then s.(pc := RxCopy(want))
      else if s.rxUsed == s.rxLast then s
      else s.(pc := RxTake(want))
    case StartWrite(data) =>
      if s.txBusy && s.txUsed == s.txLast then s
      else s.(txBusy := false, pc := TxCopy(data, s.txUsed))
  }

  function FireContinue(s: State): (s': State)
    requires Shapes(s)
  {
    match s.pc
    case Idle => s
    case RxTake(want) =>
      s.(rxLast := Next(s.rxLast), rxOffset := 0, rxLen := Clamp(s.rxRing[s.rxLast % QUEUE_SIZE]), pc := RxCopy(want))
    case RxCopy(want) =>
      var count := Min(want, s.rxLen - s.rxOffset);
      s.(returned := s.returned + s.rxBuf[s.rxOffset..s.rxOffset + count], rxOffset := s.rxOffset + count,
         pc := if s.rxOffset + count == s.rxLen then RxPush else Idle)
    case RxPush => s.(rxAvail := Next(s.rxAvail), pc := Idle)
    case TxCopy(data, completed) =>
      var chunk := data[..Clamp(|data|)];
      s.(txBuf := chunk + s.txBuf[|chunk|..], pc := TxDesc(chunk, completed))
    case TxDesc(chunk, completed) =>
      s.(txLen := |chunk|, accepted := s.accepted + chunk, pc := TxArm(completed))
    case TxArm(completed) => s.(txLast := completed, txBusy := true, pc := TxPush)
    case TxPush => s.(txAvail := Next(s.txAvail), pc := Idle)
  }

  function FireDevice(s: State, e: Event): (s': State)
    requires Shapes(s) && Enabled(s, e) && (e.DevScribble? || e.DevPost? || e.DevTake? || e.DevDone?)
  {
    match e
    case DevScribble(content) => s.(rxBuf := content)
    case DevPost(len) =>
      s.(rxRing := s.rxRing[s.rxUsed % QUEUE_SIZE := len], rxUsed := Next(s.rxUsed), rxSeen := Next(s.rxSeen),
         delivered := s.delivered + s.rxBuf[..Clamp(len)])
    case DevTake => s.(sent := s.sent + s.txBuf[..s.txLen], txTaken := true)
    case DevDone => s.(txUsed := Next(s.txUsed), txSeen := Next(s.txSeen), txTaken := false)
  }

  function Fire(s: State, e: Event): (s': State)
    requires Shapes(s) && Enabled(s, e)
  {
    if e.StartRead? || e.StartWrite? then FireStart(s, e)
    else if e.Continue? then FireContinue(s)
    else FireDevice(s, e)
  }

  /** Buffers keep their size and offsets stay inside them. */
  ghost predicate Shapes(s: State) {
    && |s.rxRing| == QUEUE_SIZE && |s.rxBuf| == BUF_SIZE && |s.txBuf| == BUF_SIZE
    && s.rxOffset <= s.rxLen <= BUF_SIZE && s.txLen <= BUF_SIZE && (s.pc.TxDesc? ==> |s.pc.chunk| <= BUF_SIZE)
  }

  // ---- receive side ----

  /** Delivered bytes no caller has been given yet. */
  ghost function Pending(s: State): (b: seq<byte>)
    requires Shapes(s)
  {
    if RxDevice(s) then []
    else if s.rxUsed != s.rxLast then s.rxBuf[..Clamp(s.rxRing[s.rxLast % QUEUE_SIZE])]
    else s.rxBuf[s.rxOffset..s.rxLen]
  }

  /** Who owns the receive buffer, and what the driver knows about it. */
  ghost predicate RxInv(s: State)
    requires Shapes(s)
  {
    && s.rxUsed == s.rxSeen
    && (RxDevice(s) ==>
          s.rxAvail == Next(s.rxSeen) && s.rxUsed == s.rxLast && s.rxOffset == s.rxLen
          && !s.pc.RxTake? && !s.pc.RxCopy? && !s.pc.RxPush?)
    && (!RxDevice(s) && s.rxUsed != s.rxLast ==>
          s.rxUsed == Next(s.rxLast) && s.rxOffset == s.rxLen && !s.pc.RxCopy? && !s.pc.RxPush?)
    && (!RxDevice(s) && s.rxUsed == s.rxLast ==>
          && !s.pc.RxTake? && (s.pc.RxPush? ==> s.rxOffset == s.rxLen)
          && (!s.pc.RxPush? && !s.pc.RxCopy? ==> s.rxOffset < s.rxLen))
    && s.delivered == s.returned + Pending(s)
  }

  // ---- transmit side ----

  /** Accepted bytes the device has not sent yet. */
  ghost function InFlight(s: State): (b: seq<byte>)
    requires Shapes(s)
  {
    if s.pc.TxArm? || s.pc.TxPush? || (TxDevice(s) && !s.txTaken) then s.txBuf[..s.txLen] else []
  }

  ghost predicate TxInv(s: State)
    requires Shapes(s)
  {
    && s.txUsed == s.txSeen
    && (s.txTaken ==> TxDevice(s))
    && (TxDevice(s) ==>
          s.txAvail == Next(s.txSeen) && s.txBusy && s.txUsed == s.txLast
          && !s.pc.TxCopy? && !s.pc.TxDesc? && !s.pc.TxArm? && !s.pc.TxPush?)
    && (s.pc.TxCopy? ==> s.pc.completed == s.txUsed && !s.txBusy)
    && (s.pc.TxDesc? ==> s.pc.completed == s.txUsed && !s.txBusy && s.txBuf[..|s.pc.chunk|] == s.pc.chunk)
    && (s.pc.TxArm? ==> s.pc.completed == s.txUsed && !s.txBusy)
    && (s.pc.TxPush? ==> s.txLast == s.txUsed && s.txBusy)
    && (!TxDevice(s) && s.txBusy && !s.pc.TxPush? ==> s.txUsed != s.txLast)
    && s.accepted == s.sent + InFlight(s)
  }

  ghost predicate Inv(s: State) {
    Shapes(s) && RxInv(s) && TxInv(s)
  }

  // ---- every step keeps both streams ----

  lemma RxStart(s: State, e: Event)
    requires Inv(s) && Enabled(s, e) && (e.StartRead? || e.StartWrite?)
    ensures Inv(FireStart(s, e))
  {
    hide Next;
  }

  lemma RxContinue(s: State)
    requires Inv(s) && (s.pc.RxTake? || s.pc.RxCopy? || s.pc.RxPush?)
    ensures Inv(FireContinue(s))
  {
    hide Next;
    if s.pc.RxCopy? {
      var count := Min(s.pc.want, s.rxLen - s.rxOffset);
      CopyOut(s.returned, s.rxBuf, s.rxOffset, count, s.rxLen);
    }
  }

  lemma CopyOut(returned: seq<byte>, buf: seq<byte>, off: nat, count: nat, len: nat)
    requires off + count <= len <= |buf|
    ensures returned + buf[off..len] == returned + buf[off..off + count] + buf[off + count..len]
  {
    assert buf[off..len] == buf[off..off + count] + buf[off + count..len];
  }

  lemma TxContinue(s: State)
    requires Inv(s) && (s.pc.TxCopy? || s.pc.TxDesc? || s.pc.TxArm? || s.pc.TxPush?)
    ensures Inv(FireContinue(s))
  {
    hide Next, Inv, FireContinue;
    if s.pc.TxCopy? || s.pc.TxDesc? {
      TxCopied(s);
    } else {
      TxPublished(s);
    }
  }

  lemma TxCopied(s: State)
    requires Inv(s) && (s.pc.TxCopy? || s.pc.TxDesc?)
    ensures Inv(FireContinue(s))
  {
    hide Next;
    if s.pc.TxCopy? {
      var chunk := s.pc.data[..Clamp(|s.pc.data|)];
      assert (chunk + s.txBuf[|chunk|..])[..|chunk|] == chunk;
    }
  }

  lemma TxPublished(s: State)
    requires Inv(s) && (s.pc.TxArm? || s.pc.TxPush?)
    ensures Inv(FireContinue(s))
  {
    hide Next;
  }

  lemma DeviceStep(s: State, e: Event)
    requires Inv(s) && Enabled(s, e) && (e.DevScribble? || e.DevPost? || e.DevTake? || e.DevDone?)
    ensures Inv(FireDevice(s, e))
  {
    hide Next;
  }

  lemma {:induction false} StepKeepsInv(s: State, e: Event)
    requires Inv(s) && Enabled(s, e)
    ensures Inv(Fire(s, e))
  {
    hide Next, Inv, FireStart, FireContinue, FireDevice;
    if e.StartRead? || e.StartWrite? {
      RxStart(s, e);
    } else if e.Continue? {
      if s.pc.TxCopy? || s.pc.TxDesc? || s.pc.TxArm? || s.pc.TxPush? {
        TxContinue(s);
      } else {
        RxContinue(s);
      }
    } else {
      DeviceStep(s, e);
    }
  }

  /** Some run of enabled steps leads from `Init` to `s`. */
  ghost predicate Runs(s: State, es: seq<Event>)
    decreases |es|
  {
    es == [] || (Shapes(s) && Enabled(s, es[0]) && Runs(Fire(s, es[0]), es[1..]))
  }

  ghost function Final(s: State, es: seq<Event>): (r: State)
    requires Runs(s, es)
    decreases |es|
  {
    if es == [] then s else Final(Fire(s, es[0]), es[1..])
  }

  lemma {:induction false} RunKeepsInv(s: State, es: seq<Event>)
    requires Inv(s) && Runs(s, es)
    ensures Inv(Final(s, es))
    decreases |es|
  {
    hide Inv, Fire;
    if es != [] {
      StepKeepsInv(s, es[0]);
      RunKeepsInv(Fire(s, es[0]), es[1..]);
    }
  }

  lemma InitInv()
    ensures Inv(Init())
  {
  }

  // ---- what callers wrote ----

  /** The part of a write's data that the driver takes when the call starts; nothing if it is refused. */
  function TakenBy(s: State, e: Event): (b: seq<byte>) {
    if e.StartWrite? && !(s.txBusy && s.txUsed == s.txLast) then e.data[..Clamp(|e.data|)] else []
  }

  ghost function Taken(s: State, es: seq<Event>): (b: seq<byte>)
    requires Runs(s, es)
    decreases |es|
  {
    if es == [] then [] else TakenBy(s, es[0]) + Taken(Fire(s, es[0]), es[1..])
  }

  /** Taken, and not yet handed over to the descriptor. */
  function Claimed(s: State): (b: seq<byte>) {
    if s.pc.TxCopy? then s.pc.data[..Clamp(|s.pc.data|)] else if s.pc.TxDesc? then s.pc.chunk else []
  }

  lemma StepTakes(s: State, e: Event)
    requires Shapes(s) && Enabled(s, e)
    ensures Fire(s, e).accepted + Claimed(Fire(s, e)) == s.accepted + Claimed(s) + TakenBy(s, e)
  {
    hide Next, Shapes;
    var t := Fire(s, e);
    if e.StartWrite? {
      assert Claimed(s) == [] && t.accepted == s.accepted && Claimed(t) == TakenBy(s, e);
    } else if e.Continue? && s.pc.TxDesc? {
      assert t.accepted == s.accepted + Claimed(s) && Claimed(t) == [];
    } else {
      assert t.accepted == s.accepted && Claimed(t) == Claimed(s);
    }
  }

  /** Over every run, the accepted bytes are those of the writes that were not refused, in order. */
  lemma {:induction false} AcceptedIsTaken(s: State, es: seq<Event>)
    requires Inv(s) && Runs(s, es)
    ensures Final(s, es).accepted + Claimed(Final(s, es)) == s.accepted + Claimed(s) + Taken(s, es)
    decreases |es|
  {
    hide Inv, Fire, Claimed, TakenBy;
    if es != [] {
      StepKeepsInv(s, es[0]);
      StepTakes(s, es[0]);
      var t := Fire(s, es[0]);
      AcceptedIsTaken(t, es[1..]);
      Assoc(s.accepted + Claimed(s), TakenBy(s, es[0]), Taken(t, es[1..]));
    }
  }

  /**
   Over every interleaving of calls and device steps, across index wrap-around: callers
   receive the delivered bytes in order, none lost or repeated, and the device sends what
   callers wrote, up to each refusal or full buffer, in order; at most one buffer of each
   is outstanding.
   */
  lemma {:induction false} StreamsPreserved(es: seq<Event>)
    requires Runs(Init(), es)
    ensures var s := Final(Init(), es);
            && Shapes(s)
            && s.delivered == s.returned + Pending(s) && |Pending(s)| <= BUF_SIZE
            && s.accepted == s.sent + InFlight(s) && |InFlight(s)| <= BUF_SIZE
            && Taken(Init(), es) == s.sent + InFlight(s) + Claimed(s)
  {
    hide Runs, Final, Taken;
    InitInv();
    RunKeepsInv(Init(), es);
    AcceptedIsTaken(Init(), es);
    assert [] + [] + Taken(Init(), es) == Taken(Init(), es);
  }

  /** The driver touches a buffer only while the device does not own it. */
  lemma {:induction false} BuffersAreOwned(es: seq<Event>)
    requires Runs(Init(), es)
    ensures var s := Final(Init(), es);
            && (s.pc.RxCopy? || s.pc.RxTake? ==> !RxDevice(s))
            && (s.pc.TxCopy? || s.pc.TxDesc? || s.pc.TxArm? ==> !TxDevice(s))
  {
    hide Runs, Final;
    InitInv();
    RunKeepsInv(Init(), es);
  }

  // ---- whole calls ----

  /** The driver's remaining steps of a call, with no device step in between. */
  function Finish(s: State, steps: nat): (s': State)
    requires Inv(s)
    decreases steps
  {
    if s.pc.Idle? || steps == 0 then s
    else
      StepKeepsInv(s, Continue);
      Finish(FireContinue(s), steps - 1)
  }

  lemma Finished(s: State, steps: nat)
    requires Inv(s) && s.pc.Idle?
    ensures Finish(s, steps) == s
  {
  }

  lemma FinishStep(s: State, steps: nat)
    requires Inv(s) && !s.pc.Idle? && steps > 0
    ensures Inv(FireContinue(s)) && Finish(s, steps) == Finish(FireContinue(s), steps - 1)
  {
    hide Inv, FireContinue;
    StepKeepsInv(s, Continue);
  }

  /** A read call: its start, and at most three more steps. */
  function ReadCall(s: State, want: nat): (s': State)
    requires Inv(s) && s.pc.Idle? && want > 0
  {
    StepKeepsInv(s, StartRead(want));
    Finish(FireStart(s, StartRead(want)), 3)
  }

  function WriteCall(s: State, data: seq<byte>): (s': State)
    requires Inv(s) && s.pc.Idle? && data != []
  {
    StepKeepsInv(s, StartWrite(data));
    Finish(FireStart(s, StartWrite(data)), 4)
  }

  lemma TakeStep(s: State)
    requires Inv(s) && s.pc.RxTake?
    ensures var t := FireContinue(s);
            Inv(t) && t.pc == RxCopy(s.pc.want) && Pending(t) == Pending(s) && t.returned == s.returned
  {
    hide Next;
    RxContinue(s);
    var len := Clamp(s.rxRing[s.rxLast % QUEUE_SIZE]);
    assert s.rxBuf[0..len] == s.rxBuf[..len];
  }

  lemma CopyStep(s: State)
    requires Inv(s) && s.pc.RxCopy?
    ensures var t, n := FireContinue(s), Min(s.pc.want, |Pending(s)|);
            && Inv(t) && t.returned == s.returned + Pending(s)[..n]
            && (|Pending(s)| > s.pc.want ==> t.pc.Idle? && !RxDevice(t) && Pending(t) == Pending(s)[n..])
            && (|Pending(s)| <= s.pc.want ==> t.pc.RxPush? && Pending(s)[n..] == [])
  {
    hide Next;
    RxContinue(s);
    var n := Min(s.pc.want, s.rxLen - s.rxOffset);
    assert s.rxBuf[s.rxOffset..s.rxLen][..n] == s.rxBuf[s.rxOffset..s.rxOffset + n];
    assert s.rxBuf[s.rxOffset..s.rxLen][n..] == s.rxBuf[s.rxOffset + n..s.rxLen];
  }

  lemma PushStep(s: State)
    requires Inv(s) && s.pc.RxPush?
    ensures var t := FireContinue(s);
            Inv(t) && t.pc.Idle? && RxDevice(t) && Pending(t) == [] && t.returned == s.returned
  {
    hide Next;
    RxContinue(s);
  }

  /** What a read call has to show for itself. */
  ghost predicate ReadOutcome(s: State, want: nat, t: State)
    requires Shapes(s)
  {
    var n := Min(want, |Pending(s)|);
    && Shapes(t) && t.pc.Idle?
    && t.returned == s.returned + Pending(s)[..n] && Pending(t) == Pending(s)[n..]
    && (RxDevice(t) <==> |Pending(s)| <= want)
  }

  lemma {:induction false} ReadCopies(s: State, steps: nat)
    requires Inv(s) && s.pc.RxCopy? && steps >= 2
    ensures ReadOutcome(s, s.pc.want, Finish(s, steps))
  {
    hide Next, FireContinue, Finish, Pending, RxDevice;
    CopyStep(s);
    FinishStep(s, steps);
    var t := FireContinue(s);
    if t.pc.RxPush? {
      PushStep(t);
      FinishStep(t, steps - 1);
      Finished(FireContinue(t), steps - 2);
    } else {
      Finished(t, steps - 1);
    }
  }

  /**
   A read returns as many pending bytes as fit (nothing, reported as "again", exactly when
   none are pending), and gives the buffer to the device exactly when it is drained.
   */
  lemma {:induction false} ReadReturns(s: State, want: nat)
    requires Inv(s) && s.pc.Idle? && want > 0
    ensures ReadOutcome(s, want, ReadCall(s, want))
  {
    hide FireContinue, Finish;
    StepKeepsInv(s, StartRead(want));
    var t := FireStart(s, StartRead(want));
    if t.pc.RxTake? {
      assert Pending(t) == Pending(s);
      TakeStep(t);
      FinishStep(t, 3);
      ReadCopies(FireContinue(t), 2);
    } else if t.pc.RxCopy? {
      ReadCopies(t, 3);
    } else {
      Finished(t, 3);
      assert Pending(s) == [];
    }
  }

  /** Filling the buffer and then its descriptor hands over one chunk of the data. */
  lemma CopyThenDescribe(s: State)
    requires Inv(s) && s.pc.TxCopy?
    ensures var b := FireContinue(s);
            && Inv(b) && b.pc.TxDesc?
            && FireContinue(b).accepted == s.accepted + s.pc.data[..Clamp(|s.pc.data|)]
  {
    hide Next;
    TxContinue(s);
  }

  /** A write accepts up to one buffer of its data, and is refused exactly while the device still owns the last one. */
  lemma {:induction false} WriteAccepts(s: State, data: seq<byte>)
    requires Inv(s) && s.pc.Idle? && data != []
    ensures var t := WriteCall(s, data);
            && t.pc.Idle?
            && t.accepted == s.accepted + (if TxDevice(s) then [] else data[..Clamp(|data|)])
            && t.sent == s.sent
  {
    hide Finish, Next, Pending, InFlight;
    StepKeepsInv(s, StartWrite(data));
    var a := FireStart(s, StartWrite(data));
    if a.pc.TxCopy? {
      CopyThenDescribe(a);
      FinishStep(a, 4);
      var b := FireContinue(a);
      FinishStep(b, 3);
      var c := FireContinue(b);
      FinishStep(c, 2);
      var d := FireContinue(c);
      FinishStep(d, 1);
      Finished(FireContinue(d), 0);
    } else {
      Finished(a, 4);
    }
  }
}
