/**
 The byte ring shared by IPC channels and PTYs: two free-running 32-bit counters
 over a buffer. Refines a bounded FIFO exactly when the capacity divides 2^32.
 */
module Ring {
  import opened Bytes

  /** Counters wrap at 2^32. */
  const WRAP: nat := 0x1_0000_0000

  function Used(head: u32, tail: u32): (n: u32) {
    (tail - head) % WRAP
  }

  /** Counter `x` moved on by `k`, as `wrapping_add` does. */
  function Advance(x: u32, k: nat): (y: u32)
    ensures k == 0 ==> y == x
    ensures x + k == WRAP ==> y == 0
  {
    (x + k) % WRAP
  }

  /** Buffer index of a counter. */
  function Index(x: u32, capacity: nat): (i: nat)
    requires capacity > 0
    ensures i < capacity
  {
    x % capacity
  }

  /** Free space; the source's subtraction needs a fill level within the capacity. */
  function Free(capacity: nat, head: u32, tail: u32): (n: nat)
    requires Used(head, tail) <= capacity
  {
    capacity - Used(head, tail)
  }

  /** Buffer slot of the byte `i` places behind the head counter. */
  function Slot(capacity: nat, head: u32, i: nat): (k: nat)
    requires capacity > 0
    ensures k < capacity
  {
    Index(Advance(head, i), capacity)
  }

  predicate Valid(buf: seq<byte>, head: u32, tail: u32) {
    |buf| < WRAP && Used(head, tail) <= |buf|
  }

  /** The first `n` bytes a reader would see. */
  function Window(buf: seq<byte>, head: u32, n: nat): (q: seq<byte>)
    requires n > 0 ==> |buf| > 0
    ensures |q| == n
    ensures forall i :: 0 <= i < n ==> q[i] == buf[Slot(|buf|, head, i)]
  {
    seq(n, i requires 0 <= i < n => buf[Slot(|buf|, head, i)])
  }

  /** The queue the ring stands for. */
  function Contents(buf: seq<byte>, head: u32, tail: u32): (q: seq<byte>)
    requires Valid(buf, head, tail)
    ensures |q| == Used(head, tail)
  {
    Window(buf, head, Used(head, tail))
  }

  // ---- wrapping arithmetic ----

  lemma ModOfMod(x: nat, c: nat)
    requires c > 0 && WRAP % c == 0
    ensures x % WRAP % c == x % c
  {
    var q, k, r := x / WRAP, WRAP / c, x % WRAP;
    var d := r / c;
    assert x == q * WRAP + r && WRAP == k * c && r == d * c + r % c;
    assert x == (q * k + d) * c + r % c by {
      assert q * (k * c) == (q * k) * c;
      assert (q * k + d) * c == (q * k) * c + d * c;
    }
    assert q * k + d >= 0;
    DivUnique(x, c, q * k + d);
  }

  lemma ResiduesDistinct(x: nat, y: nat, c: nat)
    requires x < y < x + c
    ensures x % c != y % c
  {
    var a, b := x / c, y / c;
    assert x == a * c + x % c && y == b * c + y % c;
    if x % c == y % c {
      assert (b - a) * c == b * c - a * c;
      SmallProduct(b - a, c);
    }
  }

  /** Within one capacity no two places share a slot, even across the counter wrap. */
  lemma SlotsDistinct(c: nat, head: u32, i: nat, j: nat)
    requires c > 0 && WRAP % c == 0 && i < j < c
    ensures Slot(c, head, i) != Slot(c, head, j)
  {
    ModOfMod(head + i, c);
    ModOfMod(head + j, c);
    ResiduesDistinct(head + i, head + j, c);
  }

  lemma CounterAdd(x: u32, j: nat, k: nat)
    ensures ((x + j) % WRAP + k) % WRAP == (x + j + k) % WRAP
  {
  }

  lemma SlotShift(c: nat, head: u32, i: nat, k: nat)
    requires c > 0
    ensures Slot(c, Advance(head, k), i) == Slot(c, head, i + k)
  {
    CounterAdd(head, k, i);
  }

  lemma UsedAfterWrite(head: u32, tail: u32, n: nat)
    requires Used(head, tail) + n < WRAP
    ensures Used(head, Advance(tail, n)) == Used(head, tail) + n
  {
  }

  lemma UsedAfterRead(head: u32, tail: u32, n: nat)
    requires n <= Used(head, tail)
    ensures Used(Advance(head, n), tail) == Used(head, tail) - n
  {
  }

  lemma TailSlot(c: nat, head: u32, tail: u32)
    requires c > 0
    ensures Slot(c, head, Used(head, tail)) == Index(tail, c)
  {
    assert (head + Used(head, tail)) % WRAP == tail;
  }

  datatype State = State(buf: seq<byte>, head: u32, tail: u32)

  /** A write of any bytes, or a read into a buffer of any length. */
  datatype Op = Write(src: seq<byte>) | Read(room: nat)

  ghost predicate Good(s: State) {
    Valid(s.buf, s.head, s.tail) && (|s.buf| > 0 ==> WRAP % |s.buf| == 0)
  }

  function Store(s: State, b: byte): (s': State)
    requires |s.buf| > 0
    ensures |s'.buf| == |s.buf| && s'.head == s.head
  {
    State(s.buf[Index(s.tail, |s.buf|) := b], s.head, Advance(s.tail, 1))
  }

  function StoreAll(s: State, src: seq<byte>): (s': State)
    requires src != [] ==> |s.buf| > 0
    ensures |s'.buf| == |s.buf| && s'.head == s.head
    decreases |src|
  {
    if src == [] then s else Store(StoreAll(s, src[..|src| - 1]), src[|src| - 1])
  }

  // ---- the operations ----

  /** Storing one byte behind a window of distinct slots extends the window. */
  lemma StoreExtends(buf: seq<byte>, head: u32, n: nat, b: byte)
    requires n < |buf| && |buf| > 0 && WRAP % |buf| == 0
    ensures Window(buf[Slot(|buf|, head, n) := b], head, n + 1) == Window(buf, head, n) + [b]
  {
    hide Slot;
    var c := |buf|;
    var buf' := buf[Slot(c, head, n) := b];
    var w := Window(buf', head, n + 1);
    forall i | 0 <= i < n
      ensures w[i] == buf[Slot(c, head, i)]
    {
      SlotsDistinct(c, head, i, n);
    }
  }

  lemma WindowDrop(buf: seq<byte>, head: u32, n: nat, k: nat)
    requires k <= n && (n > 0 ==> |buf| > 0)
    ensures Window(buf, Advance(head, k), n - k) == Window(buf, head, n)[k..]
  {
    hide Slot;
    var w := Window(buf, Advance(head, k), n - k);
    forall i | 0 <= i < n - k
      ensures w[i] == Window(buf, head, n)[k + i]
    {
      SlotShift(|buf|, head, i, k);
    }
  }

  /** Storing into free space appends, when the capacity divides 2^32. */
  lemma StoreAppends(s: State, b: byte)
    requires Good(s) && Used(s.head, s.tail) < |s.buf|
    ensures var s' := Store(s, b);
            && Good(s') && Used(s'.head, s'.tail) == Used(s.head, s.tail) + 1
            && Contents(s'.buf, s'.head, s'.tail) == Contents(s.buf, s.head, s.tail) + [b]
  {
    hide Slot, Window;
    UsedAfterWrite(s.head, s.tail, 1);
    TailSlot(|s.buf|, s.head, s.tail);
    StoreExtends(s.buf, s.head, Used(s.head, s.tail), b);
  }

  lemma {:induction false} StoreAllAppends(s: State, src: seq<byte>)
    requires Good(s) && Used(s.head, s.tail) + |src| <= |s.buf|
    ensures var s' := StoreAll(s, src);
            && Good(s') && Used(s'.head, s'.tail) == Used(s.head, s.tail) + |src|
            && Contents(s'.buf, s'.head, s'.tail) == Contents(s.buf, s.head, s.tail) + src
    decreases |src|
  {
    hide Window, Used, Contents, Store;
    if src != [] {
      var front, last := src[..|src| - 1], src[|src| - 1];
      StoreAllAppends(s, front);
      StoreAppends(StoreAll(s, front), last);
      assert src == front + [last];
      Assoc(Contents(s.buf, s.head, s.tail), front, [last]);
    }
  }

  lemma StoreAllSnoc(s: State, src: seq<byte>, k: nat)
    requires k < |src| && |s.buf| > 0
    ensures StoreAll(s, src[..k + 1]) == Store(StoreAll(s, src[..k]), src[k])
  {
    assert src[..k + 1][..k] == src[..k];
  }

  /**
   Writes as much of `src` as fits and moves the tail. The source length is taken modulo
   2^32, as the cast does. When the capacity divides 2^32 the queue grows by exactly the
   accepted prefix.
   */
  method RingWrite(buf: array<byte>, head: u32, tail: u32, src: seq<byte>) returns (tail': u32, written: nat)
    requires Valid(buf[..], head, tail)
    modifies buf
    ensures written == Min(|src| % WRAP, Free(buf.Length, head, tail))
    ensures State(buf[..], head, tail') == Apply(State(old(buf[..]), head, tail), Write(src)).0
    ensures Good(State(old(buf[..]), head, tail)) ==>
              && Valid(buf[..], head, tail')
              && Contents(buf[..], head, tail') == old(Contents(buf[..], head, tail)) + src[..written]
  {
    hide Used, Contents, Advance, Index, StoreAll;
    var n := Min(|src| % WRAP, Free(buf.Length, head, tail));
    ghost var s := State(buf[..], head, tail);
    tail' := tail;
    written := 0;
    StoreNothing(s, src);
    while written < n
      invariant 0 <= written <= n
      invariant State(buf[..], head, tail') == StoreAll(s, src[..written])
    {
      StoreAllSnoc(s, src, written);
      ghost var held := buf[..];
      buf[Index(tail', buf.Length)] := src[written];
      assert buf[..] == held[Index(tail', buf.Length) := src[written]];
      tail' := Advance(tail', 1);
      written := written + 1;
    }
    if Good(s) {
      StoreAllAppends(s, src[..n]);
    }
  }

  lemma StoreNothing(s: State, src: seq<byte>)
    ensures StoreAll(s, src[..0]) == s
  {
  }

  /** One turn of the reader's loop. */
  lemma ReadOne(buf: seq<byte>, head: u32, tail: u32, k: nat)
    requires Valid(buf, head, tail) && k < Used(head, tail)
    ensures Contents(buf, head, tail)[k] == buf[Index(Advance(head, k), |buf|)]
    ensures Advance(Advance(head, k), 1) == Advance(head, k + 1)
  {
    CounterAdd(head, k, 1);
  }

  /** Storing the next byte of `a` over the front of `b`. */
  lemma Overwrite(a: seq<byte>, b: seq<byte>, k: nat)
    requires k < |a| && k < |b|
    ensures (a[..k] + b[k..])[k := a[k]] == a[..k + 1] + b[k + 1..]
  {
  }

  /** Reads up to `dst.Length` bytes and moves the head: the oldest bytes leave, in order. */
  method RingRead(buf: array<byte>, head: u32, tail: u32, dst: array<byte>) returns (head': u32, read: nat)
    requires Valid(buf[..], head, tail) && buf != dst
    modifies dst
    ensures read == Min(dst.Length % WRAP, Used(head, tail))
    ensures Valid(buf[..], head', tail)
    ensures dst[..read] == Contents(buf[..], head, tail)[..read]
    ensures dst[read..] == old(dst[read..])
    ensures Contents(buf[..], head', tail) == Contents(buf[..], head, tail)[read..]
  {
    hide Slot, Window, Used, Contents, Advance, Index;
    var n := Min(dst.Length % WRAP, Used(head, tail));
    ghost var queue, before := Contents(buf[..], head, tail), dst[..];
    head' := head;
    read := 0;
    while read < n
      invariant 0 <= read <= n
      invariant head' == Advance(head, read)
      invariant dst[..] == queue[..read] + before[read..]
    {
      ReadOne(buf[..], head, tail, read);
      ghost var image := dst[..];
      dst[read] := buf[Index(head', buf.Length)];
      assert dst[..] == image[read := queue[read]];
      Overwrite(queue, before, read);
      head' := Advance(head', 1);
      read := read + 1;
    }
    ContentsDrop(buf[..], head, tail, read);
  }

  lemma ContentsDrop(buf: seq<byte>, head: u32, tail: u32, k: nat)
    requires Valid(buf, head, tail) && k <= Used(head, tail)
    ensures Valid(buf, Advance(head, k), tail)
    ensures Contents(buf, Advance(head, k), tail) == Contents(buf, head, tail)[k..]
  {
    hide Window;
    UsedAfterRead(head, tail, k);
    WindowDrop(buf, head, Used(head, tail), k);
  }

  // ---- runs against a bounded FIFO ----

  /** One call, and the bytes it hands back (for a read) or accepts (for a write). */
  function Apply(s: State, op: Op): (r: (State, seq<byte>))
    requires Valid(s.buf, s.head, s.tail)
  {
    match op
    case Write(src) =>
      var n := Min(|src| % WRAP, Free(|s.buf|, s.head, s.tail));
      (StoreAll(s, src[..n]), src[..n])
    case Read(room) =>
      var n := Min(room % WRAP, Used(s.head, s.tail));
      (s.(head := Advance(s.head, n)), Window(s.buf, s.head, n))
  }

  /** The same call on a bounded queue. */
  function Fifo(q: seq<byte>, capacity: nat, op: Op): (r: (seq<byte>, seq<byte>))
    requires |q| <= capacity
    ensures |r.0| <= capacity
  {
    match op
    case Write(src) => var n := Min(|src| % WRAP, capacity - |q|); (q + src[..n], src[..n])
    case Read(room) => var n := Min(room % WRAP, |q|); (q[n..], q[..n])
  }

  lemma {:induction false} ApplyRefines(s: State, op: Op)
    requires Good(s)
    ensures var (s', out) := Apply(s, op);
            var (q', fifoOut) := Fifo(Contents(s.buf, s.head, s.tail), |s.buf|, op);
            Good(s') && |s'.buf| == |s.buf| && out == fifoOut && Contents(s'.buf, s'.head, s'.tail) == q'
  {
    match op
    case Write(src) =>
      StoreAllAppends(s, src[..Min(|src| % WRAP, Free(|s.buf|, s.head, s.tail))]);
    case Read(room) =>
      var n := Min(room % WRAP, Used(s.head, s.tail));
      ContentsDrop(s.buf, s.head, s.tail, n);
      assert Window(s.buf, s.head, n) == Contents(s.buf, s.head, s.tail)[..n];
  }

  /** Bytes handed out by a run on the ring, and by the same run on a bounded queue. */
  ghost function RingRun(s: State, ops: seq<Op>): (out: seq<seq<byte>>)
    requires Good(s)
    decreases |ops|
  {
    if ops == [] then []
    else
      ApplyRefines(s, ops[0]);
      [Apply(s, ops[0]).1] + RingRun(Apply(s, ops[0]).0, ops[1..])
  }

  ghost function FifoRun(q: seq<byte>, capacity: nat, ops: seq<Op>): (out: seq<seq<byte>>)
    requires |q| <= capacity
    decreases |ops|
  {
    if ops == [] then []
    else [Fifo(q, capacity, ops[0]).1] + FifoRun(Fifo(q, capacity, ops[0]).0, capacity, ops[1..])
  }

  /** Every sequence of writes and reads behaves as on a bounded FIFO, across counter wrap-around. */
  lemma {:induction false} RunRefinesFifo(s: State, ops: seq<Op>)
    requires Good(s)
    ensures RingRun(s, ops) == FifoRun(Contents(s.buf, s.head, s.tail), |s.buf|, ops)
    decreases |ops|
  {
    hide Apply, Fifo, Contents;
    if ops != [] {
      ApplyRefines(s, ops[0]);
      RunRefinesFifo(Apply(s, ops[0]).0, ops[1..]);
    }
  }

  // ---- exactly which capacities work ----

  /** Writing into free space appends, from every counter position. */
  ghost predicate AppendLaw(capacity: nat)
    requires 0 < capacity < WRAP
  {
    forall buf: seq<byte>, head: u32, src: seq<byte> {:trigger StoreAll(State(buf, head, head), src)} ::
      |buf| == capacity && |src| <= capacity
      ==> Window(StoreAll(State(buf, head, head), src).buf, head, |src|) == src
  }

  /** The ring is a FIFO from every counter position exactly when the capacity divides 2^32. */
  lemma {:induction false} CapacityIff(capacity: nat)
    requires 0 < capacity < WRAP
    ensures AppendLaw(capacity) <==> WRAP % capacity == 0
  {
    if WRAP % capacity == 0 {
      forall buf: seq<byte>, head: u32, src: seq<byte> | |buf| == capacity && |src| <= capacity
        ensures Window(StoreAll(State(buf, head, head), src).buf, head, |src|) == src
      {
        StoreAllAppends(State(buf, head, head), src);
      }
    } else {
      Clobbered(capacity);
    }
  }

  /**
   With 2^32 = q * capacity + r, r > 0, the counters 2^32 - r and 0 share slot 0, so a
   write of r + 1 bytes starting there overwrites its own first byte.
   */
  lemma {:induction false} Clobbered(capacity: nat)
    requires 0 < capacity < WRAP && WRAP % capacity != 0
    ensures !AppendLaw(capacity)
  {
    var r := WRAP % capacity;
    var head: u32 := WRAP - r;
    var buf := Fill(capacity, 0);
    var src := [1] + Fill(r, 0);
    var s := State(buf, head, head);
    var w := Window(StoreAll(s, src).buf, head, |src|);
    SharedSlot(capacity);
    assert src[r] == 0;
    StoreAllSnoc(s, src, r);
    StoreAllTail(s, src[..r]);
    assert src[..r + 1] == src;
    assert w[0] == 0;
    assert w != src;
  }

  lemma SharedSlot(capacity: nat)
    requires 0 < capacity < WRAP && WRAP % capacity != 0
    ensures var r := WRAP % capacity;
            Slot(capacity, WRAP - r, 0) == 0 && Slot(capacity, WRAP - r, r) == 0
  {
    hide Advance;
    MultipleBelow(WRAP, capacity);
  }

  lemma MultipleBelow(x: nat, c: nat)
    requires c > 0
    ensures (x - x % c) % c == 0
  {
    var q := x / c;
    assert x - x % c == q * c + 0;
    DivUnique(x - x % c, c, q);
  }

  lemma {:induction false} StoreAllTail(s: State, src: seq<byte>)
    requires |s.buf| > 0
    ensures StoreAll(s, src).tail == Advance(s.tail, |src|)
    decreases |src|
  {
    if src != [] {
      StoreAllTail(s, src[..|src| - 1]);
      CounterAdd(s.tail, |src| - 1, 1);
    }
  }
}
