/**
 The recursive NET lock over the kernel spinlock, as interleaved atomic steps of
 any number of harts. Every load, store and read-modify-write of `owner`, `depth`
 and the spinlock flag is one step. The protocol is shown to refine a recursive
 mutex, over every run.
 */
module NetLock {
  /** `usize` on the 64-bit target; `usize::MAX` marks "no owner". */
  const USIZE: nat := 0x1_0000_0000_0000_0000
  const NO_OWNER: nat := USIZE - 1

  /** Where a hart stands inside `net_lock`, `SpinLock::lock` or `net_unlock`. */
  datatype Pc =
    | Outside               // not executing lock code
    | LoadOwner             // net_lock: about to read `owner`
    | BumpDepth             // net_lock fast path: about to `depth.fetch_add(1)`
    | Swap                  // SpinLock::lock: about to `locked.swap(true)`
    | Poll(spins: nat)      // SpinLock::lock: about to read `locked` in the backoff loop
    | StoreOwner            // net_lock: spinlock taken, about to publish `owner`
    | StoreDepth            // net_lock: about to store depth 1
    | SubDepth              // net_unlock: about to `depth.fetch_sub(1)`
    | ClearOwner            // net_unlock: last level, about to store NO_OWNER
    | ClearLocked           // net_unlock: about to store `locked = false`

  /** `nest` counts completed `net_lock` calls not yet undone by a `net_unlock`. */
  datatype Hart = Hart(pc: Pc, nest: nat)

  datatype State = State(locked: bool, owner: nat, depth: nat, harts: map<nat, Hart>)

  /** What a hart does next: enter one of the two entry points, or take its next step inside. */
  datatype Event = CallLock | CallUnlock | Continue

  /** Hart ids are never the no-owner marker, and nesting stays below the counter's range. */
  predicate Enabled(s: State, h: nat, e: Event) {
    && h in s.harts && h < NO_OWNER
    && match e {
         case CallLock => s.harts[h].pc.Outside? && s.harts[h].nest + 1 < USIZE
         case CallUnlock => s.harts[h].pc.Outside? && s.harts[h].nest > 0
         case Continue => !s.harts[h].pc.Outside?
       }
  }

  function At(s: State, h: nat, pc: Pc, nest: nat): (s': State) {
    s.(harts := s.harts[h := Hart(pc, nest)])
  }

  /** One atomic step of hart `h`. */
  function Fire(s: State, h: nat, e: Event): (s': State)
    requires Enabled(s, h, e)
  {
    var n := s.harts[h].nest;
    match e
    case CallLock => At(s, h, LoadOwner, n)
    case CallUnlock => At(s, h, SubDepth, n)
    case Continue =>
      match s.harts[h].pc
      case LoadOwner => At(s, h, if s.owner == h then BumpDepth else Swap, n)
      case BumpDepth => At(s.(depth := (s.depth + 1) % USIZE), h, Outside, n + 1)
      case Swap => At(s.(locked := true), h, if s.locked then Poll(0) else StoreOwner, n)
      case Poll(spins) => At(s, h, if s.locked && spins + 1 < 64 then Poll(spins + 1) else Swap, n)
      case StoreOwner => At(s.(owner := h), h, StoreDepth, n)
      case StoreDepth => At(s.(depth := 1), h, Outside, n + 1)
      case SubDepth =>
        At(s.(depth := (s.depth - 1) % USIZE), h,
           if s.depth == 1 then ClearOwner else Outside, if n > 0 then n - 1 else 0)
      case ClearOwner => At(s.(owner := NO_OWNER), h, ClearLocked, n)
      case ClearLocked => At(s.(locked := false), h, Outside, n)
      case Outside => s
  }

  predicate Init(s: State) {
    && !s.locked && s.owner == NO_OWNER && s.depth == 0
    && forall h :: h in s.harts ==> h < NO_OWNER && s.harts[h] == Hart(Outside, 0)
  }

  // ---- the specification: a recursive mutex ----

  datatype Mutex = Free | Held(who: nat, count: nat)

  predicate SpecStep(m: Mutex, m': Mutex, h: nat) {
    || (m.Free? && m' == Held(h, 1))                                        // acquire
    || (m.Held? && m.who == h && m.count >= 1 && m' == Held(h, m.count + 1)) // re-enter
    || (m.Held? && m.who == h && m.count >= 1 && m' == Held(h, m.count - 1)) // leave one level
    || (m == Held(h, 0) && m' == Free)                                      // release
    || m == m'                                                              // internal step
  }

  /** A hart that holds no level and is not between taking and publishing the lock. */
  predicate Unheld(t: Hart) {
    t.nest == 0 && (t.pc.Outside? || t.pc.LoadOwner? || t.pc.Swap? || t.pc.Poll?)
  }

  /** The holder's own view: its program point fixes `owner`, `depth` and its count. */
  predicate Holder(s: State, h: nat, count: nat)
    requires h in s.harts
  {
    var t := s.harts[h];
    match t.pc
    case Outside => t.nest >= 1 && count == t.nest == s.depth && s.owner == h
    case LoadOwner => t.nest >= 1 && count == t.nest == s.depth && s.owner == h && t.nest + 1 < USIZE
    case BumpDepth => t.nest >= 1 && count == t.nest == s.depth && s.owner == h && t.nest + 1 < USIZE
    case SubDepth => t.nest >= 1 && count == t.nest == s.depth && s.owner == h
    case StoreOwner => t.nest == 0 && count == 1 && s.owner == NO_OWNER
    case StoreDepth => t.nest == 0 && count == 1 && s.owner == h
    case ClearOwner => t.nest == 0 && count == 0 && s.depth == 0 && s.owner == h
    case ClearLocked => t.nest == 0 && count == 0 && s.depth == 0 && s.owner == NO_OWNER
    case _ => false
  }

  /** The refinement relation between the protocol and the recursive mutex. */
  ghost predicate Refines(s: State, m: Mutex) {
    && (forall h :: h in s.harts ==> h < NO_OWNER)
    && (s.locked <==> m.Held?)
    && s.depth < USIZE
    && match m {
         case Free => s.owner == NO_OWNER && forall h :: h in s.harts ==> Unheld(s.harts[h])
         case Held(who, count) =>
           && who in s.harts && Holder(s, who, count) && s.harts[who].nest < USIZE
           && forall h :: h in s.harts && h != who ==> Unheld(s.harts[h])
       }
  }

  /** The mutex state after hart `h` fires `e`. */
  function SpecAfter(s: State, h: nat, e: Event, m: Mutex): (m': Mutex)
    requires Enabled(s, h, e)
  {
    if !e.Continue? then m
    else match s.harts[h].pc
      case Swap => if s.locked then m else Held(h, 1)
      case BumpDepth => if m.Held? then Held(m.who, m.count + 1) else m
      case SubDepth => if m.Held? && m.count > 0 then Held(m.who, m.count - 1) else m
      case ClearLocked => Free
      case _ => m
  }

  /** Every step of every hart is a step of the mutex by that hart. */
  lemma {:induction false} StepRefines(s: State, h: nat, e: Event, m: Mutex)
    requires Refines(s, m) && Enabled(s, h, e)
    ensures Refines(Fire(s, h, e), SpecAfter(s, h, e, m))
    ensures SpecStep(m, SpecAfter(s, h, e, m), h)
  {
    var s' := Fire(s, h, e);
    var m' := SpecAfter(s, h, e, m);
    assert forall k :: k in s'.harts && k != h ==> s'.harts[k] == s.harts[k];
    if m.Held? && m.who != h {
      OtherHartStep(s, h, e, m);
    } else if m.Held? {
      HolderStep(s, h, e, m);
    }
  }

  /** A hart that is not the holder can only wait. */
  lemma {:induction false} OtherHartStep(s: State, h: nat, e: Event, m: Mutex)
    requires Refines(s, m) && Enabled(s, h, e) && m.Held? && m.who != h
    ensures SpecAfter(s, h, e, m) == m && Refines(Fire(s, h, e), m)
  {
    var s' := Fire(s, h, e);
    assert Unheld(s.harts[h]);
    assert s.owner == m.who || s.owner == NO_OWNER;
    assert s'.owner == s.owner && s'.depth == s.depth && s'.locked == s.locked;
    assert s'.harts[m.who] == s.harts[m.who];
  }

  /** The holder nests, unnests and finally releases. */
  lemma {:induction false} HolderStep(s: State, h: nat, e: Event, m: Mutex)
    requires Refines(s, m) && Enabled(s, h, e) && m.Held? && m.who == h
    ensures Refines(Fire(s, h, e), SpecAfter(s, h, e, m))
    ensures SpecStep(m, SpecAfter(s, h, e, m), h)
  {
    hide Refines, Fire, Holder, Unheld;
    HolderMoves(s, h, e, m);
    var s', m' := Fire(s, h, e), SpecAfter(s, h, e, m);
    if m'.Held? {
      OthersWait(s, h, e, m);
    } else {
      HolderFrees(s, h, e, m);
    }
  }

  lemma HolderMoves(s: State, h: nat, e: Event, m: Mutex)
    requires Refines(s, m) && Enabled(s, h, e) && m.Held? && m.who == h
    ensures var s', m' := Fire(s, h, e), SpecAfter(s, h, e, m);
            && SpecStep(m, m', h) && (s'.locked <==> m'.Held?) && s'.depth < USIZE
            && (m'.Held? ==> m'.who == h && Holder(s', h, m'.count) && s'.harts[h].nest < USIZE)
  {
  }

  lemma OthersWait(s: State, h: nat, e: Event, m: Mutex)
    requires Refines(s, m) && Enabled(s, h, e) && m.Held? && m.who == h && SpecAfter(s, h, e, m).Held?
    requires var s', m' := Fire(s, h, e), SpecAfter(s, h, e, m);
             s'.locked && s'.depth < USIZE && m'.who == h && Holder(s', h, m'.count) && s'.harts[h].nest < USIZE
    ensures Refines(Fire(s, h, e), SpecAfter(s, h, e, m))
  {
    hide Holder, Unheld;
    var s' := Fire(s, h, e);
    assert forall k :: k in s'.harts && k != h ==> s'.harts[k] == s.harts[k];
  }

  lemma HolderFrees(s: State, h: nat, e: Event, m: Mutex)
    requires Refines(s, m) && Enabled(s, h, e) && m.Held? && m.who == h && SpecAfter(s, h, e, m).Free?
    ensures Refines(Fire(s, h, e), Free)
  {
    var s' := Fire(s, h, e);
    assert forall k :: k in s'.harts && k != h ==> s'.harts[k] == s.harts[k];
  }

  // ---- runs ----

  datatype Move = Move(hart: nat, event: Event)

  /** Every move of the run is enabled where it happens. */
  ghost predicate Runs(s: State, moves: seq<Move>)
    decreases |moves|
  {
    moves == [] ||
    (Enabled(s, moves[0].hart, moves[0].event) && Runs(Fire(s, moves[0].hart, moves[0].event), moves[1..]))
  }

  ghost function Final(s: State, moves: seq<Move>): (s': State)
    requires Runs(s, moves)
    decreases |moves|
  {
    if moves == [] then s else Final(Fire(s, moves[0].hart, moves[0].event), moves[1..])
  }

  ghost function SpecFinal(s: State, moves: seq<Move>, m: Mutex): (m': Mutex)
    requires Runs(s, moves)
    decreases |moves|
  {
    if moves == [] then m
    else SpecFinal(Fire(s, moves[0].hart, moves[0].event), moves[1..],
                   SpecAfter(s, moves[0].hart, moves[0].event, m))
  }

  lemma {:induction false} RunRefines(s: State, moves: seq<Move>, m: Mutex)
    requires Refines(s, m) && Runs(s, moves)
    ensures Refines(Final(s, moves), SpecFinal(s, moves, m))
    decreases |moves|
  {
    if moves != [] {
      var h, e := moves[0].hart, moves[0].event;
      StepRefines(s, h, e, m);
      RunRefines(Fire(s, h, e), moves[1..], SpecAfter(s, h, e, m));
    }
  }

  ghost predicate Reachable(s: State) {
    exists s0, moves :: Init(s0) && Runs(s0, moves) && Final(s0, moves) == s
  }

  lemma {:induction false} ReachableRefines(s: State) returns (m: Mutex)
    requires Reachable(s)
    ensures Refines(s, m)
  {
    var s0, moves :| Init(s0) && Runs(s0, moves) && Final(s0, moves) == s;
    assert Refines(s0, Free);
    RunRefines(s0, moves, Free);
    m := SpecFinal(s0, moves, Free);
  }

  /** A hart is inside while it holds a level or is finishing an acquire or a release. */
  predicate Inside(s: State, h: nat) {
    h in s.harts && (s.harts[h].nest > 0 || s.harts[h].pc.StoreOwner? || s.harts[h].pc.StoreDepth?
                     || s.harts[h].pc.ClearOwner? || s.harts[h].pc.ClearLocked?)
  }

  /** Mutual exclusion in every reachable state, whatever the interleaving. */
  lemma {:induction false} MutualExclusion(s: State, a: nat, b: nat)
    requires Reachable(s) && Inside(s, a) && Inside(s, b)
    ensures a == b && s.locked
  {
    var m := ReachableRefines(s);
  }

  /** Only the holder ever takes the fast path: reading one's own id cannot be a false positive. */
  lemma {:induction false} FastPathIsSound(s: State, h: nat)
    requires Reachable(s) && h in s.harts
    ensures s.owner == h && (s.harts[h].pc.LoadOwner? || s.harts[h].pc.BumpDepth?) ==> s.harts[h].nest >= 1
    ensures s.harts[h].pc.BumpDepth? ==> s.owner == h && s.harts[h].nest >= 1
  {
    var m := ReachableRefines(s);
  }

  /** While a hart holds any level, `depth` is its nesting count, `owner` its id, and the spinlock is taken. */
  lemma {:induction false} DepthIsNesting(s: State, h: nat)
    requires Reachable(s) && h in s.harts && s.harts[h].nest > 0
    ensures s.depth == s.harts[h].nest && s.owner == h && s.locked
  {
    var m := ReachableRefines(s);
  }

  /** The spinlock flag falls exactly in the step that ends the holder's last level. */
  lemma {:induction false} ReleasedExactlyAtZero(s: State, h: nat, e: Event)
    requires Reachable(s) && Enabled(s, h, e)
    ensures s.locked && !Fire(s, h, e).locked <==> e.Continue? && s.harts[h].pc.ClearLocked?
    ensures e.Continue? && s.harts[h].pc.ClearLocked? ==> forall k :: k in s.harts ==> s.harts[k].nest == 0
    ensures e.Continue? && s.harts[h].pc.SubDepth?
            ==> (Fire(s, h, e).harts[h].pc.ClearOwner? <==> s.harts[h].nest == 1)
  {
    var m := ReachableRefines(s);
  }

  /** The holder never waits for itself, so nesting cannot deadlock; a free lock is taken at the next swap. */
  lemma {:induction false} NoSelfDeadlock(s: State, h: nat)
    requires Reachable(s) && h in s.harts
    ensures s.harts[h].nest > 0 ==> !s.harts[h].pc.Swap? && !s.harts[h].pc.Poll?
    ensures s.locked ==> exists k :: k in s.harts && Inside(s, k) && !s.harts[k].pc.Swap? && !s.harts[k].pc.Poll?
    ensures !s.locked && s.harts[h].pc.Swap? && h < NO_OWNER ==> Fire(s, h, Continue).harts[h].pc.StoreOwner?
  {
    var m := ReachableRefines(s);
    if s.locked {
      assert Inside(s, m.who);
    }
  }

  // ---- the lock can always be freed ----

  /** The event the holder fires to work towards releasing. */
  function Unwind(t: Hart): (e: Event) {
    if t.pc.Outside? then CallUnlock else Continue
  }

  /** How many such steps the holder still needs. */
  function Remaining(t: Hart): (n: nat) {
    match t.pc
    case LoadOwner => 2 * t.nest + 6
    case BumpDepth => 2 * t.nest + 5
    case StoreOwner => 6
    case StoreDepth => 5
    case SubDepth => 2 * t.nest + 1
    case ClearOwner => 2
    case ClearLocked => 1
    case _ => 2 * t.nest + 2
  }

  /**
   Deadlock freedom: from every reachable locked state the holder alone, without
   any other hart moving, reaches a state in which the spinlock is free.
   */
  lemma {:induction false} HolderCanRelease(s: State, m: Mutex) returns (moves: seq<Move>)
    requires Refines(s, m) && m.Held?
    ensures Runs(s, moves) && !Final(s, moves).locked
    ensures forall i :: 0 <= i < |moves| ==> moves[i].hart == m.who
    ensures |moves| <= Remaining(s.harts[m.who])
    decreases Remaining(s.harts[m.who])
  {
    hide Runs, Final;
    var h := m.who;
    var e := Unwind(s.harts[h]);
    var s' := Fire(s, h, e);
    StepRefines(s, h, e, m);
    var rest := [];
    if s'.locked {
      RemainingFalls(s, m);
      rest := HolderCanRelease(s', SpecAfter(s, h, e, m));
    } else {
      RunsNothing(s');
    }
    moves := [Move(h, e)] + rest;
    RunsCons(s, h, e, rest);
  }

  lemma RunsNothing(s: State)
    ensures Runs(s, []) && Final(s, []) == s
  {
  }

  lemma RunsCons(s: State, h: nat, e: Event, rest: seq<Move>)
    requires Enabled(s, h, e) && Runs(Fire(s, h, e), rest)
    ensures Runs(s, [Move(h, e)] + rest) && Final(s, [Move(h, e)] + rest) == Final(Fire(s, h, e), rest)
  {
    assert ([Move(h, e)] + rest)[1..] == rest;
  }

  lemma {:induction false} RemainingFalls(s: State, m: Mutex)
    requires Refines(s, m) && m.Held?
    ensures var h := m.who;
            var e := Unwind(s.harts[h]);
            Enabled(s, h, e)
            && (Fire(s, h, e).locked ==> Remaining(Fire(s, h, e).harts[h]) < Remaining(s.harts[h])
                                         && SpecAfter(s, h, e, m).Held? && SpecAfter(s, h, e, m).who == h)
  {
  }

  lemma {:induction false} ReachableLockCanBeFreed(s: State) returns (moves: seq<Move>)
    requires Reachable(s) && s.locked
    ensures Runs(s, moves) && !Final(s, moves).locked
  {
    var m := ReachableRefines(s);
    moves := HolderCanRelease(s, m);
  }
}
