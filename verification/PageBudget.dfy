/**
 The system-wide user-page budget: an atomic counter that `user_page_take` bumps
 first and rolls back on refusal, and `user_pages_release` lowers in a
 compare-and-swap loop. Harts interleave freely at every atomic access.
 */
module PageBudget {
  const USIZE: nat := 0x1_0000_0000_0000_0000
  const MAX_PAGES: nat := 128 * 1024 * 1024 / 4096

  /** Where a hart stands inside the two operations. */
  datatype Pc =
    | Outside
    | Add                         // take: about to `fetch_add(1)`
    | RollBack                    // take: refused, about to `fetch_sub(1)`
    | Load(n: nat)                // release: about to read the counter
    | Cas(n: nat, seen: nat)      // release: about to swap `seen` for `seen - n`

  /** `granted` counts pages handed out by a take and not yet given to a release. */
  datatype State = State(counter: nat, granted: nat, harts: seq<Pc>)

  datatype Event = CallTake | CallRelease(n: nat) | Continue | SpuriousFailure

  /** A release is called with no more pages than are granted; zero pages returns at once. */
  predicate Enabled(s: State, h: nat, e: Event) {
    && h < |s.harts| && |s.harts| + MAX_PAGES < USIZE
    && match e {
         case CallTake => s.harts[h].Outside?
         case CallRelease(n) => s.harts[h].Outside? && 0 < n <= s.granted
         case Continue => !s.harts[h].Outside?
         case SpuriousFailure => s.harts[h].Cas?
       }
  }

  function At(s: State, h: nat, pc: Pc): (s': State)
    requires h < |s.harts|
  {
    s.(harts := s.harts[h := pc])
  }

  function SaturatingSub(v: nat, n: nat): (r: nat) {
    if v >= n then v - n else 0
  }

  function Fire(s: State, h: nat, e: Event): (s': State)
    requires Enabled(s, h, e)
  {
    match e
    case CallTake => At(s, h, Add)
    case CallRelease(n) => At(s.(granted := s.granted - n), h, Load(n))
    case SpuriousFailure => At(s, h, Cas(s.harts[h].n, s.counter))
    case Continue =>
      match s.harts[h]
      case Outside => s
      case Add =>
        var bumped := s.(counter := (s.counter + 1) % USIZE);
        if s.counter >= MAX_PAGES then At(bumped, h, RollBack)
        else At(bumped.(granted := s.granted + 1), h, Outside)
      case RollBack => At(s.(counter := (s.counter - 1) % USIZE), h, Outside)
      case Load(n) => At(s, h, Cas(n, s.counter))
      case Cas(n, seen) =>
        if s.counter == seen then At(s.(counter := SaturatingSub(seen, n)), h, Outside)
        else At(s, h, Cas(n, s.counter))
  }

  /** A take is refused in this step. */
  predicate Refused(s: State, h: nat, e: Event)
    requires Enabled(s, h, e)
  {
    e.Continue? && s.harts[h].Add? && Fire(s, h, e).harts[h].RollBack?
  }

  predicate Init(s: State) {
    s.counter == 0 && s.granted == 0 && forall h :: 0 <= h < |s.harts| ==> s.harts[h].Outside?
  }

  // ---- conservation ----

  function Undo(pc: Pc): (n: nat) {
    if pc.RollBack? then 1 else 0
  }

  function Due(pc: Pc): (n: nat) {
    if pc.Load? || pc.Cas? then pc.n else 0
  }

  /** Bumps of refused takes that are still in the counter. */
  function RollBacks(harts: seq<Pc>): (n: nat)
    ensures n <= |harts|
  {
    if harts == [] then 0 else RollBacks(harts[..|harts| - 1]) + Undo(harts[|harts| - 1])
  }

  /** Pages whose release has been called but not yet taken off the counter. */
  function Releasing(harts: seq<Pc>): (n: nat)
  {
    if harts == [] then 0 else Releasing(harts[..|harts| - 1]) + Due(harts[|harts| - 1])
  }

  /** Pages granted and not yet returned to the budget. */
  function Outstanding(s: State): (n: nat) {
    s.granted + Releasing(s.harts)
  }

  lemma {:induction false} SumsAfterUpdate(harts: seq<Pc>, h: nat, pc: Pc)
    requires h < |harts|
    ensures RollBacks(harts[h := pc]) == RollBacks(harts) - Undo(harts[h]) + Undo(pc)
    ensures Releasing(harts[h := pc]) == Releasing(harts) - Due(harts[h]) + Due(pc)
    decreases |harts|
  {
    var n := |harts| - 1;
    if h < n {
      SumsAfterUpdate(harts[..n], h, pc);
      assert harts[h := pc][..n] == harts[..n][h := pc];
    } else {
      assert harts[h := pc][..n] == harts[..n];
    }
  }

  lemma {:induction false} SumsCover(harts: seq<Pc>, h: nat)
    requires h < |harts|
    ensures Undo(harts[h]) <= RollBacks(harts) && Due(harts[h]) <= Releasing(harts)
    decreases |harts|
  {
    if h < |harts| - 1 {
      SumsCover(harts[..|harts| - 1], h);
    }
  }

  lemma {:induction false} IdleSumsAreZero(harts: seq<Pc>)
    requires forall h :: 0 <= h < |harts| ==> harts[h].Outside?
    ensures RollBacks(harts) == 0 && Releasing(harts) == 0
  {
    if harts != [] {
      IdleSumsAreZero(harts[..|harts| - 1]);
    }
  }

  /** The counter is exactly what is outstanding plus what refused takes have yet to undo. */
  ghost predicate Inv(s: State) {
    s.counter == Outstanding(s) + RollBacks(s.harts) && Outstanding(s) <= MAX_PAGES
  }

  lemma {:induction false} StepKeepsInv(s: State, h: nat, e: Event)
    requires Inv(s) && Enabled(s, h, e)
    ensures Inv(Fire(s, h, e)) && |Fire(s, h, e).harts| == |s.harts|
  {
    hide RollBacks, Releasing;
    var s' := Fire(s, h, e);
    SumsAfterUpdate(s.harts, h, s'.harts[h]);
    SumsCover(s.harts, h);
    assert s'.harts == s.harts[h := s'.harts[h]];
    assert s.counter + 1 < USIZE || s.counter < MAX_PAGES || RollBacks(s.harts) == |s.harts|;
  }

  // ---- runs ----

  datatype Move = Move(hart: nat, event: Event)

  ghost predicate Runs(s: State, moves: seq<Move>)
    decreases |moves|
  {
    moves == [] ||
    (Enabled(s, moves[0].hart, moves[0].event) && Runs(Fire(s, moves[0].hart, moves[0].event), moves[1..]))
  }

  ghost function Final(s: State, moves: seq<Move>): (s': State)
    requires Runs(s, moves)
    decreases |moves|
  {
    if moves == [] then s else Final(Fire(s, moves[0].hart, moves[0].event), moves[1..])
  }

  lemma {:induction false} RunKeepsInv(s: State, moves: seq<Move>)
    requires Inv(s) && Runs(s, moves)
    ensures Inv(Final(s, moves))
    decreases |moves|
  {
    if moves != [] {
      StepKeepsInv(s, moves[0].hart, moves[0].event);
      RunKeepsInv(Fire(s, moves[0].hart, moves[0].event), moves[1..]);
    }
  }

  ghost predicate Reachable(s: State) {
    exists s0, moves :: Init(s0) && Runs(s0, moves) && Final(s0, moves) == s
  }

  lemma {:induction false} ReachableInv(s: State)
    requires Reachable(s)
    ensures Inv(s)
  {
    var s0, moves :| Init(s0) && Runs(s0, moves) && Final(s0, moves) == s;
    IdleSumsAreZero(s0.harts);
    RunKeepsInv(s0, moves);
  }

  /** The budget is never exceeded, in any interleaving; with no operation in flight the counter is exact. */
  lemma {:induction false} BudgetHolds(s: State)
    requires Reachable(s)
    ensures Outstanding(s) <= MAX_PAGES == 32768
    ensures (forall h :: 0 <= h < |s.harts| ==> s.harts[h].Outside?) ==> s.counter == s.granted
    ensures s.counter == Outstanding(s) <==> RollBacks(s.harts) == 0
  {
    ReachableInv(s);
    if forall h :: 0 <= h < |s.harts| ==> s.harts[h].Outside? {
      IdleSumsAreZero(s.harts);
    }
  }

  /** The release never saturates: the value it swaps in is the exact difference. */
  lemma {:induction false} ReleaseNeverSaturates(s: State, h: nat)
    requires Reachable(s) && Enabled(s, h, Continue) && s.harts[h].Cas? && s.counter == s.harts[h].seen
    ensures s.harts[h].n <= s.counter
    ensures Fire(s, h, Continue).counter == s.counter - s.harts[h].n
    ensures Outstanding(Fire(s, h, Continue)) == Outstanding(s) - s.harts[h].n
  {
    ReachableInv(s);
    SumsCover(s.harts, h);
    SumsAfterUpdate(s.harts, h, Outside);
  }

  /**
   When a take is refused: exactly when outstanding pages and bumps that other
   refused takes have not yet undone fill the budget. So with no roll-back in
   flight a take is refused exactly when the budget is used up.
   */
  lemma {:induction false} RefusedIff(s: State, h: nat)
    requires Reachable(s) && Enabled(s, h, Continue) && s.harts[h].Add?
    ensures Refused(s, h, Continue) <==> Outstanding(s) + RollBacks(s.harts) >= MAX_PAGES
  {
    ReachableInv(s);
  }

  // ---- a refusal below the limit does happen ----

  lemma RunsSnoc(s: State, moves: seq<Move>, h: nat, e: Event)
    requires Runs(s, moves) && Enabled(Final(s, moves), h, e)
    ensures Runs(s, moves + [Move(h, e)]) && Final(s, moves + [Move(h, e)]) == Fire(Final(s, moves), h, e)
    decreases |moves|
  {
    if moves == [] {
      assert moves + [Move(h, e)] == [Move(h, e)];
      assert [Move(h, e)][1..] == [];
    } else {
      RunsSnoc(Fire(s, moves[0].hart, moves[0].event), moves[1..], h, e);
      assert (moves + [Move(h, e)])[1..] == moves[1..] + [Move(h, e)];
    }
  }

  lemma {:induction false} ReachableStep(s: State, h: nat, e: Event)
    requires Reachable(s) && Enabled(s, h, e)
    ensures Reachable(Fire(s, h, e))
  {
    var s0, moves :| Init(s0) && Runs(s0, moves) && Final(s0, moves) == s;
    RunsSnoc(s0, moves, h, e);
  }

  /** Any number of pages up to the limit can be granted by one hart taking them in turn. */
  lemma {:induction false} CanGrant(k: nat)
    requires k <= MAX_PAGES
    ensures Reachable(State(k, k, [Outside, Outside, Outside]))
  {
    var idle := [Outside, Outside, Outside];
    if k == 0 {
      var s0 := State(0, 0, idle);
      assert Init(s0) && Runs(s0, []) && Final(s0, []) == s0;
    } else {
      CanGrant(k - 1);
      var s := State(k - 1, k - 1, idle);
      ReachableStep(s, 0, CallTake);
      var s1 := Fire(s, 0, CallTake);
      ReachableStep(s1, 0, Continue);
      assert Fire(s1, 0, Continue) == State(k, k, idle);
    }
  }

  /**
   One refused take, still holding its bump, makes another take fail although a
   page has been returned: the refusal is transient and over-cautious, never unsafe.
   */
  lemma {:induction false} TransientRefusal() returns (s: State)
    ensures Reachable(s) && Enabled(s, 2, Continue) && Refused(s, 2, Continue)
    ensures Outstanding(s) == MAX_PAGES - 1
  {
    hide Reachable, Releasing;
    CanGrant(MAX_PAGES);
    s := State(MAX_PAGES, MAX_PAGES, [Outside, Outside, Outside]);
    s := MoveTo(s, 1, CallTake, State(MAX_PAGES, MAX_PAGES, [Outside, Add, Outside]));
    s := MoveTo(s, 1, Continue, State(MAX_PAGES + 1, MAX_PAGES, [Outside, RollBack, Outside]));
    s := MoveTo(s, 0, CallRelease(1), State(MAX_PAGES + 1, MAX_PAGES - 1, [Load(1), RollBack, Outside]));
    s := MoveTo(s, 0, Continue, State(MAX_PAGES + 1, MAX_PAGES - 1, [Cas(1, MAX_PAGES + 1), RollBack, Outside]));
    s := MoveTo(s, 0, Continue, State(MAX_PAGES, MAX_PAGES - 1, [Outside, RollBack, Outside]));
    s := MoveTo(s, 2, CallTake, State(MAX_PAGES, MAX_PAGES - 1, [Outside, RollBack, Add]));
    ReleasingOfThree(Outside, RollBack, Add);
  }

  lemma ReleasingOfThree(a: Pc, b: Pc, c: Pc)
    ensures Releasing([a, b, c]) == Due(a) + Due(b) + Due(c)
  {
    assert [a, b, c][..2] == [a, b];
    assert [a, b][..1] == [a];
    assert [a][..0] == [];
    assert Releasing([a]) == Due(a);
    assert Releasing([a, b]) == Due(a) + Due(b);
  }

  lemma {:induction false} MoveTo(s: State, h: nat, e: Event, next: State) returns (s': State)
    requires Reachable(s) && Enabled(s, h, e) && Fire(s, h, e) == next
    ensures s' == next && Reachable(s')
  {
    ReachableStep(s, h, e);
    s' := next;
  }
}
