/**
 The OnyxFS redo journal as a trace of single-block disk writes. A crash keeps some prefix
 of the trace; recovery is itself such a trace and can be cut short in turn.
 */
module Journal {
  import opened Bytes

  /** A disk block: the 4088 bytes a journal entry can carry, and the last 8. */
  datatype Block = Block(head: seq<byte>, tail: seq<byte>)

  /** A journal slot by its type tag: zeroed or commit-start, redo, commit-end, anything else. */
  datatype Slot = Empty | Redo(target: nat, head: seq<byte>) | Commit | Garbage

  datatype Disk = Disk(log: seq<Slot>, data: seq<Block>)

  datatype Op = SetSlot(i: nat, s: Slot) | SetBlock(b: nat, c: Block) | Nop

  function Do(d: Disk, op: Op): (r: Disk)
    ensures |r.log| == |d.log| && |r.data| == |d.data|
  {
    match op
    case SetSlot(i, s) => if i < |d.log| then d.(log := d.log[i := s]) else d
    case SetBlock(b, c) => if b < |d.data| then d.(data := d.data[b := c]) else d
    case Nop => d
  }

  function DoAll(d: Disk, ops: seq<Op>): (r: Disk)
    ensures |r.log| == |d.log| && |r.data| == |d.data|
    decreases |ops|
  {
    if ops == [] then d else Do(DoAll(d, ops[..|ops| - 1]), ops[|ops| - 1])
  }

  lemma DoSnoc(d: Disk, ops: seq<Op>, k: nat)
    requires k < |ops|
    ensures DoAll(d, ops[..k + 1]) == Do(DoAll(d, ops[..k]), ops[k])
  {
    assert ops[..k + 1][..k] == ops[..k];
  }

  lemma {:induction false} DoConcat(d: Disk, a: seq<Op>, b: seq<Op>)
    ensures DoAll(d, a + b) == DoAll(DoAll(d, a), b)
    decreases |b|
  {
    if b == [] {
      assert a + b == a;
    } else {
      var n := |b| - 1;
      DoConcat(d, a, b[..n]);
      assert (a + b)[..|a + b| - 1] == a + b[..n];
    }
  }

  // ---- recovery ----

  /** The scan: zeroed and redo slots continue, garbage stops, the first commit-end decides. */
  function FirstCommit(log: seq<Slot>, i: nat): (r: Option<nat>)
    requires i <= |log|
    ensures r.Some? ==> i <= r.value < |log| && log[r.value] == Commit
    decreases |log| - i
  {
    if i == |log| then None
    else match log[i]
      case Commit => Some(i)
      case Garbage => None
      case _ => FirstCommit(log, i + 1)
  }

  /** One redo entry over the block it names, which keeps its last bytes. */
  function Redone(s: Slot, data: seq<Block>): (r: seq<Block>)
    ensures |r| == |data|
  {
    if s.Redo? && s.target < |data| then data[s.target := Block(s.head, data[s.target].tail)] else data
  }

  function Replay(log: seq<Slot>, n: nat, data: seq<Block>): (r: seq<Block>)
    requires n <= |log|
    ensures |r| == |data|
  {
    if n == 0 then data else Redone(log[n - 1], Replay(log, n - 1, data))
  }

  function ReplayOp(s: Slot, data: seq<Block>): (op: Op) {
    if s.Redo? && s.target < |data| then SetBlock(s.target, Block(s.head, data[s.target].tail)) else Nop
  }

  function ReplayOps(d: Disk, c: nat): (ops: seq<Op>)
    requires c <= |d.log|
    ensures |ops| == c
  {
    seq(c, j requires 0 <= j < c => ReplayOp(d.log[j], d.data))
  }

  function ZeroOps(n: nat): (ops: seq<Op>)
    ensures |ops| == n
  {
    seq(n, (j: nat) => SetSlot(j, Empty))
  }

  /** Every write recovery issues, in order. */
  function RecoverOps(d: Disk): (ops: seq<Op>) {
    match FirstCommit(d.log, 0)
    case None => []
    case Some(c) => ReplayOps(d, c) + ZeroOps(c + 1)
  }

  function Recovered(d: Disk): (r: Disk) {
    DoAll(d, RecoverOps(d))
  }

  // ---- what a replay amounts to ----

  /** The last redo of block `b` among the first `n` slots. */
  function Last(log: seq<Slot>, n: nat, b: nat): (r: Option<seq<byte>>)
    requires n <= |log|
  {
    if n == 0 then None
    else if log[n - 1].Redo? && log[n - 1].target == b then Some(log[n - 1].head)
    else Last(log, n - 1, b)
  }

  function Outcome(x: Block, last: Option<seq<byte>>): (r: Block) {
    if last.Some? then Block(last.value, x.tail) else x
  }

  /** Replay gives each block the head of its last redo and leaves the rest alone. */
  lemma {:induction false} ReplayIsLast(log: seq<Slot>, n: nat, data: seq<Block>, b: nat)
    requires n <= |log| && b < |data|
    ensures Replay(log, n, data)[b] == Outcome(data[b], Last(log, n, b))
    decreases n
  {
    if n > 0 {
      ReplayIsLast(log, n - 1, data, b);
    }
  }

  lemma {:induction false} LastGrows(log: seq<Slot>, m: nat, n: nat, b: nat)
    requires m <= n <= |log|
    ensures Last(log, n, b) == None ==> Last(log, m, b) == None
    decreases n
  {
    if m < n {
      LastGrows(log, m, n - 1, b);
    }
  }

  /** Replaying everything over a partial replay gives the full replay. */
  lemma {:induction false} ReplayAgain(log: seq<Slot>, m: nat, n: nat, data: seq<Block>)
    requires m <= n <= |log|
    ensures Replay(log, n, Replay(log, m, data)) == Replay(log, n, data)
  {
    hide Replay, Last;
    var once := Replay(log, m, data);
    forall b | 0 <= b < |data|
      ensures Replay(log, n, once)[b] == Replay(log, n, data)[b]
    {
      ReplayIsLast(log, m, data, b);
      ReplayIsLast(log, n, once, b);
      ReplayIsLast(log, n, data, b);
      LastGrows(log, m, n, b);
    }
  }

  function ZeroPrefix(log: seq<Slot>, j: nat): (r: seq<Slot>)
    ensures |r| == |log|
    ensures forall i :: 0 <= i < |log| ==> r[i] == if i < j then Empty else log[i]
  {
    seq(|log|, i requires 0 <= i < |log| => if i < j then Empty else log[i])
  }

  /** What survives in a log zeroed from the front is still the last redo. */
  lemma {:induction false} LastAfterZero(log: seq<Slot>, j: nat, n: nat, b: nat)
    requires n <= |log|
    ensures Last(ZeroPrefix(log, j), n, b) == None || Last(ZeroPrefix(log, j), n, b) == Last(log, n, b)
    ensures n <= j ==> Last(ZeroPrefix(log, j), n, b) == None
    decreases n
  {
    if n > 0 {
      LastAfterZero(log, j, n - 1, b);
    }
  }

  /** Replaying what is left of a log being zeroed changes nothing once the replay was complete. */
  lemma {:induction false} ReplaySettled(log: seq<Slot>, j: nat, n: nat, data: seq<Block>)
    requires n <= |log|
    ensures var done := Replay(log, n, data);
            Replay(ZeroPrefix(log, j), n, done) == done
  {
    hide Replay, Last, ZeroPrefix;
    var done := Replay(log, n, data);
    forall b | 0 <= b < |data|
      ensures Replay(ZeroPrefix(log, j), n, done)[b] == done[b]
    {
      ReplayIsLast(log, n, data, b);
      ReplayIsLast(ZeroPrefix(log, j), n, done, b);
      LastAfterZero(log, j, n, b);
    }
  }

  // ---- recovery as a trace ----

  lemma {:induction false} TailsKept(log: seq<Slot>, n: nat, data: seq<Block>, b: nat)
    requires n <= |log| && b < |data|
    ensures Replay(log, n, data)[b].tail == data[b].tail
    decreases n
  {
    if n > 0 {
      TailsKept(log, n - 1, data, b);
    }
  }

  lemma {:induction false} AfterReplays(d: Disk, c: nat, r: nat)
    requires r <= c <= |d.log|
    ensures DoAll(d, ReplayOps(d, c)[..r]) == Disk(d.log, Replay(d.log, r, d.data))
    decreases r
  {
    if r > 0 {
      AfterReplays(d, c, r - 1);
      DoSnoc(d, ReplayOps(d, c), r - 1);
      var s := d.log[r - 1];
      if s.Redo? && s.target < |d.data| {
        TailsKept(d.log, r - 1, d.data, s.target);
      }
    }
  }

  lemma {:induction false} AfterZeroes(d: Disk, n: nat, j: nat)
    requires j <= n <= |d.log|
    ensures DoAll(d, ZeroOps(n)[..j]) == Disk(ZeroPrefix(d.log, j), d.data)
    decreases j
  {
    if j > 0 {
      AfterZeroes(d, n, j - 1);
      DoSnoc(d, ZeroOps(n), j - 1);
    }
    assert DoAll(d, ZeroOps(n)[..j]).log == ZeroPrefix(d.log, j);
  }

  /** A log recovery acts on: slot `c` is its only commit-end, and nothing before it stops the scan. */
  ghost predicate CommitAt(log: seq<Slot>, c: nat) {
    && c < |log| && log[c] == Commit
    && (forall i :: 0 <= i < c ==> log[i] != Garbage)
    && (forall i :: 0 <= i < |log| && i != c ==> log[i] != Commit)
  }

  ghost predicate NoCommit(log: seq<Slot>) {
    forall i :: 0 <= i < |log| ==> log[i] != Commit
  }

  lemma {:induction false} ScanFinds(log: seq<Slot>, c: nat, i: nat)
    requires CommitAt(log, c) && i <= c
    ensures FirstCommit(log, i) == Some(c)
    decreases c - i
  {
    if i < c {
      ScanFinds(log, c, i + 1);
    }
  }

  lemma ScanFindsNothing(log: seq<Slot>)
    requires NoCommit(log)
    ensures FirstCommit(log, 0) == None
  {
  }

  /** Whatever the log, recovery replays what precedes the marker it finds and clears up to it. */
  lemma {:induction false} RecoverMarked(d: Disk, c: nat)
    requires FirstCommit(d.log, 0) == Some(c)
    ensures Recovered(d) == Disk(ZeroPrefix(d.log, c + 1), Replay(d.log, c, d.data))
  {
    hide DoAll, Replay, FirstCommit;
    DoConcat(d, ReplayOps(d, c), ZeroOps(c + 1));
    AfterReplays(d, c, c);
    assert ReplayOps(d, c)[..c] == ReplayOps(d, c);
    var mid := Disk(d.log, Replay(d.log, c, d.data));
    AfterZeroes(mid, c + 1, c + 1);
    assert ZeroOps(c + 1)[..c + 1] == ZeroOps(c + 1);
  }

  lemma {:induction false} RecoverCommitted(d: Disk, c: nat)
    requires CommitAt(d.log, c)
    ensures Recovered(d) == Disk(ZeroPrefix(d.log, c + 1), Replay(d.log, c, d.data))
    ensures NoCommit(Recovered(d).log)
  {
    hide DoAll, Replay, FirstCommit, Recovered;
    ScanFinds(d.log, c, 0);
    RecoverMarked(d, c);
  }

  /** An uncommitted log leaves the disk exactly as it is, journal area included. */
  lemma RecoverTorn(d: Disk)
    requires NoCommit(d.log)
    ensures Recovered(d) == d
  {
    ScanFindsNothing(d.log);
  }

  ghost predicate AllEmpty(log: seq<Slot>, from: nat) {
    forall i :: from <= i < |log| ==> log[i] == Empty
  }

  /**
   The journal area is clear after recovery exactly when the scan finds no marker and it was
   clear already, or the scan finds one and nothing is left behind it.
   */
  lemma {:induction false} RecoveryClearsIff(d: Disk)
    ensures AllEmpty(Recovered(d).log, 0)
        <==> (FirstCommit(d.log, 0) == None && AllEmpty(d.log, 0))
             || (FirstCommit(d.log, 0).Some? && AllEmpty(d.log, FirstCommit(d.log, 0).value + 1))
  {
    hide DoAll, FirstCommit, ReplayOps;
    if FirstCommit(d.log, 0) == None {
      NothingDone(d, []);
    } else {
      var c := FirstCommit(d.log, 0).value;
      RecoverMarked(d, c);
      var r := ZeroPrefix(d.log, c + 1);
      assert AllEmpty(r, 0) <==> AllEmpty(d.log, c + 1) by {
        assert forall i :: c + 1 <= i < |r| ==> r[i] == d.log[i];
      }
    }
  }

  /**
   Recovery interrupted after any number of its own writes, and run again, ends with the
   same data as if it had never been interrupted.
   */
  lemma {:induction false} RecoveryRestarts(d: Disk, c: nat, r: nat)
    requires CommitAt(d.log, c) && r <= |RecoverOps(d)|
    ensures var cut := DoAll(d, RecoverOps(d)[..r]);
            && Recovered(cut).data == Recovered(d).data
            && (CommitAt(cut.log, c) || NoCommit(cut.log))
  {
    hide DoAll, Replay, Recovered, ReplayOps, ZeroOps, FirstCommit;
    ScanFinds(d.log, c, 0);
    RecoverCommitted(d, c);
    var reps, zeros := ReplayOps(d, c), ZeroOps(c + 1);
    if r <= c {
      assert (reps + zeros)[..r] == reps[..r];
      AfterReplays(d, c, r);
      RecoverCommitted(DoAll(d, reps[..r]), c);
      ReplayAgain(d.log, r, c, d.data);
    } else {
      var j := r - c;
      assert (reps + zeros)[..r] == reps[..c] + zeros[..j];
      DoConcat(d, reps[..c], zeros[..j]);
      AfterReplays(d, c, c);
      var done := Replay(d.log, c, d.data);
      var mid := Disk(d.log, done);
      AfterZeroes(mid, c + 1, j);
      var cut := Disk(ZeroPrefix(d.log, j), done);
      if j <= c {
        assert CommitAt(cut.log, c);
        RecoverCommitted(cut, c);
        ReplaySettled(d.log, j, c, d.data);
      } else {
        assert NoCommit(cut.log);
        RecoverTorn(cut);
      }
    }
  }

  /** The disk after recovery was cut short at each of the given points in turn. */
  function Interrupted(d: Disk, cuts: seq<nat>): (r: Disk)
    decreases |cuts|
  {
    if cuts == [] then d
    else
      var ops := RecoverOps(d);
      Interrupted(DoAll(d, ops[..Min(cuts[0], |ops|)]), cuts[1..])
  }

  /** However often recovery is interrupted, the run that completes gives the same data. */
  lemma {:induction false} RecoveryIsCrashSafe(d: Disk, cuts: seq<nat>)
    requires NoCommit(d.log) || exists c :: CommitAt(d.log, c)
    ensures Recovered(Interrupted(d, cuts)).data == Recovered(d).data
    ensures NoCommit(Recovered(Interrupted(d, cuts)).log)
    decreases |cuts|
  {
    hide DoAll, Recovered, RecoverOps;
    if cuts == [] {
      Settles(d);
    } else {
      var r := Min(cuts[0], |RecoverOps(d)|);
      var cut := DoAll(d, RecoverOps(d)[..r]);
      if NoCommit(d.log) {
        NothingToDo(d);
      } else {
        var c :| CommitAt(d.log, c);
        RecoveryRestarts(d, c, r);
      }
      RecoveryIsCrashSafe(cut, cuts[1..]);
    }
  }

  lemma Settles(d: Disk)
    requires NoCommit(d.log) || exists c :: CommitAt(d.log, c)
    ensures NoCommit(Recovered(d).log)
  {
    hide Recovered;
    if NoCommit(d.log) {
      RecoverTorn(d);
    } else {
      var c :| CommitAt(d.log, c);
      RecoverCommitted(d, c);
    }
  }

  lemma NothingToDo(d: Disk)
    requires NoCommit(d.log)
    ensures RecoverOps(d) == [] && DoAll(d, RecoverOps(d)[..0]) == d
  {
    ScanFindsNothing(d.log);
  }

  // ---- the kernel's transactions ----

  /** One metadata write: the new contents of a block. */
  datatype Change = Change(target: nat, c: Block)

  function LogOp(ws: seq<Change>, i: nat): (op: Op)
    requires i < |ws|
  {
    SetSlot(i, Redo(ws[i].target, ws[i].c.head))
  }

  function PutOp(ws: seq<Change>, i: nat): (op: Op)
    requires i < |ws|
  {
    SetBlock(ws[i].target, ws[i].c)
  }

  /** Each block is logged, then written in place. */
  function WriteOps(ws: seq<Change>): (ops: seq<Op>)
    ensures |ops| == 2 * |ws|
  {
    seq(2 * |ws|, k requires 0 <= k < 2 * |ws| => if k % 2 == 0 then LogOp(ws, k / 2) else PutOp(ws, k / 2))
  }

  /** Commit: the marker where there is room for one, then zeroing from the front, marker last. */
  function CommitOps(n: nat, size: nat): (ops: seq<Op>) {
    if n == 0 then [] else if n < size then [SetSlot(n, Commit)] + ZeroOps(n + 1) else ZeroOps(n)
  }

  function KernelOps(ws: seq<Change>, size: nat): (ops: seq<Op>) {
    WriteOps(ws) + CommitOps(|ws|, size)
  }

  /** The data after the first `m` in-place writes. */
  function Applied(data: seq<Block>, ws: seq<Change>, m: nat): (r: seq<Block>)
    requires m <= |ws|
    ensures |r| == |data|
  {
    if m == 0 then data
    else
      var prev := Applied(data, ws, m - 1);
      if ws[m - 1].target < |data| then prev[ws[m - 1].target := ws[m - 1].c] else prev
  }

  /** The log with its first `m` slots taken by this transaction. */
  function Logged(log: seq<Slot>, ws: seq<Change>, m: nat): (r: seq<Slot>)
    requires m <= |ws|
    ensures |r| == |log|
    ensures forall i :: 0 <= i < |log| ==>
              r[i] == if i < m then Redo(ws[i].target, ws[i].c.head) else log[i]
  {
    seq(|log|, i requires 0 <= i < |log| => if i < m then Redo(ws[i].target, ws[i].c.head) else log[i])
  }

  lemma {:induction false} AfterWrites(d: Disk, ws: seq<Change>, k: nat)
    requires k <= 2 * |ws| && |ws| <= |d.log|
    ensures DoAll(d, WriteOps(ws)[..k]) == Disk(Logged(d.log, ws, (k + 1) / 2), Applied(d.data, ws, k / 2))
    decreases k
  {
    hide Logged, WriteOps, Applied, DoAll, Do, LogOp, PutOp;
    if k > 0 {
      var m := (k - 1) / 2;
      AfterWrites(d, ws, k - 1);
      DoSnoc(d, WriteOps(ws), k - 1);
      if k == 2 * m + 1 {
        WriteOpAt(ws, m);
        LogTurn(d, ws, m);
      } else {
        WriteOpAt(ws, m);
        PutTurn(d, ws, m);
      }
    } else {
      NoTurn(d, ws);
    }
  }

  lemma WriteOpAt(ws: seq<Change>, m: nat)
    requires m < |ws|
    ensures WriteOps(ws)[2 * m] == LogOp(ws, m) && WriteOps(ws)[2 * m + 1] == PutOp(ws, m)
  {
  }

  lemma LogTurn(d: Disk, ws: seq<Change>, m: nat)
    requires m < |ws| <= |d.log|
    ensures Do(Disk(Logged(d.log, ws, m), Applied(d.data, ws, m)), LogOp(ws, m))
         == Disk(Logged(d.log, ws, m + 1), Applied(d.data, ws, m))
  {
    assert Logged(d.log, ws, m)[m := Redo(ws[m].target, ws[m].c.head)] == Logged(d.log, ws, m + 1);
  }

  lemma PutTurn(d: Disk, ws: seq<Change>, m: nat)
    requires m < |ws| <= |d.log|
    ensures Do(Disk(Logged(d.log, ws, m + 1), Applied(d.data, ws, m)), PutOp(ws, m))
         == Disk(Logged(d.log, ws, m + 1), Applied(d.data, ws, m + 1))
  {
  }

  lemma NoTurn(d: Disk, ws: seq<Change>)
    ensures DoAll(d, WriteOps(ws)[..0]) == Disk(Logged(d.log, ws, 0), Applied(d.data, ws, 0))
  {
    assert Logged(d.log, ws, 0) == d.log;
  }

  /** What the last redo of a block says is what the in-place writes left there. */
  lemma {:induction false} AppliedIsLast(log: seq<Slot>, data: seq<Block>, ws: seq<Change>, m: nat, b: nat)
    requires m <= |ws| <= |log| && b < |data|
    requires forall i :: 0 <= i < |ws| ==> log[i] == Redo(ws[i].target, ws[i].c.head)
    ensures Last(log, m, b).Some? ==> Applied(data, ws, m)[b].head == Last(log, m, b).value
    decreases m
  {
    if m > 0 {
      AppliedIsLast(log, data, ws, m - 1, b);
    }
  }

  lemma {:induction false} ReplayOfApplied(log: seq<Slot>, data: seq<Block>, ws: seq<Change>)
    requires |ws| <= |log|
    requires forall i :: 0 <= i < |ws| ==> log[i] == Redo(ws[i].target, ws[i].c.head)
    ensures var done := Applied(data, ws, |ws|); Replay(log, |ws|, done) == done
  {
    hide Replay, Last, Applied;
    var done := Applied(data, ws, |ws|);
    forall b | 0 <= b < |data|
      ensures Replay(log, |ws|, done)[b] == done[b]
    {
      ReplayIsLast(log, |ws|, done, b);
      AppliedIsLast(log, data, ws, |ws|, b);
    }
  }

  /** The two kinds of log a crash can leave. */
  ghost predicate Recoverable(log: seq<Slot>) {
    NoCommit(log) || exists c :: CommitAt(log, c)
  }

  /**
   A crash anywhere in a transaction: recovery leaves the data exactly as the in-place
   writes had left it, whatever stale redo entries an earlier crash left in the journal.
   */
  lemma {:induction false} KernelCrash(d: Disk, ws: seq<Change>, k: nat)
    requires NoCommit(d.log) && |ws| <= |d.log| && k <= |KernelOps(ws, |d.log|)|
    ensures var x := DoAll(d, KernelOps(ws, |d.log|)[..k]);
            && x.data == Applied(d.data, ws, Min(k / 2, |ws|))
            && Recoverable(x.log)
            && Recovered(x).data == x.data
  {
    hide DoAll, Recovered, Applied, WriteOps, Logged;
    var n := |ws|;
    var writes, commits := WriteOps(ws), CommitOps(n, |d.log|);
    if k <= 2 * n {
      assert (writes + commits)[..k] == writes[..k];
      AfterWrites(d, ws, k);
      var x := DoAll(d, writes[..k]);
      assert NoCommit(x.log);
      RecoverTorn(x);
    } else {
      var m := k - 2 * n;
      assert (writes + commits)[..k] == writes + commits[..m];
      DoConcat(d, writes, commits[..m]);
      AfterWrites(d, ws, 2 * n);
      assert writes[..2 * n] == writes;
      CommitCrash(Disk(Logged(d.log, ws, n), Applied(d.data, ws, n)), d.data, ws, m);
    }
  }

  lemma {:induction false} CommitCrash(d: Disk, before: seq<Block>, ws: seq<Change>, m: nat)
    requires 0 < |ws| <= |d.log| && m <= |CommitOps(|ws|, |d.log|)| && NoCommit(d.log)
    requires forall i :: 0 <= i < |ws| ==> d.log[i] == Redo(ws[i].target, ws[i].c.head)
    requires d.data == Applied(before, ws, |ws|)
    ensures var x := DoAll(d, CommitOps(|ws|, |d.log|)[..m]);
            x.data == d.data && Recoverable(x.log) && Recovered(x).data == x.data
  {
    hide DoAll, Recovered, Applied, Replay;
    var n := |ws|;
    if m == 0 {
      NothingDone(d, CommitOps(n, |d.log|));
      RecoverTorn(d);
    } else if n == |d.log| {
      AfterZeroes(d, n, m);
      RecoverTorn(Disk(ZeroPrefix(d.log, m), d.data));
    } else {
      var marked := Disk(d.log[n := Commit], d.data);
      Marker(d, n, m);
      AfterZeroes(marked, n + 1, m - 1);
      var x := Disk(ZeroPrefix(marked.log, m - 1), d.data);
      if m - 1 <= n {
        assert CommitAt(x.log, n);
        RecoverCommitted(x, n);
        ReplayOfApplied(marked.log, before, ws);
        ReplaySettled(marked.log, m - 1, n, d.data);
      } else {
        assert NoCommit(x.log);
        RecoverTorn(x);
      }
    }
  }

  lemma NothingDone(d: Disk, ops: seq<Op>)
    ensures DoAll(d, ops[..0]) == d
  {
  }

  lemma Marker(d: Disk, n: nat, m: nat)
    requires n < |d.log| && 0 < m <= n + 2
    ensures DoAll(d, ([SetSlot(n, Commit)] + ZeroOps(n + 1))[..m])
         == DoAll(Disk(d.log[n := Commit], d.data), ZeroOps(n + 1)[..m - 1])
  {
    var first, rest := [SetSlot(n, Commit)], ZeroOps(n + 1);
    assert (first + rest)[..m] == first + rest[..m - 1];
    DoConcat(d, first, rest[..m - 1]);
    NothingDone(d, first);
    DoSnoc(d, first, 0);
    assert first[..1] == first;
  }

  // ---- whole histories ----

  /** A mounted volume: the disk, and the next free journal slot, which a crash forgets. */
  datatype Mounted = Mounted(disk: Disk, head: nat)

  /**
   A metadata update that runs to its end (with nothing to write, a bare commit), one that
   stops with an error before its commit, or one cut after `k` disk writes whose recovery was
   itself cut.
   */
  datatype Event = Ran(ws: seq<Change>) | Aborted(ws: seq<Change>) | Crashed(ws: seq<Change>, k: nat, cuts: seq<nat>)

  /** How many of the writes find a free slot; the next one is refused and ends the update. */
  function Fit(ws: seq<Change>, head: nat, size: nat): (n: nat)
    requires head <= size
    ensures n <= |ws| && head + n <= size
  {
    Min(|ws|, size - head)
  }

  /** Logging from slot `head` on, each block then written in place. */
  function WriteOpsAt(ws: seq<Change>, head: nat): (ops: seq<Op>)
    ensures |ops| == 2 * |ws|
  {
    seq(2 * |ws|, k requires 0 <= k < 2 * |ws| =>
      if k % 2 == 0 then SetSlot(head + k / 2, Redo(ws[k / 2].target, ws[k / 2].c.head)) else PutOp(ws, k / 2))
  }

  lemma WriteOpsAtAt(ws: seq<Change>, head: nat, m: nat)
    requires m < |ws|
    ensures WriteOpsAt(ws, head)[2 * m] == SetSlot(head + m, Redo(ws[m].target, ws[m].c.head))
    ensures WriteOpsAt(ws, head)[2 * m + 1] == SetBlock(ws[m].target, ws[m].c)
  {
  }

  /** Everything an update issues when nothing but a full journal stops it. */
  function UpdateOps(ws: seq<Change>, head: nat, size: nat): (ops: seq<Op>)
    requires head <= size
  {
    var n := Fit(ws, head, size);
    WriteOpsAt(ws[..n], head) + if n == |ws| then CommitOps(head + n, size) else []
  }

  function After(s: Mounted, e: Event): (r: Mounted)
    requires s.head <= |s.disk.log|
    ensures |r.disk.log| == |s.disk.log| && r.head <= |r.disk.log|
  {
    var size := |s.disk.log|;
    var n := Fit(e.ws, s.head, size);
    match e
    case Ran(ws) => Mounted(DoAll(s.disk, UpdateOps(ws, s.head, size)), if n == |ws| then 0 else s.head + n)
    case Aborted(ws) => Mounted(DoAll(s.disk, WriteOpsAt(ws[..n], s.head)), s.head + n)
    case Crashed(ws, k, cuts) =>
      var ops := UpdateOps(ws, s.head, size);
      var cut := DoAll(s.disk, ops[..Min(k, |ops|)]);
      SameLength(cut, cuts);
      Mounted(Recovered(Interrupted(cut, cuts)), 0)
  }

  function History(s: Mounted, es: seq<Event>): (r: Mounted)
    requires s.head <= |s.disk.log|
    ensures |r.disk.log| == |s.disk.log| && r.head <= |r.disk.log|
    decreases |es|
  {
    if es == [] then s else After(History(s, es[..|es| - 1]), es[|es| - 1])
  }

  /** How many blocks an update has written in place when it ends, stops or crashes. */
  function Written(s: Mounted, e: Event): (m: nat)
    requires s.head <= |s.disk.log|
    ensures m <= |e.ws|
  {
    var n := Fit(e.ws, s.head, |s.disk.log|);
    if e.Crashed? then Min(e.k / 2, n) else n
  }

  /** What the in-place writes alone do. */
  function InPlace(s: Mounted, es: seq<Event>): (r: seq<Block>)
    requires s.head <= |s.disk.log|
    decreases |es|
  {
    if es == [] then s.disk.data
    else
      var front, e := es[..|es| - 1], es[|es| - 1];
      Applied(InPlace(s, front), e.ws, Written(History(s, front), e))
  }

  /**
   The slots below the head hold the updates `ps` logged since the last commit; `d0` is the
   disk they started from.
   */
  ghost predicate Open(s: Mounted, d0: Disk, ps: seq<Change>) {
    && NoCommit(d0.log) && |ps| == s.head <= |d0.log|
    && s.disk == DoAll(d0, WriteOps(ps))
  }

  ghost predicate Sound(s: Mounted) {
    exists d0, ps :: Open(s, d0, ps)
  }

  lemma Fresh(d: Disk)
    requires NoCommit(d.log)
    ensures Sound(Mounted(d, 0))
  {
    assert Open(Mounted(d, 0), d, []);
  }

  lemma WriteOpsJoin(ps: seq<Change>, ws: seq<Change>)
    ensures WriteOps(ps + ws) == WriteOps(ps) + WriteOpsAt(ws, |ps|)
  {
    var qs := ps + ws;
    forall k | 0 <= k < 2 * |qs|
      ensures WriteOps(qs)[k] == (WriteOps(ps) + WriteOpsAt(ws, |ps|))[k]
    {
      if k >= 2 * |ps| {
        assert (k - 2 * |ps|) / 2 == k / 2 - |ps|;
        assert qs[k / 2] == ws[k / 2 - |ps|];
      }
    }
  }

  lemma {:induction false} AppliedJoin(data: seq<Block>, ps: seq<Change>, ws: seq<Change>, m: nat)
    requires m <= |ws|
    ensures Applied(data, ps + ws, |ps| + m) == Applied(Applied(data, ps, |ps|), ws, m)
    decreases m
  {
    if m == 0 {
      AppliedFront(data, ps, ws, |ps|);
    } else {
      AppliedJoin(data, ps, ws, m - 1);
      assert (ps + ws)[|ps| + m - 1] == ws[m - 1];
    }
  }

  lemma {:induction false} AppliedFront(data: seq<Block>, ps: seq<Change>, ws: seq<Change>, m: nat)
    requires m <= |ps|
    ensures Applied(data, ps + ws, m) == Applied(data, ps, m)
    decreases m
  {
    if m > 0 {
      AppliedFront(data, ps, ws, m - 1);
      assert (ps + ws)[m - 1] == ps[m - 1];
    }
  }

  lemma {:induction false} AppliedTake(data: seq<Block>, ws: seq<Change>, n: nat, m: nat)
    requires m <= n <= |ws|
    ensures Applied(data, ws[..n], m) == Applied(data, ws, m)
  {
    assert ws[..n] + ws[n..] == ws;
    AppliedFront(data, ws[..n], ws[n..], m);
  }

  /** Part of an update from an open journal is part of one long update from where the journal was opened. */
  lemma {:induction false} UpdateIsPrefix(s: Mounted, d0: Disk, ps: seq<Change>, ws: seq<Change>, k: nat)
    requires Open(s, d0, ps) && k <= |UpdateOps(ws, s.head, |d0.log|)|
    ensures var size := |d0.log|;
            var qs := ps + ws[..Fit(ws, s.head, size)];
            && |qs| <= size && 2 * |ps| + k <= |KernelOps(qs, size)|
            && DoAll(s.disk, UpdateOps(ws, s.head, size)[..k]) == DoAll(d0, KernelOps(qs, size)[..2 * |ps| + k])
  {
    hide DoAll, WriteOps, WriteOpsAt, CommitOps, Fit;
    var size, n := |d0.log|, Fit(ws, s.head, |d0.log|);
    var wf := ws[..n];
    WriteOpsJoin(ps, wf);
    Regrouped(WriteOps(ps), WriteOpsAt(wf, |ps|), CommitOps(|ps| + n, size), k, n == |ws|);
    DoConcat(d0, WriteOps(ps), UpdateOps(ws, s.head, size)[..k]);
  }

  lemma Regrouped(a: seq<Op>, b: seq<Op>, c: seq<Op>, k: nat, whole: bool)
    requires k <= |b + if whole then c else []|
    ensures |a| + k <= |a + b + c|
    ensures (a + b + c)[..|a| + k] == a + (b + if whole then c else [])[..k]
  {
    var ops := b + if whole then c else [];
    assert a + b + c == a + (b + c);
    assert (b + c)[..k] == ops[..k];
  }

  /** Where an update has got to after `k` of its writes. */
  lemma {:induction false} UpdateCut(s: Mounted, ws: seq<Change>, k: nat)
    requires Sound(s) && k <= |UpdateOps(ws, s.head, |s.disk.log|)|
    ensures var size := |s.disk.log|;
            var x := DoAll(s.disk, UpdateOps(ws, s.head, size)[..k]);
            && x.data == Applied(s.disk.data, ws, Min(k / 2, Fit(ws, s.head, size)))
            && Recoverable(x.log) && Recovered(x).data == x.data
  {
    hide DoAll, Recovered, Applied, KernelOps, UpdateOps, WriteOps, Recoverable;
    var d0, ps :| Open(s, d0, ps);
    var size, n := |d0.log|, Fit(ws, s.head, |d0.log|);
    var wf, m := ws[..n], Min(k / 2, n);
    UpdateIsPrefix(s, d0, ps, ws, k);
    KernelCrash(d0, ps + wf, 2 * |ps| + k);
    OpenData(d0, ps);
    AppliedJoin(d0.data, ps, wf, m);
    AppliedTake(s.disk.data, ws, n, m);
  }

  lemma OpenData(d0: Disk, ps: seq<Change>)
    requires |ps| <= |d0.log|
    ensures DoAll(d0, WriteOps(ps)).data == Applied(d0.data, ps, |ps|)
    ensures |DoAll(d0, WriteOps(ps)).log| == |d0.log|
  {
    hide DoAll, Applied;
    AfterWrites(d0, ps, 2 * |ps|);
    assert WriteOps(ps)[..2 * |ps|] == WriteOps(ps);
  }

  /** An update that is refused or gives up leaves the journal open at a higher head. */
  lemma {:induction false} StaysOpen(s: Mounted, ws: seq<Change>)
    requires Sound(s)
    ensures var n := Fit(ws, s.head, |s.disk.log|);
            Sound(Mounted(DoAll(s.disk, WriteOpsAt(ws[..n], s.head)), s.head + n))
  {
    hide DoAll, WriteOps, WriteOpsAt;
    var d0, ps :| Open(s, d0, ps);
    var wf := ws[..Fit(ws, s.head, |s.disk.log|)];
    WriteOpsJoin(ps, wf);
    DoConcat(d0, WriteOps(ps), WriteOpsAt(wf, |ps|));
    assert Open(Mounted(DoAll(s.disk, WriteOpsAt(wf, s.head)), s.head + |wf|), d0, ps + wf);
  }

  /** One that commits leaves a journal without a marker. */
  lemma {:induction false} Commits(s: Mounted, ws: seq<Change>)
    requires Sound(s) && Fit(ws, s.head, |s.disk.log|) == |ws|
    ensures NoCommit(DoAll(s.disk, UpdateOps(ws, s.head, |s.disk.log|)).log)
  {
    hide DoAll, UpdateOps, KernelOps, WriteOps;
    var d0, ps :| Open(s, d0, ps);
    var ops := UpdateOps(ws, s.head, |d0.log|);
    UpdateIsPrefix(s, d0, ps, ws, |ops|);
    assert ops[..|ops|] == ops && ws[..|ws|] == ws;
    Completes(d0, ps + ws);
    UpdateWhole(ps, ws, |d0.log|);
    var all := KernelOps(ps + ws, |d0.log|);
    assert all[..|all|] == all;
  }

  lemma UpdateWhole(ps: seq<Change>, ws: seq<Change>, size: nat)
    requires |ps| <= size && Fit(ws, |ps|, size) == |ws|
    ensures |KernelOps(ps + ws, size)| == 2 * |ps| + |UpdateOps(ws, |ps|, size)|
  {
  }

  lemma {:induction false} AfterKeeps(s: Mounted, e: Event)
    requires Sound(s) && s.head <= |s.disk.log|
    ensures Sound(After(s, e))
    ensures After(s, e).disk.data == Applied(s.disk.data, e.ws, Written(s, e))
  {
    hide DoAll, Recovered, Interrupted, Applied, UpdateOps, WriteOpsAt, Sound, Recoverable;
    var size := |s.disk.log|;
    var n, ops := Fit(e.ws, s.head, size), UpdateOps(e.ws, s.head, size);
    match e
    case Ran(ws) =>
      UpdateCut(s, ws, |ops|);
      assert ops[..|ops|] == ops;
      OpsCover(ws, s.head, size);
      if n == |ws| {
        Commits(s, ws);
        Fresh(DoAll(s.disk, ops));
      } else {
        StaysOpen(s, ws);
        RefusedOps(ws, s.head, size);
      }
    case Aborted(ws) =>
      WritesFirst(ws, s.head, size);
      UpdateCut(s, ws, 2 * n);
      StaysOpen(s, ws);
    case Crashed(ws, k, cuts) =>
      var j := Min(k, |ops|);
      UpdateCut(s, ws, j);
      OpsCover(ws, s.head, size);
      var cut := DoAll(s.disk, ops[..j]);
      CrashSafe(cut, cuts);
      SameLength(cut, cuts);
      Fresh(Recovered(Interrupted(cut, cuts)));
  }

  lemma CrashSafe(d: Disk, cuts: seq<nat>)
    requires Recoverable(d.log)
    ensures Recovered(Interrupted(d, cuts)).data == Recovered(d).data
    ensures NoCommit(Recovered(Interrupted(d, cuts)).log)
  {
    hide Recovered, Interrupted;
    RecoveryIsCrashSafe(d, cuts);
  }

  lemma OpsCover(ws: seq<Change>, head: nat, size: nat)
    requires head <= size
    ensures |UpdateOps(ws, head, size)| / 2 >= Fit(ws, head, size)
  {
  }

  lemma RefusedOps(ws: seq<Change>, head: nat, size: nat)
    requires head <= size && Fit(ws, head, size) < |ws|
    ensures UpdateOps(ws, head, size) == WriteOpsAt(ws[..Fit(ws, head, size)], head)
  {
  }

  lemma WritesFirst(ws: seq<Change>, head: nat, size: nat)
    requires head <= size
    ensures var n := Fit(ws, head, size);
            2 * n <= |UpdateOps(ws, head, size)|
            && UpdateOps(ws, head, size)[..2 * n] == WriteOpsAt(ws[..n], head)
  {
  }

  /**
   Over every history of updates, failed updates, crashes and interrupted recoveries the
   journal adds nothing to what the in-place writes did.
   */
  lemma {:induction false} JournalIsTransparent(d: Disk, es: seq<Event>)
    requires NoCommit(d.log) && |d.log| > 0
    ensures History(Mounted(d, 0), es).disk.data == InPlace(Mounted(d, 0), es)
    ensures Sound(History(Mounted(d, 0), es))
    decreases |es|
  {
    hide After, Applied, Sound;
    if es == [] {
      Fresh(d);
    } else {
      JournalIsTransparent(d, es[..|es| - 1]);
      AfterKeeps(History(Mounted(d, 0), es[..|es| - 1]), es[|es| - 1]);
    }
  }

  /**
   When logging is refused: exactly when an update needs more slots than are left above the
   head. It then stops short of its commit, the head stays up, and once the journal is full
   every later update that writes is refused whole, until a bare commit or a remount.
   */
  lemma {:induction false} RefusedUntilCommit(s: Mounted, ws: seq<Change>)
    requires s.head <= |s.disk.log|
    ensures var size := |s.disk.log|;
            && (Fit(ws, s.head, size) < |ws| <==> |ws| > size - s.head)
            && (Fit(ws, s.head, size) < |ws| ==> After(s, Ran(ws)).head == size)
            && (s.head == size && ws != [] ==> After(s, Ran(ws)) == s && After(s, Aborted(ws)) == s)
            && After(s, Ran([])).head == 0
            && (forall k, cuts :: After(s, Crashed(ws, k, cuts)).head == 0)
  {
    hide DoAll, Recovered, Interrupted;
    if s.head == |s.disk.log| && ws != [] {
      NothingDone(s.disk, []);
      assert ws[..0] == [];
      assert WriteOpsAt([], s.head) == [] && UpdateOps(ws, s.head, |s.disk.log|) == [];
    }
  }

  /**
   Recovery need not clear the journal even when it finds a marker: three logged writes cut by
   a crash, then one write cut after its marker, leave the third entry behind.
   */
  lemma {:induction false} EntryLeftBehind(d: Disk, ws: seq<Change>, w: Change)
    requires AllEmpty(d.log, 0) && |d.log| >= 3 && |ws| == 3
    ensures var log := History(Mounted(d, 0), [Crashed(ws, 6, []), Crashed([w], 3, [])]).disk.log;
            |log| == |d.log| && log[2] == Redo(ws[2].target, ws[2].c.head)
  {
    hide DoAll, Recovered, UpdateOps, KernelOps;
    var e1, e2 := Crashed(ws, 6, []), Crashed([w], 3, []);
    var size := |d.log|;
    var s1 := After(Mounted(d, 0), e1);
    KernelStart(ws, size, 6);
    FromClean(d, ws, 6);
    AfterWrites(d, ws, 6);
    var x := Disk(Logged(d.log, ws, 3), Applied(d.data, ws, 3));
    RecoverTorn(x);
    assert s1 == Mounted(x, 0);
    AfterMarker(x, w);
    FromClean(x, [w], 3);
    var y := Disk(Logged(x.log, [w], 1)[1 := Commit], Applied(x.data, [w], 1));
    RecoverCommitted(y, 1);
    assert [e1, e2][..1] == [e1] && [e1][..0] == [];
    assert History(Mounted(d, 0), [e1]) == s1;
  }

  lemma FromClean(d: Disk, ws: seq<Change>, k: nat)
    requires |ws| <= |d.log| && k <= |KernelOps(ws, |d.log|)|
    ensures UpdateOps(ws, 0, |d.log|) == KernelOps(ws, |d.log|)
    ensures After(Mounted(d, 0), Crashed(ws, k, [])) == Mounted(Recovered(DoAll(d, KernelOps(ws, |d.log|)[..k])), 0)
  {
    hide DoAll, Recovered, CommitOps;
    assert ws[..|ws|] == ws;
    WriteOpsJoin([], ws);
    assert [] + ws == ws && WriteOps([]) == [];
  }

  lemma KernelStart(ws: seq<Change>, size: nat, k: nat)
    requires k <= 2 * |ws|
    ensures k <= |KernelOps(ws, size)| && KernelOps(ws, size)[..k] == WriteOps(ws)[..k]
  {
    hide WriteOps, CommitOps;
  }

  lemma AfterMarker(d: Disk, w: Change)
    requires |d.log| >= 2
    ensures 3 <= |KernelOps([w], |d.log|)|
    ensures DoAll(d, KernelOps([w], |d.log|)[..3])
         == Disk(Logged(d.log, [w], 1)[1 := Commit], Applied(d.data, [w], 1))
  {
    hide DoAll, WriteOps, ZeroOps;
    var ops := KernelOps([w], |d.log|);
    KernelStart([w], |d.log|, 2);
    AfterWrites(d, [w], 2);
    DoSnoc(d, ops, 2);
    assert ops[2] == SetSlot(1, Commit);
  }

  lemma {:induction false} SameLength(d: Disk, cuts: seq<nat>)
    ensures |Recovered(Interrupted(d, cuts)).log| == |d.log|
    decreases |cuts|
  {
    hide DoAll, RecoverOps;
    if cuts != [] {
      SameLength(DoAll(d, RecoverOps(d)[..Min(cuts[0], |RecoverOps(d)|)]), cuts[1..]);
    }
  }

  /** A transaction that completes leaves no commit-end behind. */
  lemma {:induction false} Completes(d: Disk, ws: seq<Change>)
    requires NoCommit(d.log) && |ws| <= |d.log|
    ensures NoCommit(DoAll(d, KernelOps(ws, |d.log|)).log)
  {
    hide DoAll, Applied, WriteOps, Logged;
    var n := |ws|;
    DoConcat(d, WriteOps(ws), CommitOps(n, |d.log|));
    AfterWrites(d, ws, 2 * n);
    assert WriteOps(ws)[..2 * n] == WriteOps(ws);
    var x := Disk(Logged(d.log, ws, n), Applied(d.data, ws, n));
    if n == 0 {
      NothingDone(x, []);
    } else if n == |d.log| {
      AfterZeroes(x, n, n);
      assert ZeroOps(n)[..n] == ZeroOps(n);
    } else {
      var ops := [SetSlot(n, Commit)] + ZeroOps(n + 1);
      assert ops[..n + 2] == ops && ZeroOps(n + 1)[..n + 1] == ZeroOps(n + 1);
      Marker(x, n, n + 2);
      AfterZeroes(Disk(x.log[n := Commit], x.data), n + 1, n + 1);
    }
  }

  // ---- atomicity ----

  /** Every crash point of an update, from whatever head, recovers to all of it or none of it. */
  ghost predicate Atomic(s: Mounted, ws: seq<Change>)
    requires s.head <= |s.disk.log|
  {
    var ops := UpdateOps(ws, s.head, |s.disk.log|);
    forall k :: 0 <= k <= |ops| ==>
      var r := Recovered(DoAll(s.disk, ops[..k])).data;
      r == s.disk.data || r == Applied(s.disk.data, ws, |ws|)
  }

  /** The same about the first `n` in-place writes alone. */
  ghost predicate PrefixesAtomic(data: seq<Block>, ws: seq<Change>, n: nat)
    requires n <= |ws|
  {
    forall m: nat :: m <= n ==> Applied(data, ws, m) == data || Applied(data, ws, m) == Applied(data, ws, |ws|)
  }

  /** Each of the first `n` writes stores its block's first or last contents. */
  ghost predicate NothingBetween(data: seq<Block>, ws: seq<Change>, n: nat)
    requires n <= |ws|
  {
    forall i :: 0 <= i < n && ws[i].target < |data| ==>
      ws[i].c == data[ws[i].target] || ws[i].c == Applied(data, ws, |ws|)[ws[i].target]
  }

  /** None of the first `n` writes changes its block. */
  ghost predicate NothingNew(data: seq<Block>, ws: seq<Change>, n: nat)
    requires n <= |ws|
  {
    forall i :: 0 <= i < n && ws[i].target < |data| ==> ws[i].c == data[ws[i].target]
  }

  /** The update as a whole changes one block at most. */
  ghost predicate OneBlockChanges(data: seq<Block>, after: seq<Block>)
    requires |data| == |after|
  {
    forall a, b :: 0 <= a < b < |data| ==> data[a] == after[a] || data[b] == after[b]
  }

  lemma {:induction false} CrashPointsArePrefixes(s: Mounted, ws: seq<Change>)
    requires Sound(s) && s.head <= |s.disk.log|
    ensures Atomic(s, ws) <==> PrefixesAtomic(s.disk.data, ws, Fit(ws, s.head, |s.disk.log|))
  {
    hide DoAll, Recovered, Applied, UpdateOps, Sound, Fit;
    var data, n := s.disk.data, Fit(ws, s.head, |s.disk.log|);
    var ops := UpdateOps(ws, s.head, |s.disk.log|);
    OpsCover(ws, s.head, |s.disk.log|);
    forall k | 0 <= k <= |ops|
      ensures Recovered(DoAll(s.disk, ops[..k])).data == Applied(data, ws, Min(k / 2, n))
    {
      UpdateCut(s, ws, k);
    }
    if Atomic(s, ws) {
      forall m: nat | m <= n
        ensures Applied(data, ws, m) == data || Applied(data, ws, m) == Applied(data, ws, |ws|)
      {
        assert Recovered(DoAll(s.disk, ops[..2 * m])).data == Applied(data, ws, m);
      }
    }
  }

  /** With nothing in between, every block holds its first or its last contents throughout. */
  lemma {:induction false} FirstOrLast(data: seq<Block>, ws: seq<Change>, m: nat, b: nat)
    requires m <= |ws| && NothingBetween(data, ws, m) && b < |data|
    ensures Applied(data, ws, m)[b] == data[b] || Applied(data, ws, m)[b] == Applied(data, ws, |ws|)[b]
    decreases m
  {
    if m > 0 {
      FirstOrLast(data, ws, m - 1, b);
      AppliedStep(data, ws, m - 1, b);
    }
  }

  lemma AppliedStep(data: seq<Block>, ws: seq<Change>, m: nat, b: nat)
    requires m < |ws| && b < |data|
    ensures Applied(data, ws, m + 1)[b] == if ws[m].target == b then ws[m].c else Applied(data, ws, m)[b]
  {
  }

  lemma {:induction false} WholeOrNothing(data: seq<Block>, ws: seq<Change>, m: nat)
    requires m <= |ws| && NothingBetween(data, ws, m) && OneBlockChanges(data, Applied(data, ws, |ws|))
    ensures Applied(data, ws, m) == data || Applied(data, ws, m) == Applied(data, ws, |ws|)
  {
    hide Applied, NothingBetween;
    var x, after := Applied(data, ws, m), Applied(data, ws, |ws|);
    forall b | 0 <= b < |data|
      ensures x[b] == data[b] || x[b] == after[b]
    {
      FirstOrLast(data, ws, m, b);
    }
    if x != data {
      var a :| 0 <= a < |data| && x[a] != data[a];
      assert forall b :: 0 <= b < |data| ==> x[b] == after[b];
    }
  }

  lemma {:induction false} NothingDoneYet(data: seq<Block>, ws: seq<Change>, m: nat)
    requires m <= |ws| && NothingNew(data, ws, m)
    ensures Applied(data, ws, m) == data
    decreases m
  {
    if m > 0 {
      NothingDoneYet(data, ws, m - 1);
    }
  }

  /** While two blocks are still to change, no prefix has changed anything. */
  lemma {:induction false} StillUnchanged(data: seq<Block>, ws: seq<Change>, n: nat, a: nat, b: nat, m: nat)
    requires m <= n <= |ws| && PrefixesAtomic(data, ws, n) && a < b < |data|
    requires data[a] != Applied(data, ws, |ws|)[a] && data[b] != Applied(data, ws, |ws|)[b]
    ensures Applied(data, ws, m) == data
    decreases m
  {
    hide Applied;
    if m == 0 {
      NothingApplied(data, ws);
    } else {
      StillUnchanged(data, ws, n, a, b, m - 1);
      AppliedStep(data, ws, m - 1, a);
      AppliedStep(data, ws, m - 1, b);
    }
  }

  lemma NothingApplied(data: seq<Block>, ws: seq<Change>)
    ensures Applied(data, ws, 0) == data
  {
  }

  lemma {:induction false} AtomicNothingBetween(data: seq<Block>, ws: seq<Change>, n: nat)
    requires n <= |ws| && PrefixesAtomic(data, ws, n)
    ensures NothingBetween(data, ws, n)
  {
    hide Applied;
    forall i | 0 <= i < n && ws[i].target < |data|
      ensures ws[i].c == data[ws[i].target] || ws[i].c == Applied(data, ws, |ws|)[ws[i].target]
    {
      AppliedStep(data, ws, i, ws[i].target);
      assert Applied(data, ws, i + 1) == data || Applied(data, ws, i + 1) == Applied(data, ws, |ws|);
    }
  }

  /** If more than one block is to change, the writes that fit change none. */
  lemma {:induction false} AtomicNothingNew(data: seq<Block>, ws: seq<Change>, n: nat)
    requires n <= |ws| && PrefixesAtomic(data, ws, n) && !OneBlockChanges(data, Applied(data, ws, |ws|))
    ensures NothingNew(data, ws, n)
  {
    hide Applied;
    var after := Applied(data, ws, |ws|);
    var a: nat, b: nat :| a < b < |data| && data[a] != after[a] && data[b] != after[b];
    forall i | 0 <= i < n && ws[i].target < |data|
      ensures ws[i].c == data[ws[i].target]
    {
      StillUnchanged(data, ws, n, a, b, i + 1);
      AppliedStep(data, ws, i, ws[i].target);
    }
  }

  /**
   Blocks are written in place before the commit marker, so an update, from whatever head, is
   all-or-nothing at every crash point exactly when each of the writes that still fit in the
   journal stores its block's first or last contents, and either the update changes one block
   at most or those writes change none.
   */
  lemma {:induction false} AtomicIff(s: Mounted, ws: seq<Change>)
    requires Sound(s) && s.head <= |s.disk.log|
    ensures var data, n := s.disk.data, Fit(ws, s.head, |s.disk.log|);
            Atomic(s, ws) <==>
            NothingBetween(data, ws, n) && (OneBlockChanges(data, Applied(data, ws, |ws|)) || NothingNew(data, ws, n))
  {
    hide Atomic, Applied, NothingBetween, NothingNew, OneBlockChanges, Sound, Fit;
    CrashPointsArePrefixes(s, ws);
    var data, n := s.disk.data, Fit(ws, s.head, |s.disk.log|);
    var after := Applied(data, ws, |ws|);
    if PrefixesAtomic(data, ws, n) {
      AtomicNothingBetween(data, ws, n);
      if !OneBlockChanges(data, after) {
        AtomicNothingNew(data, ws, n);
      }
    }
    if NothingBetween(data, ws, n) && (OneBlockChanges(data, after) || NothingNew(data, ws, n)) {
      forall m: nat | m <= n
        ensures Applied(data, ws, m) == data || Applied(data, ws, m) == after
      {
        Shorter(data, ws, n, m);
        if OneBlockChanges(data, after) {
          WholeOrNothing(data, ws, m);
        } else {
          NothingDoneYet(data, ws, m);
        }
      }
    }
  }

  lemma Shorter(data: seq<Block>, ws: seq<Change>, n: nat, m: nat)
    requires m <= n <= |ws|
    ensures NothingBetween(data, ws, n) ==> NothingBetween(data, ws, m)
    ensures NothingNew(data, ws, n) ==> NothingNew(data, ws, m)
  {
    hide Applied;
  }

  ghost predicate DistinctTargets(ws: seq<Change>, size: nat) {
    && (forall i :: 0 <= i < |ws| ==> ws[i].target < size)
    && (forall i, j :: 0 <= i < j < |ws| ==> ws[i].target != ws[j].target)
  }

  /** The write changes its block. */
  ghost predicate Effective(ws: seq<Change>, data: seq<Block>, i: nat)
    requires i < |ws|
  {
    ws[i].target < |data| && ws[i].c != data[ws[i].target]
  }

  /** At most one of the writes changes anything. */
  ghost predicate AtMostOneEffective(ws: seq<Change>, data: seq<Block>) {
    forall i, j :: 0 <= i < j < |ws| ==> !Effective(ws, data, i) || !Effective(ws, data, j)
  }

  lemma {:induction false} AppliedBlock(data: seq<Block>, ws: seq<Change>, m: nat, i: nat)
    requires m <= |ws| && i < |ws| && DistinctTargets(ws, |data|)
    ensures Applied(data, ws, m)[ws[i].target] == if i < m then ws[i].c else data[ws[i].target]
    decreases m
  {
    if m > 0 {
      AppliedBlock(data, ws, m - 1, i);
    }
  }

  lemma {:induction false} AppliedElsewhere(data: seq<Block>, ws: seq<Change>, m: nat, b: nat)
    requires m <= |ws| && b < |data| && forall i :: 0 <= i < |ws| ==> ws[i].target != b
    ensures Applied(data, ws, m)[b] == data[b]
    decreases m
  {
    if m > 0 {
      AppliedElsewhere(data, ws, m - 1, b);
    }
  }

  /** When it fits and writes no block twice: exactly when at most one write changes its block. */
  lemma {:induction false} AtomicDistinctIff(s: Mounted, ws: seq<Change>)
    requires Sound(s) && s.head + |ws| <= |s.disk.log| && DistinctTargets(ws, |s.disk.data|)
    ensures Atomic(s, ws) <==> AtMostOneEffective(ws, s.disk.data)
  {
    hide Atomic, Applied, Sound;
    AtomicIff(s, ws);
    var data := s.disk.data;
    var after := Applied(data, ws, |ws|);
    forall i | 0 <= i < |ws|
      ensures after[ws[i].target] == ws[i].c
    {
      AppliedBlock(data, ws, |ws|, i);
    }
    if AtMostOneEffective(ws, data) {
      forall a, b | 0 <= a < b < |data| && data[a] != after[a] && data[b] != after[b]
        ensures false
      {
        var i := Writer(data, ws, a);
        var j := Writer(data, ws, b);
        OneOfTwo(ws, data, i, j);
      }
    }
  }

  lemma OneOfTwo(ws: seq<Change>, data: seq<Block>, i: nat, j: nat)
    requires AtMostOneEffective(ws, data) && i < |ws| && j < |ws| && i != j
    ensures !Effective(ws, data, i) || !Effective(ws, data, j)
  {
  }

  /** The write behind a changed block. */
  lemma Writer(data: seq<Block>, ws: seq<Change>, b: nat) returns (i: nat)
    requires b < |data| && data[b] != Applied(data, ws, |ws|)[b]
    ensures i < |ws| && ws[i].target == b
  {
    hide Applied;
    if forall j :: 0 <= j < |ws| ==> ws[j].target != b {
      AppliedElsewhere(data, ws, |ws|, b);
    }
    i :| 0 <= i < |ws| && ws[i].target == b;
  }

  /** The documented write-ahead order: log everything, commit, only then write in place. */
  function WriteAheadOps(ws: seq<Change>): (ops: seq<Op>)
    ensures |ops| == 3 * |ws| + 2
  {
    seq(|ws|, i requires 0 <= i < |ws| => LogOp(ws, i)) + [SetSlot(|ws|, Commit)]
    + seq(|ws|, i requires 0 <= i < |ws| => PutOp(ws, i)) + ZeroOps(|ws| + 1)
  }

  /** No write touches the 8 bytes a journal entry cannot carry. */
  ghost predicate TailsUnchanged(ws: seq<Change>, data: seq<Block>) {
    forall i :: 0 <= i < |ws| && ws[i].target < |data| ==> ws[i].c.tail == data[ws[i].target].tail
  }

  lemma {:induction false} AfterLogs(d: Disk, ws: seq<Change>, ops: seq<Op>, m: nat)
    requires m <= |ws| <= |d.log| && |ws| <= |ops| && forall i :: 0 <= i < |ws| ==> ops[i] == LogOp(ws, i)
    ensures DoAll(d, ops[..m]) == Disk(Logged(d.log, ws, m), d.data)
    decreases m
  {
    if m > 0 {
      AfterLogs(d, ws, ops, m - 1);
      DoSnoc(d, ops, m - 1);
      assert Logged(d.log, ws, m - 1)[m - 1 := Redo(ws[m - 1].target, ws[m - 1].c.head)] == Logged(d.log, ws, m);
    } else {
      assert Logged(d.log, ws, 0) == d.log;
    }
  }

  lemma {:induction false} AfterPuts(d: Disk, ws: seq<Change>, ops: seq<Op>, m: nat)
    requires m <= |ws| && |ws| <= |ops| && forall i :: 0 <= i < |ws| ==> ops[i] == PutOp(ws, i)
    ensures DoAll(d, ops[..m]) == Disk(d.log, Applied(d.data, ws, m))
    decreases m
  {
    if m > 0 {
      AfterPuts(d, ws, ops, m - 1);
      DoSnoc(d, ops, m - 1);
    }
  }

  lemma {:induction false} AppliedTails(data: seq<Block>, ws: seq<Change>, m: nat, b: nat)
    requires m <= |ws| && b < |data| && TailsUnchanged(ws, data)
    ensures Applied(data, ws, m)[b].tail == data[b].tail
    decreases m
  {
    if m > 0 {
      AppliedTails(data, ws, m - 1, b);
    }
  }

  lemma {:induction false} AppliedUntargeted(log: seq<Slot>, data: seq<Block>, ws: seq<Change>, m: nat, b: nat)
    requires m <= |ws| <= |log| && b < |data| && Last(log, |ws|, b) == None
    requires forall i :: 0 <= i < |ws| ==> log[i] == Redo(ws[i].target, ws[i].c.head)
    ensures Applied(data, ws, m)[b] == data[b]
    decreases m
  {
    hide Last;
    if m > 0 {
      AppliedUntargeted(log, data, ws, m - 1, b);
      Untargeted(log, |ws|, m - 1, b);
    }
  }

  lemma {:induction false} Untargeted(log: seq<Slot>, n: nat, i: nat, b: nat)
    requires i < n <= |log| && Last(log, n, b) == None
    ensures !(log[i].Redo? && log[i].target == b)
    decreases n
  {
    if i < n - 1 {
      Untargeted(log, n - 1, i, b);
    }
  }

  /** Over any partial in-place progress, replaying the whole log completes the transaction. */
  lemma {:induction false} ReplayCompletes(log: seq<Slot>, data: seq<Block>, ws: seq<Change>, m: nat)
    requires m <= |ws| <= |log| && TailsUnchanged(ws, data)
    requires forall i :: 0 <= i < |ws| ==> log[i] == Redo(ws[i].target, ws[i].c.head)
    ensures Replay(log, |ws|, Applied(data, ws, m)) == Applied(data, ws, |ws|)
  {
    hide Replay, Last, Applied, TailsUnchanged;
    var part, done := Applied(data, ws, m), Applied(data, ws, |ws|);
    forall b | 0 <= b < |data|
      ensures Replay(log, |ws|, part)[b] == done[b]
    {
      ReplayIsLast(log, |ws|, part, b);
      if Last(log, |ws|, b).Some? {
        AppliedIsLast(log, data, ws, |ws|, b);
        AppliedTails(data, ws, m, b);
        AppliedTails(data, ws, |ws|, b);
      } else {
        AppliedUntargeted(log, data, ws, m, b);
        AppliedUntargeted(log, data, ws, |ws|, b);
      }
    }
  }

  /** The four stretches of the write-ahead trace. */
  lemma {:induction false} WriteAheadState(d: Disk, ws: seq<Change>, k: nat)
    requires |ws| < |d.log| && k <= 3 * |ws| + 2
    ensures var n := |ws|;
            var x := DoAll(d, WriteAheadOps(ws)[..k]);
            var marked := Logged(d.log, ws, n)[n := Commit];
            && (k <= n ==> x == Disk(Logged(d.log, ws, k), d.data))
            && (n < k <= 2 * n + 1 ==> x == Disk(marked, Applied(d.data, ws, k - n - 1)))
            && (2 * n + 1 < k ==> x == Disk(ZeroPrefix(marked, k - 2 * n - 1), Applied(d.data, ws, n)))
  {
    hide DoAll, Applied, Logged;
    var n := |ws|;
    var a := seq(n, i requires 0 <= i < n => LogOp(ws, i));
    var b := [SetSlot(n, Commit)];
    var c := seq(n, i requires 0 <= i < n => PutOp(ws, i));
    var z := ZeroOps(n + 1);
    var logged := Disk(Logged(d.log, ws, n), d.data);
    var marked := Disk(logged.log[n := Commit], d.data);
    var put := Disk(marked.log, Applied(d.data, ws, n));
    assert a[..n] == a && c[..n] == c;
    AfterLogs(d, ws, a, n);
    OneOp(logged, b[0]);
    DoConcat(d, a, b);
    AfterPuts(marked, ws, c, n);
    DoConcat(d, a + b, c);
    if k <= n {
      assert (a + b + c + z)[..k] == a[..k];
      AfterLogs(d, ws, a, k);
    } else if k <= 2 * n + 1 {
      var m := k - n - 1;
      assert (a + b + c + z)[..k] == (a + b) + c[..m];
      DoConcat(d, a + b, c[..m]);
      AfterPuts(marked, ws, c, m);
    } else {
      var m := k - 2 * n - 1;
      assert (a + b + c + z)[..k] == (a + b + c) + z[..m];
      DoConcat(d, a + b + c, z[..m]);
      AfterZeroes(put, n + 1, m);
    }
  }

  lemma OneOp(d: Disk, op: Op)
    ensures DoAll(d, [op]) == Do(d, op)
  {
    NothingDone(d, [op]);
    DoSnoc(d, [op], 0);
    assert [op][..1] == [op];
  }

  /**
   With the documented order the same recovery code is all-or-nothing: before the marker
   nothing of the transaction survives a crash, from the marker on all of it does.
   */
  lemma {:induction false} WriteAheadIsAtomic(d: Disk, ws: seq<Change>, k: nat)
    requires NoCommit(d.log) && |ws| < |d.log| && k <= 3 * |ws| + 2 && TailsUnchanged(ws, d.data)
    ensures Recovered(DoAll(d, WriteAheadOps(ws)[..k])).data
         == if k <= |ws| then d.data else Applied(d.data, ws, |ws|)
  {
    hide DoAll, Recovered, Applied, Replay, WriteAheadOps, TailsUnchanged;
    var n := |ws|;
    var x := DoAll(d, WriteAheadOps(ws)[..k]);
    WriteAheadState(d, ws, k);
    var marked := Logged(d.log, ws, n)[n := Commit];
    if k <= n {
      assert NoCommit(x.log);
      RecoverTorn(x);
    } else if k <= 2 * n + 1 {
      assert CommitAt(x.log, n);
      RecoverCommitted(x, n);
      ReplayCompletes(marked, d.data, ws, k - n - 1);
    } else if k - 2 * n - 1 <= n {
      assert CommitAt(x.log, n);
      RecoverCommitted(x, n);
      ReplayCompletes(marked, d.data, ws, n);
      ReplaySettled(marked, k - 2 * n - 1, n, Applied(d.data, ws, n));
    } else {
      assert NoCommit(x.log);
      RecoverTorn(x);
    }
  }

  // ---- entries as bytes ----

  const BLOCK_SIZE: nat := 4096
  const DATA_SIZE: nat := 4088

  /** A journal entry block: type tag, target block, payload. */
  function EntryBytes(tag: u32, target: u32, payload: seq<byte>): (e: seq<byte>)
    requires |payload| == DATA_SIZE
    ensures |e| == BLOCK_SIZE
  {
    ToLe32(tag) + ToLe32(target) + payload
  }

  /** How the recovery scan reads an entry block. */
  function SlotOf(e: seq<byte>): (s: Slot)
    requires |e| == BLOCK_SIZE
  {
    var tag: nat := Le32(e[0..4]);
    if tag == 0 then Empty
    else if tag == 1 then Redo(Le32(e[4..8]), e[8..8 + DATA_SIZE])
    else if tag == 2 then Commit
    else Garbage
  }

  /** Entries read back as written, and a zeroed block as an empty slot. */
  lemma EntryRoundTrip(target: u32, payload: seq<byte>)
    requires |payload| == DATA_SIZE
    ensures SlotOf(EntryBytes(1, target, payload)) == Redo(target, payload)
    ensures SlotOf(EntryBytes(2, 0, Fill(DATA_SIZE, 0))) == Commit
    ensures SlotOf(Fill(BLOCK_SIZE, 0)) == Empty
  {
    EntryParts(1, target, payload);
    EntryParts(2, 0, Fill(DATA_SIZE, 0));
    assert Fill(BLOCK_SIZE, 0)[0..4] == ToLe32(0);
  }

  lemma EntryParts(tag: u32, target: u32, payload: seq<byte>)
    requires |payload| == DATA_SIZE
    ensures var e := EntryBytes(tag, target, payload);
            e[0..4] == ToLe32(tag) && e[4..8] == ToLe32(target) && e[8..8 + DATA_SIZE] == payload
  {
    hide ToLe32, Le32;
  }

  /** Every redo entry before the marker names a block of the medium. */
  ghost predicate Replayable(d: Disk) {
    var c := FirstCommit(d.log, 0);
    c.Some? ==> forall i :: 0 <= i < c.value && d.log[i].Redo? ==> d.log[i].target < |d.data|
  }

  // ---- the journal code ----

  /** A mounted volume: journal area, blocks, the volatile head, and the writes issued so far. */
  class Volume {
    var log: seq<Slot>
    var data: seq<Block>
    var head: nat
    ghost var trace: seq<Op>

    ghost function State(): (d: Disk)
      reads this
    {
      Disk(log, data)
    }

    constructor (d: Disk)
      ensures State() == d && head == 0 && trace == []
    {
      log, data, head, trace := d.log, d.data, 0, [];
    }

    method WriteSlot(i: nat, s: Slot)
      requires i < |log|
      modifies `log, `trace
      ensures State() == Do(old(State()), SetSlot(i, s)) && trace == old(trace) + [SetSlot(i, s)]
    {
      log := log[i := s];
      trace := trace + [SetSlot(i, s)];
    }

    method WriteBlock(b: nat, c: Block)
      requires b < |data|
      modifies `data, `trace
      ensures State() == Do(old(State()), SetBlock(b, c)) && trace == old(trace) + [SetBlock(b, c)]
    {
      data := data[b := c];
      trace := trace + [SetBlock(b, c)];
    }

    /** Appends a redo entry; refuses when the journal is full; does nothing without a journal. */
    method Log(target: nat, c: Block) returns (ok: bool)
      modifies `log, `head, `trace
      ensures ok <==> |log| == 0 || old(head) < |log|
      ensures ok && |log| > 0 ==>
                && head == old(head) + 1
                && trace == old(trace) + [SetSlot(old(head), Redo(target, c.head))]
                && State() == Do(old(State()), SetSlot(old(head), Redo(target, c.head)))
      ensures !ok || |log| == 0 ==> head == old(head) && trace == old(trace) && State() == old(State())
    {
      if |log| == 0 {
        return true;
      }
      if head >= |log| {
        return false;
      }
      WriteSlot(head, Redo(target, c.head));
      head := head + 1;
      ok := true;
    }

    /** Zeroes the first `n` slots. */
    method Zero(n: nat)
      requires n <= |log|
      modifies `log, `trace
      ensures trace == old(trace) + ZeroOps(n) && State() == DoAll(old(State()), ZeroOps(n))
    {
      ghost var ops := ZeroOps(n);
      ghost var before, start := trace, State();
      NothingDone(start, ops);
      for j := 0 to n
        invariant |log| == |start.log|
        invariant trace == before + ops[..j] && State() == DoAll(start, ops[..j])
      {
        DoSnoc(start, ops, j);
        NextPart(before, ops, j);
        WriteSlot(j, Empty);
      }
      assert ops[..n] == ops;
    }

    method CommitTransaction()
      requires head <= |log|
      modifies this
      ensures head == 0 && trace == old(trace) + CommitOps(old(head), |log|)
      ensures State() == DoAll(old(State()), CommitOps(old(head), |log|))
    {
      hide DoAll, ZeroOps;
      ghost var before, start, n := trace, State(), head;
      if |log| == 0 || head == 0 {
        NothingDone(start, []);
        head := 0;
        return;
      }
      var h := head;
      if h < |log| {
        WriteSlot(h, Commit);
        OneOp(start, SetSlot(h, Commit));
      }
      head := 0;
      if h < |log| {
        DoConcat(start, [SetSlot(h, Commit)], ZeroOps(h + 1));
        Assoc(before, [SetSlot(h, Commit)], ZeroOps(h + 1));
        Zero(h + 1);
      } else {
        Zero(h);
      }
    }

    /** Scan, replay, clear. A redo entry for a block past the end of the medium stops it with an error. */
    method Recover() returns (ok: bool)
      modifies this
      ensures ok <==> Replayable(old(State()))
      ensures ok ==> head == 0 && trace == old(trace) + RecoverOps(old(State())) && State() == Recovered(old(State()))
      ensures !ok ==> log == old(log)
    {
      hide DoAll, ZeroOps, FirstCommit;
      ghost var before, start := trace, State();
      var found := Scan();
      if found.None? {
        NothingDone(start, []);
        head := 0;
        return true;
      }
      var c := found.value;
      ghost var ops := ReplayOps(start, c);
      NothingDone(start, ops);
      for j := 0 to c
        invariant log == start.log && |data| == |start.data|
        invariant forall i :: 0 <= i < j && log[i].Redo? ==> log[i].target < |data|
        invariant trace == before + ops[..j] && State() == DoAll(start, ops[..j])
      {
        DoSnoc(start, ops, j);
        AfterReplays(start, c, j);
        NextPart(before, ops, j);
        if log[j].Redo? {
          if log[j].target >= |data| {
            return false;
          }
          TailsKept(log, j, start.data, log[j].target);
          WriteBlock(log[j].target, Block(log[j].head, data[log[j].target].tail));
        } else {
          trace := trace + [Nop];
        }
      }
      assert ops[..c] == ops;
      DoConcat(start, ops, ZeroOps(c + 1));
      Assoc(before, ops, ZeroOps(c + 1));
      Zero(c + 1);
      head := 0;
      ok := true;
    }

    /**
     A metadata update as its callers write it: log a block, write it, and commit at the end.
     A refused entry ends it there, with the head left where it is.
     */
    method Transaction(ws: seq<Change>) returns (ok: bool)
      requires head <= |log| && |log| > 0 && forall i :: 0 <= i < |ws| ==> ws[i].target < |data|
      modifies this
      ensures |log| == |old(log)| && (ok <==> |ws| <= |log| - old(head))
      ensures trace == old(trace) + UpdateOps(ws, old(head), |log|)
      ensures Mounted(State(), head) == After(Mounted(old(State()), old(head)), Ran(ws))
    {
      hide DoAll, WriteOpsAt, CommitOps;
      ghost var before, start, base := trace, State(), head;
      ghost var n := Fit(ws, head, |log|);
      ghost var ops := WriteOpsAt(ws[..n], base);
      NothingDone(start, ops);
      for i := 0 to |ws|
        invariant head == base + i && i <= n && |log| == |start.log| && |data| == |start.data|
        invariant trace == before + ops[..2 * i] && State() == DoAll(start, ops[..2 * i])
      {
        var logged := Log(ws[i].target, ws[i].c);
        if !logged {
          assert ops[..2 * i] == ops && ops + [] == ops;
          return false;
        }
        WriteOpsAtAt(ws[..n], base, i);
        DoSnoc(start, ops, 2 * i);
        DoSnoc(start, ops, 2 * i + 1);
        NextPart(before, ops, 2 * i);
        NextPart(before, ops, 2 * i + 1);
        WriteBlock(ws[i].target, ws[i].c);
      }
      assert ops[..2 * |ws|] == ops;
      DoConcat(start, ops, CommitOps(base + n, |log|));
      Assoc(before, ops, CommitOps(base + n, |log|));
      CommitTransaction();
      ok := true;
    }

    /** The position of the commit-end marker the scan reaches first. */
    method Scan() returns (r: Option<nat>)
      ensures r == FirstCommit(log, 0)
    {
      var i := 0;
      while i < |log|
        invariant 0 <= i <= |log|
        invariant FirstCommit(log, 0) == FirstCommit(log, i)
      {
        if log[i] == Commit {
          return Some(i);
        }
        if log[i] == Garbage {
          return None;
        }
        i := i + 1;
      }
      r := None;
    }
  }

  lemma NextPart(before: seq<Op>, ops: seq<Op>, j: nat)
    requires j < |ops|
    ensures before + ops[..j + 1] == before + ops[..j] + [ops[j]]
  {
    assert ops[..j + 1] == ops[..j] + [ops[j]];
  }
}
