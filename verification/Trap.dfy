/**
 Trap entry and return as instruction sequences over a small RISC-V machine, for either
 register width: `w` is the size of a frame word (8 on rv64, 4 on rv32).
 */
module Trap {
  import opened Bytes

  const SP: nat := 2
  const TP: nat := 4
  const T0: nat := 5
  const T1: nat := 6

  /** Words of a trap frame; registers first, then sepc, sstatus and, last, satp. */
  const FRAME: nat := 36
  const SEPC_SLOT: nat := 31
  const SSTATUS_SLOT: nat := 32
  const SATP_SLOT: nat := 35

  /** The sstatus register: the four bits the trap code and the hart move, and the rest. */
  datatype Status = Status(sie: bool, spie: bool, spp: bool, sum: bool, other: nat)

  /** A register-sized word: a number, or an sstatus image. */
  datatype Word = Num(n: int) | Stat(s: Status)

  datatype Machine = Machine(
    x: seq<Word>, mem: map<int, Word>,
    sscratch: Word, sepc: Word, sstatus: Status, satp: Word, pc: Word, user: bool)

  datatype Csr = Sscratch | Sepc | Sstatus | Satp

  /** The instructions the trap code uses; frame accesses are relative to sp, in words. */
  datatype Instr =
    | SwapScratch               // csrrw sp, sscratch, sp
    | ScratchIfZero             // bnez sp / csrr sp, sscratch
    | AddSp(words: int)
    | Store(r: nat, slot: nat)
    | Load(r: nat, slot: nat)
    | CsrR(r: nat, csr: Csr)
    | CsrW(csr: Csr, r: nat)
    | CsrZero(csr: Csr)
    | SetSum(r: nat)            // li r, SUM / csrs sstatus, r
    | ClearSie(r: nat, mask: nat) // li mask, ~SIE / and r, r, mask
    | TakeSpp(r: nat)           // srli r, r, 8 / andi r, r, 1
    | ScratchFor(r: nat)        // bnez r / sscratch := 0, or sscratch := sp + frame by way of r

  ghost predicate Shape(m: Machine) {
    |m.x| == 32 && m.x[0] == Num(0)
  }

  // ---- execution ----

  /** Address of a frame word. */
  function Addr(sp: int, slot: nat, w: nat): (a: int) {
    sp + slot * w
  }

  function At(mem: map<int, Word>, a: int): (v: Word) {
    if a in mem then mem[a] else Num(0)
  }

  function SetReg(m: Machine, r: nat, v: Word): (m': Machine)
    requires Shape(m)
    ensures Shape(m')
  {
    if 0 < r < 32 then m.(x := m.x[r := v]) else m
  }

  function Reg(m: Machine, r: nat): (v: Word)
    requires Shape(m)
  {
    if r < 32 then m.x[r] else Num(0)
  }

  /** The stack pointer as an address. */
  function Sp(m: Machine): (a: int)
    requires Shape(m)
  {
    if m.x[SP].Num? then m.x[SP].n else 0
  }

  function GetCsr(m: Machine, c: Csr): (v: Word) {
    match c
    case Sscratch => m.sscratch
    case Sepc => m.sepc
    case Sstatus => Stat(m.sstatus)
    case Satp => m.satp
  }

  function SetCsr(m: Machine, c: Csr, v: Word): (m': Machine) {
    match c
    case Sscratch => m.(sscratch := v)
    case Sepc => m.(sepc := v)
    case Sstatus => if v.Stat? then m.(sstatus := v.s) else m
    case Satp => m.(satp := v)
  }

  function Step(m: Machine, i: Instr, w: nat): (m': Machine)
    requires Shape(m)
    ensures Shape(m')
  {
    match i
    case SwapScratch => SetReg(m.(sscratch := m.x[SP]), SP, m.sscratch)
    case ScratchIfZero => if m.x[SP] == Num(0) then SetReg(m, SP, m.sscratch) else m
    case AddSp(k) => SetReg(m, SP, Num(Sp(m) + k * w))
    case Store(r, slot) => m.(mem := m.mem[Addr(Sp(m), slot, w) := Reg(m, r)])
    case Load(r, slot) => SetReg(m, r, At(m.mem, Addr(Sp(m), slot, w)))
    case CsrR(r, c) => SetReg(m, r, GetCsr(m, c))
    case CsrW(c, r) => SetCsr(m, c, Reg(m, r))
    case CsrZero(c) => SetCsr(m, c, Num(0))
    case SetSum(r) => SetReg(m, r, Num(0x40000)).(sstatus := m.sstatus.(sum := true))
    case ClearSie(r, mask) =>
      var v := Reg(m, r);
      SetReg(SetReg(m, mask, Num(0 - 3)), r, if v.Stat? then Stat(v.s.(sie := false)) else v)
    case TakeSpp(r) =>
      var v := Reg(m, r);
      SetReg(m, r, Num(if v.Stat? && v.s.spp then 1 else 0))
    case ScratchFor(r) =>
      if Reg(m, r) != Num(0) then m.(sscratch := Num(0))
      else
        var top := Num(Sp(m) + FRAME * w);
        SetReg(m, r, top).(sscratch := top)
  }

  function Exec(m: Machine, prog: seq<Instr>, w: nat): (m': Machine)
    requires Shape(m)
    ensures Shape(m')
    decreases |prog|
  {
    if prog == [] then m else Step(Exec(m, prog[..|prog| - 1], w), prog[|prog| - 1], w)
  }

  lemma ExecSnoc(m: Machine, prog: seq<Instr>, k: nat, w: nat)
    requires Shape(m) && k < |prog|
    ensures Exec(m, prog[..k + 1], w) == Step(Exec(m, prog[..k], w), prog[k], w)
  {
    hide Step;
    assert prog[..k + 1][..k] == prog[..k];
  }

  lemma {:induction false} ExecConcat(m: Machine, a: seq<Instr>, b: seq<Instr>, w: nat)
    requires Shape(m)
    ensures Exec(m, a + b, w) == Exec(Exec(m, a, w), b, w)
    decreases |b|
  {
    hide Step;
    if b == [] {
      assert a + b == a;
    } else {
      var n := |b| - 1;
      ExecConcat(m, a, b[..n], w);
      assert (a + b)[..|a + b| - 1] == a + b[..n];
    }
  }

  // ---- the trap code ----

  /** Registers saved one after the other once sp and t0 are dealt with: ra, gp, tp, and x6 to x31. */
  function Saved(): (rs: seq<nat>) {
    [1, 3, 4] + seq(26, (i: nat) => i + 6)
  }

  /** Registers reloaded first on return: ra, gp, and x7 to x31. */
  function Reloaded(): (rs: seq<nat>) {
    [1, 3] + seq(25, (i: nat) => i + 7)
  }

  lemma SavedFacts()
    ensures Distinct(Saved()) && forall r: nat :: r in Saved() <==> 0 < r < 32 && r != SP && r != T0
  {
    forall r: nat | 0 < r < 32 && r != SP && r != T0
      ensures r in Saved()
    {
      assert Saved()[if r == 1 then 0 else if r < 5 then r - 2 else r - 3] == r;
    }
  }

  lemma ReloadedFacts()
    ensures Distinct(Reloaded())
    ensures forall r: nat :: r in Reloaded() <==> 0 < r < 32 && r != SP && r != TP && r != T0 && r != T1
  {
    forall r: nat | 0 < r < 32 && r != SP && r != TP && r != T0 && r != T1
      ensures r in Reloaded()
    {
      assert Reloaded()[if r == 1 then 0 else if r == 3 then 1 else r - 5] == r;
    }
  }

  function Stores(rs: seq<nat>): (p: seq<Instr>)
    requires forall i :: 0 <= i < |rs| ==> 1 <= rs[i] < 32
  {
    seq(|rs|, i requires 0 <= i < |rs| => Store(rs[i], rs[i] - 1))
  }

  function Loads(rs: seq<nat>): (p: seq<Instr>)
    requires forall i :: 0 <= i < |rs| ==> 1 <= rs[i] < 32
  {
    seq(|rs|, i requires 0 <= i < |rs| => Load(rs[i], rs[i] - 1))
  }

  const ENTER: seq<Instr> :=
    [SwapScratch, ScratchIfZero, AddSp(0 - 36), Store(T0, T0 - 1), CsrR(T0, Sscratch), Store(T0, SP - 1),
     CsrZero(Sscratch)]

  const SAVE_CSRS: seq<Instr> :=
    [SetSum(T0), CsrR(T0, Sepc), Store(T0, SEPC_SLOT), CsrR(T0, Sstatus), Store(T0, SSTATUS_SLOT),
     CsrR(T0, Satp), Store(T0, SATP_SLOT)]

  const LOAD_CSRS: seq<Instr> :=
    [Load(T0, SEPC_SLOT), CsrW(Sepc, T0), Load(T0, SSTATUS_SLOT), ClearSie(T0, T1), CsrW(Sstatus, T0),
     TakeSpp(T0), ScratchFor(T0), Load(T0, SATP_SLOT), CsrW(Satp, T0)]

  const LEAVE: seq<Instr> := [Load(T1, T1 - 1), Load(T0, T0 - 1), Load(SP, SP - 1)]

  /** `trap_entry`, up to the call of the handler. */
  function Entry(): (p: seq<Instr>) {
    ENTER + Stores(Saved()) + SAVE_CSRS
  }

  /** `trap_return`, up to `sret`. */
  function Return(): (p: seq<Instr>) {
    Loads(Reloaded()) + LOAD_CSRS + LEAVE
  }

  /** What the hart does when it takes a trap into supervisor mode. */
  function HardwareTrap(m: Machine): (m': Machine) {
    m.(sepc := m.pc, user := false,
       sstatus := m.sstatus.(spp := !m.user, spie := m.sstatus.sie, sie := false))
  }

  /** `sret`. */
  function Sret(m: Machine): (m': Machine) {
    m.(pc := m.sepc, user := !m.sstatus.spp,
       sstatus := m.sstatus.(sie := m.sstatus.spie, spie := true, spp := false))
  }

  // ---- blocks of stores and loads ----

  ghost predicate Distinct(rs: seq<nat>) {
    && (forall i :: 0 <= i < |rs| ==> 1 <= rs[i] < 32)
    && (forall i, j :: 0 <= i < j < |rs| ==> rs[i] != rs[j])
  }

  lemma SlotsApart(sp: int, a: nat, b: nat, w: nat)
    requires w > 0 && a != b
    ensures Addr(sp, a, w) != Addr(sp, b, w)
  {
    if a * w == b * w {
      assert (a - b) * w == 0;
      SmallProduct(a - b, w);
    }
  }

  lemma SlotInFrame(sp: int, slot: nat, w: nat)
    requires w > 0 && slot < FRAME
    ensures sp <= Addr(sp, slot, w) < sp + FRAME * w
  {
    assert slot * w <= (FRAME - 1) * w;
  }

  /** Memory agrees outside the frame at `sp`. */
  ghost predicate SameOutside(before: map<int, Word>, after: map<int, Word>, sp: int, w: nat) {
    forall a :: a < sp || a >= sp + FRAME * w ==> At(after, a) == At(before, a)
  }

  /** One word of the frame has changed. */
  lemma StoreWord(m: Machine, r: nat, slot: nat, w: nat)
    requires Shape(m) && w > 0 && slot < FRAME
    ensures var m' := Step(m, Store(r, slot), w);
            && m' == m.(mem := m'.mem)
            && At(m'.mem, Addr(Sp(m), slot, w)) == Reg(m, r)
            && (forall k: nat :: k != slot ==>
                  At(m'.mem, Addr(Sp(m), k, w)) == At(m.mem, Addr(Sp(m), k, w)))
            && SameOutside(m.mem, m'.mem, Sp(m), w)
  {
    hide Addr;
    SlotInFrame(Sp(m), slot, w);
    forall k: nat | k != slot
      ensures Addr(Sp(m), k, w) != Addr(Sp(m), slot, w)
    {
      SlotsApart(Sp(m), k, slot, w);
    }
  }

  /** `mem` is the memory of `m` with the registers `rs` in their frame slots. */
  ghost predicate SavedIn(m: Machine, mem: map<int, Word>, rs: seq<nat>, w: nat)
    requires Shape(m) && Distinct(rs)
  {
    && (forall r: nat :: 0 < r && r in rs ==> At(mem, Addr(Sp(m), r - 1, w)) == m.x[r])
    && (forall k: nat :: (k + 1) !in rs ==> At(mem, Addr(Sp(m), k, w)) == At(m.mem, Addr(Sp(m), k, w)))
    && SameOutside(m.mem, mem, Sp(m), w)
  }

  lemma StoresSnoc(m: Machine, rs: seq<nat>, w: nat)
    requires Shape(m) && Distinct(rs) && rs != []
    ensures var n := |rs| - 1;
            Exec(m, Stores(rs), w) == Step(Exec(m, Stores(rs[..n]), w), Store(rs[n], rs[n] - 1), w)
  {
    hide Step;
    var n := |rs| - 1;
    assert Stores(rs)[..n] == Stores(rs[..n]);
  }

  lemma SavedGrows(m: Machine, before: map<int, Word>, after: map<int, Word>, rs: seq<nat>, w: nat)
    requires Shape(m) && Distinct(rs) && rs != [] && SavedIn(m, before, rs[..|rs| - 1], w)
    requires SameOutside(before, after, Sp(m), w)
    requires var r := rs[|rs| - 1];
             && At(after, Addr(Sp(m), r - 1, w)) == m.x[r]
             && (forall k: nat :: k != r - 1 ==> At(after, Addr(Sp(m), k, w)) == At(before, Addr(Sp(m), k, w)))
    ensures SavedIn(m, after, rs, w)
  {
    hide Addr;
    var front, r := rs[..|rs| - 1], rs[|rs| - 1];
    assert forall q :: q in rs <==> q == r || q in front;
  }

  lemma {:induction false} StoreBlock(m: Machine, rs: seq<nat>, w: nat)
    requires Shape(m) && Distinct(rs) && w > 0
    ensures var m' := Exec(m, Stores(rs), w);
            m' == m.(mem := m'.mem) && SavedIn(m, m'.mem, rs, w)
    decreases |rs|
  {
    hide Addr, Step, SavedIn, Stores;
    if rs == [] {
      SavedNothing(m, w);
    } else {
      var n := |rs| - 1;
      StoreBlock(m, rs[..n], w);
      StoresSnoc(m, rs, w);
      var m1 := Exec(m, Stores(rs[..n]), w);
      StoreWord(m1, rs[n], rs[n] - 1, w);
      SavedGrows(m, m1.mem, Exec(m, Stores(rs), w).mem, rs, w);
    }
  }

  lemma SavedNothing(m: Machine, w: nat)
    requires Shape(m)
    ensures Exec(m, Stores([]), w) == m && SavedIn(m, m.mem, [], w)
  {
  }

  lemma LoadsSnoc(m: Machine, rs: seq<nat>, w: nat)
    requires Shape(m) && Distinct(rs) && rs != []
    ensures var n := |rs| - 1;
            Exec(m, Loads(rs), w) == Step(Exec(m, Loads(rs[..n]), w), Load(rs[n], rs[n] - 1), w)
  {
    hide Step;
    var n := |rs| - 1;
    assert Loads(rs)[..n] == Loads(rs[..n]);
  }

  lemma {:induction false} LoadBlock(m: Machine, rs: seq<nat>, w: nat)
    requires Shape(m) && Distinct(rs) && SP !in rs
    ensures var m' := Exec(m, Loads(rs), w);
            && m' == m.(x := m'.x)
            && (forall r: nat :: 0 < r && r in rs ==> m'.x[r] == At(m.mem, Addr(Sp(m), r - 1, w)))
            && (forall r: nat :: r < 32 && r !in rs ==> m'.x[r] == m.x[r])
    decreases |rs|
  {
    hide Addr, Step, Loads;
    if rs == [] {
      LoadedNothing(m, w);
    } else {
      var n := |rs| - 1;
      var front, r := rs[..n], rs[n];
      LoadBlock(m, front, w);
      LoadsSnoc(m, rs, w);
      LoadWord(Exec(m, Loads(front), w), r, r - 1, w);
      assert forall q :: q in rs <==> q == r || q in front;
    }
  }

  lemma LoadedNothing(m: Machine, w: nat)
    requires Shape(m)
    ensures Exec(m, Loads([]), w) == m
  {
  }

  lemma LoadWord(m: Machine, r: nat, slot: nat, w: nat)
    requires Shape(m) && 0 < r < 32
    ensures Step(m, Load(r, slot), w) == m.(x := m.x[r := At(m.mem, Addr(Sp(m), slot, w))])
  {
  }

  // ---- entry ----

  /** A hart about to take a trap: in user mode sscratch holds the kernel stack, in the kernel it is zero. */
  ghost predicate Ready(m: Machine) {
    && Shape(m) && m.x[SP].Num?
    && m.sscratch.Num? && (m.user <==> m.sscratch != Num(0))
  }

  /** Where the trap frame goes. */
  function FrameBase(m: Machine, w: nat): (sp: int)
    requires Ready(m)
  {
    (if m.user then m.sscratch.n else Sp(m)) - FRAME * w
  }

  /** The frame at `sp` holds the registers and control state of `m` at its trap. */
  ghost predicate Framed(mem: map<int, Word>, sp: int, m: Machine, w: nat)
    requires Shape(m)
  {
    && (forall r: nat :: 0 < r < 32 ==> At(mem, Addr(sp, r - 1, w)) == m.x[r])
    && At(mem, Addr(sp, SEPC_SLOT, w)) == m.pc
    && At(mem, Addr(sp, SSTATUS_SLOT, w)) == Stat(HardwareTrap(m).sstatus.(sum := true))
    && At(mem, Addr(sp, SATP_SLOT, w)) == m.satp
  }

  lemma EnterSteps(m: Machine, w: nat)
    requires Shape(m)
    ensures var s1 := Step(m, SwapScratch, w);
            var s2 := Step(s1, ScratchIfZero, w);
            var s3 := Step(s2, AddSp(0 - 36), w);
            var s4 := Step(s3, Store(T0, T0 - 1), w);
            var s5 := Step(s4, CsrR(T0, Sscratch), w);
            var s6 := Step(s5, Store(T0, SP - 1), w);
            Exec(m, ENTER, w) == Step(s6, CsrZero(Sscratch), w)
  {
    hide Step;
    ExecSnoc(m, ENTER, 0, w);
    ExecSnoc(m, ENTER, 1, w);
    ExecSnoc(m, ENTER, 2, w);
    ExecSnoc(m, ENTER, 3, w);
    ExecSnoc(m, ENTER, 4, w);
    ExecSnoc(m, ENTER, 5, w);
    ExecSnoc(m, ENTER, 6, w);
    assert ENTER[..7] == ENTER;
  }

  /** After the stack switch: the frame is reserved, sp and t0 are in it. */
  lemma {:induction false} Entered(m: Machine, w: nat)
    requires Ready(m) && w > 0
    ensures var t, sp := Exec(HardwareTrap(m), ENTER, w), FrameBase(m, w);
            && t.x == m.x[SP := Num(sp)][T0 := m.x[SP]] && t.sscratch == Num(0)
            && t == HardwareTrap(m).(x := t.x, mem := t.mem, sscratch := t.sscratch)
            && At(t.mem, Addr(sp, SP - 1, w)) == m.x[SP] && At(t.mem, Addr(sp, T0 - 1, w)) == m.x[T0]
            && SameOutside(m.mem, t.mem, sp, w)
  {
    hide Exec, Addr;
    var h, sp := HardwareTrap(m), FrameBase(m, w);
    EnterSteps(h, w);
    var s3 := Step(Step(Step(h, SwapScratch, w), ScratchIfZero, w), AddSp(0 - 36), w);
    StackReserved(m, w);
    StoreWord(s3, T0, T0 - 1, w);
    var s5 := Step(Step(s3, Store(T0, T0 - 1), w), CsrR(T0, Sscratch), w);
    StoreWord(s5, T0, SP - 1, w);
  }

  lemma StackReserved(m: Machine, w: nat)
    requires Ready(m)
    ensures var h := HardwareTrap(m);
            Step(Step(Step(h, SwapScratch, w), ScratchIfZero, w), AddSp(0 - 36), w)
            == h.(x := m.x[SP := Num(FrameBase(m, w))], sscratch := m.x[SP])
  {
  }

  lemma SaveCsrsSteps(m: Machine, w: nat)
    requires Shape(m)
    ensures var s1 := Step(m, SetSum(T0), w);
            var s3 := Step(Step(s1, CsrR(T0, Sepc), w), Store(T0, SEPC_SLOT), w);
            var s5 := Step(Step(s3, CsrR(T0, Sstatus), w), Store(T0, SSTATUS_SLOT), w);
            Exec(m, SAVE_CSRS, w) == Step(Step(s5, CsrR(T0, Satp), w), Store(T0, SATP_SLOT), w)
  {
    hide Step;
    ExecSnoc(m, SAVE_CSRS, 0, w);
    ExecSnoc(m, SAVE_CSRS, 1, w);
    ExecSnoc(m, SAVE_CSRS, 2, w);
    ExecSnoc(m, SAVE_CSRS, 3, w);
    ExecSnoc(m, SAVE_CSRS, 4, w);
    ExecSnoc(m, SAVE_CSRS, 5, w);
    ExecSnoc(m, SAVE_CSRS, 6, w);
    assert SAVE_CSRS[..7] == SAVE_CSRS;
  }

  /** Reading a control register and storing it: one frame word and t0 change. */
  lemma SaveCsr(m: Machine, c: Csr, slot: nat, w: nat)
    requires Shape(m) && w > 0 && slot < FRAME
    ensures var t := Step(Step(m, CsrR(T0, c), w), Store(T0, slot), w);
            && t == m.(x := m.x[T0 := GetCsr(m, c)], mem := t.mem)
            && At(t.mem, Addr(Sp(m), slot, w)) == GetCsr(m, c)
            && (forall k: nat :: k != slot ==> At(t.mem, Addr(Sp(m), k, w)) == At(m.mem, Addr(Sp(m), k, w)))
            && SameOutside(m.mem, t.mem, Sp(m), w)
  {
    hide Addr;
    StoreWord(Step(m, CsrR(T0, c), w), T0, slot, w);
  }

  lemma {:induction false} CsrsSaved(m: Machine, w: nat)
    requires Shape(m) && w > 0
    ensures var t := Exec(m, SAVE_CSRS, w);
            && t == m.(x := t.x, mem := t.mem, sstatus := m.sstatus.(sum := true))
            && t.x == m.x[T0 := m.satp]
            && At(t.mem, Addr(Sp(m), SEPC_SLOT, w)) == m.sepc
            && At(t.mem, Addr(Sp(m), SSTATUS_SLOT, w)) == Stat(m.sstatus.(sum := true))
            && At(t.mem, Addr(Sp(m), SATP_SLOT, w)) == m.satp
            && (forall k: nat :: k < 31 ==> At(t.mem, Addr(Sp(m), k, w)) == At(m.mem, Addr(Sp(m), k, w)))
            && SameOutside(m.mem, t.mem, Sp(m), w)
  {
    hide Addr, Exec;
    SaveCsrsSteps(m, w);
    var s1 := Step(m, SetSum(T0), w);
    SaveCsr(s1, Sepc, SEPC_SLOT, w);
    var s3 := Step(Step(s1, CsrR(T0, Sepc), w), Store(T0, SEPC_SLOT), w);
    SaveCsr(s3, Sstatus, SSTATUS_SLOT, w);
    var s5 := Step(Step(s3, CsrR(T0, Sstatus), w), Store(T0, SSTATUS_SLOT), w);
    SaveCsr(s5, Satp, SATP_SLOT, w);
  }

  /** Entry saves the whole interrupted context in the frame and touches nothing else on the stack. */
  lemma {:induction false} EntryFrames(m: Machine, w: nat)
    requires Ready(m) && w > 0
    ensures var t, sp := Exec(HardwareTrap(m), Entry(), w), FrameBase(m, w);
            && t.x[SP] == Num(sp) && t.x[TP] == m.x[TP] && t.sscratch == Num(0) && !t.user && t.satp == m.satp
            && !t.sstatus.sie
            && Framed(t.mem, sp, m, w) && SameOutside(m.mem, t.mem, sp, w)
  {
    hide Addr, Exec, Step, Stores;
    var h, sp := HardwareTrap(m), FrameBase(m, w);
    ExecConcat(h, ENTER, Stores(Saved()), w);
    ExecConcat(h, ENTER + Stores(Saved()), SAVE_CSRS, w);
    Entered(m, w);
    var a := Exec(h, ENTER, w);
    SavedFacts();
    StoreBlock(a, Saved(), w);
    var b := Exec(a, Stores(Saved()), w);
    CsrsSaved(b, w);
    var t := Exec(b, SAVE_CSRS, w);
    forall r: nat | 0 < r < 32
      ensures At(t.mem, Addr(sp, r - 1, w)) == m.x[r]
    {
      assert Sp(a) == sp && Sp(b) == sp;
      assert At(t.mem, Addr(sp, r - 1, w)) == At(b.mem, Addr(sp, r - 1, w));
      if r == SP || r == T0 {
        assert (r - 1) + 1 !in Saved();
        assert At(b.mem, Addr(sp, r - 1, w)) == At(a.mem, Addr(sp, r - 1, w));
      } else {
        assert r in Saved() && a.x[r] == m.x[r];
      }
    }
  }

  // ---- return ----

  lemma LoadCsrsSteps(m: Machine, w: nat)
    requires Shape(m)
    ensures var s2 := Step(Step(m, Load(T0, SEPC_SLOT), w), CsrW(Sepc, T0), w);
            var s5 := Step(Step(Step(s2, Load(T0, SSTATUS_SLOT), w), ClearSie(T0, T1), w), CsrW(Sstatus, T0), w);
            var s7 := Step(Step(s5, TakeSpp(T0), w), ScratchFor(T0), w);
            Exec(m, LOAD_CSRS, w) == Step(Step(s7, Load(T0, SATP_SLOT), w), CsrW(Satp, T0), w)
  {
    hide Step;
    ExecSnoc(m, LOAD_CSRS, 0, w);
    ExecSnoc(m, LOAD_CSRS, 1, w);
    ExecSnoc(m, LOAD_CSRS, 2, w);
    ExecSnoc(m, LOAD_CSRS, 3, w);
    ExecSnoc(m, LOAD_CSRS, 4, w);
    ExecSnoc(m, LOAD_CSRS, 5, w);
    ExecSnoc(m, LOAD_CSRS, 6, w);
    ExecSnoc(m, LOAD_CSRS, 7, w);
    ExecSnoc(m, LOAD_CSRS, 8, w);
    assert LOAD_CSRS[..9] == LOAD_CSRS;
  }

  /** The control state of a frame, with interrupts held off and sscratch set for the mode returned to. */
  lemma {:induction false} CsrsLoaded(m: Machine, st: Status, w: nat)
    requires Shape(m) && At(m.mem, Addr(Sp(m), SSTATUS_SLOT, w)) == Stat(st)
    ensures var t := Exec(m, LOAD_CSRS, w);
            && t == m.(x := t.x,
                       sepc := At(m.mem, Addr(Sp(m), SEPC_SLOT, w)),
                       sstatus := st.(sie := false),
                       sscratch := if st.spp then Num(0) else Num(Sp(m) + FRAME * w),
                       satp := At(m.mem, Addr(Sp(m), SATP_SLOT, w)))
            && (forall r: nat :: r < 32 && r != T0 && r != T1 ==> t.x[r] == m.x[r])
  {
    hide Addr, Exec, Step;
    LoadCsrsSteps(m, w);
    LoadCsr(m, Sepc, SEPC_SLOT, w);
    var s2 := Step(Step(m, Load(T0, SEPC_SLOT), w), CsrW(Sepc, T0), w);
    LoadStatus(s2, st, w);
    var s5 := Step(Step(Step(s2, Load(T0, SSTATUS_SLOT), w), ClearSie(T0, T1), w), CsrW(Sstatus, T0), w);
    PickScratch(s5, st.(sie := false), w);
    LoadCsr(Step(Step(s5, TakeSpp(T0), w), ScratchFor(T0), w), Satp, SATP_SLOT, w);
  }

  lemma LoadCsr(m: Machine, c: Csr, slot: nat, w: nat)
    requires Shape(m) && c != Sstatus
    ensures var v := At(m.mem, Addr(Sp(m), slot, w));
            Step(Step(m, Load(T0, slot), w), CsrW(c, T0), w) == SetCsr(m.(x := m.x[T0 := v]), c, v)
  {
  }

  lemma LoadStatus(m: Machine, st: Status, w: nat)
    requires Shape(m) && At(m.mem, Addr(Sp(m), SSTATUS_SLOT, w)) == Stat(st)
    ensures Step(Step(Step(m, Load(T0, SSTATUS_SLOT), w), ClearSie(T0, T1), w), CsrW(Sstatus, T0), w)
         == m.(x := m.x[T1 := Num(0 - 3)][T0 := Stat(st.(sie := false))], sstatus := st.(sie := false))
  {
    hide Addr;
    assert m.x[T0 := Stat(st)][T1 := Num(0 - 3)][T0 := Stat(st.(sie := false))]
        == m.x[T1 := Num(0 - 3)][T0 := Stat(st.(sie := false))];
  }

  lemma PickScratch(m: Machine, st: Status, w: nat)
    requires Shape(m) && m.x[T0] == Stat(st)
    ensures var t := Step(Step(m, TakeSpp(T0), w), ScratchFor(T0), w);
            && t == m.(x := m.x[T0 := t.x[T0]], sscratch := if st.spp then Num(0) else Num(Sp(m) + FRAME * w))
            && Shape(t)
  {
  }

  lemma {:induction false} Left(m: Machine, w: nat)
    requires Shape(m)
    ensures var t := Exec(m, LEAVE, w);
            && t == m.(x := t.x)
            && t.x == m.x[T1 := At(m.mem, Addr(Sp(m), T1 - 1, w))][T0 := At(m.mem, Addr(Sp(m), T0 - 1, w))]
                      [SP := At(m.mem, Addr(Sp(m), SP - 1, w))]
  {
    hide Addr;
    ExecSnoc(m, LEAVE, 0, w);
    ExecSnoc(m, LEAVE, 1, w);
    ExecSnoc(m, LEAVE, 2, w);
    assert LEAVE[..3] == LEAVE;
  }

  /** Return from an intact frame resumes the context it was taken from; only tp is the hart's own. */
  lemma {:induction false} ReturnResumes(m: Machine, k: Machine, w: nat)
    requires Shape(m) && Shape(k) && Framed(k.mem, Sp(k), m, w)
    ensures var t := Exec(k, Return(), w);
            && (forall r: nat :: r < 32 && r != TP ==> t.x[r] == m.x[r]) && t.x[TP] == k.x[TP]
            && t.mem == k.mem && t.sepc == m.pc && t.satp == m.satp
            && t.sstatus == HardwareTrap(m).sstatus.(sum := true)
            && t.sscratch == if m.user then Num(Sp(k) + FRAME * w) else Num(0)
  {
    hide Addr, Exec, Step, Loads;
    ExecConcat(k, Loads(Reloaded()), LOAD_CSRS, w);
    ExecConcat(k, Loads(Reloaded()) + LOAD_CSRS, LEAVE, w);
    ReloadedFacts();
    LoadBlock(k, Reloaded(), w);
    var a := Exec(k, Loads(Reloaded()), w);
    CsrsLoaded(a, HardwareTrap(m).sstatus.(sum := true), w);
    var b := Exec(a, LOAD_CSRS, w);
    Left(b, w);
  }

  // ---- one trap ----

  /** The handler gave back the stack pointer and left the frame alone. */
  ghost predicate HandlerKept(t: Machine, k: Machine, w: nat)
    requires Shape(t) && Shape(k)
  {
    k.x[SP] == t.x[SP]
    && forall slot: nat :: slot < FRAME ==> At(k.mem, Addr(Sp(t), slot, w)) == At(t.mem, Addr(Sp(t), slot, w))
  }

  lemma FrameKept(before: map<int, Word>, after: map<int, Word>, sp: int, m: Machine, w: nat)
    requires Shape(m) && Framed(before, sp, m, w)
    requires forall slot: nat :: slot < FRAME ==> At(after, Addr(sp, slot, w)) == At(before, Addr(sp, slot, w))
    ensures Framed(after, sp, m, w)
  {
    hide Addr;
  }

  /** The interrupted program cannot tell: everything but tp and the SUM, SPIE and SPP bits is back. */
  ghost predicate Transparent(m: Machine, r: Machine, tp: Word)
    requires Shape(m) && Shape(r)
  {
    && (forall i: nat :: i < 32 && i != TP ==> r.x[i] == m.x[i]) && r.x[TP] == tp
    && r.pc == m.pc && r.user == m.user && r.satp == m.satp && r.sscratch == m.sscratch
    && r.sstatus.sie == m.sstatus.sie && r.sstatus.sum && r.sstatus.other == m.sstatus.other
  }

  /**
   Trap, entry, any handler that keeps the frame, return: from user or kernel mode, on
   either register width, the interrupted context resumes as it was.
   */
  lemma {:induction false} TrapIsTransparent(m: Machine, k: Machine, w: nat)
    requires Ready(m) && w > 0 && Shape(k)
    requires HandlerKept(Exec(HardwareTrap(m), Entry(), w), k, w)
    ensures Transparent(m, Sret(Exec(k, Return(), w)), k.x[TP])
    ensures Sret(Exec(k, Return(), w)).mem == k.mem
  {
    hide Addr, Exec;
    EntryFrames(m, w);
    var t := Exec(HardwareTrap(m), Entry(), w);
    assert Sp(k) == Sp(t);
    FrameKept(t.mem, k.mem, Sp(t), m, w);
    ReturnResumes(m, k, w);
  }

  // ---- traps inside trap handlers ----

  /**
   What a handler does: work of its own (any register but sp and tp, a page-table switch, and
   stores anywhere except the part of its stack in use), or further traps taken `depth` words
   deeper in its stack.
   */
  datatype Act = Work(regs: seq<Word>, stores: map<int, Word>, satp: Word) | Nested(depth: nat, body: seq<Act>)

  /** The stack in use reaches from sp up to `top`. */
  predicate InUse(m: Machine, top: int, a: int)
    requires Shape(m)
  {
    Sp(m) <= a < top
  }

  function Worked(m: Machine, regs: seq<Word>, stores: map<int, Word>, satp: Word, top: int): (m': Machine)
    requires Shape(m)
    ensures Shape(m')
  {
    var x := seq(32, i requires 0 <= i < 32 =>
      if i == 0 || i == SP || i == TP || i >= |regs| then m.x[i] else regs[i]);
    m.(x := x, mem := m.mem + (map a | a in stores && !InUse(m, top, a) :: stores[a]), satp := satp)
  }

  function Run(m: Machine, acts: seq<Act>, w: nat, top: int): (m': Machine)
    requires Shape(m)
    ensures Shape(m')
    decreases acts
  {
    if acts == [] then m
    else
      var next :=
        match acts[0]
        case Work(regs, stores, satp) => Worked(m, regs, stores, satp, top)
        case Nested(depth, body) =>
          var deep := SetReg(m, SP, Num(Sp(m) - depth * w));
          var inner := Run(Exec(HardwareTrap(deep), Entry(), w), body, w, top);
          var back := Sret(Exec(inner, Return(), w));
          SetReg(back, SP, Num(Sp(back) + depth * w));
      Run(next, acts[1..], w, top)
  }

  /** In the kernel, ready for a trap, on a stack that ends at `top`. */
  ghost predicate InKernel(m: Machine, top: int) {
    Ready(m) && !m.user && Sp(m) <= top
  }

  /** `k` has the same stack pointer, hart and contents of the stack in use. */
  ghost predicate StackKept(m: Machine, k: Machine, top: int)
    requires Shape(m) && Shape(k)
  {
    && k.x[SP] == m.x[SP] && k.x[TP] == m.x[TP]
    && forall a :: InUse(m, top, a) ==> At(k.mem, a) == At(m.mem, a)
  }

  lemma WorkedKeeps(m: Machine, regs: seq<Word>, stores: map<int, Word>, satp: Word, top: int)
    requires InKernel(m, top)
    ensures InKernel(Worked(m, regs, stores, satp, top), top)
    ensures StackKept(m, Worked(m, regs, stores, satp, top), top)
  {
  }

  /** A frame inside the stack in use survives what keeps that stack. */
  lemma FrameSlots(t: Machine, k: Machine, w: nat, top: int)
    requires Shape(t) && Shape(k) && StackKept(t, k, top) && w > 0 && Sp(t) + FRAME * w <= top
    ensures HandlerKept(t, k, w)
  {
    forall slot: nat | slot < FRAME
      ensures At(k.mem, Addr(Sp(t), slot, w)) == At(t.mem, Addr(Sp(t), slot, w))
    {
      SlotInFrame(Sp(t), slot, w);
      assert InUse(t, top, Addr(Sp(t), slot, w));
    }
  }

  /** The stack above a trap's frame is what it was before the trap. */
  lemma {:induction false} AboveFrame(m: Machine, k: Machine, w: nat, top: int)
    requires Ready(m) && w > 0 && Shape(k)
    requires StackKept(Exec(HardwareTrap(m), Entry(), w), k, top)
    ensures forall a :: FrameBase(m, w) + FRAME * w <= a < top ==> At(k.mem, a) == At(m.mem, a)
  {
    hide Exec, Entry, Addr;
    EntryFrames(m, w);
    var t := Exec(HardwareTrap(m), Entry(), w);
    assert FRAME * w >= 0;
    forall a | FrameBase(m, w) + FRAME * w <= a < top
      ensures At(k.mem, a) == At(m.mem, a)
    {
      assert InUse(t, top, a);
    }
  }

  /** One nested trap gives everything back. */
  lemma {:induction false} NestedKeeps(m: Machine, depth: nat, k: Machine, w: nat, top: int)
    requires InKernel(m, top) && w > 0 && Shape(k)
    requires var deep := SetReg(m, SP, Num(Sp(m) - depth * w));
             InKernel(deep, top) && StackKept(Exec(HardwareTrap(deep), Entry(), w), k, top)
    ensures var back := Sret(Exec(k, Return(), w));
            var next := SetReg(back, SP, Num(Sp(back) + depth * w));
            InKernel(next, top) && StackKept(m, next, top)
  {
    hide Exec, Entry, Return, Addr;
    var deep := SetReg(m, SP, Num(Sp(m) - depth * w));
    EntryFrames(deep, w);
    FrameSlots(Exec(HardwareTrap(deep), Entry(), w), k, w, top);
    TrapIsTransparent(deep, k, w);
    AboveFrame(deep, k, w, top);
    assert depth * w >= 0;
  }

  lemma DeepReady(m: Machine, depth: nat, w: nat, top: int)
    requires InKernel(m, top)
    ensures InKernel(SetReg(m, SP, Num(Sp(m) - depth * w)), top)
  {
    assert depth * w >= 0;
  }

  lemma EntryInKernel(m: Machine, w: nat, top: int)
    requires Ready(m) && w > 0 && FrameBase(m, w) + FRAME * w <= top
    ensures InKernel(Exec(HardwareTrap(m), Entry(), w), top)
  {
    hide Exec, Entry, Addr;
    EntryFrames(m, w);
    assert FRAME * w >= 0;
  }

  /** However traps nest, a handler comes back with its stack, its stack pointer and its hart. */
  lemma {:induction false} RunKeeps(m: Machine, acts: seq<Act>, w: nat, top: int)
    requires InKernel(m, top) && w > 0
    ensures InKernel(Run(m, acts, w, top), top) && StackKept(m, Run(m, acts, w, top), top)
    decreases acts
  {
    hide Exec, Entry, Return, Worked;
    if acts != [] {
      match acts[0]
      case Work(regs, stores, satp) =>
        WorkedKeeps(m, regs, stores, satp, top);
        RunKeeps(Worked(m, regs, stores, satp, top), acts[1..], w, top);
      case Nested(depth, body) =>
        DeepReady(m, depth, w, top);
        var deep := SetReg(m, SP, Num(Sp(m) - depth * w));
        EntryInKernel(deep, w, top);
        var t := Exec(HardwareTrap(deep), Entry(), w);
        RunKeeps(t, body, w, top);
        var inner := Run(t, body, w, top);
        NestedKeeps(m, depth, inner, w, top);
        var back := Sret(Exec(inner, Return(), w));
        RunKeeps(SetReg(back, SP, Num(Sp(back) + depth * w)), acts[1..], w, top);
    }
  }

  /**
   The interrupted program, user or kernel, resumes unchanged after a handler of any shape,
   with traps nested to any depth inside it and stores anywhere outside the stack in use; and
   the kernel stack above its frame is what it was.
   */
  lemma {:induction false} NestedTrapsTransparent(m: Machine, acts: seq<Act>, w: nat, top: int)
    requires Ready(m) && w > 0 && FrameBase(m, w) + FRAME * w <= top
    ensures var k := Run(Exec(HardwareTrap(m), Entry(), w), acts, w, top);
            var r := Sret(Exec(k, Return(), w));
            && Transparent(m, r, m.x[TP])
            && (forall a :: FrameBase(m, w) + FRAME * w <= a < top ==> At(r.mem, a) == At(m.mem, a))
  {
    hide Exec, Entry, Return, Run, Addr;
    EntryInKernel(m, w, top);
    EntryFrames(m, w);
    var t := Exec(HardwareTrap(m), Entry(), w);
    RunKeeps(t, acts, w, top);
    var k := Run(t, acts, w, top);
    FrameSlots(t, k, w, top);
    TrapIsTransparent(m, k, w);
    AboveFrame(m, k, w, top);
  }
}
