/** Process isolation: user stores, Exec, Exit and context switches over shared frames and registers,
    under every preemptive schedule. */
module Isolation {
  import opened Options
  import opened Bytes
  import opened BitMaps
  import opened Memory
  import opened AddrSpaces

  const NUM_TOTAL_REGS := 40

  /** A page table in memory, as the machine's register and an address space point to it. */
  type Table = array<TranslationEntry>

  /** Whether a thread has ever been dispatched, and whether it has set up the machine and entered user code. */
  datatype Stage = New | Dispatched | Started

  /** A process: where its page table is, what that holds, the registers saved for it, and its stage. */
  datatype Proc = Proc(space: Table, pt: seq<TranslationEntry>, regs: seq<int32>, stage: Stage)

  /** Memory, the frame map, the processes by slot, who runs, and the machine's registers: the general
      ones and the one that says which page table translates. */
  datatype System = System(mem: seq<byte>, frames: seq<bool>, procs: seq<Option<Proc>>, current: Option<nat>,
                           regs: seq<int32>, table: Table)

  // Registers.

  /** SaveUserState and RestoreUserState: all registers, one by one. */
  method CopyRegisters(from: array<int32>, to: array<int32>)
    requires from.Length == to.Length == NUM_TOTAL_REGS
    modifies to
    ensures to[..] == old(from[..])
  {
    if from == to {
      return;
    }
    for i := 0 to NUM_TOTAL_REGS
      invariant forall j :: 0 <= j < i ==> to[j] == from[j]
      invariant from[..] == old(from[..])
    {
      to[i] := from[i];
    }
    assert to[..] == from[..];
  }

  /** InitRegisters: all zero but the next program counter and the stack pointer. */
  function InitialRegs(numPages: nat): (r: seq<int32>)
    requires numPages <= NUM_PHYS_PAGES
    ensures |r| == 40 && r[29] == numPages * 128 - 16 && r[35] == 4
    ensures forall i :: 0 <= i < 40 && i != 29 && i != 35 ==> r[i] == 0
  {
    seq(NUM_TOTAL_REGS, i => 0)[35 := 4][29 := numPages * PAGE_SIZE - 16]
  }

  // Steps.

  datatype Step =
    | Store(addr: int32, size: int, value: int32)   // a user or kernel write through the page-table register
    | Load(addr: int32, size: int)                  // a read: sets the page's use bit
    | Compute(regs: seq<int32>)                     // any change of the machine's registers by user code
    | Switch(next: nat)                             // Scheduler::Run
    | Begin                                         // exec_func: a new thread sets up the machine
    | Exec(slot: nat, exe: seq<byte>, child: Proc)  // the running process starts a program
    | Boot(exe: seq<byte>, child: Proc)             // the first program replaces the booting thread
    | Exit

  predicate Live(s: System, p: nat) {
    p < |s.procs| && s.procs[p].Some?
  }

  /** Process p executes user code, or kernel code on its behalf. */
  predicate Runs(s: System, p: nat) {
    s.current == Some(p) && Live(s, p) && s.procs[p].value.stage == Started
  }

  /** The page-table register points to the table of process q. */
  predicate Maps(s: System, q: nat) {
    Live(s, q) && s.procs[q].value.space == s.table
  }

  ghost predicate Sized(s: System) {
    |s.mem| == MEMORY_SIZE && |s.frames| == NUM_PHYS_PAGES && |s.regs| == NUM_TOTAL_REGS
  }

  /** A write translated by the table of process q. */
  ghost predicate StoredThrough(s: System, q: nat, addr: int32, size: int, value: int32, s': System)
    requires Live(s, q) && AccessSize(size) && Sized(s)
  {
    var pt := s.procs[q].value.pt;
    var (e, pa) := Translation(pt, addr, size, true);
    s' == s.(mem := if e == NoException then Replaced(s.mem, pa, ToBytes(value, size)) else s.mem,
             procs := s.procs[q := Some(s.procs[q].value.(pt := Touched(pt, addr, size, true)))])
  }

  /** A read translated by the table of process q. */
  ghost predicate LoadedThrough(s: System, q: nat, addr: int32, size: int, s': System)
    requires Live(s, q) && AccessSize(size)
  {
    var pt := s.procs[q].value.pt;
    s' == s.(procs := s.procs[q := Some(s.procs[q].value.(pt := Touched(pt, addr, size, false)))])
  }

  /** SaveUserState of the thread that is switched out, if it has an address space. */
  function Saved(s: System): (procs: seq<Option<Proc>>)
    ensures |procs| == |s.procs| && forall p :: 0 <= p < |procs| ==> procs[p].Some? == s.procs[p].Some?
  {
    if s.current.Some? && Live(s, s.current.value)
    then s.procs[s.current.value := Some(s.procs[s.current.value].value.(regs := s.regs))]
    else s.procs
  }

  /** Back in Scheduler::Run: a thread that never ran goes to its start instead; any other gets its
      registers and its page table back. */
  function Resumed(s: System, p: nat): (s': System)
    requires Live(s, p)
  {
    var q := s.procs[p].value;
    if q.stage == New then s.(procs := s.procs[p := Some(q.(stage := Dispatched))])
    else s.(regs := q.regs, table := q.space)
  }

  /** InitRegisters and RestoreState, before a program enters user code. */
  function Begun(s: System, p: nat): (s': System)
    requires Live(s, p) && |s.procs[p].value.pt| <= NUM_PHYS_PAGES
  {
    var q := s.procs[p].value;
    s.(procs := s.procs[p := Some(q.(stage := Started))], regs := InitialRegs(|q.pt|), table := q.space)
  }

  /** A new address space: free frames, the program's image, a table of its own, and no other byte touched. */
  ghost predicate NewSpace(s: System, exe: seq<byte>, q: Proc, s': System)
    requires Sized(s) && Sized(s')
  {
    && Loadable(exe) && |q.pt| == NumPages(Noff(exe)) && GoodTable(q.pt) && |q.regs| == NUM_TOTAL_REGS
    && (forall p :: 0 <= p < |s.procs| && s.procs[p].Some? ==> s.procs[p].value.space != q.space)
    && Taken(s.frames, Frames(q.pt), s'.frames)
    && OutsideSame(s.mem, s'.mem, Frames(q.pt))
    && (forall v :: 0 <= v < |q.pt| * PAGE_SIZE ==> Flat(s'.mem, q.pt)[v] == ImageByte(exe, v))
  }

  function Installed(procs: seq<Option<Proc>>, slot: nat, q: Proc): (procs': seq<Option<Proc>>)
    requires slot <= |procs|
  {
    if slot < |procs| then procs[slot := Some(q)] else procs + [Some(q)]
  }

  /**
   * One step. Memory is reached through the page-table register alone: where that
   * points to no live process's table, nothing is known of the state after.
   */
  ghost predicate IsStep(s: System, step: Step, s': System) {
    Sized(s) && Sized(s') &&
    match step
    case Store(addr, size, value) =>
      && AccessSize(size) && s.current.Some? && Runs(s, s.current.value)
      && forall q: nat :: Maps(s, q) ==> StoredThrough(s, q, addr, size, value, s')
    case Load(addr, size) =>
      && AccessSize(size) && s.current.Some? && Runs(s, s.current.value)
      && forall q: nat :: Maps(s, q) ==> LoadedThrough(s, q, addr, size, s')
    case Compute(regs) =>
      s.current.Some? && Runs(s, s.current.value) && s' == s.(regs := regs)
    case Switch(next) =>
      Live(s, next) && s' == Resumed(s.(procs := Saved(s), current := Some(next)), next)
    case Begin =>
      && s.current.Some? && Live(s, s.current.value)
      && var q := s.procs[s.current.value].value;
         q.stage == Dispatched && |q.pt| <= NUM_PHYS_PAGES && s' == Begun(s, s.current.value)
    case Exec(slot, exe, q) =>
      && s.current.Some? && Runs(s, s.current.value)
      && slot <= |s.procs| && (slot < |s.procs| ==> s.procs[slot].None?)
      && NewSpace(s, exe, q, s') && q.stage == New
      && s' == s.(mem := s'.mem, frames := s'.frames, procs := Installed(s.procs, slot, q))
    case Boot(exe, q) =>
      && s.procs == [] && s.current.None?
      && NewSpace(s, exe, q, s') && q.stage == New && |q.pt| <= NUM_PHYS_PAGES
      && s' == Begun(s.(mem := s'.mem, frames := s'.frames, procs := [Some(q)], current := Some(0)), 0)
    case Exit =>
      // the page-table register still points to the table that is gone
      && s.current.Some? && Runs(s, s.current.value)
      && var p := s.current.value;
         && s' == s.(frames := s'.frames, current := None, procs := s.procs[p := None])
         && (forall f :: 0 <= f < NUM_PHYS_PAGES ==>
                           (s'.frames[f] <==> s.frames[f] && f !in Frames(s.procs[p].value.pt)))
  }

  // The invariant.

  ghost predicate ProcOk(s: System, p: nat)
    requires p < |s.procs|
  {
    s.procs[p].Some? ==> GoodTable(s.procs[p].value.pt) && |s.procs[p].value.regs| == NUM_TOTAL_REGS
  }

  /** The frames slot p owns. */
  ghost function OwnedBy(procs: seq<Option<Proc>>, p: nat): set<int>
    requires p < |procs|
  {
    if procs[p].None? then {} else set i | 0 <= i < |procs[p].value.pt| :: procs[p].value.pt[i].physicalPage
  }

  ghost predicate FrameOwned(procs: seq<Option<Proc>>, f: int) {
    exists p :: 0 <= p < |procs| && f in OwnedBy(procs, p)
  }

  /** No two live processes share a page table. */
  ghost predicate TablesDistinct(procs: seq<Option<Proc>>) {
    forall p, q :: 0 <= p < q < |procs| && procs[p].Some? && procs[q].Some? ==>
                     procs[p].value.space != procs[q].value.space
  }

  /** Once the current process has set up the machine, the page-table register points to its own table. */
  predicate RegisterOk(s: System) {
    s.current.Some? ==>
      && Live(s, s.current.value)
      && var q := s.procs[s.current.value].value;
         q.stage != New && (q.stage == Started ==> q.space == s.table)
  }

  ghost predicate Inv(s: System) {
    && Sized(s)
    && (forall p :: 0 <= p < |s.procs| ==> ProcOk(s, p))
    && (forall p, q :: 0 <= p < q < |s.procs| ==> OwnedBy(s.procs, p) !! OwnedBy(s.procs, q))
    && (forall f :: 0 <= f < NUM_PHYS_PAGES ==> (s.frames[f] <==> FrameOwned(s.procs, f)))
    && TablesDistinct(s.procs)
    && RegisterOk(s)
  }

  /** User code is translated by the table of the process that runs it, and by no other's. */
  lemma RegisterIsOwn(s: System, p: nat)
    requires Inv(s) && Runs(s, p)
    ensures forall q: nat :: Maps(s, q) <==> q == p
  {
    hide OwnedBy, FrameOwned;
  }

  lemma OwnedIsFrames(procs: seq<Option<Proc>>, p: nat, f: int)
    requires p < |procs| && procs[p].Some?
    ensures f in OwnedBy(procs, p) <==> f in Frames(procs[p].value.pt)
  {
    var pt := procs[p].value.pt;
    if f in Frames(pt) {
      var i :| 0 <= i < |Frames(pt)| && Frames(pt)[i] == f;
      assert pt[i].physicalPage == f;
    }
    if f in OwnedBy(procs, p) {
      var i :| 0 <= i < |pt| && pt[i].physicalPage == f;
      assert Frames(pt)[i] == f;
    }
  }

  // Changing a process without changing what its table maps.

  ghost predicate SameMapping(pt: seq<TranslationEntry>, pt': seq<TranslationEntry>) {
    |pt'| == |pt| && forall i :: 0 <= i < |pt| ==>
                                   pt'[i].physicalPage == pt[i].physicalPage && pt'[i].valid == pt[i].valid
                                       && pt'[i].readOnly == pt[i].readOnly
  }

  lemma SameMappingOwns(procs: seq<Option<Proc>>, procs': seq<Option<Proc>>, p: nat)
    requires p < |procs| == |procs'| && procs[p].Some? && procs'[p].Some?
             && SameMapping(procs[p].value.pt, procs'[p].value.pt)
    ensures OwnedBy(procs', p) == OwnedBy(procs, p)
  {
    var pt, pt' := procs[p].value.pt, procs'[p].value.pt;
    forall f
      ensures f in OwnedBy(procs', p) <==> f in OwnedBy(procs, p)
    {
      if f in OwnedBy(procs', p) {
        var i :| 0 <= i < |pt'| && pt'[i].physicalPage == f;
        assert pt[i].physicalPage == f;
      }
      if f in OwnedBy(procs, p) {
        var i :| 0 <= i < |pt| && pt[i].physicalPage == f;
        assert pt'[i].physicalPage == f;
      }
    }
  }

  /** Rewriting slot p with the same mapping keeps the invariant. */
  lemma OneProcKeeps(s: System, s': System, p: nat)
    requires Inv(s) && Sized(s') && Live(s, p) && s'.frames == s.frames && Live(s', p)
             && s'.procs == s.procs[p := s'.procs[p]]
    requires SameMapping(s.procs[p].value.pt, s'.procs[p].value.pt) && |s'.procs[p].value.regs| == NUM_TOTAL_REGS
    requires s'.procs[p].value.space == s.procs[p].value.space && RegisterOk(s')
    ensures Inv(s')
  {
    hide OwnedBy;
    SameMappingOwns(s.procs, s'.procs, p);
    forall q | 0 <= q < |s.procs|
      ensures OwnedBy(s'.procs, q) == OwnedBy(s.procs, q) && ProcOk(s', q)
    {
      assert ProcOk(s, q);
      if q != p {
        SameSlotOwns(s.procs, s'.procs, q);
      }
    }
    forall f | 0 <= f < NUM_PHYS_PAGES
      ensures FrameOwned(s'.procs, f) <==> FrameOwned(s.procs, f)
    {
      SameOwners(s.procs, s'.procs, f);
    }
  }

  lemma SameSlotOwns(procs: seq<Option<Proc>>, procs': seq<Option<Proc>>, q: nat)
    requires q < |procs| && q < |procs'| && procs'[q] == procs[q]
    ensures OwnedBy(procs', q) == OwnedBy(procs, q)
  {
  }

  lemma SameOwners(procs: seq<Option<Proc>>, procs': seq<Option<Proc>>, f: int)
    requires |procs'| == |procs| && forall q :: 0 <= q < |procs| ==> OwnedBy(procs', q) == OwnedBy(procs, q)
    ensures FrameOwned(procs', f) <==> FrameOwned(procs, f)
  {
    hide OwnedBy;
    if FrameOwned(procs, f) {
      var q :| 0 <= q < |procs| && f in OwnedBy(procs, q);
      assert f in OwnedBy(procs', q);
    }
    if FrameOwned(procs', f) {
      var q :| 0 <= q < |procs| && f in OwnedBy(procs', q);
      assert f in OwnedBy(procs, q);
    }
  }

  lemma TouchedSameMapping(pt: seq<TranslationEntry>, addr: int32, size: int, writing: bool)
    requires AccessSize(size)
    ensures SameMapping(pt, Touched(pt, addr, size, writing))
  {
  }

  /** Replacing what slot p owns changes the owned frames by exactly that. */
  lemma OwnersByOne(procs: seq<Option<Proc>>, procs': seq<Option<Proc>>, p: nat, f: int)
    requires p < |procs'| && |procs| <= |procs'| <= |procs| + 1 && (p < |procs| ==> OwnedBy(procs, p) == {})
    requires forall q :: 0 <= q < |procs| && q != p ==> procs'[q] == procs[q]
    requires |procs'| > |procs| ==> p == |procs|
    ensures FrameOwned(procs', f) <==> FrameOwned(procs, f) || f in OwnedBy(procs', p)
  {
    hide OwnedBy;
    if FrameOwned(procs, f) {
      var q :| 0 <= q < |procs| && f in OwnedBy(procs, q);
      SameSlotOwns(procs, procs', q);
      assert f in OwnedBy(procs', q);
    }
    if FrameOwned(procs', f) && f !in OwnedBy(procs', p) {
      var q :| 0 <= q < |procs'| && f in OwnedBy(procs', q);
      SameSlotOwns(procs, procs', q);
      assert f in OwnedBy(procs, q);
    }
  }

  lemma StoreKeeps(s: System, step: Step, s': System)
    requires Inv(s) && IsStep(s, step, s') && (step.Store? || step.Load?)
    ensures Inv(s')
  {
    hide OwnedBy, FrameOwned, Translation, ToBytes, Replaced, Touched, SameMapping;
    var p := s.current.value;
    assert ProcOk(s, p);
    assert Maps(s, p);
    TouchedSameMapping(s.procs[p].value.pt, step.addr, step.size, step.Store?);
    OneProcKeeps(s, s', p);
  }

  lemma SwitchKeeps(s: System, step: Step, s': System)
    requires Inv(s) && IsStep(s, step, s') && (step.Switch? || step.Begin?)
    ensures Inv(s')
  {
    hide OwnedBy, FrameOwned;
    if step.Begin? {
      assert ProcOk(s, s.current.value);
      OneProcKeeps(s, s', s.current.value);
      return;
    }
    SaveKeeps(s);
    var mid := s.(procs := Saved(s), current := None);
    assert ProcOk(mid, step.next);
    OneProcKeeps(mid, s', step.next);
  }

  /** Saving the registers of the thread that leaves the processor. */
  lemma SaveKeeps(s: System)
    requires Inv(s)
    ensures Inv(s.(procs := Saved(s), current := None))
  {
    hide OwnedBy, FrameOwned;
    var mid := s.(procs := Saved(s), current := None);
    if s.current.Some? {
      assert ProcOk(s, s.current.value);
      OneProcKeeps(s, mid, s.current.value);
    }
  }

  lemma ExecKeeps(s: System, step: Step, s': System)
    requires Inv(s) && IsStep(s, step, s') && (step.Exec? || step.Boot?)
    ensures Inv(s')
  {
    hide OwnedBy, FrameOwned, Flat, OutsideSame, Loadable, ImageByte, Noff, GoodTable;
    var p := if step.Exec? then step.slot else 0;
    forall q | 0 <= q < |s'.procs|
      ensures ProcOk(s', q)
    {
      assert q != p ==> ProcOk(s, q);
    }
    if p < |s.procs| {
      EmptySlotOwns(s.procs, p);
    }
    forall f
      ensures f in OwnedBy(s'.procs, p) ==> 0 <= f < NUM_PHYS_PAGES && !s.frames[f]
    {
      OwnedIsFrames(s'.procs, p, f);
    }
    forall f | 0 <= f < NUM_PHYS_PAGES
      ensures s'.frames[f] <==> FrameOwned(s'.procs, f)
    {
      OwnersByOne(s.procs, s'.procs, p, f);
      OwnedIsFrames(s'.procs, p, f);
    }
    forall q, r | 0 <= q < r < |s'.procs|
      ensures OwnedBy(s'.procs, q) !! OwnedBy(s'.procs, r)
    {
      NewOwnerDisjoint(s, s'.procs, p, q, r);
    }
  }

  lemma EmptySlotOwns(procs: seq<Option<Proc>>, p: nat)
    requires p < |procs| && procs[p].None?
    ensures OwnedBy(procs, p) == {}
  {
  }

  lemma NewOwnerDisjoint(s: System, procs': seq<Option<Proc>>, p: nat, q: nat, r: nat)
    requires Inv(s) && p < |procs'| && q < r < |procs'| && |s.procs| <= |procs'| <= |s.procs| + 1
    requires |procs'| > |s.procs| ==> p == |s.procs|
    requires forall k :: 0 <= k < |s.procs| && k != p ==> procs'[k] == s.procs[k]
    requires forall f :: f in OwnedBy(procs', p) ==> 0 <= f < NUM_PHYS_PAGES && !s.frames[f]
    ensures OwnedBy(procs', q) !! OwnedBy(procs', r)
  {
    hide OwnedBy;
    if q != p && r != p {
      SameSlotOwns(s.procs, procs', q);
      SameSlotOwns(s.procs, procs', r);
    } else {
      var k := if q == p then r else q;
      SameSlotOwns(s.procs, procs', k);
      forall f | f in OwnedBy(procs', p)
        ensures f !in OwnedBy(procs', k)
      {
        assert !FrameOwned(s.procs, f);
      }
    }
  }

  lemma ExitKeeps(s: System, step: Step, s': System)
    requires Inv(s) && IsStep(s, step, s') && step.Exit?
    ensures Inv(s')
  {
    hide OwnedBy, FrameOwned, GoodTable;
    var p := s.current.value;
    forall q | 0 <= q < |s'.procs|
      ensures ProcOk(s', q)
    {
      assert ProcOk(s, q);
    }
    EmptySlotOwns(s'.procs, p);
    forall f | 0 <= f < NUM_PHYS_PAGES
      ensures s'.frames[f] <==> FrameOwned(s'.procs, f)
    {
      OwnersByOne(s'.procs, s.procs, p, f);
      OwnedIsFrames(s.procs, p, f);
      if f in OwnedBy(s.procs, p) {
        OnlyOwner(s, s'.procs, p, f);
      }
    }
    forall q, r | 0 <= q < r < |s'.procs|
      ensures OwnedBy(s'.procs, q) !! OwnedBy(s'.procs, r)
    {
      if q != p && r != p {
        SameSlotOwns(s.procs, s'.procs, q);
        SameSlotOwns(s.procs, s'.procs, r);
      }
    }
  }

  lemma OnlyOwner(s: System, procs': seq<Option<Proc>>, p: nat, f: int)
    requires Inv(s) && p < |s.procs| && procs' == s.procs[p := None] && f in OwnedBy(s.procs, p)
    ensures !FrameOwned(procs', f)
  {
    hide OwnedBy;
    EmptySlotOwns(procs', p);
    forall q | 0 <= q < |procs'|
      ensures f !in OwnedBy(procs', q)
    {
      if q != p {
        SameSlotOwns(s.procs, procs', q);
        assert if q < p then OwnedBy(s.procs, q) !! OwnedBy(s.procs, p) else OwnedBy(s.procs, p) !! OwnedBy(s.procs, q);
      }
    }
  }

  /** Every step keeps each frame with at most one live owner and the frame map exact. */
  lemma StepKeeps(s: System, step: Step, s': System)
    requires Inv(s) && IsStep(s, step, s')
    ensures Inv(s')
  {
    hide OwnedBy, FrameOwned;
    match step
    case Store(_, _, _) => StoreKeeps(s, step, s');
    case Load(_, _) => StoreKeeps(s, step, s');
    case Compute(_) =>
      forall p | 0 <= p < |s.procs|
        ensures ProcOk(s', p)
      {
        assert ProcOk(s, p);
      }
    case Switch(_) => SwitchKeeps(s, step, s');
    case Begin => SwitchKeeps(s, step, s');
    case Exec(_, _, _) => ExecKeeps(s, step, s');
    case Boot(_, _) => ExecKeeps(s, step, s');
    case Exit => ExitKeeps(s, step, s');
  }

  /** Runs start with no process and every frame clear. */
  lemma BootOk(s: System)
    requires Sized(s) && s.procs == [] && s.current.None? && (forall f :: 0 <= f < NUM_PHYS_PAGES ==> !s.frames[f])
    ensures Inv(s)
  {
  }

  // Counting frames.

  ghost function Pages(procs: seq<Option<Proc>>, n: nat): nat
    requires n <= |procs|
  {
    if n == 0 then 0 else Pages(procs, n - 1) + if procs[n - 1].Some? then |procs[n - 1].value.pt| else 0
  }

  ghost function OwnedUpTo(procs: seq<Option<Proc>>, n: nat): set<int>
    requires n <= |procs|
  {
    if n == 0 then {} else OwnedUpTo(procs, n - 1) + OwnedBy(procs, n - 1)
  }

  lemma {:induction false} FrameCount(pt: seq<TranslationEntry>, n: nat)
    requires GoodTable(pt) && n <= |pt|
    ensures |set i | 0 <= i < n :: pt[i].physicalPage| == n
  {
    if n > 0 {
      FrameCount(pt, n - 1);
      var fewer := set i | 0 <= i < n - 1 :: pt[i].physicalPage;
      assert (set i | 0 <= i < n :: pt[i].physicalPage) == fewer + {pt[n - 1].physicalPage};
      assert pt[n - 1].physicalPage !in fewer;
    }
  }

  lemma {:induction false} OwnedMembers(procs: seq<Option<Proc>>, n: nat, f: int)
    requires n <= |procs|
    ensures f in OwnedUpTo(procs, n) <==> exists p :: 0 <= p < n && f in OwnedBy(procs, p)
  {
    hide OwnedBy;
    if n > 0 {
      OwnedMembers(procs, n - 1, f);
    }
  }

  lemma {:induction false} OwnedCount(s: System, n: nat)
    requires Inv(s) && n <= |s.procs|
    ensures |OwnedUpTo(s.procs, n)| == Pages(s.procs, n)
  {
    hide OwnedBy, FrameOwned, GoodTable;
    if n > 0 {
      var k := n - 1;
      OwnedCount(s, k);
      assert ProcOk(s, k);
      OwnedSize(s.procs, k);
      forall f | f in OwnedBy(s.procs, k)
        ensures f !in OwnedUpTo(s.procs, k)
      {
        OwnedMembers(s.procs, k, f);
        forall p | 0 <= p < k
          ensures f !in OwnedBy(s.procs, p)
        {
          assert OwnedBy(s.procs, p) !! OwnedBy(s.procs, k);
        }
      }
    }
  }

  lemma OwnedSize(procs: seq<Option<Proc>>, p: nat)
    requires p < |procs| && (procs[p].Some? ==> GoodTable(procs[p].value.pt))
    ensures |OwnedBy(procs, p)| == if procs[p].Some? then |procs[p].value.pt| else 0
  {
    if procs[p].Some? {
      FrameCount(procs[p].value.pt, |procs[p].value.pt|);
    }
  }

  /** Clear frames and the pages of live processes always add up to the physical memory. */
  lemma FramesConserved(s: System)
    requires Inv(s)
    ensures |Clear(s.frames)| + Pages(s.procs, |s.procs|) == 128
  {
    hide OwnedBy, OwnedUpTo, Pages, GoodTable;
    OwnedCount(s, |s.procs|);
    forall f
      ensures f in OwnedUpTo(s.procs, |s.procs|) <==> f in Marked(s.frames)
    {
      OwnedMembers(s.procs, |s.procs|, f);
      if FrameOwned(s.procs, f) {
        var p :| 0 <= p < |s.procs| && f in OwnedBy(s.procs, p);
        OwnedInRange(s, p, f);
      }
    }
    assert OwnedUpTo(s.procs, |s.procs|) == Marked(s.frames);
    ClearPlusMarked(s.frames);
  }

  lemma OwnedInRange(s: System, p: nat, f: int)
    requires Inv(s) && p < |s.procs| && f in OwnedBy(s.procs, p)
    ensures 0 <= f < NUM_PHYS_PAGES
  {
    assert ProcOk(s, p);
  }

  // Isolation.

  /** Two memories that agree on a table's frames show it the same bytes. */
  lemma SameFlat(mem: seq<byte>, mem': seq<byte>, pt: seq<TranslationEntry>)
    requires |mem| == |mem'| == MEMORY_SIZE && GoodTable(pt)
    requires forall k :: 0 <= k < MEMORY_SIZE && k / PAGE_SIZE in Frames(pt) ==> mem'[k] == mem[k]
    ensures Flat(mem', pt) == Flat(mem, pt)
  {
    forall v | 0 <= v < |pt| * PAGE_SIZE
      ensures mem'[Physical(pt, v)] == mem[Physical(pt, v)]
    {
      assert Frames(pt)[v / PAGE_SIZE] in Frames(pt);
    }
  }

  lemma DisjointFrames(s: System, p: nat, q: nat, f: int)
    requires Inv(s) && Live(s, p) && Live(s, q) && p != q && f in Frames(s.procs[p].value.pt)
    ensures f !in Frames(s.procs[q].value.pt)
  {
    hide OwnedBy, FrameOwned, Frames;
    OwnedIsFrames(s.procs, p, f);
    OwnedIsFrames(s.procs, q, f);
    assert if p < q then OwnedBy(s.procs, p) !! OwnedBy(s.procs, q) else OwnedBy(s.procs, q) !! OwnedBy(s.procs, p);
  }

  /** A store by another process changes no byte of p's memory. */
  lemma StoreIsolated(s: System, step: Step, s': System, p: nat)
    requires Inv(s) && step.Store? && IsStep(s, step, s') && Live(s, p) && s.current != Some(p)
    ensures GoodTable(s.procs[p].value.pt) && Live(s', p) && s'.procs[p] == s.procs[p]
    ensures s'.current == s.current
    ensures Flat(s'.mem, s.procs[p].value.pt) == Flat(s.mem, s.procs[p].value.pt)
  {
    hide OwnedBy, FrameOwned, Flat, ToBytes, Touched, Translation;
    var q := s.current.value;
    assert ProcOk(s, p);
    assert ProcOk(s, q);
    assert Maps(s, q);
    forall k | 0 <= k < MEMORY_SIZE && k / PAGE_SIZE in Frames(s.procs[p].value.pt)
      ensures s'.mem[k] == s.mem[k]
    {
      DisjointFrames(s, p, q, k / PAGE_SIZE);
      StoreInOwnFrames(s.procs[q].value.pt, step.addr, step.size, k);
    }
    SameFlat(s.mem, s'.mem, s.procs[p].value.pt);
  }

  /** The storing process itself sees exactly the bytes addressed replaced, if they are aligned and in its space. */
  lemma OwnStore(s: System, step: Step, s': System, p: nat)
    requires Inv(s) && step.Store? && IsStep(s, step, s') && Runs(s, p)
    ensures Runs(s', p) && GoodTable(s.procs[p].value.pt) && GoodTable(s'.procs[p].value.pt)
    ensures Flat(s'.mem, s'.procs[p].value.pt)
            == if Aligned(step.addr, step.size) && 0 <= step.addr < |s.procs[p].value.pt| * PAGE_SIZE
               then (TranslationIsFlat(s.procs[p].value.pt, step.addr, step.size, true);
                     Replaced(Flat(s.mem, s.procs[p].value.pt), step.addr, ToBytes(step.value, step.size)))
               else Flat(s.mem, s.procs[p].value.pt)
  {
    hide OwnedBy, FrameOwned, Flat, ToBytes, Touched, Translation, Replaced, GoodTable;
    assert ProcOk(s, p);
    assert Maps(s, p);
    var pt := s.procs[p].value.pt;
    TranslationIsFlat(pt, step.addr, step.size, true);
    TouchedMapsTheSame(s'.mem, pt, step.addr, step.size, true);
    if Aligned(step.addr, step.size) && 0 <= step.addr < |pt| * PAGE_SIZE {
      WriteIsFlat(s.mem, pt, step.addr, step.value, step.size);
    }
  }

  /** What a load by process p returns: the value at that address of its flat memory, if aligned and in its space. */
  ghost function Loaded(s: System, p: nat, addr: int32, size: int): (r: Option<int32>)
    requires Inv(s) && Live(s, p) && AccessSize(size)
  {
    assert ProcOk(s, p);
    var pt := s.procs[p].value.pt;
    if Aligned(addr, size) && 0 <= addr < |pt| * PAGE_SIZE then
      TranslationIsFlat(pt, addr, size, false);
      Some(FromBytes(Flat(s.mem, pt)[addr..addr + size]))
    else
      None
  }

  /** The translated bytes are the ones a load returns. */
  lemma LoadedIs(s: System, p: nat, addr: int32, size: int)
    requires Inv(s) && Live(s, p) && AccessSize(size)
    ensures var (e, pa) := Translation(s.procs[p].value.pt, addr, size, false);
            Loaded(s, p, addr, size) == if e == NoException then Some(FromBytes(s.mem[pa..pa + size])) else None
  {
    hide OwnedBy, FrameOwned, Flat, Translation, FromBytes, GoodTable;
    assert ProcOk(s, p);
    var pt := s.procs[p].value.pt;
    TranslationIsFlat(pt, addr, size, false);
    if Aligned(addr, size) && 0 <= addr < |pt| * PAGE_SIZE {
      ReadIsFlat(s.mem, pt, addr, size);
    }
  }

  lemma StoreInOwnFrames(pt: seq<TranslationEntry>, addr: int32, size: int, k: int)
    requires AccessSize(size) && GoodTable(pt) && k / PAGE_SIZE !in Frames(pt)
    ensures var (e, pa) := Translation(pt, addr, size, true); e == NoException ==> !(pa <= k < pa + size)
  {
    var (e, pa) := Translation(pt, addr, size, true);
    if e == NoException {
      PageHolds(addr, size);
      var vpn := Unsigned(addr) / PAGE_SIZE;
      assert Frames(pt)[vpn] == pt[vpn].physicalPage;
    }
  }

  /** Loading a program changes no byte of a live process's memory. */
  lemma ExecIsolated(s: System, step: Step, s': System, p: nat)
    requires Inv(s) && step.Exec? && IsStep(s, step, s') && Live(s, p)
    ensures GoodTable(s.procs[p].value.pt) && s'.procs[p] == s.procs[p]
    ensures Flat(s'.mem, s.procs[p].value.pt) == Flat(s.mem, s.procs[p].value.pt)
  {
    hide OwnedBy, Flat, Loadable, Noff, ImageByte;
    assert ProcOk(s, p);
    var pt := s.procs[p].value.pt;
    forall k | 0 <= k < MEMORY_SIZE && k / PAGE_SIZE in Frames(pt)
      ensures s'.mem[k] == s.mem[k]
    {
      OwnedIsFrames(s.procs, p, k / PAGE_SIZE);
      assert FrameOwned(s.procs, k / PAGE_SIZE);
    }
    SameFlat(s.mem, s'.mem, pt);
  }

  /** What a process has that must not change while it waits: all but its stage. */
  predicate SameProc(a: Proc, b: Proc) {
    b == a.(stage := b.stage)
  }

  /**
   * No step of another process changes a waiting process's saved registers, page
   * table or memory. A switch to it restores its registers and points the machine
   * to its table, unless it has never run.
   */
  lemma StepIsolated(s: System, step: Step, s': System, p: nat)
    requires Inv(s) && IsStep(s, step, s') && Live(s, p) && s.current != Some(p)
    ensures Live(s', p) && SameProc(s.procs[p].value, s'.procs[p].value) && GoodTable(s.procs[p].value.pt)
    ensures Flat(s'.mem, s.procs[p].value.pt) == Flat(s.mem, s.procs[p].value.pt)
    ensures s'.current != Some(p) || s.procs[p].value.stage != New ==> s'.procs[p] == s.procs[p]
    ensures s'.current == Some(p) && s.procs[p].value.stage != New ==>
              s'.regs == s.procs[p].value.regs && s'.table == s.procs[p].value.space
    ensures s'.current == Some(p) && s.procs[p].value.stage == New ==> s'.procs[p].value.stage == Dispatched
  {
    hide OwnedBy, FrameOwned, Flat, GoodTable, Touched, Translation, Replaced, ToBytes;
    assert ProcOk(s, p);
    match step
    case Store(_, _, _) => StoreIsolated(s, step, s', p);
    case Load(_, _) => assert Maps(s, s.current.value);
    case Exec(_, _, _) => ExecIsolated(s, step, s', p);
    case _ =>
  }

  ghost predicate Run(ss: seq<System>, steps: seq<Step>) {
    && |ss| == |steps| + 1 && Inv(ss[0])
    && (forall k :: 0 <= k < |steps| ==> IsStep(ss[k], steps[k], ss[k + 1]))
  }

  lemma {:induction false} RunInv(ss: seq<System>, steps: seq<Step>, n: nat)
    requires Run(ss, steps) && n <= |steps|
    ensures Inv(ss[n]) && |Clear(ss[n].frames)| + Pages(ss[n].procs, |ss[n].procs|) == NUM_PHYS_PAGES
  {
    hide Inv, IsStep, Pages;
    if n > 0 {
      RunInv(ss, steps, n - 1);
      StepKeeps(ss[n - 1], steps[n - 1], ss[n]);
    }
    FramesConserved(ss[n]);
  }

  /**
   * While p is not running, whatever the others do, its registers and every byte of
   * its memory stay put; and when it runs again, both machine registers are its own.
   */
  lemma {:induction false} WaitingUntouched(ss: seq<System>, steps: seq<Step>, p: nat, m: nat, n: nat)
    requires Run(ss, steps) && m <= n <= |steps| && Live(ss[m], p)
    requires forall k :: m <= k < n ==> ss[k].current != Some(p)
    ensures Inv(ss[m]) && Inv(ss[n]) && Live(ss[n], p) && SameProc(ss[m].procs[p].value, ss[n].procs[p].value)
    ensures GoodTable(ss[m].procs[p].value.pt)
    ensures Flat(ss[n].mem, ss[m].procs[p].value.pt) == Flat(ss[m].mem, ss[m].procs[p].value.pt)
    ensures ss[n].current != Some(p) || ss[m].procs[p].value.stage != New ==> ss[n].procs[p] == ss[m].procs[p]
    ensures m < n && ss[n].current == Some(p) && ss[m].procs[p].value.stage != New ==>
              ss[n].regs == ss[m].procs[p].value.regs && ss[n].table == ss[m].procs[p].value.space
  {
    hide IsStep, Flat, GoodTable, OwnedBy, FrameOwned, Pages;
    RunInv(ss, steps, m);
    assert ProcOk(ss[m], p);
    if m < n {
      WaitingUntouched(ss, steps, p, m, n - 1);
      RunInv(ss, steps, n);
      StepIsolated(ss[n - 1], steps[n - 1], ss[n], p);
    }
  }

  /**
   * A process switched out at m and in again at n resumes with the registers, the
   * page-table register, the page table and the memory it left with.
   */
  lemma ContextRestored(ss: seq<System>, steps: seq<Step>, p: nat, m: nat, n: nat)
    requires Run(ss, steps) && m + 1 < n <= |steps|
    requires Runs(ss[m], p) && steps[m].Switch? && ss[m + 1].current != Some(p)
    requires (forall k :: m + 1 <= k < n ==> ss[k].current != Some(p)) && ss[n].current == Some(p)
    ensures Inv(ss[m]) && Inv(ss[n]) && Runs(ss[n], p)
    ensures ss[n].regs == ss[m].regs && ss[n].table == ss[m].table
    ensures Maps(ss[n], p) && ss[n].procs[p].value.pt == ss[m].procs[p].value.pt
    ensures GoodTable(ss[m].procs[p].value.pt)
    ensures Flat(ss[n].mem, ss[m].procs[p].value.pt) == Flat(ss[m].mem, ss[m].procs[p].value.pt)
  {
    hide Flat, GoodTable, OwnedBy, FrameOwned, Pages;
    RunInv(ss, steps, m);
    assert ProcOk(ss[m], p);
    SwitchedOut(ss[m], steps[m], ss[m + 1], p);
    WaitingUntouched(ss, steps, p, m + 1, n);
  }

  lemma SwitchedOut(s: System, step: Step, s': System, p: nat)
    requires Inv(s) && IsStep(s, step, s') && step.Switch? && s.current == Some(p) && s'.current != Some(p)
    ensures Live(s, p) && Live(s', p) && s'.procs[p] == Some(s.procs[p].value.(regs := s.regs)) && s'.mem == s.mem
  {
  }

  // The first run of a process.

  /** Until it sets up the machine, nothing a process or any other does reaches its memory. */
  lemma StepKeepsUnstarted(s: System, step: Step, s': System, p: nat)
    requires Inv(s) && IsStep(s, step, s') && Live(s, p) && s.procs[p].value.stage != Started
    requires !(step.Begin? && s.current == Some(p))
    ensures Live(s', p) && s'.procs[p].value.stage != Started && GoodTable(s.procs[p].value.pt)
    ensures s'.procs[p].value.pt == s.procs[p].value.pt && s'.procs[p].value.space == s.procs[p].value.space
    ensures Flat(s'.mem, s.procs[p].value.pt) == Flat(s.mem, s.procs[p].value.pt)
  {
    hide OwnedBy, FrameOwned, Flat, GoodTable, Touched, Translation, Replaced, ToBytes;
    assert ProcOk(s, p);
    if s.current != Some(p) {
      StepIsolated(s, step, s', p);
    }
  }

  lemma {:induction false} UnstartedKept(ss: seq<System>, steps: seq<Step>, p: nat, m: nat, n: nat)
    requires Run(ss, steps) && m <= n <= |steps| && Live(ss[m], p) && ss[m].procs[p].value.stage != Started
    requires forall k :: m <= k < n ==> !(steps[k].Begin? && ss[k].current == Some(p))
    ensures Inv(ss[m]) && Inv(ss[n]) && Live(ss[n], p) && ss[n].procs[p].value.stage != Started
    ensures ss[n].procs[p].value.pt == ss[m].procs[p].value.pt
            && ss[n].procs[p].value.space == ss[m].procs[p].value.space
    ensures GoodTable(ss[m].procs[p].value.pt)
    ensures Flat(ss[n].mem, ss[m].procs[p].value.pt) == Flat(ss[m].mem, ss[m].procs[p].value.pt)
  {
    hide IsStep, Flat, GoodTable, OwnedBy, FrameOwned, Pages;
    RunInv(ss, steps, m);
    assert ProcOk(ss[m], p);
    if m < n {
      UnstartedKept(ss, steps, p, m, n - 1);
      RunInv(ss, steps, n);
      StepKeepsUnstarted(ss[n - 1], steps[n - 1], ss[n], p);
    }
  }

  /**
   * A program started at m enters user code at n with the initial registers, the
   * machine set to its own table, and exactly its image in memory, whatever was
   * scheduled in between.
   */
  lemma FirstRun(ss: seq<System>, steps: seq<Step>, p: nat, m: nat, n: nat)
    requires Run(ss, steps) && m < n < |steps| && steps[m].Exec? && steps[m].slot == p
    requires forall k :: m < k < n ==> !(steps[k].Begin? && ss[k].current == Some(p))
    requires steps[n].Begin? && ss[n].current == Some(p)
    ensures Runs(ss[n + 1], p) && Maps(ss[n + 1], p) && Loadable(steps[m].exe)
    ensures var pt := ss[n + 1].procs[p].value.pt;
            && |pt| == NumPages(Noff(steps[m].exe)) && |pt| <= NUM_PHYS_PAGES && GoodTable(pt)
            && Sized(ss[n + 1]) && ss[n + 1].regs == InitialRegs(|pt|)
            // the stack pointer lies above all segments, with a stack of 1024 bytes below the end of the space
            && (var h := Noff(steps[m].exe);
                h.code.size + h.initData.size + h.uninitData.size + 1024 <= ss[n + 1].regs[29] + 16)
            && forall v :: 0 <= v < |pt| * PAGE_SIZE ==> Flat(ss[n + 1].mem, pt)[v] == ImageByte(steps[m].exe, v)
  {
    hide Flat, GoodTable, OwnedBy, FrameOwned, Pages, ImageByte, Noff, InitialRegs, Inv, NumPages;
    assert IsStep(ss[m], steps[m], ss[m + 1]);
    NumPagesIs(Noff(steps[m].exe));
    UnstartedKept(ss, steps, p, m + 1, n);
    assert IsStep(ss[n], steps[n], ss[n + 1]);
  }
}
