/** The kernel's own operations on the machine (threads/scheduler.cc, threads/pcb.cc, userprog/addrspace.cc):
    each is proved to be a step of the system whose isolation is proved apart from them. */
module Kernels {
  import opened Options
  import opened Bytes
  import opened BitMaps
  import opened Memory
  import opened AddrSpaces
  import opened Isolation

  /** A thread with an address space. */
  class Process {
    const space: AddrSpace
    const userRegisters: array<int32>
    var stage: Stage

    ghost predicate Valid() {
      userRegisters.Length == NUM_TOTAL_REGS && space.pageTable.Length == space.numPages
    }

    ghost function Value(): (p: Proc)
      reads this, userRegisters, space.pageTable
    {
      Proc(space.pageTable, space.pageTable[..], userRegisters[..], stage)
    }

    constructor (s: AddrSpace)
      requires s.pageTable.Length == s.numPages
      ensures Valid() && fresh(userRegisters) && space == s && stage == New
    {
      space := s;
      userRegisters := new int32[NUM_TOTAL_REGS](i => 0);
      stage := New;
    }
  }

  /** AddrSpace::InitRegisters: all zero but the next program counter and the stack pointer. */
  method InitRegisters(registers: array<int32>, numPages: nat)
    requires registers.Length == NUM_TOTAL_REGS && numPages <= NUM_PHYS_PAGES
    modifies registers
    ensures registers[..] == InitialRegs(numPages)
  {
    for i := 0 to NUM_TOTAL_REGS
      invariant forall j :: 0 <= j < i ==> registers[j] == 0
    {
      registers[i] := 0;
    }
    registers[34] := 0;
    registers[35] := 4;
    registers[29] := numPages * PAGE_SIZE - 16;
    assert registers[..] == InitialRegs(numPages);
  }

  class Kernel {
    const machine: Machine
    const registers: array<int32>
    const frames: BitMap
    var procs: seq<Process?>
    var current: Option<nat>
    /** Every object whose fields or elements the kernel may change. */
    ghost var repr: set<object>

    /** The process's objects are the kernel's and are none of the machine's own. */
    ghost predicate Owns(p: Process)
      reads this, repr
    {
      && p in repr && p.userRegisters in repr && p.space.pageTable in repr
      && p.Valid()
      && p.userRegisters != registers
      && (p.userRegisters as object) != machine.mainMemory && (p.userRegisters as object) != frames.words
      && (p.space.pageTable as object) != machine.mainMemory && (p.space.pageTable as object) != frames.words
      && (p.space.pageTable as object) != registers && (p.space.pageTable as object) != p.userRegisters
    }

    ghost predicate Apart(p: Process, q: Process) {
      && p != q && p.userRegisters != q.userRegisters && p.space.pageTable != q.space.pageTable
      && (p.userRegisters as object) != q.space.pageTable && (p.space.pageTable as object) != q.userRegisters
    }

    ghost predicate Valid()
      reads this, repr
    {
      && this in repr && machine in repr && registers in repr && machine.mainMemory in repr && frames.words in repr
      && machine.Valid() && frames.Valid() && frames.numBits == NUM_PHYS_PAGES && registers.Length == NUM_TOTAL_REGS
      && (registers as object) != machine.mainMemory && (registers as object) != frames.words
      && (machine.mainMemory as object) != frames.words
      && (forall i :: 0 <= i < |procs| && procs[i] != null ==> Owns(procs[i]))
      && (forall i, j :: 0 <= i < j < |procs| && procs[i] != null && procs[j] != null ==> Apart(procs[i], procs[j]))
    }

    ghost function View(): (v: seq<Option<Proc>>)
      requires Valid()
      reads this, repr
      ensures |v| == |procs|
      ensures forall i :: 0 <= i < |procs| ==> v[i] == if procs[i] == null then None else Some(procs[i].Value())
    {
      seq(|procs|, i requires 0 <= i < |procs| && Valid() reads this, repr =>
            if procs[i] == null then None else Some(procs[i].Value()))
    }

    ghost function State(): (s: System)
      requires Valid()
      reads this, repr
    {
      System(machine.mainMemory[..], frames.Bits(), View(), current, registers[..], machine.pageTable)
    }

    /** A machine with no process and every frame clear. */
    constructor ()
      ensures Valid() && fresh(repr) && procs == [] && current == None && Inv(State())
    {
      var none := new TranslationEntry[0];
      var m := new Machine(none);
      var regs := new int32[NUM_TOTAL_REGS](i => 0);
      var map_ := new BitMap(NUM_PHYS_PAGES);
      machine, registers, frames, procs, current := m, regs, map_, [], None;
      repr := {this, m, regs, m.mainMemory, map_.words};
      new;
      BootOk(State());
    }

    /** Slot p holds a process. */
    ghost predicate Has(p: nat)
      reads this
    {
      p < |procs| && procs[p] != null
    }

    /** Thread::SaveUserState for slot p. */
    method SaveUserState(p: nat)
      requires Valid() && Has(p)
      modifies procs[p].userRegisters
      ensures Valid()
      ensures State()
           == old(State()).(procs := old(View())[p := Some(old(procs[p].Value()).(regs := old(registers[..])))])
    {
      CopyRegisters(registers, procs[p].userRegisters);
      assert View() == old(View())[p := Some(old(procs[p].Value()).(regs := old(registers[..])))];
    }

    /** Thread::RestoreUserState and AddrSpace::RestoreState for slot p. */
    method RestoreState(p: nat)
      requires Valid() && Has(p)
      modifies registers, machine
      ensures Valid()
      ensures State() == old(State()).(regs := old(procs[p].Value()).regs, table := old(procs[p].Value()).space)
    {
      CopyRegisters(procs[p].userRegisters, registers);
      machine.pageTable := procs[p].space.pageTable;
      assert View() == old(View());
    }

    method SetStage(p: nat, stage: Stage)
      requires Valid() && Has(p)
      modifies procs[p]
      ensures Valid()
      ensures State() == old(State()).(procs := old(View())[p := Some(old(procs[p].Value()).(stage := stage))])
    {
      procs[p].stage := stage;
      assert View() == old(View())[p := Some(old(procs[p].Value()).(stage := stage))];
    }

    method SetCurrent(p: Option<nat>)
      requires Valid()
      modifies this`current
      ensures Valid() && State() == old(State()).(current := p)
    {
      current := p;
      assert View() == old(View());
    }

    /** Scheduler::Run: the outgoing registers are saved; a thread that ran before gets its registers and table back. */
    method Switch(next: nat)
      requires Valid() && Has(next)
      modifies repr
      ensures Valid() && repr == old(repr) && procs == old(procs)
      ensures IsStep(old(State()), Step.Switch(next), State())
    {
      hide BitsOf, Saved, Resumed;
      SaveCurrent();
      SetCurrent(Some(next));
      Resume(next);
    }

    method Resume(next: nat)
      requires Valid() && Has(next)
      modifies registers, machine, procs[next]
      ensures Valid() && State() == Resumed(old(State()), next)
    {
      hide BitsOf;
      if procs[next].stage == New {
        SetStage(next, Dispatched);
      } else {
        RestoreState(next);
      }
    }

    method SaveCurrent()
      requires Valid()
      modifies if current.Some? && Has(current.value) then {procs[current.value].userRegisters} else {}
      ensures Valid() && State() == old(State()).(procs := Saved(old(State())))
    {
      hide BitsOf;
      if current.Some? && current.value < |procs| && procs[current.value] != null {
        SaveUserState(current.value);
      }
    }

    /** exec_func: InitRegisters and RestoreState of the new thread. */
    method Begin()
      requires Valid() && current.Some? && Has(current.value) && procs[current.value].stage == Dispatched
      requires procs[current.value].space.numPages <= NUM_PHYS_PAGES
      modifies repr
      ensures Valid() && repr == old(repr) && procs == old(procs)
      ensures IsStep(old(State()), Step.Begin, State())
    {
      hide BitsOf, InitialRegs;
      Enter(current.value);
    }

    /** The new thread's own set-up of the machine. */
    method Enter(p: nat)
      requires Valid() && Has(p) && procs[p].space.numPages <= NUM_PHYS_PAGES
      modifies registers, machine, procs[p]
      ensures Valid() && State() == Begun(old(State()), p)
    {
      hide BitsOf, InitialRegs;
      InitRegisters(registers, procs[p].space.numPages);
      machine.pageTable := procs[p].space.pageTable;
      assert View() == old(View());
      SetStage(p, Started);
    }

    /** A new thread over a new address space; nothing of the other processes changes. */
    method LoadProcess(exe: seq<byte>) returns (q: Process)
      requires Valid() && Loadable(exe) && NumPages(Noff(exe)) <= |Clear(frames.Bits())|
      modifies frames.words, machine.mainMemory
      ensures Valid() && fresh(q) && fresh(q.userRegisters) && fresh(q.space.pageTable) && q.Valid() && q.stage == New
      ensures (q.userRegisters as object) != q.space.pageTable
      ensures NewSpace(old(State()), exe, q.Value(), State())
      ensures State() == old(State()).(mem := State().mem, frames := State().frames)
    {
      hide BitsOf, Flat, Taken, OutsideSame, Noff, Loadable, ImageByte, GoodTable, Clear;
      var space := new AddrSpace(machine, frames, exe);
      assert View() == old(View());
      ghost var mid, table := State(), space.pageTable[..];
      q := new Process(space);
      assert View() == old(View()) && q.space.pageTable[..] == table && State() == mid;
    }

    method Install(slot: nat, q: Process)
      requires Valid() && slot <= |procs| && (slot < |procs| ==> procs[slot] == null) && q.Valid()
      requires q !in repr && q.userRegisters !in repr && q.space.pageTable !in repr
      requires (q.userRegisters as object) != q.space.pageTable
      modifies this
      ensures Valid() && repr == old(repr) + {q, q.userRegisters, q.space.pageTable}
      ensures procs == (if slot < |old(procs)| then old(procs)[slot := q] else old(procs) + [q])
      ensures State() == old(State()).(procs := Installed(old(View()), slot, q.Value()))
    {
      hide BitsOf;
      Adopt(q);
      procs := if slot < |procs| then procs[slot := q] else procs + [q];
      assert View() == Installed(old(View()), slot, q.Value());
    }

    method Adopt(q: Process)
      requires Valid() && q.Valid()
      requires q !in repr && q.userRegisters !in repr && q.space.pageTable !in repr
      requires (q.userRegisters as object) != q.space.pageTable
      modifies this`repr
      ensures Valid() && repr == old(repr) + {q, q.userRegisters, q.space.pageTable} && Owns(q)
      ensures forall i :: 0 <= i < |procs| && procs[i] != null ==> Apart(procs[i], q) && Apart(q, procs[i])
      ensures State() == old(State())
    {
      hide BitsOf;
      repr := repr + {q, q.userRegisters, q.space.pageTable};
      assert View() == old(View());
    }

    /** What PCB::Exec does for every program: a thread over a new address space takes a free slot. */
    method NewProcess(slot: nat, exe: seq<byte>) returns (ghost child: Proc)
      requires Valid() && slot <= |procs| && (slot < |procs| ==> procs[slot] == null)
      requires Loadable(exe) && NumPages(Noff(exe)) <= |Clear(frames.Bits())|
      modifies repr
      ensures Valid() && fresh(repr - old(repr)) && old(repr) <= repr
      ensures Has(slot) && procs[slot].space.numPages == |child.pt| <= NUM_PHYS_PAGES && child.stage == New
      ensures NewSpace(old(State()), exe, child, State())
      ensures State() == old(State()).(mem := State().mem, frames := State().frames,
                                       procs := Installed(old(View()), slot, child))
    {
      hide BitsOf, NewSpace, Loadable, Noff, Clear;
      ghost var s := State();
      var q := LoadProcess(exe);
      child := q.Value();
      ghost var mid := State();
      NewSpacePages(s, exe, child, mid);
      Install(slot, q);
      SameNewSpace(s, exe, child, mid, State());
    }

    /** PCB::Exec for a child: its thread is left to be dispatched. */
    method Exec(slot: nat, exe: seq<byte>) returns (ghost child: Proc)
      requires Valid() && current.Some? && Has(current.value) && procs[current.value].stage == Started
      requires slot <= |procs| && (slot < |procs| ==> procs[slot] == null)
      requires Loadable(exe) && NumPages(Noff(exe)) <= |Clear(frames.Bits())|
      modifies repr
      ensures Valid() && fresh(repr - old(repr))
      ensures IsStep(old(State()), Step.Exec(slot, exe, child), State())
    {
      hide BitsOf, NewSpace, Loadable, Noff, Clear;
      child := NewProcess(slot, exe);
    }

    /** PCB::Exec for the first program: it takes over the processor at once. */
    method Boot(exe: seq<byte>) returns (ghost child: Proc)
      requires Valid() && procs == [] && current == None
      requires Loadable(exe) && NumPages(Noff(exe)) <= |Clear(frames.Bits())|
      modifies repr
      ensures Valid() && fresh(repr - old(repr))
      ensures IsStep(old(State()), Step.Boot(exe, child), State())
    {
      hide BitsOf, NewSpace, Loadable, Noff, Clear, InitialRegs;
      ghost var s := State();
      child := NewProcess(0, exe);
      ghost var mid := State();
      SetCurrent(Some(0));
      Enter(0);
      SameNewSpace(s, exe, child, mid, State());
    }

    /** PTable::ExitUpdate's `delete currentThread->space`: the frames are freed, the page-table register is left. */
    method Exit()
      requires Valid() && Inv(State()) && current.Some? && Runs(State(), current.value)
      modifies repr
      ensures Valid() && repr == old(repr)
      ensures IsStep(old(State()), Step.Exit, State())
    {
      hide BitsOf, OwnedBy, FrameOwned;
      var p := current.value;
      assert ProcOk(State(), p);
      procs[p].space.Free(frames);
      assert View() == old(View());
      procs := procs[p := null];
      current := None;
      assert View() == old(View())[p := None];
    }

    /** Machine::WriteMem by the running process. */
    method Store(addr: int32, size: int, value: int32)
      requires Valid() && Inv(State()) && current.Some? && Runs(State(), current.value) && AccessSize(size)
      modifies repr
      ensures Valid() && repr == old(repr) && procs == old(procs)
      ensures IsStep(old(State()), Step.Store(addr, size, value), State())
    {
      hide BitsOf, OwnedBy, FrameOwned, Translation, Touched, Replaced, ToBytes;
      var p := current.value;
      RegisterIsOwn(State(), p);
      var ok := machine.WriteMem(addr, size, value);
      assert View() == old(View())[p := Some(old(procs[p].Value()).(pt := machine.pageTable[..]))];
    }

    /** Machine::ReadMem by the running process. */
    method Load(addr: int32, size: int) returns (ok: bool, value: int32)
      requires Valid() && Inv(State()) && current.Some? && Runs(State(), current.value) && AccessSize(size)
      modifies repr
      ensures Valid() && repr == old(repr) && procs == old(procs)
      ensures IsStep(old(State()), Step.Load(addr, size), State())
      ensures (if ok then Some(value) else None) == old(Loaded(State(), current.value, addr, size))
    {
      hide BitsOf, OwnedBy, FrameOwned, Translation, Touched, FromBytes, Loaded;
      var p := current.value;
      RegisterIsOwn(State(), p);
      LoadedIs(State(), p, addr, size);
      ok, value := machine.ReadMem(addr, size);
      assert View() == old(View())[p := Some(old(procs[p].Value()).(pt := machine.pageTable[..]))];
    }
  }

  /** What a new address space is does not depend on the process list or the registers. */
  lemma SameNewSpace(s: System, exe: seq<byte>, q: Proc, mid: System, s': System)
    requires Sized(s) && Sized(mid) && NewSpace(s, exe, q, mid)
    requires s'.mem == mid.mem && s'.frames == mid.frames && |s'.regs| == NUM_TOTAL_REGS
    ensures Sized(s') && NewSpace(s, exe, q, s')
  {
  }

  lemma NewSpacePages(s: System, exe: seq<byte>, q: Proc, s': System)
    requires Sized(s) && Sized(s') && NewSpace(s, exe, q, s')
    ensures |q.pt| <= NUM_PHYS_PAGES
  {
  }
}
