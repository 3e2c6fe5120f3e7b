/** PTable and PCB: Exec, Join and Exit between their blocking points. */
module ProcessTable {
  import opened Options
  import opened BitMaps

  const MAX_PROCESS := 10

  type Tid = nat

  /** A process control block; a semaphore is its value, since only the owner waits on it. */
  datatype Pcb = Pcb(thread: Tid, parentID: int, numwait: int, joinID: int, isExit: bool, joinExitcode: int,
                     joinsem: nat, exitsem: nat)

  datatype Table = Table(pcb: seq<Option<Pcb>>, bits: seq<bool>)

  ghost predicate Sized(t: Table) {
    |t.pcb| == MAX_PROCESS && |t.bits| == MAX_PROCESS
  }

  function NewPcb(thread: Tid, parentID: int): Pcb {
    Pcb(thread, parentID, 0, -1, false, 0, 0, 0)
  }

  function IncNumWait(p: Pcb): Pcb {
    p.(numwait := p.numwait + 1)
  }

  // What each call does up to the point where it returns or blocks.

  /** Live slot i belongs to the thread. */
  predicate Runs(pcb: seq<Option<Pcb>>, i: nat, thread: Tid) {
    i < |pcb| && pcb[i].Some? && pcb[i].value.thread == thread
  }

  /** The first slot at or after i that belongs to the thread, or -1. */
  function FindThread(pcb: seq<Option<Pcb>>, thread: Tid, i: nat): (r: int)
    ensures r == -1 || (i <= r < |pcb| && Runs(pcb, r, thread))
    ensures forall j :: i <= j < (if r == -1 then |pcb| else r) ==> !Runs(pcb, j, thread)
    decreases |pcb| - i
  {
    if i >= |pcb| then -1 else if Runs(pcb, i, thread) then i else FindThread(pcb, thread, i + 1)
  }

  ghost predicate AllClear(bits: seq<bool>) {
    forall i :: 0 <= i < |bits| ==> !bits[i]
  }

  /** ExecUpdate by `current`: `opens` is whether the named file can be opened, `sameName` whether it is the
      caller's own. The new process, if any, runs as `thread`. */
  ghost function Exec(t: Table, current: Tid, opens: bool, sameName: bool, thread: Tid): (r: (Table, int))
    requires Sized(t)
    ensures Sized(r.0)
  {
    if !opens then (t, -1)
    else if AllClear(t.bits) then (Table(t.pcb[0 := Some(NewPcb(thread, -1))], t.bits[0 := true]), 0)
    else
      var parent := FindThread(t.pcb, current, 0);
      var pid := FirstClear(t.bits, 0);
      if sameName || parent == -1 || pid == -1 then (t, -1)
      else
        var pcb := t.pcb[pid := Some(NewPcb(thread, parent))];
        (Table(pcb[parent := Some(IncNumWait(pcb[parent].value))], t.bits[pid := true]), pid)
  }

  /** A call that has returned a value, or gone to sleep in P. */
  datatype Outcome = Returned(code: int) | Blocked

  /** P on a semaphore of this value: sleeps at zero. */
  function JoinP(p: Pcb): (Pcb, Outcome) {
    if p.joinsem == 0 then (p, Blocked) else (p.(joinsem := p.joinsem - 1), Returned(p.joinExitcode))
  }

  function JoinWait(p: Pcb, id: int): (Pcb, Outcome) {
    if p.joinID != -1 then (p, Returned(p.joinExitcode)) else JoinP(p.(joinID := id))
  }

  function ExitWait(p: Pcb): (Pcb, bool) {
    if p.numwait > 0 then ExitP(p.(isExit := true)) else (p, true)
  }

  /** P on exitsem; the flag says whether the caller goes on. */
  function ExitP(p: Pcb): (Pcb, bool) {
    if p.exitsem == 0 then (p, false) else (p.(exitsem := p.exitsem - 1), true)
  }

  function JoinRelease(p: Pcb, id: int, code: int): Pcb {
    if p.joinID != id then p else p.(joinID := -1, joinExitcode := code, joinsem := p.joinsem + 1)
  }

  function ExitRelease(p: Pcb): Pcb {
    if p.numwait == 0 && p.isExit then p.(exitsem := p.exitsem + 1) else p
  }

  /** What a parent sees when its child `pid` exits with `code`. */
  function ChildGone(p: Pcb, pid: int, code: int): Pcb {
    var released := JoinRelease(p, pid, code);
    ExitRelease(released.(numwait := released.numwait - 1))
  }

  /** JoinUpdate by `current` on process `id`, until it returns or blocks. */
  function Join(t: Table, current: Tid, id: int): (r: (Table, Outcome))
    requires Sized(t)
    ensures Sized(r.0)
  {
    if id < 0 || id >= MAX_PROCESS || !t.bits[id] then (t, Returned(-1))
    else
      var pid := FindThread(t.pcb, current, 0);
      if pid == -1 || t.pcb[id].None? || t.pcb[id].value.parentID != pid then (t, Returned(-1))
      else
        var (p, outcome) := JoinWait(t.pcb[pid].value, id);
        (t.(pcb := t.pcb[pid := Some(p)]), outcome)
  }

  /** A thread that slept in Join's P runs again. */
  function JoinAgain(t: Table, pid: nat): (r: (Table, Outcome))
    requires Sized(t) && pid < MAX_PROCESS && t.pcb[pid].Some?
    ensures Sized(r.0)
  {
    var (p, outcome) := JoinP(t.pcb[pid].value);
    (t.(pcb := t.pcb[pid := Some(p)]), outcome)
  }

  datatype ExitOutcome = Refused | Waiting | Halted | Gone

  /** The tail of ExitUpdate, once the process need not wait for children. */
  function Finish(t: Table, pid: nat, code: int): (r: (Table, ExitOutcome))
    requires Sized(t) && pid < MAX_PROCESS && t.pcb[pid].Some?
    requires var parent := t.pcb[pid].value.parentID; parent == -1 || (0 <= parent < MAX_PROCESS && t.pcb[parent].Some?)
    ensures Sized(r.0)
  {
    var parent := t.pcb[pid].value.parentID;
    if parent == -1 then (t, Halted)
    else
      (Table(t.pcb[parent := Some(ChildGone(t.pcb[parent].value, pid, code))][pid := None], t.bits[pid := false]), Gone)
  }

  /** Parents named in the table are live, as the code assumes when it dereferences pcb[parentid]. */
  ghost predicate ParentsLive(t: Table) {
    forall i :: 0 <= i < |t.pcb| && t.pcb[i].Some? ==>
                  var parent := t.pcb[i].value.parentID; parent == -1 || (0 <= parent < |t.pcb| && t.pcb[parent].Some?)
  }

  /** ExitUpdate by `current`. */
  ghost function Exit(t: Table, current: Tid, code: int): (r: (Table, ExitOutcome))
    requires Sized(t) && ParentsLive(t)
    ensures Sized(r.0)
  {
    var pid := FindThread(t.pcb, current, 0);
    if pid == -1 then (t, Refused)
    else
      var (p, goesOn) := ExitWait(t.pcb[pid].value);
      var t1 := t.(pcb := t.pcb[pid := Some(p)]);
      if goesOn then Finish(t1, pid, code) else (t1, Waiting)
  }

  /** A thread that slept in Exit's P runs again. */
  ghost function ExitAgain(t: Table, pid: nat, code: int): (r: (Table, ExitOutcome))
    requires Sized(t) && ParentsLive(t) && pid < MAX_PROCESS && t.pcb[pid].Some?
    ensures Sized(r.0)
  {
    var (p, goesOn) := ExitP(t.pcb[pid].value);
    var t1 := t.(pcb := t.pcb[pid := Some(p)]);
    if goesOn then Finish(t1, pid, code) else (t1, Waiting)
  }

  /** The table as the code keeps it. */
  class PTable {
    const bm: BitMap
    const pcb: array<Option<Pcb>>

    ghost predicate Valid()
    {
      bm.Valid() && bm.numBits == MAX_PROCESS && pcb.Length == MAX_PROCESS
    }

    ghost function View(): (t: Table)
      requires Valid()
      reads pcb, bm.words
      ensures Sized(t)
    {
      Table(pcb[..], bm.Bits())
    }

    constructor ()
      ensures Valid() && fresh(pcb) && fresh(bm.words)
      ensures AllClear(View().bits) && forall i :: 0 <= i < MAX_PROCESS ==> View().pcb[i] == None
    {
      bm := new BitMap(MAX_PROCESS);
      pcb := new Option<Pcb>[MAX_PROCESS](i => None);
    }

    /** The search loop shared by the three calls. */
    method FindCurrent(current: Tid) returns (r: int)
      requires Valid()
      ensures r == FindThread(pcb[..], current, 0)
    {
      for i := 0 to MAX_PROCESS
        invariant FindThread(pcb[..], current, i) == FindThread(pcb[..], current, 0)
      {
        if pcb[i].Some? && pcb[i].value.thread == current {
          return i;
        }
      }
      return -1;
    }

    method ExecUpdate(current: Tid, opens: bool, sameName: bool, thread: Tid) returns (r: int)
      requires Valid()
      modifies pcb, bm.words
      ensures (View(), r) == Exec(old(View()), current, opens, sameName, thread)
    {
      hide BitsOf;
      if !opens {
        return -1;
      }
      ghost var bits := bm.Bits();
      var clear := bm.NumClear();
      AllClearIffFull(bits);
      if clear == MAX_PROCESS {
        bm.Mark(0);
        pcb[0] := Some(NewPcb(thread, -1));
        return 0;
      }
      if sameName {
        return -1;
      }
      var parentid := FindCurrent(current);
      if parentid == -1 {
        return -1;
      }
      var pid := bm.Find();
      if pid == -1 {
        return -1;
      }
      pcb[pid] := Some(NewPcb(thread, parentid));
      pcb[parentid] := Some(IncNumWait(pcb[parentid].value));
      return pid;
    }

    method JoinUpdate(current: Tid, id: int) returns (outcome: Outcome)
      requires Valid()
      modifies pcb
      ensures (View(), outcome) == Join(old(View()), current, id)
    {
      hide BitsOf;
      if id < 0 || id >= MAX_PROCESS {
        return Returned(-1);
      }
      var marked := bm.Test(id);
      if !marked {
        return Returned(-1);
      }
      var pid := FindCurrent(current);
      if pid == -1 {
        return Returned(-1);
      }
      if pcb[id].None? || pcb[id].value.parentID != pid {
        return Returned(-1);
      }
      var (p, o) := JoinWait(pcb[pid].value, id);
      pcb[pid] := Some(p);
      return o;
    }

    method ExitUpdate(current: Tid, code: int) returns (outcome: ExitOutcome)
      requires Valid() && ParentsLive(View())
      modifies pcb, bm.words
      ensures (View(), outcome) == Exit(old(View()), current, code)
    {
      hide BitsOf;
      var pid := FindCurrent(current);
      if pid == -1 {
        return Refused;
      }
      var parentid := pcb[pid].value.parentID;
      var (p, goesOn) := ExitWait(pcb[pid].value);
      pcb[pid] := Some(p);
      if !goesOn {
        return Waiting;
      }
      if parentid == -1 {
        return Halted;
      }
      pcb[parentid] := Some(ChildGone(pcb[parentid].value, pid, code));
      pcb[pid] := None;
      bm.ClearBit(pid);
      return Gone;
    }
  }

  lemma AllClearIffFull(bits: seq<bool>)
    ensures |Clear(bits)| == |bits| <==> AllClear(bits)
  {
    ClearPlusMarked(bits);
    if AllClear(bits) {
      assert Marked(bits) == {};
    } else {
      var i :| 0 <= i < |bits| && bits[i];
      assert i in Marked(bits);
    }
  }
}
