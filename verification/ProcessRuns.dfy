/** Exec, Join and Exit as a step machine over any number of processes. Threads switch only where a call
    blocks or a thread finishes, so each step is one call up to its next blocking point. */
module ProcessRuns {
  import opened Options
  import P = ProcessTable
  import opened ProcessTable

  /** Where a process's thread is: in user code, asleep in Join or asleep in Exit. */
  datatype Phase = User | Joining(id: int, child: Tid) | Exiting(code: int)

  datatype JoinResult = JoinResult(child: Tid, code: int)

  /** The table with each live thread's phase, and the history: exit codes, exitsem signals and completed joins. */
  datatype Machine = Machine(table: Table, phase: map<Tid, Phase>, next: Tid, exits: map<Tid, int>,
                             signals: map<Tid, nat>, joined: seq<JoinResult>, halted: bool)

  /** The machine once the first Exec has replaced the booting thread. */
  ghost function Boot(t: Table): Machine
    requires Sized(t)
  {
    Machine(P.Exec(t, 0, true, false, 0).0, map[0 := User], 1, map[], map[0 := 0], [], false)
  }

  // The invariant.

  ghost function Children(pcb: seq<Option<Pcb>>, i: int): set<int> {
    set j | 0 <= j < |pcb| && pcb[j].Some? && pcb[j].value.parentID == i
  }

  /** Slot id is the live child of i that runs as `child`. */
  ghost predicate LiveChild(pcb: seq<Option<Pcb>>, i: int, id: int, child: Tid) {
    0 <= id < |pcb| && pcb[id].Some? && pcb[id].value.parentID == i && pcb[id].value.thread == child
  }

  /** A sleeping process either waits on a live child or has been signalled exactly once. */
  ghost predicate PhaseOk(m: Machine, i: int, p: Pcb, phase: Phase, signals: nat) {
    match phase
    case User =>
      p.joinID == -1 && p.joinsem == 0 && !p.isExit && p.exitsem == 0 && signals == 0
    case Joining(id, child) =>
      && !p.isExit && p.exitsem == 0 && signals == 0
      && (|| (p.joinsem == 0 && p.joinID == id && LiveChild(m.table.pcb, i, id, child))
          || (p.joinsem == 1 && p.joinID == -1 && child in m.exits && p.joinExitcode == m.exits[child]))
    case Exiting(_) =>
      && p.joinID == -1 && p.joinsem == 0 && p.isExit
      && (|| (p.exitsem == 0 && p.numwait > 0 && signals == 0)
          || (p.exitsem == 1 && p.numwait == 0 && signals == 1))
  }

  /** Slot i's block agrees with the rest of the machine. */
  ghost predicate SlotOk(m: Machine, i: nat)
    requires i < |m.table.pcb|
  {
    m.table.pcb[i].Some? ==>
      var p := m.table.pcb[i].value;
      && p.thread < m.next && p.thread in m.phase && p.thread in m.signals && p.thread !in m.exits
      && p.numwait == |Children(m.table.pcb, i)|
      && (if i == 0 then p.parentID == -1
          else 0 <= p.parentID < |m.table.pcb| && m.table.pcb[p.parentID].Some?
               && m.table.pcb[p.parentID].value.thread < p.thread)
      && PhaseOk(m, i, p, m.phase[p.thread], m.signals[p.thread])
  }

  ghost predicate ThreadsDistinct(pcb: seq<Option<Pcb>>) {
    forall i, j :: 0 <= i < j < |pcb| && pcb[i].Some? && pcb[j].Some? ==> pcb[i].value.thread != pcb[j].value.thread
  }

  ghost predicate HistoryOk(m: Machine) {
    && (forall th :: th in m.phase ==> FindThread(m.table.pcb, th, 0) != -1)
    && (forall th :: th in m.exits ==> th < m.next)
    && (forall th :: th in m.signals ==> th < m.next && m.signals[th] <= 1)
    && (forall k :: 0 <= k < |m.joined| ==>
                      m.joined[k].child in m.exits && m.joined[k].code == m.exits[m.joined[k].child])
  }

  ghost predicate Inv(m: Machine) {
    && Sized(m.table)
    && (forall i :: 0 <= i < MAX_PROCESS ==> (m.table.bits[i] <==> m.table.pcb[i].Some?))
    && m.table.pcb[0].Some?
    && ThreadsDistinct(m.table.pcb)
    && (forall i :: 0 <= i < MAX_PROCESS ==> SlotOk(m, i))
    && HistoryOk(m)
  }

  lemma InvParentsLive(m: Machine)
    requires Inv(m)
    ensures ParentsLive(m.table)
  {
    forall i | 0 <= i < |m.table.pcb| && m.table.pcb[i].Some?
      ensures var parent := m.table.pcb[i].value.parentID;
              parent == -1 || (0 <= parent < |m.table.pcb| && m.table.pcb[parent].Some?)
    {
      assert SlotOk(m, i);
    }
  }

  /** A live thread's slot, which is unique. */
  lemma SlotOfThread(m: Machine, th: Tid) returns (i: nat)
    requires Inv(m) && th in m.phase
    ensures i == FindThread(m.table.pcb, th, 0) && Runs(m.table.pcb, i, th) && SlotOk(m, i)
    ensures forall j :: 0 <= j < MAX_PROCESS && Runs(m.table.pcb, j, th) ==> j == i
  {
    hide SlotOk;
    i := FindThread(m.table.pcb, th, 0);
  }

  // Steps.

  datatype Step =
    | Exec(th: Tid, opens: bool, sameName: bool)
    | Join(th: Tid, id: int)
    | JoinWakes(th: Tid)
    | Exit(th: Tid, code: int)
    | ExitWakes(th: Tid)

  ghost predicate Enabled(m: Machine, s: Step)
    requires Inv(m)
  {
    && !m.halted && s.th in m.phase
    && var i := FindThread(m.table.pcb, s.th, 0);
       match s
       case Exec(_, _, _) => m.phase[s.th] == User
       case Join(_, _) => m.phase[s.th] == User
       case Exit(_, _) => m.phase[s.th] == User
       case JoinWakes(_) => m.phase[s.th].Joining? && i != -1 && m.table.pcb[i].value.joinsem > 0
       case ExitWakes(_) => m.phase[s.th].Exiting? && i != -1 && m.table.pcb[i].value.exitsem > 0
  }

  /** The history after the thread's exit from slot i, when the table becomes t. */
  ghost function AfterExit(m: Machine, th: Tid, i: nat, code: int, t: Table): Machine
    requires Inv(m) && i < MAX_PROCESS && m.table.pcb[i].Some? && Sized(t)
  {
    var parent := m.table.pcb[i].value.parentID;
    var signals :=
      if 0 <= parent < MAX_PROCESS && m.table.pcb[parent].Some? && t.pcb[parent].Some?
         && t.pcb[parent].value.thread in m.signals
         && t.pcb[parent].value.exitsem > m.table.pcb[parent].value.exitsem
      then m.signals[t.pcb[parent].value.thread := m.signals[t.pcb[parent].value.thread] + 1]
      else m.signals;
    m.(table := t, phase := m.phase - {th}, exits := m.exits[th := code], signals := signals)
  }

  ghost function Next(m: Machine, s: Step): Machine
    requires Inv(m) && Enabled(m, s)
  {
    InvParentsLive(m);
    var i := FindThread(m.table.pcb, s.th, 0);
    match s
    case Exec(th, opens, sameName) =>
      var (t, pid) := P.Exec(m.table, th, opens, sameName, m.next);
      if pid == -1 then m.(table := t)
      else m.(table := t, phase := m.phase[m.next := User], signals := m.signals[m.next := 0], next := m.next + 1)
    case Join(th, id) =>
      var (t, outcome) := P.Join(m.table, th, id);
      if outcome.Blocked? && 0 <= id < MAX_PROCESS && m.table.pcb[id].Some?
      then m.(table := t, phase := m.phase[th := Joining(id, m.table.pcb[id].value.thread)])
      else m.(table := t)
    case JoinWakes(th) =>
      if i == -1 then m
      else
        var (t, outcome) := JoinAgain(m.table, i);
        var code := if outcome.Returned? then outcome.code else 0;
        m.(table := t, phase := m.phase[th := User], joined := m.joined + [JoinResult(m.phase[th].child, code)])
    case Exit(th, code) =>
      var (t, outcome) := P.Exit(m.table, th, code);
      if i == -1 then m
      else if outcome.Waiting? then m.(table := t, phase := m.phase[th := Exiting(code)])
      else if outcome.Gone? then AfterExit(m, th, i, code, t)
      else m.(halted := true)
    case ExitWakes(th) =>
      if i == -1 then m
      else
        var (t, outcome) := ExitAgain(m.table, i, m.phase[th].code);
        if outcome.Gone? then AfterExit(m, th, i, m.phase[th].code, t) else m.(halted := true)
  }

  /** Every live slot keeps its thread and parent. */
  ghost predicate SlotsStay(pcb: seq<Option<Pcb>>, pcb': seq<Option<Pcb>>) {
    && |pcb'| == |pcb|
    && (forall j :: 0 <= j < |pcb| && pcb[j].Some? ==>
                      && pcb'[j].Some?
                      && pcb'[j].value.thread == pcb[j].value.thread && pcb'[j].value.parentID == pcb[j].value.parentID)
  }

  lemma PhaseStays(m: Machine, m': Machine, i: int, p: Pcb, phase: Phase, signals: nat)
    requires PhaseOk(m, i, p, phase, signals) && SlotsStay(m.table.pcb, m'.table.pcb) && m'.exits == m.exits
    ensures PhaseOk(m', i, p, phase, signals)
  {
  }

  // Exec.

  /** A slot other than the new one keeps its place when a child is added under `parent`. */
  lemma ExecSlot(m: Machine, m': Machine, parent: nat, pid: nat, i: nat)
    requires Inv(m) && parent < MAX_PROCESS && pid < MAX_PROCESS && i < MAX_PROCESS && i != pid
    requires m.table.pcb[pid].None? && m.table.pcb[parent].Some? && Sized(m'.table)
    requires m'.table.pcb == m.table.pcb[pid := Some(NewPcb(m.next, parent))]
                                [parent := Some(IncNumWait(m.table.pcb[parent].value))]
    requires var th := m.table.pcb[parent].value.thread; th in m.phase && m.phase[th] == User
    requires m'.phase == m.phase[m.next := User] && m'.signals == m.signals[m.next := 0]
    requires m'.next == m.next + 1 && m'.exits == m.exits
    ensures SlotOk(m', i)
  {
    hide HistoryOk, ThreadsDistinct;
    assert SlotOk(m, i);
    assert SlotOk(m, parent);
    assert SlotsStay(m.table.pcb, m'.table.pcb);
    if m.table.pcb[i].Some? {
      var th := m.table.pcb[i].value.thread;
      if i == parent {
        assert Children(m'.table.pcb, i) == Children(m.table.pcb, i) + {pid};
        assert pid !in Children(m.table.pcb, i);
      } else {
        PhaseStays(m, m', i, m.table.pcb[i].value, m.phase[th], m.signals[th]);
        assert Children(m'.table.pcb, i) == Children(m.table.pcb, i);
      }
    }
  }

  /** The new slot has a live parent and no children yet. */
  lemma ExecNewSlot(m: Machine, m': Machine, parent: nat, pid: nat)
    requires Inv(m) && parent < MAX_PROCESS && 0 < pid < MAX_PROCESS
    requires m.table.pcb[pid].None? && m.table.pcb[parent].Some? && Sized(m'.table)
    requires m'.table.pcb == m.table.pcb[pid := Some(NewPcb(m.next, parent))]
                                [parent := Some(IncNumWait(m.table.pcb[parent].value))]
    requires m'.phase == m.phase[m.next := User] && m'.signals == m.signals[m.next := 0]
    requires m'.next == m.next + 1 && m'.exits == m.exits
    ensures SlotOk(m', pid)
  {
    assert SlotOk(m, parent);
    assert m.next !in m.exits;
    forall j | 0 <= j < MAX_PROCESS && m.table.pcb[j].Some?
      ensures m.table.pcb[j].value.parentID != pid
    {
      assert SlotOk(m, j);
    }
    assert Children(m'.table.pcb, pid) == {};
  }

  lemma ExecKeeps(m: Machine, s: Step)
    requires Inv(m) && s.Exec? && Enabled(m, s)
    ensures Inv(Next(m, s))
  {
    hide SlotOk, FindThread;
    var m' := Next(m, s);
    var parent := SlotOfThread(m, s.th);
    var (t, pid) := P.Exec(m.table, s.th, s.opens, s.sameName, m.next);
    assert !AllClear(m.table.bits) by { assert m.table.bits[0]; }
    if pid != -1 {
      forall i | 0 <= i < MAX_PROCESS
        ensures SlotOk(m', i)
      {
        if i == pid {
          ExecNewSlot(m, m', parent, pid);
        } else {
          ExecSlot(m, m', parent, pid, i);
        }
      }
      ExecThreads(m, m', parent, pid);
    }
  }

  lemma ExecThreads(m: Machine, m': Machine, parent: nat, pid: nat)
    requires Inv(m) && parent < MAX_PROCESS && pid < MAX_PROCESS
    requires m.table.pcb[pid].None? && m.table.pcb[parent].Some?
    requires m'.table.pcb == m.table.pcb[pid := Some(NewPcb(m.next, parent))]
                                [parent := Some(IncNumWait(m.table.pcb[parent].value))]
    requires m'.phase == m.phase[m.next := User]
    ensures ThreadsDistinct(m'.table.pcb)
    ensures forall th :: th in m'.phase ==> FindThread(m'.table.pcb, th, 0) != -1
  {
    hide SlotOk;
    FreshThread(m);
    forall th | th in m'.phase
      ensures FindThread(m'.table.pcb, th, 0) != -1
    {
      if th == m.next {
        assert Runs(m'.table.pcb, pid, th);
      } else {
        var i := SlotOfThread(m, th);
        assert Runs(m'.table.pcb, i, th);
      }
    }
  }

  lemma FreshThread(m: Machine)
    requires Inv(m)
    ensures forall i :: 0 <= i < MAX_PROCESS && m.table.pcb[i].Some? ==> m.table.pcb[i].value.thread < m.next
  {
    forall i | 0 <= i < MAX_PROCESS && m.table.pcb[i].Some?
      ensures m.table.pcb[i].value.thread < m.next
    {
      assert SlotOk(m, i);
    }
  }

  // Changing one block without touching thread, parent or child count.

  ghost predicate SameIdentity(p: Pcb, q: Pcb) {
    p.thread == q.thread && p.parentID == q.parentID && p.numwait == q.numwait
  }

  lemma OneBlockSlot(m: Machine, m': Machine, k: nat, i: nat)
    requires Inv(m) && k < MAX_PROCESS && i < MAX_PROCESS && i != k && Sized(m'.table)
    requires m.table.pcb[k].Some? && m'.table.pcb[k].Some? && SameIdentity(m.table.pcb[k].value, m'.table.pcb[k].value)
    requires m'.table.pcb == m.table.pcb[k := m'.table.pcb[k]]
    requires m'.next == m.next && m'.exits == m.exits && m'.signals == m.signals
    requires forall th :: th in m.phase && th != m.table.pcb[k].value.thread ==>
                            th in m'.phase && m'.phase[th] == m.phase[th]
    ensures SlotOk(m', i)
  {
    hide HistoryOk, PhaseOk;
    assert SlotOk(m, i);
    assert SlotsStay(m.table.pcb, m'.table.pcb);
    if m.table.pcb[i].Some? {
      var th := m.table.pcb[i].value.thread;
      assert th != m.table.pcb[k].value.thread;
      PhaseStays(m, m', i, m.table.pcb[i].value, m.phase[th], m.signals[th]);
      assert Children(m'.table.pcb, i) == Children(m.table.pcb, i);
    }
  }

  lemma OneBlockItself(m: Machine, m': Machine, k: nat)
    requires Inv(m) && k < MAX_PROCESS && Sized(m'.table)
    requires m.table.pcb[k].Some? && m'.table.pcb[k].Some? && SameIdentity(m.table.pcb[k].value, m'.table.pcb[k].value)
    requires m'.table.pcb == m.table.pcb[k := m'.table.pcb[k]]
    requires m'.next == m.next && m'.exits == m.exits && m'.signals == m.signals && m'.phase.Keys == m.phase.Keys
    requires var p := m'.table.pcb[k].value;
             p.thread in m.phase && p.thread in m.signals && PhaseOk(m', k, p, m'.phase[p.thread], m.signals[p.thread])
    ensures SlotOk(m', k)
  {
    hide HistoryOk, PhaseOk, ThreadsDistinct;
    assert SlotOk(m, k);
    assert Children(m'.table.pcb, k) == Children(m.table.pcb, k);
  }

  /** Such a change keeps the invariant if the changed block itself is right. */
  lemma OneBlockKeeps(m: Machine, m': Machine, k: nat)
    requires Inv(m) && k < MAX_PROCESS && Sized(m'.table) && m'.table.bits == m.table.bits
    requires m.table.pcb[k].Some? && m'.table.pcb[k].Some? && SameIdentity(m.table.pcb[k].value, m'.table.pcb[k].value)
    requires m'.table.pcb == m.table.pcb[k := m'.table.pcb[k]]
    requires m'.next == m.next && m'.exits == m.exits && m'.signals == m.signals
    requires m'.phase.Keys == m.phase.Keys && m.table.pcb[k].value.thread in m.phase
    requires forall th :: th in m.phase && th != m.table.pcb[k].value.thread ==> m'.phase[th] == m.phase[th]
    requires var p := m'.table.pcb[k].value;
             p.thread in m.signals && PhaseOk(m', k, p, m'.phase[p.thread], m.signals[p.thread])
    requires forall j :: 0 <= j < |m'.joined| ==>
                           m'.joined[j].child in m.exits && m'.joined[j].code == m.exits[m'.joined[j].child]
    ensures Inv(m')
  {
    hide SlotOk, FindThread;
    forall i | 0 <= i < MAX_PROCESS
      ensures SlotOk(m', i)
    {
      if i == k {
        OneBlockItself(m, m', k);
      } else {
        OneBlockSlot(m, m', k, i);
      }
    }
    assert ThreadsDistinct(m'.table.pcb);
    forall th | th in m'.phase
      ensures FindThread(m'.table.pcb, th, 0) != -1
    {
      var i := SlotOfThread(m, th);
      assert Runs(m'.table.pcb, i, th);
    }
  }

  // Join.

  /** In user code the join semaphore is free, so a Join on a live child always blocks. */
  lemma JoinKeeps(m: Machine, s: Step)
    requires Inv(m) && s.Join? && Enabled(m, s)
    ensures Inv(Next(m, s))
    ensures var pid := FindThread(m.table.pcb, s.th, 0);
            if 0 <= s.id < MAX_PROCESS && m.table.pcb[s.id].Some? && m.table.pcb[s.id].value.parentID == pid
            then Next(m, s).phase[s.th] == Joining(s.id, m.table.pcb[s.id].value.thread)
            else Next(m, s) == m
  {
    var m' := Next(m, s);
    var k := SlotOfThread(m, s.th);
    if 0 <= s.id < MAX_PROCESS && m.table.pcb[s.id].Some? && m.table.pcb[s.id].value.parentID == k {
      assert SlotOk(m, s.id);
      assert s.id != k;
      JoinKeepsBlocked(m, m', s, k);
    }
  }

  lemma JoinKeepsBlocked(m: Machine, m': Machine, s: Step, k: nat)
    requires Inv(m) && s.Join? && Enabled(m, s) && m' == Next(m, s) && k == FindThread(m.table.pcb, s.th, 0)
    requires Runs(m.table.pcb, k, s.th) && SlotOk(m, k) && 0 <= s.id < MAX_PROCESS && s.id != k
    requires m.table.pcb[s.id].Some? && m.table.pcb[s.id].value.parentID == k
    ensures Inv(m') && m'.phase[s.th] == Joining(s.id, m.table.pcb[s.id].value.thread)
  {
    assert m.table.bits[s.id];
    assert m'.table.pcb == m.table.pcb[k := Some(m.table.pcb[k].value.(joinID := s.id))];
    OneBlockKeeps(m, m', k);
  }

  /** A Join that wakes returns the exit code of the very child it named. */
  lemma JoinWakesKeeps(m: Machine, s: Step)
    requires Inv(m) && s.JoinWakes? && Enabled(m, s)
    ensures Inv(Next(m, s))
    ensures var child := m.phase[s.th].child;
            child in m.exits && Next(m, s).joined == m.joined + [JoinResult(child, m.exits[child])]
  {
    var m' := Next(m, s);
    var k := SlotOfThread(m, s.th);
    OneBlockKeeps(m, m', k);
  }

  // Exit.

  /** Slot k, childless and not the root, is gone and its parent has been told. */
  ghost predicate Leaves(m: Machine, m': Machine, k: nat, parent: nat, code: int) {
    && Inv(m) && Sized(m'.table) && 0 < k < MAX_PROCESS && parent < MAX_PROCESS && parent != k
    && m.table.pcb[k].Some? && m.table.pcb[parent].Some? && m.table.pcb[k].value.parentID == parent
    && Children(m.table.pcb, k) == {}
    && m'.table.pcb == m.table.pcb[parent := Some(ChildGone(m.table.pcb[parent].value, k, code))][k := None]
    && m'.table.bits == m.table.bits[k := false]
    && m' == AfterExit(m, m.table.pcb[k].value.thread, k, code, m'.table)
  }

  lemma OtherSlotStays(m: Machine, m': Machine, k: nat, parent: nat, code: int, i: nat)
    requires Leaves(m, m', k, parent, code) && i < MAX_PROCESS && i != k && i != parent
    ensures SlotOk(m', i)
  {
    hide HistoryOk, ChildGone;
    assert SlotOk(m, i);
    assert SlotOk(m, k);
    assert SlotOk(m, parent);
    ParentBlockIdentity(m.table.pcb[parent].value, k, code);
    if m.table.pcb[i].Some? {
      assert m.table.pcb[i].value.parentID == k <==> i in Children(m.table.pcb, k);
      assert m.table.pcb[i].value.thread != m.table.pcb[k].value.thread;
      assert m.table.pcb[i].value.thread != m.table.pcb[parent].value.thread;
      assert Children(m'.table.pcb, i) == Children(m.table.pcb, i);
    }
  }

  lemma ParentPhase(m: Machine, m': Machine, k: nat, parent: nat, code: int)
    requires Leaves(m, m', k, parent, code) && SlotOk(m, parent) && SlotOk(m, k)
    requires m.table.pcb[parent].value.thread != m.table.pcb[k].value.thread
    ensures var q := m'.table.pcb[parent].value;
            && q.thread in m'.phase && q.thread in m'.signals
            && PhaseOk(m', parent, q, m'.phase[q.thread], m'.signals[q.thread])
  {
    hide HistoryOk, ThreadsDistinct;
    assert k in Children(m.table.pcb, parent);
  }

  lemma ParentSlotStays(m: Machine, m': Machine, k: nat, parent: nat, code: int)
    requires Leaves(m, m', k, parent, code)
    ensures SlotOk(m', parent)
  {
    hide HistoryOk, PhaseOk;
    assert SlotOk(m, parent);
    assert SlotOk(m, k);
    assert m.table.pcb[parent].value.thread != m.table.pcb[k].value.thread;
    ParentPhase(m, m', k, parent, code);
    assert Children(m'.table.pcb, parent) == Children(m.table.pcb, parent) - {k};
    assert k in Children(m.table.pcb, parent);
    assert m.table.pcb[parent].value.parentID == k <==> parent in Children(m.table.pcb, k);
  }

  lemma LeaveKeeps(m: Machine, m': Machine, k: nat, parent: nat, code: int)
    requires Leaves(m, m', k, parent, code)
    ensures Inv(m')
  {
    hide SlotOk, ChildGone;
    var th := m.table.pcb[k].value.thread;
    forall i | 0 <= i < MAX_PROCESS
      ensures SlotOk(m', i)
    {
      if i == parent {
        ParentSlotStays(m, m', k, parent, code);
      } else if i != k {
        OtherSlotStays(m, m', k, parent, code, i);
      } else {
        EmptySlot(m', k);
      }
    }
    ParentBlockIdentity(m.table.pcb[parent].value, k, code);
    assert ThreadsDistinct(m'.table.pcb);
    forall t | t in m'.phase
      ensures FindThread(m'.table.pcb, t, 0) != -1
    {
      var i := SlotOfThread(m, t);
      assert Runs(m'.table.pcb, i, t);
    }
    LeaveHistory(m, m', k, parent, code);
  }

  lemma EmptySlot(m: Machine, k: nat)
    requires k < |m.table.pcb| && m.table.pcb[k].None?
    ensures SlotOk(m, k)
  {
  }

  lemma ParentBlockIdentity(p: Pcb, pid: int, code: int)
    ensures ChildGone(p, pid, code).thread == p.thread && ChildGone(p, pid, code).parentID == p.parentID
    ensures ChildGone(p, pid, code).numwait == p.numwait - 1
  {
  }

  lemma LeaveHistory(m: Machine, m': Machine, k: nat, parent: nat, code: int)
    requires Leaves(m, m', k, parent, code)
    ensures forall t :: t in m'.exits ==> t < m'.next
    ensures forall t :: t in m'.signals ==> t < m'.next && m'.signals[t] <= 1
    ensures forall j :: 0 <= j < |m'.joined| ==>
                          m'.joined[j].child in m'.exits && m'.joined[j].code == m'.exits[m'.joined[j].child]
  {
    assert SlotOk(m, k);
    assert SlotOk(m, parent);
    assert m.table.pcb[parent].value.thread != m.table.pcb[k].value.thread;
    ParentPhase(m, m', k, parent, code);
  }

  lemma ExitKeeps(m: Machine, s: Step)
    requires Inv(m) && s.Exit? && Enabled(m, s)
    ensures Inv(Next(m, s))
  {
    hide HistoryOk, ThreadsDistinct, LiveChild;
    var m' := Next(m, s);
    var k := SlotOfThread(m, s.th);
    var p := m.table.pcb[k].value;
    if p.numwait > 0 {
      ExitWaits(m, m', s, k);
    } else if k != 0 {
      assert SlotOk(m, p.parentID);
      assert Leaves(m, m', k, p.parentID, s.code);
      LeaveKeeps(m, m', k, p.parentID, s.code);
    } else {
      HaltKeeps(m);
    }
  }

  lemma HaltKeeps(m: Machine)
    requires Inv(m)
    ensures Inv(m.(halted := true))
  {
    forall i | 0 <= i < MAX_PROCESS
      ensures SlotOk(m.(halted := true), i)
    {
      assert SlotOk(m, i);
    }
  }

  lemma ExitWaits(m: Machine, m': Machine, s: Step, k: nat)
    requires Inv(m) && s.Exit? && Enabled(m, s) && m' == Next(m, s) && k == FindThread(m.table.pcb, s.th, 0)
    requires Runs(m.table.pcb, k, s.th) && SlotOk(m, k) && m.table.pcb[k].value.numwait > 0
    ensures Inv(m')
  {
    assert m'.table.pcb == m.table.pcb[k := Some(m.table.pcb[k].value.(isExit := true))];
    OneBlockKeeps(m, m', k);
  }

  lemma ExitWakesKeeps(m: Machine, s: Step)
    requires Inv(m) && s.ExitWakes? && Enabled(m, s)
    ensures Inv(Next(m, s))
  {
    hide HistoryOk, ThreadsDistinct, LiveChild;
    var m' := Next(m, s);
    var k := SlotOfThread(m, s.th);
    var p := m.table.pcb[k].value;
    if k != 0 {
      assert SlotOk(m, p.parentID);
      var code := m.phase[s.th].code;
      var pcb := m.table.pcb[k := Some(p.(exitsem := p.exitsem - 1))];
      assert pcb[p.parentID := Some(ChildGone(pcb[p.parentID].value, k, code))][k := None]
          == m.table.pcb[p.parentID := Some(ChildGone(m.table.pcb[p.parentID].value, k, code))][k := None];
      assert Leaves(m, m', k, p.parentID, code);
      LeaveKeeps(m, m', k, p.parentID, code);
    } else {
      HaltKeeps(m);
    }
  }

  // Runs.

  /** Every step keeps the invariant: bits, child counts, live parents, and one signal at most per sleeper. */
  lemma StepKeeps(m: Machine, s: Step)
    requires Inv(m) && Enabled(m, s)
    ensures Inv(Next(m, s))
  {
    hide Inv, Next;
    match s
    case Exec(_, _, _) => ExecKeeps(m, s);
    case Join(_, _) => JoinKeeps(m, s);
    case JoinWakes(_) => JoinWakesKeeps(m, s);
    case Exit(_, _) => ExitKeeps(m, s);
    case ExitWakes(_) => ExitWakesKeeps(m, s);
  }

  ghost predicate Empty(t: Table) {
    Sized(t) && AllClear(t.bits) && forall i :: 0 <= i < MAX_PROCESS ==> t.pcb[i] == None
  }

  /** The first Exec on an empty table starts every run in a good state. */
  lemma BootOk(t: Table)
    requires Empty(t)
    ensures Inv(Boot(t)) && !Boot(t).halted && Boot(t).phase == map[0 := User]
    ensures Boot(t).exits == map[] && Boot(t).joined == []
  {
    var m := Boot(t);
    assert Children(m.table.pcb, 0) == {};
    assert Runs(m.table.pcb, 0, 0);
  }

  /** A run from boot: machines joined by enabled steps. */
  ghost predicate Run(ms: seq<Machine>, ss: seq<Step>) {
    && |ms| == |ss| + 1
    && (exists t :: Empty(t) && ms[0] == Boot(t))
    && (forall k :: 0 <= k < |ss| && Inv(ms[k]) ==> Enabled(ms[k], ss[k]) && ms[k + 1] == Next(ms[k], ss[k]))
  }

  /** Safety over every interleaving. */
  lemma {:induction false} RunInv(ms: seq<Machine>, ss: seq<Step>, n: nat)
    requires Run(ms, ss) && n <= |ss|
    ensures Inv(ms[n])
  {
    hide Inv, Next, Enabled;
    if n == 0 {
      var t :| Empty(t) && ms[0] == Boot(t);
      BootOk(t);
    } else {
      RunInv(ms, ss, n - 1);
      StepKeeps(ms[n - 1], ss[n - 1]);
    }
  }

  /** What every reachable state promises: a bit is set exactly for live blocks, numwait counts the live children,
      a non-root's parent is live, and no process is ever signalled twice on exitsem. */
  lemma ReachableTable(ms: seq<Machine>, ss: seq<Step>, n: nat, i: nat)
    requires Run(ms, ss) && n <= |ss| && i < MAX_PROCESS
    ensures Sized(ms[n].table)
    ensures ms[n].table.bits[i] <==> ms[n].table.pcb[i].Some?
    ensures ms[n].table.pcb[i].Some? ==>
              var p := ms[n].table.pcb[i].value;
              && p.numwait == |Children(ms[n].table.pcb, i)|
              && (i != 0 ==> 0 <= p.parentID < MAX_PROCESS && ms[n].table.pcb[p.parentID].Some?)
    ensures forall th :: th in ms[n].signals ==> ms[n].signals[th] <= 1
    ensures forall k :: 0 <= k < |ms[n].joined| ==>
                          ms[n].joined[k].child in ms[n].exits
                          && ms[n].joined[k].code == ms[n].exits[ms[n].joined[k].child]
  {
    RunInv(ms, ss, n);
    assert SlotOk(ms[n], i);
  }

  // What each call does, as its caller and the others see it.

  /**
   * Exec starts a child exactly when the file opens, is not the caller's own and
   * a slot is empty: the lowest one, which now runs the new thread under the
   * caller. Otherwise it answers -1 and changes nothing.
   */
  lemma ExecStarts(m: Machine, th: Tid, opens: bool, sameName: bool)
    requires Inv(m) && !m.halted && th in m.phase && m.phase[th] == User
    ensures Enabled(m, Exec(th, opens, sameName))
    ensures var (t, pid) := P.Exec(m.table, th, opens, sameName, m.next);
            var m' := Next(m, Exec(th, opens, sameName));
            if opens && !sameName && exists i :: 0 <= i < 10 && m.table.pcb[i].None? then
              && Sized(t) && 0 <= pid < MAX_PROCESS && m.table.pcb[pid].None?
              && (forall j :: 0 <= j < pid ==> m.table.pcb[j].Some?)
              && Runs(t.pcb, pid, m.next)
              && (var q := t.pcb[pid].value.parentID; 0 <= q < MAX_PROCESS && Runs(m.table.pcb, q, th))
              && m'.table == t && m'.phase == m.phase[m.next := User] && !m'.halted
            else
              pid == -1 && m' == m
  {
    hide SlotOk, HistoryOk, ThreadsDistinct;
    var q := SlotOfThread(m, th);
    assert !AllClear(m.table.bits) by { assert m.table.bits[0]; }
    if i :| 0 <= i < MAX_PROCESS && m.table.pcb[i].None? {
      assert !m.table.bits[i];
    }
  }

  /** On an empty table the first program that opens becomes process 0, without a parent; one that does not
      open changes nothing. */
  lemma FirstExec(t: Table, current: Tid, sameName: bool, thread: Tid)
    requires Empty(t)
    ensures var (t', pid) := P.Exec(t, current, true, sameName, thread);
            && pid == 0 && Sized(t') && t'.bits == t.bits[0 := true]
            && t'.pcb == t.pcb[0 := Some(Pcb(thread, -1, 0, -1, false, 0, 0, 0))]
    ensures P.Exec(t, current, false, sameName, thread) == (t, -1)
  {
  }

  /** A thread that is no process is refused by all three calls, and nothing changes. */
  lemma StrangerRefused(m: Machine, th: Tid, opens: bool, sameName: bool, thread: Tid, id: int, code: int)
    requires Inv(m) && th !in m.phase
    ensures P.Exec(m.table, th, opens, sameName, thread) == (m.table, -1)
    ensures P.Join(m.table, th, id) == (m.table, Returned(-1))
    ensures ParentsLive(m.table) && P.Exit(m.table, th, code) == (m.table, Refused)
  {
    hide HistoryOk, ThreadsDistinct;
    InvParentsLive(m);
    assert !AllClear(m.table.bits) by { assert m.table.bits[0]; }
    StrangerNotFound(m, th);
  }

  lemma StrangerNotFound(m: Machine, th: Tid)
    requires Inv(m) && th !in m.phase
    ensures FindThread(m.table.pcb, th, 0) == -1
  {
    hide HistoryOk, ThreadsDistinct;
    forall i | 0 <= i < MAX_PROCESS
      ensures !Runs(m.table.pcb, i, th)
    {
      assert SlotOk(m, i);
    }
  }

  /** Join sleeps on a live child of the caller and answers -1 to anything else. */
  lemma JoinAnswers(m: Machine, th: Tid, id: int)
    requires Inv(m) && !m.halted && th in m.phase && m.phase[th] == User
    ensures Enabled(m, Join(th, id))
    ensures var i := FindThread(m.table.pcb, th, 0);
            P.Join(m.table, th, id).1
            == if 0 <= id < MAX_PROCESS && m.table.pcb[id].Some? && m.table.pcb[id].value.parentID == i
               then Blocked else Returned(-1)
  {
    hide HistoryOk, ThreadsDistinct;
    var i := SlotOfThread(m, th);
  }

  /** The process in slot i is gone with this exit code, its parent is told, and nothing else has changed. */
  ghost predicate Left(m: Machine, m': Machine, th: Tid, i: nat, code: int)
    requires Sized(m.table) && i < MAX_PROCESS && m.table.pcb[i].Some?
  {
    var q := m.table.pcb[i].value.parentID;
    && Sized(m'.table) && 0 <= q < MAX_PROCESS && m.table.pcb[q].Some? && m'.table.pcb[q].Some?
    && !m'.halted && m'.phase == m.phase - {th} && m'.exits == m.exits[th := code]
    && m'.table.pcb[i].None? && !m'.table.bits[i]
    && (forall j :: 0 <= j < MAX_PROCESS && j != i && j != q ==>
                      m'.table.pcb[j] == m.table.pcb[j] && m'.table.bits[j] == m.table.bits[j])
    && var p, p' := m.table.pcb[q].value, m'.table.pcb[q].value;
       && p'.thread == p.thread && p'.parentID == p.parentID && p'.isExit == p.isExit && p'.numwait == p.numwait - 1
       && (if p.joinID == i then p'.joinsem == p.joinsem + 1 && p'.joinExitcode == code && p'.joinID == -1
           else p'.joinsem == p.joinsem && p'.joinExitcode == p.joinExitcode && p'.joinID == p.joinID)
       && p'.exitsem == p.exitsem + if p.isExit && p.numwait == 1 then 1 else 0
  }

  /** Exit waits exactly while there are children; without any, the root halts the machine and any other leaves. */
  lemma ExitDecides(m: Machine, th: Tid, code: int)
    requires Inv(m) && !m.halted && th in m.phase && m.phase[th] == User
    ensures Enabled(m, Exit(th, code))
    ensures var i := FindThread(m.table.pcb, th, 0);
            var m' := Next(m, Exit(th, code));
            && 0 <= i < MAX_PROCESS && m.table.pcb[i].Some?
            && (if Children(m.table.pcb, i) != {} then
                  m'.phase == m.phase[th := Exiting(code)] && !m'.halted && m'.exits == m.exits
                else if i == 0 then
                  m'.halted
                else
                  Left(m, m', th, i, code))
  {
    hide HistoryOk, ThreadsDistinct;
    var i := SlotOfThread(m, th);
    NoParentOfItself(m, i);
  }

  /** An Exit whose last child has gone does the same. */
  lemma ExitWakesDecides(m: Machine, th: Tid)
    requires Inv(m) && Enabled(m, ExitWakes(th))
    ensures var i := FindThread(m.table.pcb, th, 0);
            var m' := Next(m, ExitWakes(th));
            && 0 <= i < MAX_PROCESS && m.table.pcb[i].Some? && Children(m.table.pcb, i) == {}
            && (if i == 0 then m'.halted else Left(m, m', th, i, m.phase[th].code))
  {
    hide HistoryOk, ThreadsDistinct;
    var i := SlotOfThread(m, th);
    NoParentOfItself(m, i);
  }

  lemma NoParentOfItself(m: Machine, i: nat)
    requires Inv(m) && i < MAX_PROCESS && m.table.pcb[i].Some?
    ensures m.table.pcb[i].value.parentID != i
    ensures i != 0 ==> var q := m.table.pcb[i].value.parentID; 0 <= q < MAX_PROCESS && m.table.pcb[q].Some?
  {
    assert SlotOk(m, i);
  }

  // Waiting.

  /** i sleeps, unsignalled, on child j. */
  ghost predicate WaitsFor(m: Machine, i: nat, j: nat)
    requires Sized(m.table)
  {
    && i < MAX_PROCESS && j < MAX_PROCESS && m.table.pcb[i].Some? && m.table.pcb[j].Some?
    && m.table.pcb[j].value.parentID == i
    && m.table.pcb[i].value.thread in m.phase
    && var p := m.table.pcb[i].value;
       match m.phase[p.thread]
       case User => false
       case Joining(id, _) => p.joinsem == 0 && id == j
       case Exiting(_) => p.exitsem == 0
  }

  /** In every reachable state a sleeping process waits on a live child or has its signal already. */
  lemma SleeperHasReason(ms: seq<Machine>, ss: seq<Step>, n: nat, i: nat)
    requires Run(ms, ss) && n <= |ss| && i < MAX_PROCESS
    ensures Sized(ms[n].table)
    ensures ms[n].table.pcb[i].Some? ==>
              var p := ms[n].table.pcb[i].value;
              && p.thread in ms[n].phase
              && (ms[n].phase[p.thread] != User ==> p.joinsem + p.exitsem == 1 || exists j :: WaitsFor(ms[n], i, j))
  {
    RunInv(ms, ss, n);
    var m := ms[n];
    if m.table.pcb[i].Some? {
      assert SlotOk(m, i);
      var p := m.table.pcb[i].value;
      match m.phase[p.thread]
      case User =>
      case Joining(id, child) =>
        assert p.joinsem == 0 ==> WaitsFor(m, i, id);
      case Exiting(_) =>
        if p.exitsem == 0 {
          var j :| j in Children(m.table.pcb, i);
          assert WaitsFor(m, i, j);
        }
    }
  }

  lemma WaitsForYounger(m: Machine, i: nat, j: nat)
    requires Inv(m) && WaitsFor(m, i, j)
    ensures m.table.pcb[i].value.thread < m.table.pcb[j].value.thread
  {
    assert SlotOk(m, j);
    assert SlotOk(m, i);
  }

  ghost predicate WaitPath(m: Machine, path: seq<nat>)
    requires Sized(m.table)
  {
    |path| > 0 && forall k :: 0 <= k < |path| - 1 ==> WaitsFor(m, path[k], path[k + 1])
  }

  lemma {:induction false} PathAges(m: Machine, path: seq<nat>)
    requires Inv(m) && WaitPath(m, path) && |path| > 1
    ensures path[0] < MAX_PROCESS && m.table.pcb[path[0]].Some?
    ensures var last := path[|path| - 1];
            last < MAX_PROCESS && m.table.pcb[last].Some?
            && m.table.pcb[path[0]].value.thread < m.table.pcb[last].value.thread
  {
    hide SlotOk, HistoryOk, ThreadsDistinct;
    assert WaitsFor(m, path[0], path[1]);
    WaitsForYounger(m, path[0], path[1]);
    if |path| > 2 {
      var rest := path[1..];
      forall k | 0 <= k < |rest| - 1
        ensures WaitsFor(m, rest[k], rest[k + 1])
      {
        assert WaitsFor(m, path[k + 1], path[k + 1 + 1]);
      }
      PathAges(m, rest);
    }
  }

  /** The wait-for relation never has a cycle. */
  lemma WaitsForAcyclic(m: Machine, path: seq<nat>)
    requires Inv(m) && WaitPath(m, path) && |path| > 1
    ensures path[0] != path[|path| - 1]
  {
    hide Inv;
    PathAges(m, path);
  }

  /** The slot at or below n whose thread is the newest. */
  ghost function Newest(pcb: seq<Option<Pcb>>, n: nat): (r: nat)
    requires n < |pcb| && pcb[0].Some?
    ensures r <= n && pcb[r].Some?
    ensures forall i :: 0 <= i <= n && pcb[i].Some? ==> pcb[i].value.thread <= pcb[r].value.thread
  {
    if n == 0 then 0
    else
      var r := Newest(pcb, n - 1);
      if pcb[n].Some? && pcb[n].value.thread > pcb[r].value.thread then n else r
  }

  /** No deadlock: until the root exits, some process can always take a step. */
  lemma NoDeadlock(m: Machine) returns (s: Step)
    requires Inv(m) && !m.halted
    ensures Enabled(m, s)
  {
    hide HistoryOk;
    var i := Newest(m.table.pcb, MAX_PROCESS - 1);
    var p := m.table.pcb[i].value;
    assert SlotOk(m, i);
    ChildlessNewest(m, i);
    SlotIsFound(m, i);
    match m.phase[p.thread]
    case User => s := Exit(p.thread, 0);
    case Joining(_, _) => s := JoinWakes(p.thread);
    case Exiting(_) => s := ExitWakes(p.thread);
  }

  lemma SlotIsFound(m: Machine, i: nat)
    requires Inv(m) && i < MAX_PROCESS && m.table.pcb[i].Some?
    ensures FindThread(m.table.pcb, m.table.pcb[i].value.thread, 0) == i
  {
    hide SlotOk, HistoryOk;
    assert Runs(m.table.pcb, i, m.table.pcb[i].value.thread);
  }

  lemma ChildlessNewest(m: Machine, i: nat)
    requires Inv(m) && i == Newest(m.table.pcb, MAX_PROCESS - 1)
    ensures Children(m.table.pcb, i) == {}
    ensures forall id, child :: !LiveChild(m.table.pcb, i, id, child)
  {
    hide HistoryOk, ThreadsDistinct;
    forall j | 0 <= j < MAX_PROCESS && m.table.pcb[j].Some?
      ensures m.table.pcb[j].value.parentID != i
    {
      assert SlotOk(m, j);
      assert m.table.pcb[j].value.thread <= m.table.pcb[i].value.thread;
    }
  }
}
