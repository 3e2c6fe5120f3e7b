/** Threads, the ready list and Mesa-style semaphores on one processor. Each step is a stretch that runs with
    interrupts off; between steps any thread may be preempted and any device may signal. */
module Semaphores {
  import opened Options

  type Tid = nat

  /** A semaphore with its history: its initial value and the completed Ps and Vs. */
  datatype Sem = Sem(initial: nat, value: nat, queue: seq<Tid>, ps: nat, vs: nat)

  /** Whether a thread runs freely or is inside the loop of P on semaphore s. */
  datatype Pc = User | InP(s: nat)

  /** `running` is None while the processor idles; `dispatched` lists the threads taken off the ready list, in order. */
  datatype Kernel = Kernel(sems: seq<Sem>, ready: seq<Tid>, running: Option<Tid>, pc: map<Tid, Pc>, next: Tid,
                           dispatched: seq<Tid>)

  /** A machine whose only thread is running. */
  function Start(): Kernel {
    Kernel([], [], Some(0), map[0 := User], 1, [])
  }

  // The source's operations.

  /** Sleep and Idle: the head of the ready list runs next, if there is one. */
  function Dispatch(k: Kernel): Kernel
    requires k.running.None?
  {
    if k.ready == [] then k
    else k.(ready := k.ready[1..], running := Some(k.ready[0]), dispatched := k.dispatched + [k.ready[0]])
  }

  /** One turn of the loop in P by the running thread t: sleep at zero, otherwise take a unit and return. */
  function TryP(k: Kernel, t: Tid, s: nat): Kernel
    requires s < |k.sems|
  {
    var sem := k.sems[s];
    if sem.value == 0 then
      Dispatch(k.(sems := k.sems[s := sem.(queue := sem.queue + [t])], pc := k.pc[t := InP(s)], running := None))
    else
      k.(sems := k.sems[s := sem.(value := sem.value - 1, ps := sem.ps + 1)], pc := k.pc[t := User])
  }

  /** V wakes the first waiter, if any, and adds a unit. */
  function V(k: Kernel, s: nat): Kernel
    requires s < |k.sems|
  {
    var sem := k.sems[s];
    if sem.queue == [] then
      k.(sems := k.sems[s := sem.(value := sem.value + 1, vs := sem.vs + 1)])
    else
      k.(sems := k.sems[s := sem.(queue := sem.queue[1..], value := sem.value + 1, vs := sem.vs + 1)],
         ready := k.ready + [sem.queue[0]])
  }

  /** Yield gives way to the head of the ready list and queues the caller behind the rest. */
  function Yield(k: Kernel, t: Tid): Kernel {
    if k.ready == [] then k
    else k.(ready := k.ready[1..] + [t], running := Some(k.ready[0]), dispatched := k.dispatched + [k.ready[0]])
  }

  function Fork(k: Kernel): Kernel {
    k.(ready := k.ready + [k.next], pc := k.pc[k.next := User], next := k.next + 1)
  }

  function Finish(k: Kernel, t: Tid): Kernel {
    Dispatch(k.(pc := k.pc - {t}, running := None))
  }

  datatype Step =
    | BeginP(s: nat)        // the running thread calls P
    | RetryP                // a woken thread, dispatched inside P, tests the value again
    | SignalV(s: nat)       // the running thread or a device handler calls V
    | YieldCpu              // the running thread yields, by itself or on a timer interrupt
    | ForkThread
    | FinishThread
    | IdleDispatch          // the idle processor finds a ready thread
    | NewSem(initial: nat)

  /** Interrupts are on: nobody is inside P. */
  predicate Preemptible(k: Kernel) {
    k.running.Some? ==> k.running.value in k.pc && k.pc[k.running.value] == User
  }

  predicate Enabled(k: Kernel, step: Step) {
    match step
    case BeginP(s) => k.running.Some? && Preemptible(k) && s < |k.sems|
    case RetryP => k.running.Some? && k.running.value in k.pc && k.pc[k.running.value].InP?
        && k.pc[k.running.value].s < |k.sems|
    case SignalV(s) => Preemptible(k) && s < |k.sems|
    case YieldCpu => k.running.Some? && Preemptible(k)
    case ForkThread => k.running.Some? && Preemptible(k)
    case FinishThread => k.running.Some? && Preemptible(k)
    case IdleDispatch => k.running.None?
    case NewSem(_) => k.running.Some? && Preemptible(k)
  }

  function Next(k: Kernel, step: Step): Kernel
    requires Enabled(k, step)
  {
    match step
    case BeginP(s) => TryP(k, k.running.value, s)
    case RetryP => TryP(k, k.running.value, k.pc[k.running.value].s)
    case SignalV(s) => V(k, s)
    case YieldCpu => Yield(k, k.running.value)
    case ForkThread => Fork(k)
    case FinishThread => Finish(k, k.running.value)
    case IdleDispatch => Dispatch(k)
    case NewSem(initial) => k.(sems := k.sems + [Sem(initial, initial, [], 0, 0)])
  }

  // The invariant.

  function Queued(sems: seq<Sem>): multiset<Tid> {
    if sems == [] then multiset{} else Queued(sems[..|sems| - 1]) + multiset(sems[|sems| - 1].queue)
  }

  function Running(k: Kernel): multiset<Tid> {
    if k.running.Some? then multiset{k.running.value} else multiset{}
  }

  /** Every place a thread can be, with multiplicity. */
  function Places(k: Kernel): multiset<Tid> {
    Running(k) + multiset(k.ready) + Queued(k.sems)
  }

  /** The threads inside P on s that are no longer on its queue: woken, but not run again yet. */
  ghost function Woken(k: Kernel, s: nat): set<Tid>
    requires s < |k.sems|
  {
    set t | t in k.pc && k.pc[t] == InP(s) && t !in k.sems[s].queue
  }

  ghost predicate SemOk(k: Kernel, s: nat)
    requires s < |k.sems|
  {
    && k.sems[s].value == k.sems[s].initial + k.sems[s].vs - k.sems[s].ps
    && (forall t :: t in k.sems[s].queue ==> t in k.pc && k.pc[t] == InP(s))
    && (k.sems[s].queue != [] ==> k.sems[s].value <= |Woken(k, s)|)
  }

  ghost predicate Inv(k: Kernel) {
    && Places(k) == multiset(k.pc.Keys)
    && (forall t :: t in k.pc ==> t < k.next && (k.pc[t].InP? ==> k.pc[t].s < |k.sems|))
    && (forall s :: 0 <= s < |k.sems| ==> SemOk(k, s))
  }

  // Queues as a multiset.

  lemma {:induction false} QueuedUpdate(sems: seq<Sem>, s: nat, sem: Sem)
    requires s < |sems|
    ensures multiset(sems[s].queue) <= Queued(sems)
    ensures Queued(sems[s := sem]) == Queued(sems) - multiset(sems[s].queue) + multiset(sem.queue)
  {
    hide Queued;
    var last := |sems| - 1;
    var sems' := sems[s := sem];
    QueuedLast(sems);
    QueuedLast(sems');
    if s == last {
      assert sems'[..last] == sems[..last];
    } else {
      QueuedUpdate(sems[..last], s, sem);
      assert sems'[..last] == sems[..last][s := sem];
    }
  }

  lemma QueuedLast(sems: seq<Sem>)
    requires sems != []
    ensures Queued(sems) == Queued(sems[..|sems| - 1]) + multiset(sems[|sems| - 1].queue)
  {
  }

  lemma QueuedAppend(sems: seq<Sem>, sem: Sem)
    ensures Queued(sems + [sem]) == Queued(sems) + multiset(sem.queue)
  {
    assert (sems + [sem])[..|sems|] == sems;
  }

  /** A thread is in one place only. */
  lemma OnePlace(k: Kernel, t: Tid)
    requires Inv(k)
    ensures Places(k)[t] <= 1
    ensures t in k.pc <==> t in Places(k)
  {
    hide SemOk, Places;
    assert multiset(k.pc.Keys)[t] <= 1;
  }

  lemma RunningNotQueued(k: Kernel, t: Tid, s: nat)
    requires Inv(k) && k.running == Some(t) && s < |k.sems|
    ensures t in k.pc && t !in k.sems[s].queue && t !in k.ready
  {
    hide SemOk, Queued;
    OnePlace(k, t);
    QueuedUpdate(k.sems, s, k.sems[s]);
    assert Places(k)[t] >= 1 + multiset(k.ready)[t] + multiset(k.sems[s].queue)[t];
  }

  lemma QueueHead(q: seq<Tid>)
    requires q != []
    ensures multiset(q) == multiset{q[0]} + multiset(q[1..])
  {
    assert q == [q[0]] + q[1..];
  }

  /** A semaphore that no step of P or V concerns stays right. */
  lemma SemStays(k: Kernel, k': Kernel, r: nat)
    requires r < |k.sems| && r < |k'.sems| && SemOk(k, r) && k'.sems[r] == k.sems[r]
    requires forall t :: (t in k'.pc && k'.pc[t] == InP(r)) <==> (t in k.pc && k.pc[t] == InP(r))
    ensures SemOk(k', r)
  {
    assert Woken(k', r) == Woken(k, r);
  }

  lemma SetPlus(keys: set<Tid>, t: Tid)
    requires t !in keys
    ensures multiset(keys + {t}) == multiset(keys) + multiset{t}
  {
  }

  lemma SetMinus(keys: set<Tid>, t: Tid)
    requires t in keys
    ensures multiset(keys - {t}) == multiset(keys) - multiset{t}
  {
  }

  lemma DispatchKeeps(k: Kernel)
    requires Inv(k) && k.running.None?
    ensures Inv(Dispatch(k))
  {
    hide Queued, SemOk;
    if k.ready != [] {
      QueueHead(k.ready);
      forall s | 0 <= s < |k.sems|
        ensures SemOk(Dispatch(k), s)
      {
        SemStays(k, Dispatch(k), s);
      }
    }
  }

  /** The state of a thread that has just queued itself in P. */
  function Asleep(k: Kernel, t: Tid, s: nat): Kernel
    requires s < |k.sems|
  {
    k.(sems := k.sems[s := k.sems[s].(queue := k.sems[s].queue + [t])], pc := k.pc[t := InP(s)], running := None)
  }

  lemma SleepKeepsSem(k: Kernel, t: Tid, s: nat, r: nat)
    requires Inv(k) && k.running == Some(t) && s < |k.sems| && k.sems[s].value == 0 && r < |k.sems|
    requires t in k.pc && (k.pc[t] == User || k.pc[t] == InP(s))
    ensures SemOk(Asleep(k, t, s), r)
  {
    hide Places;
    assert SemOk(k, r);
    RunningNotQueued(k, t, r);
    if r != s {
      SemStays(k, Asleep(k, t, s), r);
    }
  }

  lemma SleepKeeps(k: Kernel, t: Tid, s: nat)
    requires Inv(k) && k.running == Some(t) && s < |k.sems| && k.sems[s].value == 0
    requires t in k.pc && (k.pc[t] == User || k.pc[t] == InP(s))
    ensures Inv(Asleep(k, t, s))
  {
    hide Queued, SemOk;
    var k' := Asleep(k, t, s);
    QueuedUpdate(k.sems, s, k'.sems[s]);
    assert k'.pc.Keys == k.pc.Keys;
    forall r | 0 <= r < |k.sems|
      ensures SemOk(k', r)
    {
      SleepKeepsSem(k, t, s, r);
    }
  }

  lemma TakeKeepsSem(k: Kernel, t: Tid, s: nat, r: nat)
    requires Inv(k) && k.running == Some(t) && s < |k.sems| && k.sems[s].value > 0 && r < |k.sems|
    requires t in k.pc && (k.pc[t] == User || k.pc[t] == InP(s))
    ensures SemOk(TryP(k, t, s), r)
  {
    hide Places;
    var k' := TryP(k, t, s);
    assert SemOk(k, r);
    RunningNotQueued(k, t, r);
    if r != s {
      SemStays(k, k', r);
    } else {
      assert Woken(k', r) == Woken(k, r) - {t};
    }
  }

  lemma TakeKeeps(k: Kernel, t: Tid, s: nat)
    requires Inv(k) && k.running == Some(t) && s < |k.sems| && k.sems[s].value > 0
    requires t in k.pc && (k.pc[t] == User || k.pc[t] == InP(s))
    ensures Inv(TryP(k, t, s))
  {
    hide Queued, SemOk;
    var k' := TryP(k, t, s);
    QueuedUpdate(k.sems, s, k'.sems[s]);
    assert k'.pc.Keys == k.pc.Keys;
    forall r | 0 <= r < |k.sems|
      ensures SemOk(k', r)
    {
      TakeKeepsSem(k, t, s, r);
    }
  }

  lemma PKeeps(k: Kernel, t: Tid, s: nat)
    requires Inv(k) && k.running == Some(t) && s < |k.sems|
    requires t in k.pc && (k.pc[t] == User || k.pc[t] == InP(s))
    ensures Inv(TryP(k, t, s))
  {
    hide Inv;
    if k.sems[s].value == 0 {
      SleepKeeps(k, t, s);
      DispatchKeeps(Asleep(k, t, s));
    } else {
      TakeKeeps(k, t, s);
    }
  }

  /** Waking the head of a queue adds exactly one woken waiter. */
  lemma WakesOne(k: Kernel, s: nat)
    requires Inv(k) && s < |k.sems| && k.sems[s].queue != []
    ensures |Woken(V(k, s), s)| == |Woken(k, s)| + 1
    ensures forall t :: t in k.sems[s].queue[1..] ==> t in k.sems[s].queue
  {
    hide Queued;
    var q := k.sems[s].queue;
    var t := q[0];
    assert SemOk(k, s);
    OnePlace(k, t);
    QueuedUpdate(k.sems, s, k.sems[s]);
    QueueHead(q);
    assert multiset(q)[t] == 1 + multiset(q[1..])[t];
    assert t !in q[1..] by {
      assert Places(k)[t] >= multiset(q)[t];
    }
    assert q == [t] + q[1..];
    assert Woken(V(k, s), s) == Woken(k, s) + {t};
  }

  lemma VKeepsSem(k: Kernel, s: nat, r: nat)
    requires Inv(k) && s < |k.sems| && r < |k.sems|
    ensures SemOk(V(k, s), r)
  {
    hide Places;
    assert SemOk(k, r);
    if r != s {
      SemStays(k, V(k, s), r);
    } else if k.sems[s].queue != [] {
      WakesOne(k, s);
    }
  }

  lemma VPlaces(k: Kernel, s: nat)
    requires s < |k.sems|
    ensures Places(V(k, s)) == Places(k)
  {
    hide Queued;
    var q := k.sems[s].queue;
    QueuedUpdate(k.sems, s, V(k, s).sems[s]);
    if q != [] {
      QueueHead(q);
      assert multiset(k.ready + [q[0]]) == multiset(k.ready) + multiset{q[0]};
    }
  }

  lemma VKeeps(k: Kernel, s: nat)
    requires Inv(k) && s < |k.sems|
    ensures Inv(V(k, s))
  {
    hide Places, SemOk;
    var k' := V(k, s);
    VPlaces(k, s);
    forall r | 0 <= r < |k.sems|
      ensures SemOk(k', r)
    {
      VKeepsSem(k, s, r);
    }
  }

  lemma YieldKeeps(k: Kernel, t: Tid)
    requires Inv(k) && k.running == Some(t)
    ensures Inv(Yield(k, t))
  {
    hide Queued, SemOk;
    if k.ready != [] {
      QueueHead(k.ready);
      forall s | 0 <= s < |k.sems|
        ensures SemOk(Yield(k, t), s)
      {
        SemStays(k, Yield(k, t), s);
      }
    }
  }

  lemma ForkPlaces(k: Kernel)
    ensures Places(Fork(k)) == Places(k) + multiset{k.next}
  {
    hide Queued;
    assert multiset(k.ready + [k.next]) == multiset(k.ready) + multiset{k.next};
  }

  lemma ForkKeeps(k: Kernel)
    requires Inv(k)
    ensures Inv(Fork(k))
  {
    hide Places, SemOk;
    var k' := Fork(k);
    assert k'.pc.Keys == k.pc.Keys + {k.next};
    ForkPlaces(k);
    SetPlus(k.pc.Keys, k.next);
    forall s | 0 <= s < |k.sems|
      ensures SemOk(k', s)
    {
      SemStays(k, k', s);
    }
  }

  lemma FinishKeeps(k: Kernel, t: Tid)
    requires Inv(k) && k.running == Some(t) && t in k.pc && k.pc[t] == User
    ensures Inv(Finish(k, t))
  {
    hide Queued, SemOk;
    var k' := k.(pc := k.pc - {t}, running := None);
    assert k'.pc.Keys == k.pc.Keys - {t};
    SetMinus(k.pc.Keys, t);
    forall s | 0 <= s < |k.sems|
      ensures SemOk(k', s)
    {
      SemStays(k, k', s);
    }
    DispatchKeeps(k');
  }

  lemma NewSemKeeps(k: Kernel, initial: nat)
    requires Inv(k)
    ensures Inv(k.(sems := k.sems + [Sem(initial, initial, [], 0, 0)]))
  {
    hide Queued, SemOk;
    var sem := Sem(initial, initial, [], 0, 0);
    var k' := k.(sems := k.sems + [sem]);
    QueuedAppend(k.sems, sem);
    NewSemOk(k', |k.sems|);
    forall s | 0 <= s < |k.sems|
      ensures SemOk(k', s)
    {
      SemStays(k, k', s);
    }
  }

  lemma NewSemOk(k: Kernel, s: nat)
    requires s < |k.sems| && k.sems[s] == Sem(k.sems[s].initial, k.sems[s].initial, [], 0, 0)
    ensures SemOk(k, s)
  {
  }

  /** Every step keeps the invariant. */
  lemma StepKeeps(k: Kernel, step: Step)
    requires Inv(k) && Enabled(k, step)
    ensures Inv(Next(k, step))
  {
    hide Queued, SemOk;
    if k.running.Some? {
      OnePlace(k, k.running.value);
    }
    match step
    case BeginP(s) => PKeeps(k, k.running.value, s);
    case RetryP => PKeeps(k, k.running.value, k.pc[k.running.value].s);
    case SignalV(s) => VKeeps(k, s);
    case YieldCpu => YieldKeeps(k, k.running.value);
    case ForkThread => ForkKeeps(k);
    case FinishThread => FinishKeeps(k, k.running.value);
    case IdleDispatch => DispatchKeeps(k);
    case NewSem(initial) => NewSemKeeps(k, initial);
  }

  // Runs.

  ghost predicate Run(ks: seq<Kernel>, steps: seq<Step>) {
    && |ks| == |steps| + 1 && ks[0] == Start()
    && (forall i :: 0 <= i < |steps| ==> Enabled(ks[i], steps[i]) && ks[i + 1] == Next(ks[i], steps[i]))
  }

  /** The invariant holds throughout every interleaving of any number of threads and semaphores. */
  lemma {:induction false} RunInv(ks: seq<Kernel>, steps: seq<Step>, n: nat)
    requires Run(ks, steps) && n <= |steps|
    ensures Inv(ks[n])
  {
    hide Next, Enabled;
    if n > 0 {
      RunInv(ks, steps, n - 1);
      StepKeeps(ks[n - 1], steps[n - 1]);
    }
  }

  /** A semaphore's value is its initial value plus completed Vs minus completed Ps, and a unit is never left
      lying while a thread sleeps: some woken waiter is still on its way to take it. */
  lemma NoLostWakeup(ks: seq<Kernel>, steps: seq<Step>, n: nat, s: nat)
    requires Run(ks, steps) && n <= |steps| && s < |ks[n].sems|
    ensures var sem := ks[n].sems[s];
            && sem.value == sem.initial + sem.vs - sem.ps
            && (sem.queue != [] ==> sem.value <= |Woken(ks[n], s)|)
    ensures forall t :: t in Woken(ks[n], s) ==> ks[n].running == Some(t) || t in ks[n].ready
  {
    hide Next, Enabled, Queued;
    RunInv(ks, steps, n);
    var k := ks[n];
    assert SemOk(k, s);
    forall t | t in Woken(k, s)
      ensures k.running == Some(t) || t in k.ready
    {
      OnePlace(k, t);
      if !(k.running == Some(t) || t in k.ready) {
        QueuedMember(k.sems, t);
        var r :| 0 <= r < |k.sems| && t in k.sems[r].queue;
        QueuedIsInP(k, r, t);
        assert false;
      }
    }
  }

  lemma QueuedIsInP(k: Kernel, r: nat, t: Tid)
    requires Inv(k) && r < |k.sems| && t in k.sems[r].queue
    ensures t in k.pc && k.pc[t] == InP(r)
  {
    assert SemOk(k, r);
  }

  lemma {:induction false} QueuedMember(sems: seq<Sem>, t: Tid)
    requires t in Queued(sems)
    ensures exists r :: 0 <= r < |sems| && t in sems[r].queue
  {
    var last := |sems| - 1;
    if t in multiset(sems[last].queue) {
      assert t in sems[last].queue;
    } else {
      QueuedMember(sems[..last], t);
      var r :| 0 <= r < last && t in sems[..last][r].queue;
      assert t in sems[r].queue;
    }
  }

  /** In every reachable state each live thread is in exactly one place. */
  lemma ThreadsInOnePlace(ks: seq<Kernel>, steps: seq<Step>, n: nat, t: Tid)
    requires Run(ks, steps) && n <= |steps|
    ensures Places(ks[n])[t] == if t in ks[n].pc then 1 else 0
  {
    hide Next, Enabled, Places;
    RunInv(ks, steps, n);
  }

  // Fairness of the ready list.

  /** The threads dispatched so far, followed by those that will be next. */
  function Order(k: Kernel): seq<Tid> {
    k.dispatched + k.ready
  }

  lemma DispatchOrder(k: Kernel)
    requires k.running.None?
    ensures Order(Dispatch(k)) == Order(k)
  {
    if k.ready != [] {
      assert k.ready == [k.ready[0]] + k.ready[1..];
    }
  }

  /** No step overtakes: the order only grows at its end. */
  lemma StepOrder(k: Kernel, step: Step)
    requires Enabled(k, step)
    ensures Order(k) <= Order(Next(k, step))
    ensures k.dispatched <= Next(k, step).dispatched
  {
    match step
    case BeginP(s) => POrder(k, k.running.value, s);
    case RetryP => POrder(k, k.running.value, k.pc[k.running.value].s);
    case YieldCpu =>
      if k.ready != [] {
        assert k.ready == [k.ready[0]] + k.ready[1..];
      }
    case FinishThread => DispatchOrder(k.(pc := k.pc - {k.running.value}, running := None));
    case IdleDispatch => DispatchOrder(k);
    case _ =>
  }

  lemma POrder(k: Kernel, t: Tid, s: nat)
    requires s < |k.sems|
    ensures Order(TryP(k, t, s)) == Order(k) && k.dispatched <= TryP(k, t, s).dispatched
  {
    if k.sems[s].value == 0 {
      DispatchOrder(Asleep(k, t, s));
    }
  }

  lemma {:induction false} RunOrder(ks: seq<Kernel>, steps: seq<Step>, m: nat, n: nat)
    requires Run(ks, steps) && m <= n <= |steps|
    ensures Order(ks[m]) <= Order(ks[n]) && ks[m].dispatched <= ks[n].dispatched
  {
    hide Next, Enabled, Order;
    if m < n {
      RunOrder(ks, steps, m, n - 1);
      StepOrder(ks[n - 1], steps[n - 1]);
    }
  }

  /** A ready thread with j others ahead of it is dispatched after exactly those j, in their order:
      until then it moves up one place with each dispatch. */
  lemma FirstComeFirstServed(ks: seq<Kernel>, steps: seq<Step>, m: nat, n: nat, j: nat)
    requires Run(ks, steps) && m <= n <= |steps| && j < |ks[m].ready|
    ensures ks[m].dispatched <= ks[n].dispatched
    ensures var d := |ks[n].dispatched| - |ks[m].dispatched|;
            if d <= j
            then j - d < |ks[n].ready| && ks[n].ready[j - d] == ks[m].ready[j]
            else ks[n].dispatched[|ks[m].dispatched| + j] == ks[m].ready[j]
  {
    hide Next, Enabled;
    RunOrder(ks, steps, m, n);
    var at := |ks[m].dispatched| + j;
    assert Order(ks[m])[at] == ks[m].ready[j];
    assert Order(ks[n])[at] == ks[m].ready[j];
  }

  // Fairness of the wait queues.

  /** Per step, a queue grows at its end or, by a V on its semaphore, loses its head to the end of the ready list. */
  lemma StepQueue(k: Kernel, step: Step, s: nat)
    requires Enabled(k, step) && s < |k.sems|
    ensures var q, n := k.sems[s].queue, Next(k, step);
            && s < |n.sems|
            && (if step == SignalV(s) then
                  && n.sems[s].vs == k.sems[s].vs + 1
                  && (q != [] ==> n.sems[s].queue == q[1..] && n.ready == k.ready + [q[0]])
                else
                  n.sems[s].vs == k.sems[s].vs && q <= n.sems[s].queue)
  {
  }

  /** After d further Vs, the queue of a semaphore starts with what it held from position d on. */
  lemma {:induction false} RunQueue(ks: seq<Kernel>, steps: seq<Step>, m: nat, n: nat, s: nat)
    requires Run(ks, steps) && m <= n <= |steps| && s < |ks[m].sems|
    ensures s < |ks[n].sems| && ks[m].sems[s].vs <= ks[n].sems[s].vs
    ensures var d := ks[n].sems[s].vs - ks[m].sems[s].vs;
            d <= |ks[m].sems[s].queue| ==> ks[m].sems[s].queue[d..] <= ks[n].sems[s].queue
  {
    hide Next, Enabled;
    if m < n {
      var k := n - 1;
      RunQueue(ks, steps, m, k, s);
      assert ks[k + 1] == Next(ks[k], steps[k]);
      StepQueue(ks[k], steps[k], s);
      var d := ks[k].sems[s].vs - ks[m].sems[s].vs;
      var q := ks[m].sems[s].queue;
      if steps[k] == SignalV(s) && d < |q| {
        assert q[d..][1..] == q[d + 1..];
      }
    }
  }

  /** A waiter with j others ahead of it is made ready by exactly the V that follows j further Vs. */
  lemma WaitersFirstComeFirstServed(ks: seq<Kernel>, steps: seq<Step>, m: nat, n: nat, s: nat, j: nat)
    requires Run(ks, steps) && m <= n < |steps| && s < |ks[m].sems| && j < |ks[m].sems[s].queue|
    ensures s < |ks[n].sems|
    ensures var d := ks[n].sems[s].vs - ks[m].sems[s].vs;
            && (0 <= d <= j ==> j - d < |ks[n].sems[s].queue| && ks[n].sems[s].queue[j - d] == ks[m].sems[s].queue[j])
            && (d == j && steps[n] == SignalV(s) ==> ks[n + 1].ready == ks[n].ready + [ks[m].sems[s].queue[j]])
  {
    hide Next, Enabled;
    RunQueue(ks, steps, m, n, s);
    assert ks[n + 1] == Next(ks[n], steps[n]);
    StepQueue(ks[n], steps[n], s);
    var d := ks[n].sems[s].vs - ks[m].sems[s].vs;
    if d <= j {
      assert ks[m].sems[s].queue[d..][j - d] == ks[m].sems[s].queue[j];
    }
  }

  // What the calls do, as their callers see it.

  /** A machine starts with one thread, running, and no semaphore. */
  lemma StartIs()
    ensures Start().running == Some(0) && Start().pc == map[0 := User] && Start().ready == [] && Start().sems == []
  {
  }

  /** Which steps can be taken: a thread in user code may make any call, a woken one tests again, and an idle
      processor looks for a ready thread. A handler may signal unless P is running. */
  lemma WhatCanHappen(k: Kernel, s: nat, initial: nat)
    requires Inv(k)
    ensures k.running.Some? ==> k.running.value in k.pc
    ensures k.running.Some? && k.pc[k.running.value] == User ==>
              && (s < |k.sems| ==> Enabled(k, BeginP(s)) && Enabled(k, SignalV(s)))
              && Enabled(k, YieldCpu) && Enabled(k, ForkThread) && Enabled(k, FinishThread)
              && Enabled(k, NewSem(initial))
    ensures k.running.Some? && k.pc[k.running.value] != User ==> Enabled(k, RetryP)
    ensures k.running.None? ==> Enabled(k, IdleDispatch) && (s < |k.sems| ==> Enabled(k, SignalV(s)))
  {
    RunnerLives(k);
  }

  lemma RunnerLives(k: Kernel)
    requires Inv(k)
    ensures k.running.Some? ==> k.running.value in k.pc
  {
    if k.running.Some? {
      OnePlace(k, k.running.value);
      assert k.running.value in Running(k);
    }
  }

  /** The step is a turn of P on semaphore s by the running thread. */
  predicate TriesP(k: Kernel, step: Step, s: nat) {
    && k.running.Some?
    && (step == BeginP(s) || (step == RetryP && k.running.value in k.pc && k.pc[k.running.value] == InP(s)))
  }

  /** After the step thread t is still on the processor, in user code: its P has returned. */
  predicate Returns(k: Kernel, t: Tid) {
    k.running == Some(t) && t in k.pc && k.pc[t] == User
  }

  /** The step completes a P on semaphore s. */
  predicate CompletesP(k: Kernel, step: Step, s: nat) {
    Enabled(k, step) && TriesP(k, step, s) && Returns(Next(k, step), k.running.value)
  }

  /**
   * P returns exactly when the value is positive, and then takes one unit;
   * otherwise its caller sleeps at the end of the queue and leaves the value alone.
   */
  lemma PTakesUnit(k: Kernel, step: Step, s: nat)
    requires Inv(k) && Enabled(k, step) && TriesP(k, step, s)
    ensures s < |k.sems| && s < |Next(k, step).sems|
    ensures CompletesP(k, step, s) <==> k.sems[s].value > 0
    ensures k.sems[s].value > 0 ==>
              && Next(k, step).sems[s].value == k.sems[s].value - 1
              && Next(k, step).sems[s].queue == k.sems[s].queue && Next(k, step).ready == k.ready
    ensures k.sems[s].value == 0 ==>
              && Next(k, step).running != k.running && Next(k, step).pc[k.running.value] == InP(s)
              && Next(k, step).sems[s].value == 0
              && Next(k, step).sems[s].queue == k.sems[s].queue + [k.running.value]
  {
    RunningNotQueued(k, k.running.value, s);
  }

  /** No other step of a thread or a handler changes a semaphore's value, but for V, which adds a unit. */
  lemma OnlyPAndV(k: Kernel, step: Step, s: nat)
    requires Inv(k) && Enabled(k, step) && s < |k.sems|
    ensures s < |Next(k, step).sems|
    ensures Next(k, step).sems[s].value
            == k.sems[s].value + (if step == SignalV(s) then 1 else 0) - (if CompletesP(k, step, s) then 1 else 0)
  {
    if TriesP(k, step, s) {
      PTakesUnit(k, step, s);
    }
  }

  // The value over a run, counted on its steps alone.

  /** The initial values given to the semaphores created in the first n steps. */
  function Initials(steps: seq<Step>, n: nat): (r: seq<nat>)
    requires n <= |steps|
  {
    if n == 0 then []
    else Initials(steps, n - 1) + if steps[n - 1].NewSem? then [steps[n - 1].initial] else []
  }

  function VCount(steps: seq<Step>, s: nat, n: nat): (c: nat)
    requires n <= |steps|
  {
    if n == 0 then 0 else VCount(steps, s, n - 1) + if steps[n - 1] == SignalV(s) then 1 else 0
  }

  function PCount(ks: seq<Kernel>, steps: seq<Step>, s: nat, n: nat): (c: nat)
    requires n <= |steps| < |ks|
  {
    if n == 0 then 0 else PCount(ks, steps, s, n - 1) + if CompletesP(ks[n - 1], steps[n - 1], s) then 1 else 0
  }

  /** A semaphore that does not exist yet has been neither signalled nor taken. */
  lemma {:induction false} NotYetUsed(ks: seq<Kernel>, steps: seq<Step>, n: nat, s: nat)
    requires Run(ks, steps) && n <= |steps| && s >= |ks[n].sems|
    ensures VCount(steps, s, n) == 0 && PCount(ks, steps, s, n) == 0
  {
    if n > 0 {
      var k := n - 1;
      assert Enabled(ks[k], steps[k]) && ks[k + 1] == Next(ks[k], steps[k]);
      RunInv(ks, steps, k);
      SemsGrow(ks[k], steps[k]);
      NotYetUsed(ks, steps, k, s);
      if TriesP(ks[k], steps[k], s) {
        PTakesUnit(ks[k], steps[k], s);
      }
    }
  }

  lemma SemsGrow(k: Kernel, step: Step)
    requires Enabled(k, step)
    ensures |Next(k, step).sems| == |k.sems| + if step.NewSem? then 1 else 0
  {
  }

  /**
   * Over every run, the value of a semaphore is the initial value it was created
   * with, plus the Vs, minus the Ps that returned.
   */
  lemma {:induction false} ValueOverRun(ks: seq<Kernel>, steps: seq<Step>, n: nat, s: nat)
    requires Run(ks, steps) && n <= |steps|
    ensures |ks[n].sems| == |Initials(steps, n)|
    ensures s < |ks[n].sems| ==>
              ks[n].sems[s].value == Initials(steps, n)[s] + VCount(steps, s, n) - PCount(ks, steps, s, n)
  {
    if n > 0 {
      hide Inv, CompletesP;
      var k := n - 1;
      assert Enabled(ks[k], steps[k]) && ks[k + 1] == Next(ks[k], steps[k]);
      ValueOverRun(ks, steps, k, s);
      RunInv(ks, steps, k);
      SemsGrow(ks[k], steps[k]);
      if s < |ks[k].sems| {
        OnlyPAndV(ks[k], steps[k], s);
      } else if s < |ks[n].sems| {
        NotYetUsed(ks, steps, k, s);
        NewSemUnused(ks[k], steps[k], s);
      }
    }
  }

  lemma NewSemUnused(k: Kernel, step: Step, s: nat)
    requires Inv(k) && Enabled(k, step) && s == |k.sems| && step.NewSem?
    ensures Next(k, step).sems[s].value == step.initial && !CompletesP(k, step, s)
  {
  }

  // Yield, Fork and Finish.

  /** A thread that yields to L ready threads gives up the processor and runs again after exactly those L. */
  lemma YielderWaits(ks: seq<Kernel>, steps: seq<Step>, m: nat, n: nat)
    requires Run(ks, steps) && m < n <= |steps| && steps[m] == YieldCpu && ks[m].ready != []
    ensures ks[m].running.Some? && ks[m + 1].running == Some(ks[m].ready[0])
    ensures |ks[m].dispatched| < |ks[n].dispatched|
    ensures var L, d := |ks[m].ready|, |ks[n].dispatched| - |ks[m].dispatched|;
            var t := ks[m].running.value;
            if d <= L
            then L - d < |ks[n].ready| && ks[n].ready[L - d] == t
            else ks[n].dispatched[|ks[m].dispatched| + L] == t
  {
    assert Enabled(ks[m], steps[m]) && ks[m + 1] == Next(ks[m], steps[m]);
    FirstComeFirstServed(ks, steps, m + 1, n, |ks[m].ready| - 1);
  }

  /** A thread that yields with nobody ready goes on running. */
  lemma YieldAlone(k: Kernel)
    requires Enabled(k, YieldCpu) && k.ready == []
    ensures Next(k, YieldCpu) == k
  {
  }

  /** Fork puts a thread that never existed before behind all ready ones, and changes nothing else. */
  lemma ForkedIsLast(k: Kernel)
    requires Inv(k) && Enabled(k, ForkThread)
    ensures var n := Next(k, ForkThread);
            exists t :: && t !in k.pc && n.pc == k.pc[t := User] && n.ready == k.ready + [t]
                        && n.running == k.running && n.sems == k.sems && n.next > t
  {
    var n := Next(k, ForkThread);
    assert n.pc == k.pc[k.next := User];
  }

  /** A thread that finishes is gone for good, and the first ready thread takes its place. */
  lemma FinishedIsGone(k: Kernel)
    requires Inv(k) && Enabled(k, FinishThread)
    ensures var n := Next(k, FinishThread);
            && n.pc == k.pc - {k.running.value} && n.next == k.next && n.sems == k.sems
            && n.running == (if k.ready == [] then None else Some(k.ready[0]))
  {
  }

  /** An idle processor takes the first ready thread, if there is one. */
  lemma IdleTakesFirst(k: Kernel)
    requires Enabled(k, IdleDispatch)
    ensures var n := Next(k, IdleDispatch);
            n.running == (if k.ready == [] then None else Some(k.ready[0])) && n.sems == k.sems && n.pc == k.pc
  {
  }
}
