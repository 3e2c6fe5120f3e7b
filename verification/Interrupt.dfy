/**
 * The interrupt simulator (machine/interrupt.cc): a sorted list of pending
 * interrupts and a clock that moves only when interrupts are enabled, a user
 * instruction runs or the machine idles.
 *
 * What a handler does is a parameter: a function of the interrupts fired so
 * far that yields the requests it schedules and whether it asks for a yield.
 */
module Interrupts {
  import opened Lists

  const USER_TICK := 1
  const SYSTEM_TICK := 10

  datatype IntType = TimerInt | DiskInt | ConsoleWriteInt | ConsoleReadInt | NetworkSendInt | NetworkRecvInt
  datatype MachineStatus = IdleMode | SystemMode | UserMode
  datatype IntStatus = IntOff | IntOn

  datatype PendingInterrupt = PendingInterrupt(handler: int, arg: int, when: int, kind: IntType)
  type Queue = seq<Entry<PendingInterrupt>>

  /** A delay that `Schedule` accepts; it asserts that this is positive. */
  type Ticks = t: int | t > 0 witness 1
  datatype Request = Request(handler: int, arg: int, fromNow: Ticks, kind: IntType)
  datatype Fired = Fired(interrupt: PendingInterrupt, at: int)
  datatype Reaction = Reaction(requests: seq<Request>, switch: bool)
  type Handlers = seq<Fired> -> Reaction

  /**
   * The simulator's state. `fired` and `asked` are histories: the handlers
   * invoked so far, and everything ever passed to `Schedule`.
   */
  datatype Chip = Chip(
    pending: Queue, total: int, idle: int, system: int, user: int,
    level: IntStatus, status: MachineStatus, inHandler: bool, yieldOnReturn: bool, halted: bool,
    fired: seq<Fired>, asked: seq<PendingInterrupt>)

  // The operations on values

  function Occurrence(c: Chip, r: Request): (p: PendingInterrupt) {
    PendingInterrupt(r.handler, r.arg, c.total + r.fromNow, r.kind)
  }

  function Scheduled(c: Chip, r: Request): (d: Chip) {
    var p := Occurrence(c, r);
    c.(pending := Inserted(c.pending, Entry(p, p.when)), asked := c.asked + [p])
  }

  function ScheduledAll(c: Chip, rs: seq<Request>): (d: Chip)
    decreases |rs|
  {
    if rs == [] then c else ScheduledAll(Scheduled(c, rs[0]), rs[1..])
  }

  /** Runs the handler of `p` now. */
  function Handled(h: Handlers, c: Chip, p: PendingInterrupt): (d: Chip) {
    var log := c.fired + [Fired(p, c.total)];
    var reaction := h(log);
    ScheduledAll(c.(fired := log, yieldOnReturn := c.yieldOnReturn || reaction.switch), reaction.requests)
  }

  /** Only the time-slice timer is left and the machine is idle. */
  predicate OnlyTimer(c: Chip, e: Entry<PendingInterrupt>, rest: Queue) {
    c.status == IdleMode && e.item.kind == TimerInt && rest == []
  }

  /** Moves the idle clock to `when`. */
  function Advanced(c: Chip, when: int): (d: Chip) {
    c.(idle := c.idle + (when - c.total), total := when)
  }

  /** What happens to a due interrupt that was taken off the queue: put back, or fired. */
  function TakenOff(h: Handlers, c: Chip, e: Entry<PendingInterrupt>): (r: (Chip, bool)) {
    if OnlyTimer(c, e, c.pending) then
      (c.(pending := Inserted(c.pending, e)), false)
    else
      (Handled(h, c, e.item), true)
  }

  function Checked(h: Handlers, c: Chip, advanceClock: bool): (r: (Chip, bool)) {
    if c.pending == [] then
      (c, false)
    else
      var e, rest := c.pending[0], c.pending[1..];
      var put := Inserted(rest, e);
      if e.key > c.total && !advanceClock then
        (c.(pending := put), false)
      else
        var d := if e.key > c.total then Advanced(c, e.key) else c;
        TakenOff(h, d.(pending := rest), e)
  }

  /** How many entries of a queue are due at time `t`. */
  function Due(q: Queue, t: int): (n: nat)
    ensures n <= |q|
  {
    if q == [] then 0 else (if q[0].key <= t then 1 else 0) + Due(q[1..], t)
  }

  /** The loop that fires handlers until nothing is due. */
  function AllFired(h: Handlers, c: Chip): (d: Chip)
    decreases Due(c.pending, c.total)
  {
    CheckLowersDue(h, c);
    var (d, fired) := Checked(h, c, false);
    if fired then AllFired(h, d) else d
  }

  /** One tick of the clock, charged to system or to user time. */
  function ClockTicked(c: Chip): (d: Chip) {
    if c.status == SystemMode then
      c.(total := c.total + SYSTEM_TICK, system := c.system + SYSTEM_TICK)
    else
      c.(total := c.total + USER_TICK, user := c.user + USER_TICK)
  }

  /** `OneTick` up to its optional yield; the flag says that the current thread yields. */
  function Ticked(h: Handlers, c: Chip): (r: (Chip, bool)) {
    var d := AllFired(h, ClockTicked(c).(level := IntOff)).(level := IntOn);
    (d.(yieldOnReturn := false), d.yieldOnReturn)
  }

  function LevelSet(h: Handlers, c: Chip, now: IntStatus): (r: (Chip, bool)) {
    var d := c.(level := now);
    if now == IntOn && c.level == IntOff then Ticked(h, d) else (d, false)
  }

  function Idled(h: Handlers, c: Chip): (d: Chip) {
    var (d, fired) := Checked(h, c.(status := IdleMode), true);
    if fired then
      AllFired(h, d).(yieldOnReturn := false, status := SystemMode)
    else
      d.(halted := true)
  }

  // Scheduling

  /** Everything but the queue and the list of requests is untouched by scheduling. */
  predicate SameButQueue(c: Chip, d: Chip) {
    d == c.(pending := d.pending, asked := d.asked)
  }

  lemma {:induction false} DueOfInserted(q: Queue, e: Entry<PendingInterrupt>, t: int)
    ensures Due(Inserted(q, e), t) == Due(q, t) + if e.key <= t then 1 else 0
  {
    if q != [] && q[0].key <= e.key {
      DueOfInserted(q[1..], e, t);
      assert ([q[0]] + Inserted(q[1..], e))[1..] == Inserted(q[1..], e);
    } else {
      assert ([e] + q)[1..] == q;
    }
  }

  /** A request is never due at once, so handlers do not add to what is due. */
  lemma {:induction false} ScheduleAllDue(c: Chip, rs: seq<Request>)
    ensures SameButQueue(c, ScheduledAll(c, rs))
    ensures Due(ScheduledAll(c, rs).pending, c.total) == Due(c.pending, c.total)
    decreases |rs|
  {
    if rs != [] {
      var p := Occurrence(c, rs[0]);
      DueOfInserted(c.pending, Entry(p, p.when), c.total);
      ScheduleAllDue(Scheduled(c, rs[0]), rs[1..]);
    }
  }

  /** Each handler that fires lowers the number of due interrupts: the loop terminates. */
  lemma CheckLowersDue(h: Handlers, c: Chip)
    ensures Checked(h, c, false).1
            ==> Due(Checked(h, c, false).0.pending, Checked(h, c, false).0.total)
                < Due(c.pending, c.total)
  {
    if Checked(h, c, false).1 {
      var log := c.fired + [Fired(c.pending[0].item, c.total)];
      var d := c.(pending := c.pending[1..], fired := log,
                  yieldOnReturn := c.yieldOnReturn || h(log).switch);
      ScheduleAllDue(d, h(log).requests);
    }
  }

  // What every operation keeps

  function Items(q: Queue): (s: seq<PendingInterrupt>)
    ensures |s| == |q|
  {
    seq(|q|, i requires 0 <= i < |q| => q[i].item)
  }

  function FiredItems(log: seq<Fired>): (s: seq<PendingInterrupt>)
    ensures |s| == |log|
  {
    seq(|log|, i requires 0 <= i < |log| => log[i].interrupt)
  }

  /** The queue is sorted by time and keyed by its interrupts' times. */
  ghost predicate QueueOk(q: Queue) {
    Sorted(q) && forall e :: e in q ==> e.key == e.item.when
  }

  /** No handler ran before its time, nor more than one system tick after it, and in clock order. */
  ghost predicate LogOk(log: seq<Fired>, now: int) {
    && (forall f :: f in log ==> f.interrupt.when <= f.at <= f.interrupt.when + SYSTEM_TICK && f.at <= now)
    && (forall i, j :: 0 <= i < j < |log| ==> log[i].at <= log[j].at)
  }

  /** Every scheduled interrupt is pending or has fired, exactly once. */
  ghost predicate Conserved(c: Chip) {
    multiset(c.asked) == multiset(Items(c.pending)) + multiset(FiredItems(c.fired))
  }

  /** What holds inside the firing loops, with nothing later than `slack` ticks. */
  ghost predicate Ok(c: Chip, slack: nat) {
    && QueueOk(c.pending)
    && c.total == c.idle + c.system + c.user
    && LogOk(c.fired, c.total)
    && Conserved(c)
    && slack <= SYSTEM_TICK
    && (forall e :: e in c.pending ==> c.total <= e.key + slack)
  }

  /** The state between two operations: no pending interrupt lies in the past. */
  ghost predicate Inv(c: Chip) {
    Ok(c, 0) && !c.inHandler
  }

  /** Nothing is due: every pending interrupt lies strictly in the future. */
  ghost predicate NothingDue(c: Chip) {
    forall e :: e in c.pending ==> c.total < e.key
  }

  lemma ItemsOfInserted(q: Queue, e: Entry<PendingInterrupt>)
    ensures multiset(Items(Inserted(q, e))) == multiset(Items(q)) + multiset{e.item}
  {
    hide Inserted;
    var k := Place(q, e.key);
    InsertedAt(q, e, k);
    assert Items(Inserted(q, e)) == Items(q)[..k] + [e.item] + Items(q)[k..];
    assert Items(q) == Items(q)[..k] + Items(q)[k..];
  }

  lemma InsertKeepsQueue(q: Queue, e: Entry<PendingInterrupt>)
    requires QueueOk(q) && e.key == e.item.when
    ensures QueueOk(Inserted(q, e))
    ensures forall x :: x in Inserted(q, e) <==> x in q || x == e
  {
    hide Inserted;
    InsertKeepsSorted(q, e);
    InsertAddsOne(q, e);
    forall x
      ensures x in Inserted(q, e) <==> x in q || x == e
    {
      assert x in Inserted(q, e) <==> x in multiset(Inserted(q, e));
      assert x in q <==> x in multiset(q);
    }
  }

  lemma ScheduleKeeps(c: Chip, r: Request, slack: nat)
    requires Ok(c, slack)
    ensures Ok(Scheduled(c, r), slack)
    ensures NothingDue(c) ==> NothingDue(Scheduled(c, r))
  {
    hide Inserted;
    var p := Occurrence(c, r);
    InsertKeepsQueue(c.pending, Entry(p, p.when));
    ItemsOfInserted(c.pending, Entry(p, p.when));
  }

  lemma {:induction false} ScheduleAllKeeps(c: Chip, rs: seq<Request>, slack: nat)
    requires Ok(c, slack)
    ensures Ok(ScheduledAll(c, rs), slack) && SameButQueue(c, ScheduledAll(c, rs))
    ensures NothingDue(c) ==> NothingDue(ScheduledAll(c, rs))
    decreases |rs|
  {
    hide Ok, NothingDue;
    if rs != [] {
      ScheduleKeeps(c, rs[0], slack);
      ScheduleAllKeeps(Scheduled(c, rs[0]), rs[1..], slack);
    }
  }

  /** Taking the head, which is due, and running its handler. */
  lemma FireKeeps(h: Handlers, c: Chip, slack: nat)
    requires Ok(c, slack) && c.pending != [] && c.pending[0].key <= c.total
    ensures var d := Handled(h, c.(pending := c.pending[1..]), c.pending[0].item);
            Ok(d, slack) && d.fired == c.fired + [Fired(c.pending[0].item, c.total)]
            && d == c.(pending := d.pending, asked := d.asked, fired := d.fired, yieldOnReturn := d.yieldOnReturn)
  {
    var p := c.pending[0].item;
    var log := c.fired + [Fired(p, c.total)];
    var d := c.(pending := c.pending[1..], fired := log,
                yieldOnReturn := c.yieldOnReturn || h(log).switch);
    hide ScheduledAll;
    TakeHeadKeeps(c, d, slack);
    hide Ok;
    ScheduleAllKeeps(d, h(log).requests, slack);
  }

  /** Moving a due head from the queue to the log. */
  lemma TakeHeadKeeps(c: Chip, d: Chip, slack: nat)
    requires Ok(c, slack) && c.pending != [] && c.pending[0].key <= c.total
    requires d == c.(pending := c.pending[1..], fired := c.fired + [Fired(c.pending[0].item, c.total)],
                     yieldOnReturn := d.yieldOnReturn)
    ensures Ok(d, slack)
  {
    var p := c.pending[0].item;
    HeadIsMinimum(c.pending);
    assert c.pending[0] in c.pending;
    assert c.pending == [c.pending[0]] + c.pending[1..];
    ItemsOfCons(c.pending[0], c.pending[1..]);
    assert FiredItems(d.fired) == FiredItems(c.fired) + [p];
    hide Items, FiredItems;
  }

  /** Putting the head back leaves the same entries. */
  lemma PutBackKeeps(c: Chip, slack: nat)
    requires Ok(c, slack) && c.pending != []
    ensures Ok(c.(pending := Inserted(c.pending[1..], c.pending[0])), slack)
    ensures forall e :: e in Inserted(c.pending[1..], c.pending[0]) <==> e in c.pending
  {
    hide Inserted, LogOk, Items, Sorted;
    var e, rest := c.pending[0], c.pending[1..];
    HeadIsMinimum(c.pending);
    assert c.pending == [e] + rest;
    InsertKeepsQueue(rest, e);
    ItemsOfInserted(rest, e);
    ItemsOfCons(e, rest);
  }

  lemma ItemsOfCons(e: Entry<PendingInterrupt>, rest: Queue)
    ensures Items([e] + rest) == [e.item] + Items(rest)
  {
  }

  // The loops

  /** Outside idle mode a pass fires exactly the head, and only when it is due. */
  lemma CheckKeeps(h: Handlers, c: Chip, slack: nat)
    requires Ok(c, slack)
    ensures var (d, fired) := Checked(h, c, false);
            && Ok(d, slack)
            && d == c.(pending := d.pending, asked := d.asked, fired := d.fired, yieldOnReturn := d.yieldOnReturn)
            && (fired ==> c.pending != [] && c.pending[0].key <= c.total
                          && d.fired == c.fired + [Fired(c.pending[0].item, c.total)])
            && (!fired ==> d.fired == c.fired && d.asked == c.asked && d.yieldOnReturn == c.yieldOnReturn
                           && (NothingDue(d) || (c.status == IdleMode && LoneTimer(d))))
  {
    hide Inserted, Handled, Ok;
    if c.pending != [] {
      var e, rest := c.pending[0], c.pending[1..];
      if e.key <= c.total && !OnlyTimer(c, e, rest) {
        FireKeeps(h, c, slack);
      } else {
        PutBackKeeps(c, slack);
        if e.key > c.total {
          HeadFirst(c, slack);
        } else {
          InsertedAt(rest, e, 0);
        }
      }
    }
  }

  lemma HeadFirst(c: Chip, slack: nat)
    requires Ok(c, slack) && c.pending != []
    ensures forall e :: e in c.pending ==> c.pending[0].key <= e.key
  {
    HeadIsMinimum(c.pending);
  }

  /** The one due interrupt that an idling machine leaves alone. */
  predicate LoneTimer(c: Chip) {
    |c.pending| == 1 && c.pending[0].item.kind == TimerInt && c.pending[0].key <= c.total
  }

  lemma {:induction false} FireAllKeeps(h: Handlers, c: Chip, slack: nat)
    requires Ok(c, slack)
    ensures var d := AllFired(h, c);
            && Ok(d, slack)
            && d == c.(pending := d.pending, asked := d.asked, fired := d.fired, yieldOnReturn := d.yieldOnReturn)
            && c.fired <= d.fired
            && (NothingDue(d) || (c.status == IdleMode && LoneTimer(d)))
    decreases Due(c.pending, c.total)
  {
    hide Ok, NothingDue, Checked, LoneTimer;
    CheckKeeps(h, c, slack);
    CheckLowersDue(h, c);
    var (d, fired) := Checked(h, c, false);
    if fired {
      FireAllKeeps(h, d, slack);
    }
  }

  /** The due entries, as they are logged when all fire at time `t`. */
  function DuePrefix(q: Queue, t: int): (s: seq<Fired>) {
    if q == [] || q[0].key > t then [] else [Fired(q[0].item, t)] + DuePrefix(q[1..], t)
  }

  /** What handlers schedule goes behind everything that is due. */
  lemma {:induction false} InsertKeepsDuePrefix(q: Queue, e: Entry<PendingInterrupt>, t: int)
    requires e.key > t
    ensures DuePrefix(Inserted(q, e), t) == DuePrefix(q, t)
  {
    if q != [] && q[0].key <= e.key {
      InsertKeepsDuePrefix(q[1..], e, t);
      assert ([q[0]] + Inserted(q[1..], e))[1..] == Inserted(q[1..], e);
    }
  }

  lemma {:induction false} ScheduleAllDuePrefix(c: Chip, rs: seq<Request>)
    ensures DuePrefix(ScheduledAll(c, rs).pending, c.total) == DuePrefix(c.pending, c.total)
    decreases |rs|
  {
    if rs != [] {
      var p := Occurrence(c, rs[0]);
      InsertKeepsDuePrefix(c.pending, Entry(p, p.when), c.total);
      ScheduleAllDuePrefix(Scheduled(c, rs[0]), rs[1..]);
    }
  }

  /**
   * Outside idle mode the firing loop runs exactly the interrupts that were
   * due when it started, each once, in order of their times: nothing that a
   * handler schedules fires in the same pass.
   */
  lemma {:induction false} FireAllExactly(h: Handlers, c: Chip, slack: nat)
    requires Ok(c, slack) && c.status != IdleMode
    ensures AllFired(h, c).fired == c.fired + DuePrefix(c.pending, c.total)
    decreases Due(c.pending, c.total)
  {
    hide Ok, ScheduledAll, Inserted;
    CheckKeeps(h, c, slack);
    CheckLowersDue(h, c);
    var (d, fired) := Checked(h, c, false);
    if fired {
      FireAllExactly(h, d, slack);
      var log := c.fired + [Fired(c.pending[0].item, c.total)];
      ScheduleAllDuePrefix(
        c.(pending := c.pending[1..], fired := log, yieldOnReturn := c.yieldOnReturn || h(log).switch),
        h(log).requests);
    } else if c.pending != [] {
      assert c.pending[0].key > c.total;
    }
  }

  // The operations

  /** A tick leaves nothing overdue and moves the clock by the tick of its mode. */
  lemma OneTickKeeps(h: Handlers, c: Chip)
    requires Inv(c) && c.status != IdleMode
    ensures var d := Ticked(h, c).0;
            && Inv(d) && NothingDue(d)
            && d.total == c.total + (if c.status == SystemMode then SYSTEM_TICK else USER_TICK)
            && d.system == c.system + (if c.status == SystemMode then SYSTEM_TICK else 0)
            && d.user == c.user + (if c.status == SystemMode then 0 else USER_TICK)
            && d.status == c.status && d.level == IntOn && !d.yieldOnReturn && d.halted == c.halted
            && d.fired == c.fired + DuePrefix(c.pending, d.total)
  {
    hide Conserved, QueueOk, DuePrefix, AllFired;
    var t := ClockTicked(c).(level := IntOff);
    assert Ok(t, SYSTEM_TICK) by {
      assert Conserved(c) ==> Conserved(t) by { SameConserved(c, t); }
    }
    FireAllKeeps(h, t, SYSTEM_TICK);
    FireAllExactly(h, t, SYSTEM_TICK);
    SameConserved(AllFired(h, t), Ticked(h, c).0);
  }

  /** Conservation depends on the queue and the two histories only. */
  lemma SameConserved(c: Chip, d: Chip)
    requires c.pending == d.pending && c.fired == d.fired && c.asked == d.asked
    ensures Conserved(c) == Conserved(d)
  {
  }

  /**
   * Idling jumps to the next interrupt and fires everything due then. It halts
   * exactly when nothing but a timer is pending; when it returns, the only
   * thing it may leave due is a lone timer.
   */
  lemma IdleKeeps(h: Handlers, c: Chip)
    requires Inv(c)
    ensures var d := Idled(h, c);
            && Inv(d) && c.total <= d.total && c.fired <= d.fired && d.level == c.level
            && d.system == c.system && d.user == c.user
            && d.total == (if c.pending != [] && c.pending[0].key > c.total then c.pending[0].key else c.total)
            && (d.halted <==> c.halted || c.pending == []
                              || (|c.pending| == 1 && c.pending[0].item.kind == TimerInt))
            && (d.halted && !c.halted ==> d.fired == c.fired && d.asked == c.asked)
            && (!d.halted ==> c.fired < d.fired && d.status == SystemMode
                              && (NothingDue(d) || (LoneTimer(d) && d.pending[0].key == d.total)))
  {
    hide Conserved, QueueOk, AllFired, Handled, Inserted;
    var i := c.(status := IdleMode);
    SameConserved(c, i);
    if c.pending == [] {
      SameConserved(c, Idled(h, c));
      return;
    }
    var e, rest := c.pending[0], c.pending[1..];
    assert e in c.pending;
    HeadFirst(c, 0);
    var a := if e.key > c.total then Advanced(i, e.key) else i;
    SameConserved(i, a);
    assert Ok(a, 0);
    if OnlyTimer(a, e, rest) {
      PutBackKeeps(a, 0);
      SameConserved(a.(pending := Inserted(rest, e)), Idled(h, c));
    } else {
      FireKeeps(h, a, 0);
      var b := Handled(h, a.(pending := rest), e.item);
      FireAllKeeps(h, b, 0);
      SameConserved(AllFired(h, b), Idled(h, c));
    }
  }

  // What the handlers asked for

  /** The interrupts that requests made at time `t` stand for. */
  function AskedBy(t: int, rs: seq<Request>): (ps: seq<PendingInterrupt>)
    ensures |ps| == |rs|
  {
    seq(|rs|, i requires 0 <= i < |rs| => PendingInterrupt(rs[i].handler, rs[i].arg, t + rs[i].fromNow, rs[i].kind))
  }

  /** Everything asked for by the handlers logged from position `from` on, each given the log up to itself. */
  function AsksOf(h: Handlers, log: seq<Fired>, from: nat): (ps: seq<PendingInterrupt>)
    decreases |log| - from
  {
    if from >= |log| then []
    else AskedBy(log[from].at, h(log[..from + 1]).requests) + AsksOf(h, log, from + 1)
  }

  /** Between c and d exactly the requests of the handlers fired were scheduled, and a yield is wanted if one
      of them asked for it. */
  ghost predicate Obeyed(h: Handlers, c: Chip, d: Chip) {
    && c.fired <= d.fired
    && d.asked == c.asked + AsksOf(h, d.fired, |c.fired|)
    && (d.yieldOnReturn <==>
          c.yieldOnReturn || exists k :: |c.fired| < k <= |d.fired| && h(d.fired[..k]).switch)
  }

  /** A request is for its own handler, argument and device, its delay from now. */
  lemma ScheduleAsks(c: Chip, r: Request)
    ensures Scheduled(c, r).asked == c.asked + [PendingInterrupt(r.handler, r.arg, c.total + r.fromNow, r.kind)]
    ensures multiset(Scheduled(c, r).pending)
            == multiset(c.pending) + multiset{var w := c.total + r.fromNow;
                                              Entry(PendingInterrupt(r.handler, r.arg, w, r.kind), w)}
  {
    hide Inserted;
    var w := c.total + r.fromNow;
    InsertAddsOne(c.pending, Entry(PendingInterrupt(r.handler, r.arg, w, r.kind), w));
  }

  lemma {:induction false} ScheduleAllAsks(c: Chip, rs: seq<Request>)
    ensures ScheduledAll(c, rs).asked == c.asked + AskedBy(c.total, rs)
    decreases |rs|
  {
    if rs != [] {
      ScheduleAllAsks(Scheduled(c, rs[0]), rs[1..]);
      assert AskedBy(c.total, rs) == AskedBy(c.total, rs[..1]) + AskedBy(c.total, rs[1..]);
    }
  }

  lemma HandledObeys(h: Handlers, c: Chip, p: PendingInterrupt)
    ensures Obeyed(h, c, Handled(h, c, p))
  {
    hide ScheduledAll;
    var log := c.fired + [Fired(p, c.total)];
    var d := c.(fired := log, yieldOnReturn := c.yieldOnReturn || h(log).switch);
    ScheduleAllAsks(d, h(log).requests);
    ScheduleAllDue(d, h(log).requests);
    var e := Handled(h, c, p);
    assert log[..|c.fired| + 1] == log;
    assert AsksOf(h, log, |c.fired| + 1) == [];
  }

  lemma CheckedObeys(h: Handlers, c: Chip, advanceClock: bool)
    ensures Obeyed(h, c, Checked(h, c, advanceClock).0)
  {
    hide Inserted, Handled;
    var r := Checked(h, c, advanceClock);
    if r.1 {
      var e := c.pending[0];
      var a := if e.key > c.total then Advanced(c, e.key) else c;
      HandledObeys(h, a.(pending := c.pending[1..]), e.item);
    } else {
      assert AsksOf(h, c.fired, |c.fired|) == [];
    }
  }

  lemma {:induction false} AsksSplit(h: Handlers, log: seq<Fired>, more: seq<Fired>, from: nat)
    requires log <= more && from <= |log|
    ensures AsksOf(h, more, from) == AsksOf(h, log, from) + AsksOf(h, more, |log|)
    decreases |log| - from
  {
    if from < |log| {
      AsksSplit(h, log, more, from + 1);
      assert more[..from + 1] == log[..from + 1];
    }
  }

  lemma ObeyedTwice(h: Handlers, a: Chip, b: Chip, c: Chip)
    requires Obeyed(h, a, b) && Obeyed(h, b, c)
    ensures Obeyed(h, a, c)
  {
    AsksSplit(h, b.fired, c.fired, |a.fired|);
    assert forall k :: 0 <= k <= |b.fired| ==> c.fired[..k] == b.fired[..k];
    if b.yieldOnReturn && !a.yieldOnReturn {
      var k :| |a.fired| < k <= |b.fired| && h(b.fired[..k]).switch;
      assert h(c.fired[..k]).switch;
    }
    if k :| |a.fired| < k <= |c.fired| && h(c.fired[..k]).switch {
      assert k <= |b.fired| ==> h(b.fired[..k]).switch;
    }
  }

  lemma {:induction false} FireAllObeys(h: Handlers, c: Chip)
    ensures Obeyed(h, c, AllFired(h, c))
    decreases Due(c.pending, c.total)
  {
    hide Checked, Obeyed;
    CheckedObeys(h, c, false);
    CheckLowersDue(h, c);
    var (d, fired) := Checked(h, c, false);
    if fired {
      FireAllObeys(h, d);
      ObeyedTwice(h, c, d, AllFired(h, d));
    }
  }

  /** A tick schedules exactly what its handlers ask for, and yields exactly if one of them asks for that. */
  lemma TickObeys(h: Handlers, c: Chip)
    ensures var (d, switch) := Ticked(h, c); Obeyed(h, c, d.(yieldOnReturn := switch))
  {
    hide AllFired;
    FireAllObeys(h, ClockTicked(c).(level := IntOff));
  }

  /** Idling schedules exactly what its handlers ask for, and takes back any wish to yield. */
  lemma IdleObeys(h: Handlers, c: Chip)
    ensures var d := Idled(h, c);
            && c.fired <= d.fired && d.asked == c.asked + AsksOf(h, d.fired, |c.fired|)
            && (!d.halted ==> !d.yieldOnReturn)
  {
    hide AllFired, Checked;
    var i := c.(status := IdleMode);
    CheckedObeys(h, i, true);
    var (d, fired) := Checked(h, i, true);
    if fired {
      FireAllObeys(h, d);
      ObeyedTwice(h, i, d, AllFired(h, d));
    }
  }

  // What an idling machine leaves due

  function LogOf(q: Queue, t: int): (log: seq<Fired>)
    ensures |log| == |q|
  {
    seq(|q|, i requires 0 <= i < |q| => Fired(q[i].item, t))
  }

  /**
   * A condition on the queue and the handlers alone: everything pending is due
   * at time `t`, the last entry is a timer, and no handler fired before it asks
   * for anything.
   */
  ghost predicate EndsInTimer(h: Handlers, q: Queue, log: seq<Fired>, t: int) {
    && q != []
    && (forall e :: e in q ==> e.key <= t)
    && q[|q| - 1].item.kind == TimerInt
    && (forall i :: 0 < i < |q| ==> h(log + LogOf(q[..i], t)).requests == [])
  }

  /** Firing the head of such a queue leaves such a queue. */
  lemma EndsInTimerTail(h: Handlers, q: Queue, log: seq<Fired>, t: int)
    requires |q| > 1
    ensures var log' := log + [Fired(q[0].item, t)];
            EndsInTimer(h, q, log, t)
            <==> q[0].key <= t && h(log').requests == [] && EndsInTimer(h, q[1..], log', t)
  {
    var rest, log' := q[1..], log + [Fired(q[0].item, t)];
    assert q == [q[0]] + rest;
    forall i | 0 < i < |rest|
      ensures log' + LogOf(rest[..i], t) == log + LogOf(q[..i + 1], t)
    {
      assert LogOf(q[..i + 1], t) == [Fired(q[0].item, t)] + LogOf(rest[..i], t);
    }
    assert log + LogOf(q[..1], t) == log';
    if EndsInTimer(h, q, log, t) {
      forall i | 0 < i < |rest|
        ensures h(log' + LogOf(rest[..i], t)).requests == []
      {
        var j := i + 1;
        assert h(log + LogOf(q[..j], t)).requests == [];
      }
    }
    if q[0].key <= t && h(log').requests == [] && EndsInTimer(h, rest, log', t) {
      forall i | 0 < i < |q|
        ensures h(log + LogOf(q[..i], t)).requests == []
      {
        if i > 1 {
          var j := i - 1;
          assert h(log' + LogOf(rest[..j], t)).requests == [];
          assert log' + LogOf(rest[..j], t) == log + LogOf(q[..j + 1], t);
        }
      }
    }
  }

  /** Scheduling drops nothing, and whatever it adds lies in the future. */
  lemma {:induction false} ScheduleAllAdds(c: Chip, rs: seq<Request>, e: Entry<PendingInterrupt>)
    requires QueueOk(c.pending)
    ensures e in c.pending ==> e in ScheduledAll(c, rs).pending
    ensures rs != [] ==> exists f :: f in ScheduledAll(c, rs).pending && f.key > c.total
    decreases |rs|
  {
    hide Inserted;
    if rs != [] {
      var p := Occurrence(c, rs[0]);
      var f := Entry(p, p.when);
      InsertKeepsQueue(c.pending, f);
      ScheduleAllAdds(Scheduled(c, rs[0]), rs[1..], e);
      ScheduleAllAdds(Scheduled(c, rs[0]), rs[1..], f);
    }
  }

  /** A future entry stays in the queue through a pass that fires. */
  lemma FireKeepsFuture(h: Handlers, c: Chip, slack: nat, e: Entry<PendingInterrupt>)
    requires Ok(c, slack) && e in c.pending && e.key > c.total && Checked(h, c, false).1
    ensures e in Checked(h, c, false).0.pending
  {
    var p, rest := c.pending[0].item, c.pending[1..];
    var log := c.fired + [Fired(p, c.total)];
    var d := c.(pending := rest, fired := log, yieldOnReturn := c.yieldOnReturn || h(log).switch);
    assert c.pending == [c.pending[0]] + rest;
    HeadIsMinimum(c.pending);
    ScheduleAllAdds(d, h(log).requests, e);
  }

  /** With a future entry pending, even an idle machine fires everything due. */
  lemma {:induction false} FutureMeansNothingDue(h: Handlers, c: Chip, slack: nat, e: Entry<PendingInterrupt>)
    requires Ok(c, slack) && e in c.pending && e.key > c.total
    ensures NothingDue(AllFired(h, c))
    decreases Due(c.pending, c.total)
  {
    hide Ok, Handled, Inserted;
    CheckKeeps(h, c, slack);
    CheckLowersDue(h, c);
    var (d, fired) := Checked(h, c, false);
    if fired {
      FireKeepsFuture(h, c, slack, e);
      FutureMeansNothingDue(h, d, slack, e);
    } else {
      PutBackKeeps(c, slack);
      assert e in d.pending by { PutBackHas(h, c, e); }
    }
  }

  lemma PutBackHas(h: Handlers, c: Chip, e: Entry<PendingInterrupt>)
    requires e in c.pending && !Checked(h, c, false).1
    requires forall x :: x in Inserted(c.pending[1..], c.pending[0]) <==> x in c.pending
    ensures e in Checked(h, c, false).0.pending
  {
  }

  /**
   * The firing loop of an idle machine leaves something due exactly when its
   * queue ends in a timer: a condition on the state before the loop.
   */
  lemma {:induction false} IdleLoopLeavesIff(h: Handlers, c: Chip, slack: nat)
    requires Ok(c, slack) && c.status == IdleMode
    ensures !NothingDue(AllFired(h, c)) <==> EndsInTimer(h, c.pending, c.fired, c.total)
    decreases Due(c.pending, c.total)
  {
    hide Ok, Inserted, NothingDue, EndsInTimer, Handled;
    CheckKeeps(h, c, slack);
    CheckLowersDue(h, c);
    if c.pending == [] {
      EmptyQueue(h, c);
    } else if c.pending[0].key > c.total {
      HeadFirst(c, slack);
      FutureQueue(h, c);
      FutureMeansNothingDue(h, c, slack, c.pending[0]);
    } else if |c.pending| == 1 {
      OneDue(h, c, slack);
    } else {
      var d := Checked(h, c, false).0;
      EndsInTimerTail(h, c.pending, c.fired, c.total);
      HeadFires(h, c, slack);
      if d.pending == c.pending[1..] {
        IdleLoopLeavesIff(h, d, slack);
      } else {
        var e :| e in d.pending && e.key > d.total;
        FutureMeansNothingDue(h, d, slack, e);
      }
    }
  }

  lemma EmptyQueue(h: Handlers, c: Chip)
    requires c.pending == []
    ensures NothingDue(AllFired(h, c)) && !EndsInTimer(h, c.pending, c.fired, c.total)
  {
  }

  lemma FutureQueue(h: Handlers, c: Chip)
    requires c.pending != [] && c.pending[0].key > c.total
    ensures !EndsInTimer(h, c.pending, c.fired, c.total)
  {
    assert c.pending[0] in c.pending;
  }

  /** A single due entry stays exactly when it is a timer. */
  lemma OneDue(h: Handlers, c: Chip, slack: nat)
    requires Ok(c, slack) && c.status == IdleMode && |c.pending| == 1 && c.pending[0].key <= c.total
    ensures !NothingDue(AllFired(h, c)) <==> EndsInTimer(h, c.pending, c.fired, c.total)
  {
    hide Ok, Conserved, LogOk;
    var e := c.pending[0];
    var d := Checked(h, c, false).0;
    CheckLowersDue(h, c);
    assert c.pending == [e] && c.pending[1..] == [];
    if e.item.kind == TimerInt {
      assert d.pending == [e];
      assert e in AllFired(h, c).pending;
    } else {
      FireKeeps(h, c, slack);
      HandledEmpty(h, c);
      assert AllFired(h, c) == AllFired(h, d);
      if d.pending == [] {
        EmptyQueue(h, d);
      } else {
        FutureMeansNothingDue(h, d, slack, d.pending[0]);
      }
    }
  }

  /** After the only entry fired, everything pending is new and lies in the future. */
  lemma HandledEmpty(h: Handlers, c: Chip)
    requires |c.pending| == 1 && c.pending[0].key <= c.total
    ensures var d := Handled(h, c.(pending := c.pending[1..]), c.pending[0].item);
            d.total == c.total && forall e :: e in d.pending ==> e.key > d.total
  {
    var log := c.fired + [Fired(c.pending[0].item, c.total)];
    var d := c.(pending := c.pending[1..], fired := log, yieldOnReturn := c.yieldOnReturn || h(log).switch);
    ScheduleAllFuture(d, h(log).requests);
  }

  lemma {:induction false} ScheduleAllFuture(c: Chip, rs: seq<Request>)
    requires NothingDue(c)
    ensures NothingDue(ScheduledAll(c, rs)) && ScheduledAll(c, rs).total == c.total
    decreases |rs|
  {
    hide Inserted;
    if rs != [] {
      var p := Occurrence(c, rs[0]);
      var e := Entry(p, p.when);
      InsertAddsOne(c.pending, e);
      forall x | x in Inserted(c.pending, e)
        ensures x.key > c.total
      {
        assert x in multiset(Inserted(c.pending, e));
      }
      ScheduleAllFuture(Scheduled(c, rs[0]), rs[1..]);
    }
  }

  /** With more than one entry a due head fires; the rest of the queue is kept, and only a request adds to it. */
  lemma HeadFires(h: Handlers, c: Chip, slack: nat)
    requires Ok(c, slack) && |c.pending| > 1 && c.pending[0].key <= c.total
    ensures var log := c.fired + [Fired(c.pending[0].item, c.total)];
            var (d, fired) := Checked(h, c, false);
            && fired && d.fired == log && d.total == c.total && d.status == c.status && Ok(d, slack)
            && (h(log).requests == [] ==> d.pending == c.pending[1..])
            && (h(log).requests != [] ==> d.pending != c.pending[1..] && exists e :: e in d.pending && e.key > d.total)
  {
    hide Conserved, LogOk, Inserted;
    var log := c.fired + [Fired(c.pending[0].item, c.total)];
    FireKeeps(h, c, slack);
    HeadIsMinimum(c.pending);
    var d := c.(pending := c.pending[1..], fired := log, yieldOnReturn := c.yieldOnReturn || h(log).switch);
    ScheduleAllAdds(d, h(log).requests, c.pending[0]);
    ScheduleAllLength(d, h(log).requests);
  }

  lemma {:induction false} ScheduleAllLength(c: Chip, rs: seq<Request>)
    ensures |ScheduledAll(c, rs).pending| == |c.pending| + |rs|
    decreases |rs|
  {
    hide Inserted;
    if rs != [] {
      var p := Occurrence(c, rs[0]);
      InsertAddsOne(c.pending, Entry(p, p.when));
      ScheduleAllLength(Scheduled(c, rs[0]), rs[1..]);
    }
  }

  /** With a future entry pending the loop fires exactly what is due, in idle mode too. */
  lemma {:induction false} FutureFiresExactly(h: Handlers, c: Chip, slack: nat, e: Entry<PendingInterrupt>)
    requires Ok(c, slack) && e in c.pending && e.key > c.total
    ensures AllFired(h, c).fired == c.fired + DuePrefix(c.pending, c.total)
    decreases Due(c.pending, c.total)
  {
    hide Ok, ScheduledAll, Inserted;
    CheckKeeps(h, c, slack);
    CheckLowersDue(h, c);
    var (d, fired) := Checked(h, c, false);
    if fired {
      FireKeepsFuture(h, c, slack, e);
      FutureFiresExactly(h, d, slack, e);
      DueAfterHead(h, c);
    }
  }

  /** What is due after the head has fired is what was due behind it. */
  lemma DueAfterHead(h: Handlers, c: Chip)
    requires Checked(h, c, false).1
    ensures var d := Checked(h, c, false).0;
            d.total == c.total && DuePrefix(d.pending, d.total) == DuePrefix(c.pending[1..], c.total)
  {
    hide ScheduledAll, Inserted;
    var log := c.fired + [Fired(c.pending[0].item, c.total)];
    var d := c.(pending := c.pending[1..], fired := log, yieldOnReturn := c.yieldOnReturn || h(log).switch);
    ScheduleAllDuePrefix(d, h(log).requests);
    ScheduleAllDue(d, h(log).requests);
  }

  /** The loop of an idle machine fires everything due but a timer that ends the queue. */
  function IdleLog(q: Queue, t: int, leaves: bool): (log: seq<Fired>) {
    var due := DuePrefix(q, t);
    if leaves && due != [] then due[..|due| - 1] else due
  }

  lemma {:induction false} IdleLoopFires(h: Handlers, c: Chip, slack: nat)
    requires Ok(c, slack) && c.status == IdleMode
    ensures AllFired(h, c).fired
            == c.fired + IdleLog(c.pending, c.total, EndsInTimer(h, c.pending, c.fired, c.total))
    decreases Due(c.pending, c.total)
  {
    hide Ok, Inserted, EndsInTimer, Handled, ScheduledAll;
    CheckKeeps(h, c, slack);
    CheckLowersDue(h, c);
    if c.pending == [] {
    } else if c.pending[0].key > c.total {
      FutureQueue(h, c);
      FutureFiresExactly(h, c, slack, c.pending[0]);
    } else if |c.pending| == 1 {
      OneDueFires(h, c, slack);
    } else {
      var d := Checked(h, c, false).0;
      EndsInTimerTail(h, c.pending, c.fired, c.total);
      HeadFires(h, c, slack);
      DueAfterHead(h, c);
      if d.pending == c.pending[1..] {
        IdleLoopFires(h, d, slack);
        EndsDue(h, d.pending, d.fired, d.total);
      } else {
        var e :| e in d.pending && e.key > d.total;
        FutureFiresExactly(h, d, slack, e);
      }
    }
  }

  /** A queue that ends in a timer has something due. */
  lemma EndsDue(h: Handlers, q: Queue, log: seq<Fired>, t: int)
    ensures EndsInTimer(h, q, log, t) ==> DuePrefix(q, t) != []
  {
    if EndsInTimer(h, q, log, t) {
      assert q[0] in q;
    }
  }

  lemma OneDueFires(h: Handlers, c: Chip, slack: nat)
    requires Ok(c, slack) && c.status == IdleMode && |c.pending| == 1 && c.pending[0].key <= c.total
    ensures AllFired(h, c).fired
            == c.fired + IdleLog(c.pending, c.total, EndsInTimer(h, c.pending, c.fired, c.total))
  {
    hide Ok, Conserved, LogOk;
    var e := c.pending[0];
    var d := Checked(h, c, false).0;
    CheckLowersDue(h, c);
    assert c.pending == [e] && c.pending[1..] == [];
    assert DuePrefix(c.pending, c.total) == [Fired(e.item, c.total)];
    if e.item.kind == TimerInt {
      assert EndsInTimer(h, c.pending, c.fired, c.total);
    } else {
      FireKeeps(h, c, slack);
      HandledEmpty(h, c);
      assert AllFired(h, c) == AllFired(h, d);
      if d.pending == [] {
        EmptyLoop(h, d);
      } else {
        assert d.pending[0] in d.pending;
        FutureFiresExactly(h, d, slack, d.pending[0]);
      }
    }
  }

  /** The time to which an idling machine jumps. */
  function JumpTime(c: Chip): (t: int) {
    if c.pending != [] && c.pending[0].key > c.total then c.pending[0].key else c.total
  }

  /**
   * An idling machine with more than a lone timer pending, which is when it does
   * not halt, leaves something due exactly when at least two interrupts are pending
   * and, at the time it jumps to, its queue ends in a timer.
   */
  lemma IdleLeavesIff(h: Handlers, c: Chip)
    requires Inv(c) && !c.halted
    requires c.pending != [] && !(|c.pending| == 1 && c.pending[0].item.kind == TimerInt)
    ensures !NothingDue(Idled(h, c)) <==> |c.pending| > 1 && EndsInTimer(h, c.pending, c.fired, JumpTime(c))
  {
    hide Conserved, QueueOk, LogOk, AllFired, Inserted, EndsInTimer;
    IdleKeeps(h, c);
    var e, rest := c.pending[0], c.pending[1..];
    assert e in c.pending;
    HeadFirst(c, 0);
    var i := c.(status := IdleMode);
    var a := if e.key > c.total then Advanced(i, e.key) else i;
    SameConserved(c, a);
    assert LogOk(a.fired, a.total) by { LogLater(c.fired, c.total, a.total); }
    assert Ok(a, 0);
    var b := Handled(h, a.(pending := rest), e.item);
    FireKeeps(h, a, 0);
    assert Checked(h, i, true) == (b, true);
    if |c.pending| > 1 {
      HeadFires(h, a, 0);
      EndsInTimerTail(h, c.pending, c.fired, a.total);
      if b.pending == rest {
        IdleLoopLeavesIff(h, b, 0);
      } else {
        var f :| f in b.pending && f.key > b.total;
        FutureMeansNothingDue(h, b, 0, f);
      }
    } else {
      HandledEmpty(h, a);
      if b.pending == [] {
        EmptyQueue(h, b);
      } else {
        FutureMeansNothingDue(h, b, 0, b.pending[0]);
      }
    }
  }

  /** An idling machine that does not halt fires exactly what is due at the time it jumps to, but for that timer. */
  lemma IdleFires(h: Handlers, c: Chip)
    requires Inv(c) && !c.halted
    requires c.pending != [] && !(|c.pending| == 1 && c.pending[0].item.kind == TimerInt)
    ensures var leaves := |c.pending| > 1 && EndsInTimer(h, c.pending, c.fired, JumpTime(c));
            Idled(h, c).fired == c.fired + IdleLog(c.pending, JumpTime(c), leaves)
  {
    hide Inv, Ok, Checked, Handled, AllFired, EndsInTimer, Idled;
    var a, b := IdleStart(h, c);
    DueAfterHead(h, a);
    if |c.pending| > 1 {
      HeadFires(h, a, 0);
      EndsInTimerTail(h, c.pending, c.fired, a.total);
      if b.pending == c.pending[1..] {
        IdleLoopFires(h, b, 0);
        EndsDue(h, b.pending, b.fired, b.total);
      } else {
        var f :| f in b.pending && f.key > b.total;
        FutureFiresExactly(h, b, 0, f);
      }
    } else if b.pending == [] {
      EmptyLoop(h, b);
    } else {
      assert b.pending[0] in b.pending;
      FutureFiresExactly(h, b, 0, b.pending[0]);
    }
  }

  /** Idling that does not halt: the clock jumps, giving `a`, and the head fires, giving `b`, where the loop starts. */
  lemma IdleStart(h: Handlers, c: Chip) returns (a: Chip, b: Chip)
    requires Inv(c) && !c.halted
    requires c.pending != [] && !(|c.pending| == 1 && c.pending[0].item.kind == TimerInt)
    ensures a.pending == c.pending && a.fired == c.fired && a.total == JumpTime(c) && a.status == IdleMode
    ensures Ok(a, 0) && a.pending[0].key <= a.total && Checked(h, a, false) == (b, true)
    ensures Ok(b, 0) && b.status == IdleMode && b.total == a.total
    ensures b.fired == c.fired + [Fired(c.pending[0].item, a.total)]
    ensures |c.pending| == 1 ==> forall e :: e in b.pending ==> e.key > b.total
    ensures Idled(h, c).fired == AllFired(h, b).fired
  {
    hide Conserved, QueueOk, LogOk, AllFired, Inserted;
    var e, rest := c.pending[0], c.pending[1..];
    assert e in c.pending;
    HeadFirst(c, 0);
    var i := c.(status := IdleMode);
    a := if e.key > c.total then Advanced(i, e.key) else i;
    SameConserved(c, a);
    assert LogOk(a.fired, a.total) by { LogLater(c.fired, c.total, a.total); }
    b := Handled(h, a.(pending := rest), e.item);
    FireKeeps(h, a, 0);
    if |c.pending| == 1 {
      HandledEmpty(h, a);
    }
  }

  lemma EmptyLoop(h: Handlers, c: Chip)
    requires c.pending == []
    ensures AllFired(h, c) == c
  {
  }

  lemma LogLater(log: seq<Fired>, t: int, u: int)
    requires LogOk(log, t) && t <= u
    ensures LogOk(log, u)
  {
  }

  // Runs

  datatype Op =
    | DoSchedule(r: Request)          // a device simulator
    | DoInstruction                   // a user instruction
    | DoSetLevel(now: IntStatus)      // kernel code
    | DoIdle                          // nothing is ready
    | DoMode(status: MachineStatus)   // entering or leaving a user program

  predicate Enabled(c: Chip, op: Op) {
    && !c.halted
    && match op {
         case DoSchedule(_) => true
         case DoInstruction => c.level == IntOn
         case DoSetLevel(_) => true
         case DoIdle => c.level == IntOff
         case DoMode(status) => status != IdleMode
       }
  }

  /** Until the machine halts, devices may schedule and the kernel may change the level and the mode at any time;
      user instructions need interrupts on, and idling needs them off. */
  lemma WhatCanHappen(c: Chip, r: Request, now: IntStatus, status: MachineStatus)
    requires !c.halted
    ensures Enabled(c, DoSchedule(r)) && Enabled(c, DoSetLevel(now))
    ensures Enabled(c, DoInstruction) <==> c.level == IntOn
    ensures Enabled(c, DoIdle) <==> c.level == IntOff
    ensures Enabled(c, DoMode(status)) <==> status != IdleMode
  {
  }

  function Step(h: Handlers, c: Chip, op: Op): (d: Chip) {
    match op
    case DoSchedule(r) => Scheduled(c, r)
    case DoInstruction => Ticked(h, c).0
    case DoSetLevel(now) => LevelSet(h, c, now).0
    case DoIdle => Idled(h, c)
    case DoMode(status) => c.(status := status)
  }

  lemma StepKeeps(h: Handlers, c: Chip, op: Op)
    requires Inv(c) && (c.status == IdleMode ==> c.halted) && Enabled(c, op)
    ensures var d := Step(h, c, op);
            && Inv(d) && (d.status == IdleMode ==> d.halted)
            && c.total <= d.total && c.fired <= d.fired
  {
    hide Conserved, QueueOk, DuePrefix, AllFired, Checked, Inserted;
    match op
    case DoSchedule(r) => ScheduleKeeps(c, r, 0);
    case DoInstruction => OneTickKeeps(h, c);
    case DoSetLevel(now) =>
      var d := c.(level := now);
      SameConserved(c, d);
      if now == IntOn && c.level == IntOff {
        OneTickKeeps(h, d);
      }
    case DoIdle => IdleKeeps(h, c);
    case DoMode(status) => SameConserved(c, c.(status := status));
  }

  predicate Start(c: Chip) {
    c == Chip([], 0, 0, 0, 0, IntOff, SystemMode, false, false, false, [], [])
  }

  lemma StartOk(c: Chip)
    requires Start(c)
    ensures Inv(c) && c.status == SystemMode
  {
  }

  ghost predicate Run(h: Handlers, cs: seq<Chip>, ops: seq<Op>) {
    && |cs| == |ops| + 1
    && Start(cs[0])
    && forall i :: 0 <= i < |ops| ==> Enabled(cs[i], ops[i]) && cs[i + 1] == Step(h, cs[i], ops[i])
  }

  /**
   * Over every run and for any handlers: the queue stays sorted, the clock is
   * the sum of its three parts and never goes back, every handler ran no
   * earlier than its time and at most one system tick after it, and every
   * interrupt ever scheduled is pending or has fired exactly once.
   */
  lemma {:induction false} RunInv(h: Handlers, cs: seq<Chip>, ops: seq<Op>, i: nat, j: nat)
    requires Run(h, cs, ops) && i <= j < |cs|
    ensures Inv(cs[j]) && (cs[j].status == IdleMode ==> cs[j].halted)
    ensures cs[i].total <= cs[j].total && cs[i].fired <= cs[j].fired
    decreases j
  {
    hide Step, Enabled, Inv, Start;
    if j == 0 {
      StartOk(cs[0]);
    } else {
      var k := j - 1;
      RunInv(h, cs, ops, if i < j then i else k, k);
      assert cs[k + 1] == Step(h, cs[k], ops[k]);
      StepKeeps(h, cs[k], ops[k]);
    }
  }

  /** The step is one of those that advance the clock of the running mode. */
  predicate Ticking(c: Chip, op: Op) {
    op.DoInstruction? || (op == DoSetLevel(IntOn) && c.level == IntOff)
  }

  /** How many of the first n steps ticked in system mode, or in user mode. */
  function TickCount(cs: seq<Chip>, ops: seq<Op>, inSystem: bool, n: nat): (k: nat)
    requires n <= |ops| < |cs|
  {
    if n == 0 then 0
    else TickCount(cs, ops, inSystem, n - 1)
         + if Ticking(cs[n - 1], ops[n - 1]) && (cs[n - 1].status == SystemMode) == inSystem then 1 else 0
  }

  /** What one step charges to which clock; the level is what the last change of it asked for. */
  lemma StepCharges(h: Handlers, c: Chip, op: Op)
    requires Inv(c) && (c.status == IdleMode ==> c.halted) && Enabled(c, op)
    ensures var d := Step(h, c, op);
            && d.system == c.system + (if Ticking(c, op) && c.status == SystemMode then 10 else 0)
            && d.user == c.user + (if Ticking(c, op) && c.status != SystemMode then 1 else 0)
            && d.idle == c.idle + (if op.DoIdle? then JumpTime(c) - c.total else 0)
            && (op.DoSetLevel? ==> d.level == op.now)
            && (op.DoMode? ==> d.status == op.status)
  {
    hide Conserved, QueueOk, DuePrefix, AllFired, Checked, Inserted, LogOk;
    match op
    case DoSchedule(_) =>
    case DoInstruction => OneTickKeeps(h, c);
    case DoSetLevel(now) =>
      var d := c.(level := now);
      SameConserved(c, d);
      if now == IntOn && c.level == IntOff {
        OneTickKeeps(h, d);
      }
    case DoIdle => IdleKeeps(h, c);
    case DoMode(_) =>
  }

  /** Over every run: ten ticks of system time for each step that ticks in system mode, and one of user time for
      each that does in user mode. */
  lemma {:induction false} RunTicks(h: Handlers, cs: seq<Chip>, ops: seq<Op>, n: nat)
    requires Run(h, cs, ops) && n <= |ops|
    ensures cs[n].system == 10 * TickCount(cs, ops, true, n) && cs[n].user == TickCount(cs, ops, false, n)
  {
    hide Step, Enabled, Inv;
    if n > 0 {
      var k := n - 1;
      RunTicks(h, cs, ops, k);
      RunInv(h, cs, ops, k, k);
      assert Enabled(cs[k], ops[k]) && cs[k + 1] == Step(h, cs[k], ops[k]);
      StepCharges(h, cs[k], ops[k]);
    }
  }

  /**
   * A run that leaves a due timer behind: a disk interrupt and the timer fall on
   * the same tick, the machine idles, and only the first of them fires.
   */
  lemma IdleLeavesTimer()
    ensures exists h: Handlers, cs: seq<Chip>, ops: seq<Op> ::
              Run(h, cs, ops) && |ops| == 3 && ops[2] == DoIdle && !cs[3].halted && !NothingDue(cs[3])
  {
    hide Idled, EndsInTimer, Scheduled, Inserted, Inv, NothingDue;
    var h: Handlers := (log: seq<Fired>) => Reaction([], false);
    var disk, timer := Request(0, 0, 10, DiskInt), Request(1, 0, 10, TimerInt);
    var c0 := Chip([], 0, 0, 0, 0, IntOff, SystemMode, false, false, false, [], []);
    var c1 := Scheduled(c0, disk);
    var c2 := Scheduled(c1, timer);
    SameTick(c0, disk, timer);
    var cs, ops := [c0, c1, c2, Idled(h, c2)], [DoSchedule(disk), DoSchedule(timer), DoIdle];
    assert Run(h, cs, ops);
    RunInv(h, cs, ops, 2, 2);
    IdleKeeps(h, c2);
    TwoAtOnce(h, c2.pending, c2.fired, 10);
    assert JumpTime(c2) == 10;
    IdleLeavesIff(h, c2);
    assert cs[3] == Idled(h, c2) && !cs[3].halted && !NothingDue(cs[3]);
    assert Run(h, cs, ops) && |ops| == 3 && ops[2] == DoIdle;
  }

  /** Two requests for the same tick are queued in the order in which they were made. */
  lemma SameTick(c: Chip, a: Request, b: Request)
    requires c.pending == [] && a.fromNow == b.fromNow
    ensures var c1 := Scheduled(c, a);
            var c2 := Scheduled(c1, b);
            && SameButQueue(c, c1) && SameButQueue(c, c2)
            && c2.pending
               == [Entry(Occurrence(c, a), c.total + a.fromNow), Entry(Occurrence(c, b), c.total + b.fromNow)]
  {
    var x := Entry(Occurrence(c, a), c.total + a.fromNow);
    var y := Entry(Occurrence(c, b), c.total + b.fromNow);
    InsertedAt([], x, 0);
    InsertedAt([x], y, 1);
  }

  lemma TwoAtOnce(h: Handlers, q: Queue, log: seq<Fired>, t: int)
    requires |q| == 2 && q[0].key == q[1].key == t && q[1].item.kind == TimerInt
    requires forall l :: h(l).requests == []
    ensures EndsInTimer(h, q, log, t)
  {
  }

  // The simulator itself

  class Interrupt {
    const pending: List<PendingInterrupt>
    const handlers: Handlers
    var totalTicks: int
    var idleTicks: int
    var systemTicks: int
    var userTicks: int
    var level: IntStatus
    var status: MachineStatus
    var inHandler: bool
    var yieldOnReturn: bool
    var halted: bool
    /** The handlers invoked so far: what the handlers' own state is a function of. */
    var fired: seq<Fired>
    ghost var asked: seq<PendingInterrupt>

    ghost predicate Valid()
      reads this, pending, pending.spine
    {
      pending.Valid()
    }

    ghost function State(): (c: Chip)
      reads this, pending, pending.spine
    {
      Chip(pending.Contents(), totalTicks, idleTicks, systemTicks, userTicks,
           level, status, inHandler, yieldOnReturn, halted, fired, asked)
    }

    constructor (h: Handlers)
      ensures Valid() && Start(State()) && handlers == h
    {
      pending := new List();
      handlers := h;
      totalTicks, idleTicks, systemTicks, userTicks := 0, 0, 0, 0;
      level := IntOff;
      status := SystemMode;
      inHandler, yieldOnReturn, halted := false, false, false;
      fired, asked := [], [];
    }

    method Schedule(r: Request)
      requires Valid()
      modifies this, pending, pending.spine
      ensures Valid() && State() == Scheduled(old(State()), r)
      ensures forall i :: 0 <= i < |pending.spine| ==>
                  pending.spine[i] in old(pending.spine) || fresh(pending.spine[i])
    {
      var when := totalTicks + r.fromNow;
      var toOccur := PendingInterrupt(r.handler, r.arg, when, r.kind);
      pending.SortedInsert(toOccur, when);
      asked := asked + [toOccur];
    }

    /** The call of a handler: its requests are scheduled one by one. */
    method CallHandler(toOccur: PendingInterrupt)
      requires Valid()
      modifies this, pending, pending.spine
      ensures Valid() && State() == Handled(handlers, old(State()), toOccur)
      ensures forall i :: 0 <= i < |pending.spine| ==>
                  pending.spine[i] in old(pending.spine) || fresh(pending.spine[i])
    {
      hide ScheduledAll;
      fired := fired + [Fired(toOccur, totalTicks)];
      var reaction := handlers(fired);
      yieldOnReturn := yieldOnReturn || reaction.switch;
      ScheduleEach(reaction.requests);
    }

    method ScheduleEach(requests: seq<Request>)
      requires Valid()
      modifies this, pending, pending.spine
      ensures Valid() && State() == ScheduledAll(old(State()), requests)
      ensures forall i :: 0 <= i < |pending.spine| ==>
                  pending.spine[i] in old(pending.spine) || fresh(pending.spine[i])
    {
      hide Scheduled;
      var k := 0;
      while k < |requests|
        invariant 0 <= k <= |requests| && Valid()
        invariant forall i :: 0 <= i < |pending.spine| ==>
                    pending.spine[i] in old(pending.spine) || fresh(pending.spine[i])
        invariant ScheduledAll(State(), requests[k..]) == ScheduledAll(old(State()), requests)
      {
        Schedule(requests[k]);
        assert requests[k..][1..] == requests[k + 1..];
        k := k + 1;
      }
    }

    /** The handler runs in system mode; the mode of the interrupted code is restored after it. */
    method InvokeHandler(toOccur: PendingInterrupt)
      requires Valid() && !inHandler
      modifies this, pending, pending.spine
      ensures Valid() && State() == Handled(handlers, old(State()), toOccur)
      ensures forall i :: 0 <= i < |pending.spine| ==>
                  pending.spine[i] in old(pending.spine) || fresh(pending.spine[i])
    {
      hide Handled;
      var was := status;
      ghost var before := State();
      inHandler := true;
      status := SystemMode;
      CallHandler(toOccur);
      ghost var after := State();
      status := was;
      inHandler := false;
      assert State() == after.(status := was, inHandler := false);
      HandledElsewhere(handlers, before, SystemMode, true, toOccur);
    }

    /** Checks whether there is nothing more to do, and fires the interrupt otherwise. */
    method Occur(toOccur: PendingInterrupt, when: int) returns (any: bool)
      requires Valid() && !inHandler
      modifies this, pending, pending.spine
      ensures Valid() && (State(), any) == TakenOff(handlers, old(State()), Entry(toOccur, when))
      ensures forall i :: 0 <= i < |pending.spine| ==>
                  pending.spine[i] in old(pending.spine) || fresh(pending.spine[i])
    {
      hide Handled, Inserted;
      var empty := pending.IsEmpty();
      if status == IdleMode && toOccur.kind == TimerInt && empty {
        pending.SortedInsert(toOccur, when);
        return false;
      }
      InvokeHandler(toOccur);
      return true;
    }

    method CheckIfDue(advanceClock: bool) returns (any: bool)
      requires Valid() && level == IntOff && !inHandler
      modifies this, pending, pending.spine
      ensures Valid() && (State(), any) == Checked(handlers, old(State()), advanceClock)
      ensures forall i :: 0 <= i < |pending.spine| ==>
                  pending.spine[i] in old(pending.spine) || fresh(pending.spine[i])
    {
      hide TakenOff, Inserted;
      var head := pending.SortedRemove();
      if head.None? {
        return false;
      }
      var when, toOccur := head.value.key, head.value.item;
      assert old(State()).pending[0] == head.value;
      assert old(State()).pending[1..] == State().pending;
      ghost var taken := State();
      if advanceClock && when > totalTicks {
        idleTicks := idleTicks + (when - totalTicks);
        totalTicks := when;
      } else if when > totalTicks {
        pending.SortedInsert(toOccur, when);
        return false;
      }
      assert State() == if when > taken.total then Advanced(taken, when) else taken;
      any := Occur(toOccur, when);
    }

    method FireDue()
      requires Valid() && level == IntOff && !inHandler
      modifies this, pending, pending.spine
      ensures Valid() && State() == AllFired(handlers, old(State()))
      ensures forall i :: 0 <= i < |pending.spine| ==>
                  pending.spine[i] in old(pending.spine) || fresh(pending.spine[i])
    {
      hide Checked, Inserted;
      CheckedFrame(handlers, State());
      CheckLowersDue(handlers, State());
      var any := CheckIfDue(false);
      while any
        invariant Valid() && level == IntOff && !inHandler
        invariant forall i :: 0 <= i < |pending.spine| ==>
                    pending.spine[i] in old(pending.spine) || fresh(pending.spine[i])
        invariant AllFired(handlers, old(State())) == if any then AllFired(handlers, State()) else State()
        decreases any, Due(State().pending, State().total)
      {
        CheckedFrame(handlers, State());
        CheckLowersDue(handlers, State());
        any := CheckIfDue(false);
      }
    }

    method AdvanceTime()
      requires Valid()
      modifies this
      ensures Valid() && State() == ClockTicked(old(State())) && pending.spine == old(pending.spine)
      ensures level == old(level) && inHandler == old(inHandler)
    {
      if status == SystemMode {
        totalTicks := totalTicks + SYSTEM_TICK;
        systemTicks := systemTicks + SYSTEM_TICK;
      } else {
        totalTicks := totalTicks + USER_TICK;
        userTicks := userTicks + USER_TICK;
      }
    }

    /** Up to the optional yield: the result says whether the current thread yields now. */
    method OneTick() returns (switch: bool)
      requires Valid() && level == IntOn && !inHandler
      modifies this, pending, pending.spine
      ensures Valid() && (State(), switch) == Ticked(handlers, old(State()))
      ensures forall i :: 0 <= i < |pending.spine| ==>
                  pending.spine[i] in old(pending.spine) || fresh(pending.spine[i])
    {
      hide AllFired, ClockTicked;
      AdvanceTime();
      level := IntOff;
      FireDue();
      ghost var done := State();
      level := IntOn;
      switch := yieldOnReturn;
      if yieldOnReturn {
        yieldOnReturn := false;
      }
      assert State() == done.(level := IntOn, yieldOnReturn := false);
    }

    /** Handlers may not enable interrupts. */
    method SetLevel(now: IntStatus) returns (was: IntStatus, switch: bool)
      requires Valid() && (now == IntOff || !inHandler)
      modifies this, pending, pending.spine
      ensures Valid() && (State(), switch) == LevelSet(handlers, old(State()), now) && was == old(level)
      ensures forall i :: 0 <= i < |pending.spine| ==>
                  pending.spine[i] in old(pending.spine) || fresh(pending.spine[i])
    {
      hide Ticked;
      was := level;
      level := now;
      switch := false;
      if now == IntOn && was == IntOff {
        switch := OneTick();
      }
    }

    method Idle()
      requires Valid() && level == IntOff && !inHandler
      modifies this, pending, pending.spine
      ensures Valid() && State() == Idled(handlers, old(State()))
      ensures forall i :: 0 <= i < |pending.spine| ==>
                  pending.spine[i] in old(pending.spine) || fresh(pending.spine[i])
    {
      hide Checked, AllFired;
      status := IdleMode;
      CheckedFrame(handlers, State());
      var any := CheckIfDue(true);
      if any {
        FireDue();
        ghost var done := State();
        yieldOnReturn := false;
        status := SystemMode;
        assert State() == done.(yieldOnReturn := false, status := SystemMode);
        return;
      }
      halted := true;
    }
  }

  /** A handler runs in system mode; nothing it does depends on the mode. */
  lemma HandledElsewhere(h: Handlers, c: Chip, status: MachineStatus, inHandler: bool, p: PendingInterrupt)
    ensures Handled(h, c.(status := status, inHandler := inHandler), p)
         == Handled(h, c, p).(status := status, inHandler := inHandler)
    ensures Handled(h, c, p).status == c.status && Handled(h, c, p).inHandler == c.inHandler
  {
    var log := c.fired + [Fired(p, c.total)];
    var d := c.(fired := log, yieldOnReturn := c.yieldOnReturn || h(log).switch);
    ElsewhereAll(d, h(log).requests, status, inHandler);
    ScheduleAllDue(d, h(log).requests);
  }

  lemma {:induction false} ElsewhereAll(c: Chip, rs: seq<Request>, status: MachineStatus, inHandler: bool)
    ensures ScheduledAll(c.(status := status, inHandler := inHandler), rs)
         == ScheduledAll(c, rs).(status := status, inHandler := inHandler)
    decreases |rs|
  {
    if rs != [] {
      ElsewhereAll(Scheduled(c, rs[0]), rs[1..], status, inHandler);
    }
  }

  /** A pass leaves the level, the mode and the handler flag as they were. */
  lemma CheckedFrame(h: Handlers, c: Chip)
    ensures forall advanceClock ::
              var d := Checked(h, c, advanceClock).0;
              d.level == c.level && d.status == c.status && d.inHandler == c.inHandler && d.halted == c.halted
  {
    hide Inserted, ScheduledAll;
    forall advanceClock
      ensures var d := Checked(h, c, advanceClock).0;
              d.level == c.level && d.status == c.status && d.inHandler == c.inHandler && d.halted == c.halted
    {
      if Checked(h, c, advanceClock).1 {
        var e := c.pending[0];
        var a := if e.key > c.total then Advanced(c, e.key) else c;
        var log := a.fired + [Fired(e.item, a.total)];
        ScheduleAllDue(
          a.(pending := a.pending[1..], fired := log, yieldOnReturn := a.yieldOnReturn || h(log).switch),
          h(log).requests);
      }
    }
  }
}
