/**
 * Console output (threads/synchcons.cc, machine/console.cc): any number of
 * threads write lines through a line lock to a device that takes one
 * character at a time and signals each completion by an interrupt.
 *
 * A run interleaves the steps of all writers and the device in any order.
 * A `P` on a semaphore is one step, enabled when the value is positive.
 */
module ConsoleOutput {
  import opened Options
  import opened ConsoleChars

  type Thread = int

  /** Where a writer is inside `Write`. */
  datatype Place = AtLock | AtLoop | AtWait
  datatype Writer = Writer(from: seq<Char>, loop: nat, place: Place)

  /**
   * `order` and `returned` are histories: the buffers in the order in which
   * their writers took the line lock, and how many of them have returned.
   * `holder` names the writer that took the lock last and has not freed it.
   */
  datatype State = State(
    writers: map<Thread, Writer>,
    lineBlock: nat, writeAvail: nat,
    putBusy: bool, completions: nat, output: seq<Char>,
    holder: Option<Thread>, order: seq<seq<Char>>, returned: nat)

  datatype Step =
    | Call(t: Thread, from: seq<Char>)
    | TakeLine(t: Thread)
    | PutChar(t: Thread)
    | AwaitDone(t: Thread)
    | FreeLine(t: Thread)
    | WriteDone

  predicate At(s: State, t: Thread, place: Place) {
    t in s.writers && s.writers[t].place == place
  }

  predicate Enabled(s: State, step: Step) {
    match step
    case Call(t, _) => t !in s.writers
    case TakeLine(t) => At(s, t, AtLock) && s.lineBlock > 0
    case PutChar(t) => At(s, t, AtLoop) && s.writers[t].loop < |s.writers[t].from|
    case AwaitDone(t) => At(s, t, AtWait) && s.writeAvail > 0
    case FreeLine(t) => At(s, t, AtLoop) && s.writers[t].loop >= |s.writers[t].from|
    case WriteDone => s.completions > 0
  }

  function Next(s: State, step: Step): (r: State)
    requires Enabled(s, step)
  {
    match step
    case Call(t, from) =>
      s.(writers := s.writers[t := Writer(from, 0, AtLock)])
    case TakeLine(t) =>
      s.(lineBlock := s.lineBlock - 1,
         writers := s.writers[t := s.writers[t].(place := AtLoop)],
         holder := Some(t), order := s.order + [s.writers[t].from])
    case PutChar(t) =>
      // the device asserts that it is not busy; that it never is here is proved of every run
      s.(output := s.output + [s.writers[t].from[s.writers[t].loop]],
         putBusy := true, completions := s.completions + 1,
         writers := s.writers[t := s.writers[t].(place := AtWait)])
    case AwaitDone(t) =>
      var w := s.writers[t];
      s.(writeAvail := s.writeAvail - 1,
         writers := s.writers[t := w.(loop := w.loop + 1, place := AtLoop)])
    case FreeLine(t) =>
      s.(lineBlock := s.lineBlock + 1, writers := s.writers - {t}, holder := None, returned := s.returned + 1)
    case WriteDone =>
      s.(completions := s.completions - 1, putBusy := false, writeAvail := s.writeAvail + 1)
  }

  predicate Start(s: State) {
    s == State(map[], 1, 0, false, 0, [], None, [], 0)
  }

  // The invariant

  /** How many characters of its buffer the writer has handed to the device. */
  function Sent(w: Writer): (n: nat) {
    if w.place == AtWait then w.loop + 1 else w.loop
  }

  /** Exactly the holder is between taking and freeing the line. */
  ghost predicate OneHolder(s: State) {
    && (forall t :: t in s.writers ==> (s.writers[t].place != AtLock <==> s.holder == Some(t)))
    && (s.holder.Some? ==> s.holder.value in s.writers)
    && s.lineBlock == (if s.holder.Some? then 0 else 1)
  }

  /** A character is in flight exactly while the holder waits and has not been signalled. */
  predicate DeviceOk(s: State) {
    if s.holder.Some? && At(s, s.holder.value, AtWait) then
      s.completions + s.writeAvail == 1 && (s.putBusy <==> s.completions == 1)
    else
      s.completions == 0 && s.writeAvail == 0 && !s.putBusy
  }

  predicate OutputOk(s: State) {
    && |s.order| == s.returned + (if s.holder.Some? then 1 else 0)
    && (s.holder.None? ==> s.output == Concat(s.order))
    && (s.holder.Some? && s.holder.value in s.writers ==>
          var w := s.writers[s.holder.value];
          && Sent(w) <= |w.from|
          && s.order[s.returned] == w.from
          && s.output == Concat(s.order[..s.returned]) + w.from[..Sent(w)])
  }

  ghost predicate Inv(s: State) {
    && OneHolder(s) && DeviceOk(s) && OutputOk(s)
    && forall t :: t in s.writers && s.writers[t].place == AtLock ==> s.writers[t].loop == 0
  }

  lemma StepKeeps(s: State, step: Step)
    requires Inv(s) && Enabled(s, step)
    ensures Inv(Next(s, step))
  {
    hide Concat;
    match step
    case Call(t, from) =>
    case TakeLine(t) =>
      var w := s.writers[t];
      assert (s.order + [w.from])[..s.returned] == s.order;
    case PutChar(t) =>
      var w := s.writers[t];
      assert w.from[..w.loop + 1] == w.from[..w.loop] + [w.from[w.loop]];
    case AwaitDone(t) =>
    case FreeLine(t) =>
      var w := s.writers[t];
      assert w.from[..w.loop] == w.from;
      ConcatSnoc(s.order[..s.returned], w.from);
      assert s.order == s.order[..s.returned] + [w.from];
    case WriteDone =>
  }

  ghost predicate Run(ss: seq<State>, steps: seq<Step>) {
    && |ss| == |steps| + 1
    && Start(ss[0])
    && forall i :: 0 <= i < |steps| ==> Enabled(ss[i], steps[i]) && ss[i + 1] == Next(ss[i], steps[i])
  }

  lemma {:induction false} RunInv(ss: seq<State>, steps: seq<Step>, i: nat)
    requires Run(ss, steps) && i < |ss|
    ensures Inv(ss[i])
  {
    if i > 0 {
      hide Inv, Next, Start;
      var k := i - 1;
      RunInv(ss, steps, k);
      assert ss[k + 1] == Next(ss[k], steps[k]);
      StepKeeps(ss[k], steps[k]);
    }
  }

  // The run's history, read off its steps alone.

  /** The buffer that thread t passed to its latest call of Write. */
  function LastCall(steps: seq<Step>, t: Thread, n: nat): (from: seq<Char>)
    requires n <= |steps|
  {
    if n == 0 then []
    else if steps[n - 1].Call? && steps[n - 1].t == t then steps[n - 1].from
    else LastCall(steps, t, n - 1)
  }

  /** The buffers of the calls that took the line, in the order in which they took it. */
  function LineOrder(steps: seq<Step>, n: nat): (bufs: seq<seq<Char>>)
    requires n <= |steps|
  {
    if n == 0 then []
    else LineOrder(steps, n - 1)
         + if steps[n - 1].TakeLine? then [LastCall(steps, steps[n - 1].t, n - 1)] else []
  }

  /** How many calls have returned. */
  function Returns(steps: seq<Step>, n: nat): (c: nat)
    requires n <= |steps|
  {
    if n == 0 then 0 else Returns(steps, n - 1) + if steps[n - 1].FreeLine? then 1 else 0
  }

  /** Every writer writes the buffer it was given, and the state's history is the run's. */
  lemma {:induction false} HistoryIsSteps(ss: seq<State>, steps: seq<Step>, n: nat)
    requires Run(ss, steps) && n <= |steps|
    ensures forall t :: t in ss[n].writers ==> ss[n].writers[t].from == LastCall(steps, t, n)
    ensures ss[n].order == LineOrder(steps, n) && ss[n].returned == Returns(steps, n)
  {
    if n > 0 {
      var k := n - 1;
      HistoryIsSteps(ss, steps, k);
      assert Enabled(ss[k], steps[k]) && ss[k + 1] == Next(ss[k], steps[k]);
    }
  }

  /**
   * For any set of writers and any interleaving: the assertion in `PutChar`
   * never fails, and what the device has shown is the whole buffers passed to the
   * calls that returned, in the order in which these took the line, followed by a
   * prefix of the buffer passed to the one call inside.
   */
  lemma WholeLines(ss: seq<State>, steps: seq<Step>, i: nat)
    requires Run(ss, steps) && i <= |steps|
    ensures var lines, returned := LineOrder(steps, i), Returns(steps, i);
            && (i < |steps| && steps[i].PutChar? ==> !ss[i].putBusy)
            && returned <= |lines| <= returned + 1
            && (|lines| == returned ==> ss[i].output == Concat(lines))
            && (|lines| > returned ==>
                  exists n :: 0 <= n <= |lines[returned]|
                              && ss[i].output == Concat(lines[..returned]) + lines[returned][..n])
  {
    RunInv(ss, steps, i);
    HistoryIsSteps(ss, steps, i);
    var s := ss[i];
    hide Concat;
    if s.holder.Some? {
      var w := s.writers[s.holder.value];
      assert s.order[s.returned][..Sent(w)] == w.from[..Sent(w)];
    }
  }

  /** How many characters the device has been given, and how many it has reported done. */
  function PutCount(steps: seq<Step>, n: nat): (c: nat)
    requires n <= |steps|
  {
    if n == 0 then 0 else PutCount(steps, n - 1) + if steps[n - 1].PutChar? then 1 else 0
  }

  function DoneCount(steps: seq<Step>, n: nat): (c: nat)
    requires n <= |steps|
  {
    if n == 0 then 0 else DoneCount(steps, n - 1) + if steps[n - 1].WriteDone? then 1 else 0
  }

  /** The device is busy exactly while one character more was put than done, and it shows one for each put. */
  lemma {:induction false} BusyIsInFlight(ss: seq<State>, steps: seq<Step>, n: nat)
    requires Run(ss, steps) && n <= |steps|
    ensures DoneCount(steps, n) <= PutCount(steps, n) <= DoneCount(steps, n) + 1
    ensures ss[n].putBusy <==> PutCount(steps, n) == DoneCount(steps, n) + 1
    ensures ss[n].completions == PutCount(steps, n) - DoneCount(steps, n)
    ensures |ss[n].output| == PutCount(steps, n)
  {
    if n > 0 {
      var k := n - 1;
      BusyIsInFlight(ss, steps, k);
      RunInv(ss, steps, k);
      RunInv(ss, steps, n);
      assert Enabled(ss[k], steps[k]) && ss[k + 1] == Next(ss[k], steps[k]);
      hide OutputOk, Inv, Start;
      DeviceInv(ss[k]);
      DeviceInv(ss[n]);
    }
  }

  lemma DeviceInv(s: State)
    requires Inv(s)
    ensures s.completions <= 1 && (s.putBusy <==> s.completions == 1)
  {
  }

  /** Whenever a writer puts a character the device is idle: every character put before is done. */
  lemma PutCharMeetsIdleDevice(ss: seq<State>, steps: seq<Step>, n: nat)
    requires Run(ss, steps) && n < |steps| && steps[n].PutChar?
    ensures !ss[n].putBusy && PutCount(steps, n) == DoneCount(steps, n)
  {
    RunInv(ss, steps, n);
    BusyIsInFlight(ss, steps, n);
    assert Enabled(ss[n], steps[n]);
  }

  /** No reachable state with an unfinished writer is stuck. */
  lemma NeverStuck(s: State, t: Thread)
    requires Inv(s) && t in s.writers
    ensures exists step: Step :: !step.Call? && Enabled(s, step)
  {
    hide OutputOk;
    if s.holder.None? {
      assert Enabled(s, TakeLine(t));
    } else {
      var u := s.holder.value;
      if s.writers[u].place == AtLoop {
        assert Enabled(s, PutChar(u)) || Enabled(s, FreeLine(u));
      } else {
        assert Enabled(s, AwaitDone(u)) || Enabled(s, WriteDone);
      }
    }
  }

  /**
   * While one writer is inside, the others can only queue for the line: no
   * other thread's step changes the output or the device.
   */
  lemma OthersWait(s: State, step: Step, t: Thread)
    requires Inv(s) && s.holder == Some(t) && Enabled(s, step)
    requires !step.WriteDone? && step.t != t
    ensures step.Call?
    ensures Next(s, step).output == s.output && Next(s, step).putBusy == s.putBusy
    ensures Next(s, step).holder == s.holder && Next(s, step).writers[t] == s.writers[t]
  {
  }
}
