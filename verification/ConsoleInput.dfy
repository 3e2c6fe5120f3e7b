/**
 * Console input (threads/synchcons.cc, machine/console.cc): any number of
 * threads read lines through a line lock from a device that buffers one
 * character, polled by an interrupt and signalled through a semaphore.
 *
 * A run interleaves the keyboard, the polls and the steps of all readers in
 * any order. A character is a signed byte; -1 is both EOF and the byte 0xFF,
 * which the keyboard is taken not to send.
 */
module ConsoleInput {
  import opened Options
  import opened ConsoleChars

  type Thread = int
  const EOF: Char := -1
  const NEWLINE: Char := 10
  const CTRL_A: Char := 1

  predicate Terminator(c: Char) { c == NEWLINE || c == CTRL_A }

  datatype Place = AtLock | AtLoop | AtGet

  /** A thread inside `Read`. `ch` starts as `garbage`; `raw` is what it has consumed. */
  datatype Reader = Reader(
    limit: int, garbage: Char,
    into: seq<Char>, loop: nat, eoln: bool, ch: Char, place: Place, raw: seq<Char>)

  /** A `Read` that returned: its arguments, what it consumed, its buffer and its result. */
  datatype Done = Done(limit: int, garbage: Char, raw: seq<Char>, into: seq<Char>, result: int)

  /**
   * `typed` is everything the keyboard has sent and `rest` the part the device
   * has not taken. `order` lists the limits of the reads in the order in which
   * they took the line lock.
   */
  datatype State = State(
    readers: map<Thread, Reader>,
    lineBlock: nat, readAvail: nat,
    incoming: Char, rest: seq<Char>, typed: seq<Char>,
    holder: Option<Thread>, order: seq<int>, done: seq<Done>)

  datatype Step =
    | Type(c: Char)
    | Poll
    | Call(t: Thread, limit: int, garbage: Char)
    | TakeLine(t: Thread)
    | AwaitChar(t: Thread)
    | GetChar(t: Thread)
    | FreeLine(t: Thread)

  predicate At(s: State, t: Thread, place: Place) {
    t in s.readers && s.readers[t].place == place
  }

  predicate Goes(r: Reader) { r.loop < r.limit && !r.eoln }

  predicate Enabled(s: State, step: Step) {
    match step
    case Type(c) => c != EOF
    case Poll => true
    case Call(t, _, _) => t !in s.readers
    case TakeLine(t) => At(s, t, AtLock) && s.lineBlock > 0
    case AwaitChar(t) => At(s, t, AtLoop) && Goes(s.readers[t]) && s.readAvail > 0
    case GetChar(t) => At(s, t, AtGet)
    case FreeLine(t) => At(s, t, AtLoop) && !Goes(s.readers[t])
  }

  /** What a reader does with the character it got; EOF means: wait again. */
  function Take(r: Reader, ch: Char): (n: Reader) {
    if ch == EOF then
      r.(ch := ch, place := AtLoop)
    else if Terminator(ch) then
      r.(ch := ch, place := AtLoop, raw := r.raw + [ch], eoln := true)
    else
      r.(ch := ch, place := AtLoop, raw := r.raw + [ch], loop := r.loop + 1,
         into := if r.loop < |r.into| then r.into[r.loop := ch] else r.into)
  }

  function Result(r: Reader): (n: int) {
    if r.ch == CTRL_A && r.loop == 0 then -1 else r.loop
  }

  function Zeros(n: int): (z: seq<Char>)
    ensures |z| == if n > 0 then n else 0
    ensures forall i :: 0 <= i < |z| ==> z[i] == 0
  {
    if n <= 0 then [] else [0] + Zeros(n - 1)
  }

  function Next(s: State, step: Step): (n: State)
    requires Enabled(s, step)
  {
    match step
    case Type(c) =>
      s.(rest := s.rest + [c], typed := s.typed + [c])
    case Poll =>
      if s.incoming != EOF || s.rest == [] then s
      else s.(incoming := s.rest[0], rest := s.rest[1..], readAvail := s.readAvail + 1)
    case Call(t, limit, garbage) =>
      s.(readers := s.readers[t := Reader(limit, garbage, Zeros(limit), 0, false, garbage, AtLock, [])])
    case TakeLine(t) =>
      s.(lineBlock := s.lineBlock - 1,
         readers := s.readers[t := s.readers[t].(place := AtLoop)],
         holder := Some(t), order := s.order + [s.readers[t].limit])
    case AwaitChar(t) =>
      s.(readAvail := s.readAvail - 1, readers := s.readers[t := s.readers[t].(place := AtGet)])
    case GetChar(t) =>
      s.(incoming := EOF, readers := s.readers[t := Take(s.readers[t], s.incoming)])
    case FreeLine(t) =>
      var r := s.readers[t];
      s.(lineBlock := s.lineBlock + 1, readers := s.readers - {t}, holder := None,
         done := s.done + [Done(r.limit, r.garbage, r.raw, r.into, Result(r))])
  }

  predicate Start(s: State) {
    s == State(map[], 1, 0, EOF, [], [], None, [], [])
  }

  // One read as a function of the stream

  /** What one read of at most `limit` characters consumes of a stream. */
  function Line(s: seq<Char>, limit: int): (l: seq<Char>)
    ensures l <= s
    decreases |s|
  {
    if limit <= 0 || s == [] then []
    else if Terminator(s[0]) then [s[0]]
    else [s[0]] + Line(s[1..], limit - 1)
  }

  /** A read goes on past every character but a newline and control-A, as long as it has room. */
  lemma LineIs(c: Char, s: seq<Char>, limit: int)
    ensures Line([c] + s, limit)
            == if limit <= 0 then [] else if c == 10 || c == 1 then [c] else [c] + Line(s, limit - 1)
  {
    assert ([c] + s)[1..] == s;
  }

  /** What consecutive reads consume. */
  function Lines(s: seq<Char>, limits: seq<int>): (ls: seq<seq<Char>>)
    decreases |limits|
  {
    if limits == [] then []
    else var l := Line(s, limits[0]); [l] + Lines(s[|l|..], limits[1..])
  }

  function Body(raw: seq<Char>): (b: seq<Char>) {
    if raw != [] && Terminator(raw[|raw| - 1]) then raw[..|raw| - 1] else raw
  }

  /** `raw` stops at its length limit or just after its one terminator. */
  ghost predicate Complete(raw: seq<Char>, limit: int) {
    && (forall i :: 0 <= i < |Body(raw)| ==> !Terminator(Body(raw)[i]))
    && (Body(raw) != raw ==> |Body(raw)| < limit)
    && (Body(raw) == raw ==> |raw| == if limit > 0 then limit else 0)
  }

  /** Such a chunk is what one read takes, whatever follows it. */
  lemma {:induction false} LineOfComplete(raw: seq<Char>, more: seq<Char>, limit: int)
    requires Complete(raw, limit)
    ensures Line(raw + more, limit) == raw
    decreases |raw|
  {
    if raw != [] && limit > 0 {
      CompleteTail(raw, limit);
      hide Complete;
      assert (raw + more)[0] == raw[0] && (raw + more)[1..] == raw[1..] + more;
      if !Terminator(raw[0]) {
        LineOfComplete(raw[1..], more, limit - 1);
      }
    }
  }

  lemma CompleteTail(raw: seq<Char>, limit: int)
    requires Complete(raw, limit) && raw != [] && limit > 0
    ensures if Terminator(raw[0]) then |raw| == 1 else Complete(raw[1..], limit - 1)
  {
    assert Body(raw) != [] ==> Body(raw)[0] == raw[0];
    if !Terminator(raw[0]) {
      var tail := raw[1..];
      assert Body(raw) == [raw[0]] + Body(tail);
      assert forall i :: 0 <= i < |Body(tail)| ==> Body(tail)[i] == Body(raw)[i + 1];
    }
  }

  function Raws(done: seq<Done>): (r: seq<seq<Char>>)
    ensures |r| == |done|
  {
    seq(|done|, i requires 0 <= i < |done| => done[i].raw)
  }

  lemma {:induction false} LinesOfComplete(raws: seq<seq<Char>>, limits: seq<int>, more: seq<Char>)
    requires |raws| == |limits| && forall i :: 0 <= i < |raws| ==> Complete(raws[i], limits[i])
    ensures Lines(Concat(raws) + more, limits) == raws
    decreases |raws|
  {
    hide Complete, Line;
    if raws != [] {
      var after := Concat(raws[1..]) + more;
      assert Concat(raws) + more == raws[0] + after;
      LineOfComplete(raws[0], after, limits[0]);
      assert (raws[0] + after)[|raws[0]|..] == after;
      LinesOfComplete(raws[1..], limits[1..], more);
    }
  }

  // The invariant

  ghost predicate OneHolder(s: State) {
    && (forall t :: t in s.readers ==> (s.readers[t].place != AtLock <==> s.holder == Some(t)))
    && (s.holder.Some? ==> s.holder.value in s.readers)
    && s.lineBlock == (if s.holder.Some? then 0 else 1)
  }

  /** The device holds a character exactly when one signal is outstanding. */
  predicate SignalOk(s: State) {
    s.readAvail + (if s.holder.Some? && At(s, s.holder.value, AtGet) then 1 else 0)
    == if s.incoming == EOF then 0 else 1
  }

  function Held(s: State): (h: seq<Char>) { if s.incoming == EOF then [] else [s.incoming] }

  function Current(s: State): (c: seq<Char>) {
    if s.holder.Some? && s.holder.value in s.readers then s.readers[s.holder.value].raw else []
  }

  /** Nothing typed is lost, duplicated or reordered. */
  predicate StreamOk(s: State) {
    && s.typed == Concat(Raws(s.done)) + Current(s) + Held(s) + s.rest
    && (forall i :: 0 <= i < |s.rest| ==> s.rest[i] != EOF)
  }

  /** What has been consumed is in the buffer, the rest of which is zero. */
  ghost predicate ReaderOk(r: Reader) {
    && |r.into| == (if r.limit > 0 then r.limit else 0)
    && r.loop <= |r.into|
    && r.raw == r.into[..r.loop] + (if r.eoln then [r.ch] else [])
    && (forall i :: 0 <= i < r.loop ==> !Terminator(r.into[i]))
    && (forall i :: r.loop <= i < |r.into| ==> r.into[i] == 0)
    && (r.eoln ==> Terminator(r.ch) && r.loop < r.limit)
    && r.ch == (if r.raw == [] then r.garbage else r.raw[|r.raw| - 1])
    && (r.place == AtLock ==> r.raw == [])
    && (r.place == AtGet ==> Goes(r))
  }

  /** The last character read, or what the variable held before. */
  function LastChar(d: Done): (c: Char) { if d.raw == [] then d.garbage else d.raw[|d.raw| - 1] }

  ghost predicate DoneOk(d: Done) {
    && Complete(d.raw, d.limit)
    && |Body(d.raw)| <= |d.into|
    && d.into == Body(d.raw) + Zeros(d.limit - |Body(d.raw)|)
    && d.result == if LastChar(d) == CTRL_A && Body(d.raw) == [] then -1 else |Body(d.raw)|
  }

  ghost predicate OrderOk(s: State) {
    && |s.order| == |s.done| + (if s.holder.Some? then 1 else 0)
    && (forall i :: 0 <= i < |s.done| ==> s.done[i].limit == s.order[i])
    && (s.holder.Some? && s.holder.value in s.readers ==>
          s.order[|s.done|] == s.readers[s.holder.value].limit)
  }

  ghost predicate Inv(s: State) {
    && OneHolder(s) && SignalOk(s) && StreamOk(s) && OrderOk(s)
    && (forall t :: t in s.readers ==> ReaderOk(s.readers[t]))
    && (forall i :: 0 <= i < |s.done| ==> DoneOk(s.done[i]))
  }

  lemma TakeKeeps(r: Reader, ch: Char)
    requires ReaderOk(r) && r.place == AtGet && ch != EOF
    ensures ReaderOk(Take(r, ch)) && Take(r, ch).raw == r.raw + [ch]
  {
    if !Terminator(ch) {
      var n := Take(r, ch);
      assert n.into[..n.loop] == r.into[..r.loop] + [ch];
    }
  }

  lemma FinishedOk(r: Reader)
    requires ReaderOk(r) && !Goes(r)
    ensures DoneOk(Done(r.limit, r.garbage, r.raw, r.into, Result(r)))
  {
    if r.eoln {
      assert Body(r.raw) == r.into[..r.loop];
    } else {
      assert r.raw == r.into[..r.loop] == r.into;
      assert Body(r.raw) == r.raw;
    }
    assert r.into == r.into[..r.loop] + r.into[r.loop..];
    assert r.into[r.loop..] == Zeros(r.limit - r.loop);
  }

  lemma GetKeeps(s: State, t: Thread)
    requires Inv(s) && Enabled(s, GetChar(t))
    ensures Inv(Next(s, GetChar(t)))
  {
    hide ReaderOk, DoneOk, Concat, Take;
    assert s.holder == Some(t) && s.incoming != EOF;
    TakeKeeps(s.readers[t], s.incoming);
    TakeFrame(s.readers[t], s.incoming);
    var n := Next(s, GetChar(t));
    assert n.readers[t].place == AtLoop;
    assert Current(n) == Current(s) + Held(s);
  }

  lemma TakeFrame(r: Reader, ch: Char)
    ensures Take(r, ch).place == AtLoop && Take(r, ch).limit == r.limit
  {
  }

  lemma FreeKeeps(s: State, t: Thread)
    requires Inv(s) && Enabled(s, FreeLine(t))
    ensures Inv(Next(s, FreeLine(t)))
  {
    hide ReaderOk, DoneOk, Concat;
    FinishedOk(s.readers[t]);
    var n := Next(s, FreeLine(t));
    assert Raws(n.done) == Raws(s.done) + [s.readers[t].raw];
    ConcatSnoc(Raws(s.done), s.readers[t].raw);
  }

  /** Calling, taking the line and passing the semaphore move a reader and nothing it has stored. */
  lemma MoveKeeps(s: State, step: Step)
    requires Inv(s) && Enabled(s, step) && (step.Call? || step.TakeLine? || step.AwaitChar?)
    ensures Inv(Next(s, step))
  {
    hide ReaderOk, DoneOk, Concat, Zeros;
    MovedOk(s, step);
  }

  lemma MovedOk(s: State, step: Step)
    requires Inv(s) && Enabled(s, step) && (step.Call? || step.TakeLine? || step.AwaitChar?)
    ensures ReaderOk(Next(s, step).readers[step.t])
    ensures step.Call? || step.TakeLine? ==> Next(s, step).readers[step.t].raw == []
  {
    hide StreamOk, OrderOk, DoneOk;
  }

  lemma StepKeeps(s: State, step: Step)
    requires Inv(s) && Enabled(s, step)
    ensures Inv(Next(s, step))
  {
    hide ReaderOk, DoneOk, Concat, Take;
    match step
    case Type(c) =>
    case Poll => PollKeeps(s);
    case Call(_, _, _) => MoveKeeps(s, step);
    case TakeLine(_) => MoveKeeps(s, step);
    case AwaitChar(_) => MoveKeeps(s, step);
    case GetChar(t) => GetKeeps(s, t);
    case FreeLine(t) => FreeKeeps(s, t);
  }

  lemma PollKeeps(s: State)
    requires Inv(s)
    ensures Inv(Next(s, Poll))
  {
    hide ReaderOk, DoneOk, Concat;
    var n := Next(s, Poll);
    if s.incoming == EOF && s.rest != [] {
      assert Held(n) + n.rest == s.rest;
    }
  }

  // Runs

  ghost predicate Run(ss: seq<State>, steps: seq<Step>) {
    && |ss| == |steps| + 1
    && Start(ss[0])
    && forall i :: 0 <= i < |steps| ==> Enabled(ss[i], steps[i]) && ss[i + 1] == Next(ss[i], steps[i])
  }

  lemma {:induction false} RunInv(ss: seq<State>, steps: seq<Step>, i: nat)
    requires Run(ss, steps) && i < |ss|
    ensures Inv(ss[i])
  {
    if i > 0 {
      hide Inv, Next, Start;
      var k := i - 1;
      RunInv(ss, steps, k);
      assert ss[k + 1] == Next(ss[k], steps[k]);
      StepKeeps(ss[k], steps[k]);
    }
  }

  // The run's history, read off its steps alone.

  /** Everything the keyboard has sent. */
  function TypedIn(steps: seq<Step>, n: nat): (typed: seq<Char>)
    requires n <= |steps|
  {
    if n == 0 then [] else TypedIn(steps, n - 1) + if steps[n - 1].Type? then [steps[n - 1].c] else []
  }

  /** The limit and the garbage with which thread t entered its latest call of Read. */
  function LastCall(steps: seq<Step>, t: Thread, n: nat): (r: (int, Char))
    requires n <= |steps|
  {
    if n == 0 then (0, 0)
    else if steps[n - 1].Call? && steps[n - 1].t == t then (steps[n - 1].limit, steps[n - 1].garbage)
    else LastCall(steps, t, n - 1)
  }

  /** The calls that took the line, in the order in which they took it. */
  function LineOrder(steps: seq<Step>, n: nat): (calls: seq<(int, Char)>)
    requires n <= |steps|
  {
    if n == 0 then []
    else LineOrder(steps, n - 1)
         + if steps[n - 1].TakeLine? then [LastCall(steps, steps[n - 1].t, n - 1)] else []
  }

  function Limits(calls: seq<(int, Char)>): (limits: seq<int>)
    ensures |limits| == |calls|
  {
    seq(|calls|, i requires 0 <= i < |calls| => calls[i].0)
  }

  /** How many calls have returned. */
  function Returns(steps: seq<Step>, n: nat): (c: nat)
    requires n <= |steps|
  {
    if n == 0 then 0 else Returns(steps, n - 1) + if steps[n - 1].FreeLine? then 1 else 0
  }

  /** The finished reads, and the one inside, are the calls that took the line. */
  ghost predicate ServesCalls(s: State, calls: seq<(int, Char)>) {
    && |s.done| <= |calls|
    && (forall i :: 0 <= i < |s.done| ==> (s.done[i].limit, s.done[i].garbage) == calls[i])
    && (s.holder.Some? ==> |calls| == |s.done| + 1 && s.holder.value in s.readers
                           && (var r := s.readers[s.holder.value]; (r.limit, r.garbage) == calls[|s.done|]))
    && (s.holder.None? ==> |calls| == |s.done|)
  }

  lemma {:induction false} HistoryIsSteps(ss: seq<State>, steps: seq<Step>, n: nat)
    requires Run(ss, steps) && n <= |steps|
    ensures forall t :: t in ss[n].readers ==>
                          (ss[n].readers[t].limit, ss[n].readers[t].garbage) == LastCall(steps, t, n)
    ensures ss[n].typed == TypedIn(steps, n) && |ss[n].done| == Returns(steps, n)
    ensures ss[n].order == Limits(LineOrder(steps, n)) && ServesCalls(ss[n], LineOrder(steps, n))
  {
    if n > 0 {
      hide Inv, Next, ServesCalls, Start, Enabled;
      var k := n - 1;
      HistoryIsSteps(ss, steps, k);
      RunInv(ss, steps, k);
      assert Enabled(ss[k], steps[k]) && ss[k + 1] == Next(ss[k], steps[k]);
      forall t | t in ss[n].readers
        ensures Args(ss[n], t) == LastCall(steps, t, n)
      {
        ArgsKept(ss[k], steps[k], t);
      }
      var t := if steps[k].TakeLine? then steps[k].t else 0;
      StepHistory(ss[k], steps[k], LineOrder(steps, k), LastCall(steps, t, k));
    }
  }

  /** What a thread inside Read was called with. */
  function Args(s: State, t: Thread): (r: (int, Char))
    requires t in s.readers
  {
    (s.readers[t].limit, s.readers[t].garbage)
  }

  lemma ArgsKept(s: State, step: Step, t: Thread)
    requires Enabled(s, step) && t in Next(s, step).readers
    ensures if step.Call? && step.t == t then Args(Next(s, step), t) == (step.limit, step.garbage)
            else t in s.readers && Args(Next(s, step), t) == Args(s, t)
  {
  }

  lemma StepHistory(s: State, step: Step, calls: seq<(int, Char)>, last: (int, Char))
    requires Inv(s) && Enabled(s, step) && ServesCalls(s, calls) && s.order == Limits(calls)
    requires step.TakeLine? ==> Args(s, step.t) == last
    ensures var calls', s' := calls + (if step.TakeLine? then [last] else []), Next(s, step);
            && ServesCalls(s', calls') && s'.order == Limits(calls')
            && s'.typed == s.typed + (if step.Type? then [step.c] else [])
            && |s'.done| == |s.done| + if step.FreeLine? then 1 else 0
  {
    hide Inv, Zeros, Result;
    OneInside(s, step);
  }

  /** Only the holder is past the lock, and only with the line free is it taken. */
  lemma OneInside(s: State, step: Step)
    requires Inv(s) && Enabled(s, step)
    ensures step.AwaitChar? || step.GetChar? || step.FreeLine? ==> s.holder == Some(step.t)
    ensures step.TakeLine? ==> s.holder.None?
    ensures step.Call? ==> s.holder != Some(step.t)
  {
    hide StreamOk, OrderOk, ReaderOk, DoneOk;
  }

  /**
   * For any readers and any interleaving: at most one signal is outstanding;
   * the characters typed are those consumed by the finished reads, then by the
   * read inside, then the device's and those still to come; and the finished
   * reads consumed exactly what the same calls would consume one after the
   * other, in the order in which they took the line.
   */
  lemma ReadsAreSerial(ss: seq<State>, steps: seq<Step>, i: nat)
    requires Run(ss, steps) && i <= |steps|
    ensures var s, calls := ss[i], LineOrder(steps, i);
            && s.readAvail <= 1
            && TypedIn(steps, i) == Concat(Raws(s.done)) + Current(s) + Held(s) + s.rest
            && |s.done| == Returns(steps, i) <= |calls|
            && (forall k :: 0 <= k < |s.done| ==> (s.done[k].limit, s.done[k].garbage) == calls[k])
            && Raws(s.done) == Lines(TypedIn(steps, i), Limits(calls)[..|s.done|])
  {
    assert i < |ss|;
    hide Run, Inv;
    RunInv(ss, steps, i);
    HistoryIsSteps(ss, steps, i);
    SerialIn(ss[i]);
  }

  lemma SerialIn(s: State)
    requires Inv(s)
    ensures s.readAvail <= 1 && s.typed == Concat(Raws(s.done)) + Current(s) + Held(s) + s.rest
    ensures |s.done| <= |s.order| && Raws(s.done) == Lines(s.typed, s.order[..|s.done|])
  {
    hide Concat, Lines, Complete, ReaderOk, OneHolder, Body, Zeros;
    var more := Current(s) + Held(s) + s.rest;
    assert s.typed == Concat(Raws(s.done)) + more;
    forall i | 0 <= i < |s.done|
      ensures Complete(Raws(s.done)[i], s.order[i])
    {
      assert DoneOk(s.done[i]);
    }
    LinesOfComplete(Raws(s.done), s.order[..|s.done|], more);
  }

  /**
   * A finished read stored its chunk without the terminator, padded with
   * zeros. With room for a character it returns -1 exactly when the chunk is a
   * lone control-A; without, exactly when the uninitialised variable held one.
   */
  lemma ReadReturns(ss: seq<State>, steps: seq<Step>, i: nat, k: nat)
    requires Run(ss, steps) && i < |ss| && k < |ss[i].done|
    ensures var d := ss[i].done[k];
            && Complete(d.raw, d.limit)
            && d.into == Body(d.raw) + Zeros(d.limit - |Body(d.raw)|)
            && (d.result != -1 ==> d.result == |Body(d.raw)|)
            && (d.limit > 0 ==> (d.result == -1 <==> d.raw == [CTRL_A]))
            && (d.limit <= 0 ==> (d.result == -1 <==> d.garbage == CTRL_A))
  {
    RunInv(ss, steps, i);
    var d := ss[i].done[k];
    assert DoneOk(d);
    if d.limit > 0 {
      assert d.raw != [];
      if d.result == -1 {
        assert d.raw[|d.raw| - 1] == CTRL_A;
        assert d.raw == Body(d.raw) + [CTRL_A];
      }
    }
  }

  /** A run in which a read of no characters returns -1, as if the input had ended. */
  lemma EmptyReadFails()
    ensures exists ss: seq<State>, steps: seq<Step> ::
              Run(ss, steps) && |ss| == 4 && |ss[3].done| == 1 && ss[3].done[0].limit == 0 && ss[3].done[0].result == -1
  {
    var s0 := State(map[], 1, 0, EOF, [], [], None, [], []);
    var steps := [Call(0, 0, CTRL_A), TakeLine(0), FreeLine(0)];
    var s1 := Next(s0, steps[0]);
    var s2 := Next(s1, steps[1]);
    var s3 := Next(s2, steps[2]);
    var ss := [s0, s1, s2, s3];
    assert Run(ss, steps);
    assert ss[3].done[0].result == -1;
  }

  /** While a read is unfinished and input is at hand, some step of a reader or the device makes progress. */
  lemma NeverStuck(s: State, t: Thread)
    requires Inv(s) && t in s.readers && (s.incoming != EOF || s.rest != [])
    ensures exists step: Step ::
              !step.Call? && !step.Type? && Enabled(s, step) && Next(s, step) != s
  {
    hide StreamOk, OrderOk, ReaderOk, DoneOk;
    if s.holder.None? {
      assert Enabled(s, TakeLine(t)) && Next(s, TakeLine(t)).lineBlock != s.lineBlock;
    } else {
      var u := s.holder.value;
      if s.readers[u].place == AtGet {
        assert Enabled(s, GetChar(u)) && Next(s, GetChar(u)).incoming != s.incoming;
      } else if !Goes(s.readers[u]) {
        assert Enabled(s, FreeLine(u)) && Next(s, FreeLine(u)).lineBlock != s.lineBlock;
      } else if s.readAvail > 0 {
        assert Enabled(s, AwaitChar(u)) && Next(s, AwaitChar(u)).readAvail != s.readAvail;
      } else {
        assert Enabled(s, Poll) && Next(s, Poll).readAvail != s.readAvail;
      }
    }
  }
}
