/**
 * The timing of the simulated disk (machine/disk.cc): seeks, rotation and the
 * track buffer. One sector passes under the head every ROTATION_TIME ticks,
 * in step with the clock, and a seek moves one track every SEEK_TIME ticks.
 */
module DiskLatency {
  import opened Bytes
  import opened Sectors

  const SECTORS_PER_TRACK := 32
  const NUM_TRACKS := 32
  const SEEK_TIME := 500
  const ROTATION_TIME := 500

  type SectorNumber = n: int | 0 <= n < NUM_SECTORS

  /** What the disk remembers: the last sector asked for and when its track began to be buffered. */
  datatype Head = Head(lastSector: SectorNumber, bufferInit: nat)

  function TrackOf(n: SectorNumber): (t: nat) { n / SECTORS_PER_TRACK }

  /** The time to reach the track, and from there to the next sector boundary. */
  function TimeToSeek(d: Head, now: nat, newSector: SectorNumber): (r: (nat, nat)) {
    var seek := Magnitude(TrackOf(newSector) - TrackOf(d.lastSector)) * SEEK_TIME;
    var over := (now + seek) % ROTATION_TIME;
    (seek, if over > 0 then ROTATION_TIME - over else 0)
  }

  function ModuloDiff(to: nat, from: nat): (r: nat) {
    ((to % SECTORS_PER_TRACK - from % SECTORS_PER_TRACK) + SECTORS_PER_TRACK) % SECTORS_PER_TRACK
  }

  /** The test for the track buffer. */
  predicate BufferHit(d: Head, now: nat, newSector: SectorNumber, writing: bool) {
    var (seek, rotation) := TimeToSeek(d, now, newSector);
    var timeAfter := now + seek + rotation;
    && !writing && seek == 0
    && CDiv(timeAfter - d.bufferInit, ROTATION_TIME) > ModuloDiff(newSector, d.bufferInit / ROTATION_TIME)
  }

  function ComputeLatency(d: Head, now: nat, newSector: SectorNumber, writing: bool): (ticks: nat) {
    var (seek, rotation) := TimeToSeek(d, now, newSector);
    var timeAfter := now + seek + rotation;
    if BufferHit(d, now, newSector, writing) then
      ROTATION_TIME
    else
      seek + rotation + ModuloDiff(newSector, timeAfter / ROTATION_TIME) * ROTATION_TIME + ROTATION_TIME
  }

  function UpdateLast(d: Head, now: nat, newSector: SectorNumber): (r: Head) {
    var (seek, rotation) := TimeToSeek(d, now, newSector);
    Head(newSector, if seek != 0 then now + seek + rotation else d.bufferInit)
  }

  // The rotating disk, independently of the computation

  /** A full pass of sector `n` under the head begins at time `x`. */
  predicate PassBegins(n: nat, x: nat) {
    x % 500 == 0 && (x / 500) % 32 == n % 32
  }

  /** The first sector boundary at or after `t`. */
  predicate RoundsUpTo(t: nat, x: nat) {
    x % 500 == 0 && t <= x < t + 500
  }

  /** `ModuloDiff` counts the sector times until the next pass, and no pass lies in between. */
  lemma NextPass(n: nat, k: nat)
    ensures var m := ModuloDiff(n, k);
            && m < SECTORS_PER_TRACK
            && PassBegins(n, (k + m) * ROTATION_TIME)
            && forall j: nat :: k <= j && PassBegins(n, j * ROTATION_TIME) ==> k + m <= j
  {
    var m := ModuloDiff(n, k);
    SlotTime(k + m);
    RotationalDistance(n, k);
    forall j: nat | k <= j && PassBegins(n, j * ROTATION_TIME)
      ensures k + m <= j
    {
      SlotTime(j);
      NotSooner(n, k, j);
    }
  }

  lemma SlotTime(k: nat)
    ensures (k * ROTATION_TIME) % ROTATION_TIME == 0 && (k * ROTATION_TIME) / ROTATION_TIME == k
  {
  }

  lemma RotationalDistance(n: nat, k: nat)
    ensures (k + ModuloDiff(n, k)) % SECTORS_PER_TRACK == n % SECTORS_PER_TRACK
  {
  }

  lemma NotSooner(n: nat, k: nat, j: nat)
    requires k <= j && j % SECTORS_PER_TRACK == n % SECTORS_PER_TRACK
    ensures k + ModuloDiff(n, k) <= j
  {
  }

  /** A seek takes 500 ticks for each track between the last sector asked for and the new one. */
  lemma SeekIsDistance(d: Head, now: nat, newSector: SectorNumber, from: int, to: int)
    requires 32 * from <= d.lastSector < 32 * from + 32 && 32 * to <= newSector < 32 * to + 32
    ensures TimeToSeek(d, now, newSector).0 == 500 * (if from < to then to - from else from - to)
  {
    assert TrackOf(newSector) == to && TrackOf(d.lastSector) == from;
  }

  /** The head reaches a sector boundary on the new track at the first one after the seek. */
  lemma AfterSeek(d: Head, now: nat, newSector: SectorNumber)
    ensures var (seek, rotation) := TimeToSeek(d, now, newSector);
            RoundsUpTo(now + seek, now + seek + rotation)
    ensures TimeToSeek(d, now, newSector).0 == 0 <==> TrackOf(newSector) == TrackOf(d.lastSector)
  {
  }

  /**
   * Without a buffer hit the request ends with the earliest full pass of the
   * sector that begins at or after the end of the seek.
   */
  lemma EndsWithEarliestPass(d: Head, now: nat, newSector: SectorNumber, writing: bool)
    requires !BufferHit(d, now, newSector, writing)
    ensures var seek := TimeToSeek(d, now, newSector).0;
            var begins := now + ComputeLatency(d, now, newSector, writing) - ROTATION_TIME;
            && now + seek <= begins
            && PassBegins(newSector, begins)
            && forall y: nat :: now + seek <= y && PassBegins(newSector, y) ==> begins <= y
  {
    hide BufferHit, ModuloDiff;
    var (seek, rotation) := TimeToSeek(d, now, newSector);
    AfterSeek(d, now, newSector);
    var k := (now + seek + rotation) / ROTATION_TIME;
    NextPass(newSector, k);
    var begins := now + ComputeLatency(d, now, newSector, writing) - ROTATION_TIME;
    assert begins == (k + ModuloDiff(newSector, k)) * ROTATION_TIME;
    forall y: nat | now + seek <= y && PassBegins(newSector, y)
      ensures begins <= y
    {
      var j := y / ROTATION_TIME;
      assert y == j * ROTATION_TIME;
      assert PassBegins(newSector, j * ROTATION_TIME);
    }
  }

  /** A full pass of the sector lies between two times. */
  ghost predicate PassedBetween(n: nat, from: nat, to: nat) {
    exists x: nat :: PassBegins(n, x) && from <= x && x + ROTATION_TIME <= to
  }

  /**
   * A read hits the track buffer exactly when it is on the current track and
   * the whole sector has passed the head between the time the buffer began to
   * fill and the request time rounded up to a sector boundary.
   */
  lemma HitIffPassed(d: Head, now: nat, newSector: SectorNumber, roundedUp: nat)
    requires d.bufferInit <= now && d.bufferInit % ROTATION_TIME == 0 && RoundsUpTo(now, roundedUp)
    ensures BufferHit(d, now, newSector, false)
            <==> TrackOf(newSector) == TrackOf(d.lastSector) && PassedBetween(newSector, d.bufferInit, roundedUp)
  {
    hide ModuloDiff, PassBegins;
    AfterSeek(d, now, newSector);
    var (seek, rotation) := TimeToSeek(d, now, newSector);
    if seek == 0 {
      BoundaryUnique(now, roundedUp, now + rotation);
      var b := d.bufferInit / ROTATION_TIME;
      var r := roundedUp / ROTATION_TIME;
      assert d.bufferInit == b * ROTATION_TIME && roundedUp == r * ROTATION_TIME;
      PassedIff(newSector, b, r);
      assert CDiv(roundedUp - d.bufferInit, ROTATION_TIME) == r - b;
    }
  }

  lemma BoundaryUnique(t: nat, x: nat, y: nat)
    requires RoundsUpTo(t, x) && RoundsUpTo(t, y)
    ensures x == y
  {
  }

  lemma PassedIff(n: nat, b: nat, r: nat)
    ensures PassedBetween(n, b * ROTATION_TIME, r * ROTATION_TIME) <==> r - b > ModuloDiff(n, b)
  {
    hide ModuloDiff;
    NextPass(n, b);
    var x := (b + ModuloDiff(n, b)) * ROTATION_TIME;
    if r - b > ModuloDiff(n, b) {
      assert PassBegins(n, x) && b * ROTATION_TIME <= x && x + ROTATION_TIME <= r * ROTATION_TIME;
    }
    if PassedBetween(n, b * ROTATION_TIME, r * ROTATION_TIME) {
      var y: nat :| PassBegins(n, y) && b * ROTATION_TIME <= y && y + ROTATION_TIME <= r * ROTATION_TIME;
      var j := y / ROTATION_TIME;
      assert y == j * ROTATION_TIME;
      assert PassBegins(n, j * ROTATION_TIME);
    }
  }

  /** Every request takes at least one sector time and at most a full seek and a full turn. */
  lemma LatencyBounds(d: Head, now: nat, newSector: SectorNumber, writing: bool)
    ensures ROTATION_TIME <= ComputeLatency(d, now, newSector, writing)
    ensures ComputeLatency(d, now, newSector, writing)
            < (NUM_TRACKS - 1) * SEEK_TIME + (SECTORS_PER_TRACK + 1) * ROTATION_TIME
    ensures UpdateLast(d, now, newSector).bufferInit != d.bufferInit
            ==> UpdateLast(d, now, newSector).bufferInit <= now + ComputeLatency(d, now, newSector, writing)
  {
    hide BufferHit;
    var (seek, rotation) := TimeToSeek(d, now, newSector);
    NextPass(newSector, (now + seek + rotation) / ROTATION_TIME);
    if seek != 0 {
      assert !BufferHit(d, now, newSector, writing) by { SeekMisses(d, now, newSector, writing); }
    }
  }

  lemma SeekMisses(d: Head, now: nat, newSector: SectorNumber, writing: bool)
    requires TimeToSeek(d, now, newSector).0 != 0
    ensures !BufferHit(d, now, newSector, writing)
  {
  }

  // Requests and completions

  /** The device: `doneAt` is when the completion interrupt was asked for. */
  datatype DiskState = DiskState(head: Head, active: bool, doneAt: nat, clock: nat)

  datatype Event =
    | Request(now: nat, sector: SectorNumber, writing: bool)
    | Complete(now: nat)

  /** One request at a time; a completion never comes before it is due; time does not go back. */
  predicate Enabled(d: DiskState, e: Event) {
    && d.clock <= e.now
    && match e {
         case Request(_, _, _) => !d.active
         case Complete(now) => d.active && d.doneAt <= now
       }
  }

  /** A free disk takes a request at any time from now on; a busy one completes at any time from when it is due. */
  lemma WhatCanHappen(d: DiskState, now: nat, sector: SectorNumber, writing: bool)
    requires d.clock <= now
    ensures Enabled(d, Request(now, sector, writing)) <==> !d.active
    ensures Enabled(d, Complete(now)) <==> d.active && d.doneAt <= now
  {
  }

  function Next(d: DiskState, e: Event): (r: DiskState) {
    match e
    case Request(now, sector, writing) =>
      DiskState(UpdateLast(d.head, now, sector), true, now + ComputeLatency(d.head, now, sector, writing), now)
    case Complete(now) =>
      d.(active := false, clock := now)
  }

  predicate Start(d: DiskState) {
    d == DiskState(Head(0, 0), false, 0, 0)
  }

  predicate Inv(d: DiskState) {
    && d.head.bufferInit % ROTATION_TIME == 0
    && d.head.bufferInit <= if d.active then d.doneAt else d.clock
  }

  lemma StepKeeps(d: DiskState, e: Event)
    requires Inv(d) && Enabled(d, e)
    ensures Inv(Next(d, e))
  {
    if e.Request? {
      AfterSeek(d.head, e.now, e.sector);
      LatencyBounds(d.head, e.now, e.sector, e.writing);
      hide ComputeLatency;
    }
  }

  ghost predicate Run(ds: seq<DiskState>, es: seq<Event>) {
    && |ds| == |es| + 1
    && Start(ds[0])
    && forall i :: 0 <= i < |es| ==> Enabled(ds[i], es[i]) && ds[i + 1] == Next(ds[i], es[i])
  }

  lemma {:induction false} RunInv(ds: seq<DiskState>, es: seq<Event>, i: nat)
    requires Run(ds, es) && i < |ds|
    ensures Inv(ds[i])
  {
    if i > 0 {
      hide Next, Enabled;
      var k := i - 1;
      RunInv(ds, es, k);
      assert ds[k + 1] == Next(ds[k], es[k]);
      StepKeeps(ds[k], es[k]);
    }
  }

  /** The sector of the latest request among the first n events; 0 before any. */
  function LastSector(es: seq<Event>, n: nat): (s: SectorNumber)
    requires n <= |es|
  {
    if n == 0 then 0 else if es[n - 1].Request? then es[n - 1].sector else LastSector(es, n - 1)
  }

  /**
   * The disk remembers the sector of its latest request. The track buffer begins at
   * the first sector boundary after the latest seek to another track, and at 0
   * before any.
   */
  lemma {:induction false} HeadFollows(ds: seq<DiskState>, es: seq<Event>, n: nat)
    requires Run(ds, es) && n <= |es|
    ensures ds[n].head.lastSector == LastSector(es, n)
    ensures n == 0 ==> ds[n].head.bufferInit == 0
    ensures n > 0 && es[n - 1].Request? && TrackOf(es[n - 1].sector) != TrackOf(LastSector(es, n - 1)) ==>
              RoundsUpTo(es[n - 1].now + TimeToSeek(ds[n - 1].head, es[n - 1].now, es[n - 1].sector).0,
                         ds[n].head.bufferInit)
    ensures n > 0 && !(es[n - 1].Request? && TrackOf(es[n - 1].sector) != TrackOf(LastSector(es, n - 1))) ==>
              ds[n].head.bufferInit == ds[n - 1].head.bufferInit
  {
    if n > 0 {
      var k := n - 1;
      HeadFollows(ds, es, k);
      assert Enabled(ds[k], es[k]) && ds[k + 1] == Next(ds[k], es[k]);
      if es[k].Request? {
        AfterSeek(ds[k].head, es[k].now, es[k].sector);
      }
    }
  }

  /** The disk is busy from a request until its completion. */
  lemma BusyUntilDone(ds: seq<DiskState>, es: seq<Event>, n: nat)
    requires Run(ds, es) && n <= |es|
    ensures ds[n].active <==> n > 0 && es[n - 1].Request?
    ensures n > 0 ==> ds[n].clock == es[n - 1].now
  {
    if n > 0 {
      var k := n - 1;
      assert Enabled(ds[k], es[k]) && ds[k + 1] == Next(ds[k], es[k]);
    }
  }

  /**
   * Over every sequence of requests, when a request starts the buffer began at
   * a sector boundary no later than that; so each read hits the buffer exactly
   * when its sector has fully passed, and every other request ends with the
   * earliest pass.
   */
  lemma EveryRequest(ds: seq<DiskState>, es: seq<Event>, i: nat, roundedUp: nat)
    requires Run(ds, es) && i < |es| && es[i].Request? && RoundsUpTo(es[i].now, roundedUp)
    ensures var d := ds[i].head;
            var r := es[i];
            var hit := !r.writing && TrackOf(r.sector) == TrackOf(d.lastSector)
                       && PassedBetween(r.sector, d.bufferInit, roundedUp);
            && d.bufferInit % ROTATION_TIME == 0 && d.bufferInit <= r.now
            && (hit ==> ds[i + 1].doneAt == r.now + 500)
            && (!hit ==>
                  var begins := ds[i + 1].doneAt - 500;
                  var arrives := r.now + TimeToSeek(d, r.now, r.sector).0;
                  && arrives <= begins && PassBegins(r.sector, begins)
                  && forall y: nat :: arrives <= y && PassBegins(r.sector, y) ==> begins <= y)
  {
    hide PassBegins, TimeToSeek, PassedBetween, RoundsUpTo;
    RunInv(ds, es, i);
    var d, r := ds[i].head, es[i];
    assert Enabled(ds[i], es[i]) && ds[i + 1] == Next(ds[i], es[i]);
    HitIffPassed(d, r.now, r.sector, roundedUp);
    HitIsRead(d, r.now, r.sector, r.writing);
    if !BufferHit(d, r.now, r.sector, r.writing) {
      EndsWithEarliestPass(d, r.now, r.sector, r.writing);
    }
  }

  lemma HitIsRead(d: Head, now: nat, newSector: SectorNumber, writing: bool)
    ensures BufferHit(d, now, newSector, writing) <==> !writing && BufferHit(d, now, newSector, false)
  {
  }

  /** The device's own fields; the data it moves is the business of the sector store. */
  class Disk {
    var lastSector: SectorNumber
    var bufferInit: nat
    var active: bool
    /** When the completion interrupt is due, and the time of the last event. */
    ghost var doneAt: nat
    ghost var clock: nat

    ghost function State(): (d: DiskState)
      reads this
    {
      DiskState(Head(lastSector, bufferInit), active, doneAt, clock)
    }

    constructor ()
      ensures Start(State())
    {
      lastSector := 0;
      bufferInit := 0;
      active := false;
      doneAt, clock := 0, 0;
    }

    method Update(now: nat, newSector: SectorNumber)
      modifies this`lastSector, this`bufferInit
      ensures Head(lastSector, bufferInit) == UpdateLast(old(Head(lastSector, bufferInit)), now, newSector)
    {
      var (seek, rotate) := TimeToSeek(Head(lastSector, bufferInit), now, newSector);
      if seek != 0 {
        bufferInit := now + seek + rotate;
      }
      lastSector := newSector;
    }

    /** The delay after which the completion interrupt is to occur. */
    method ReadRequest(now: nat, sectorNumber: SectorNumber) returns (ticks: nat)
      requires Inv(State()) && !active && clock <= now
      modifies this
      ensures State() == Next(old(State()), Request(now, sectorNumber, false)) && Inv(State())
      ensures doneAt == now + ticks && ticks > 0
    {
      hide BufferHit, ModuloDiff;
      StepKeeps(State(), Request(now, sectorNumber, false));
      LatencyBounds(Head(lastSector, bufferInit), now, sectorNumber, false);
      ticks := ComputeLatency(Head(lastSector, bufferInit), now, sectorNumber, false);
      active := true;
      Update(now, sectorNumber);
      doneAt, clock := now + ticks, now;
    }

    method WriteRequest(now: nat, sectorNumber: SectorNumber) returns (ticks: nat)
      requires Inv(State()) && !active && clock <= now
      modifies this
      ensures State() == Next(old(State()), Request(now, sectorNumber, true)) && Inv(State())
      ensures doneAt == now + ticks && ticks > 0
    {
      hide BufferHit, ModuloDiff;
      StepKeeps(State(), Request(now, sectorNumber, true));
      LatencyBounds(Head(lastSector, bufferInit), now, sectorNumber, true);
      ticks := ComputeLatency(Head(lastSector, bufferInit), now, sectorNumber, true);
      active := true;
      Update(now, sectorNumber);
      doneAt, clock := now + ticks, now;
    }

    method HandleInterrupt(now: nat)
      requires Inv(State()) && active && doneAt <= now && clock <= now
      modifies this
      ensures State() == Next(old(State()), Complete(now)) && Inv(State())
    {
      active := false;
      clock := now;
    }
  }
}
