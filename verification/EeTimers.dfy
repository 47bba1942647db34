/**
  The four timers and when they must next be looked at. A deadline is kept as the cycle of the
  last update and a distance from it; register writes may only bring it forward.
 */
module EeTimers {
  import opened Words
  import opened Sequences
  import opened TimerSpec
  import Sync = SyncCounters

  const SPAN: nat := 0x2000_0000 // no deadline is further away than this
  const WAIT_CYCLES: nat := 3072

  /** A counter with the cycle at which its count was right, its interrupt line and its gate. */
  datatype Timer = Timer(counter: Counter, start: u32, interrupt: nat, gateOn: bool, gateVblank: bool, gateMode: nat)

  predicate Running(t: Timer) {
    t.counter.isCounting && t.counter.clockSource != 3
  }

  predicate WellFormed(t: Timer) {
    var c := t.counter;
    (Running(t) ==> IsRate(c.rate)) && c.clockSource <= 3 &&
    (c.target < 0x1_0000 || FUTURE <= c.target < FUTURE + 0x1_0000)
  }

  function Elapsed(t: Timer, now: u32): u32 {
    Sub(now, t.start)
  }

  /** In how many cycles from now the timer's next event is due. */
  function Remaining(t: Timer, now: u32): int {
    Due(t.counter) - Elapsed(t, now)
  }

  /** Not past the overflow, nor past an armed target. */
  predicate Ahead(c: Counter) {
    c.count <= 0x1_0000 && c.count <= c.target
  }

  function NotBelowZero(d: int): int {
    if d < 0 then 0 else d
  }

  predicate AllAhead(ts: seq<Timer>, k: nat)
    requires k <= |ts|
  {
    forall i :: 0 <= i < k && Running(ts[i]) ==> Ahead(ts[i].counter)
  }

  lemma OneMoreAhead(ts: seq<Timer>, k: nat)
    requires k < |ts|
    ensures AllAhead(ts, k + 1) <==> AllAhead(ts, k) && (Running(ts[k]) ==> Ahead(ts[k].counter))
  {
  }

  /** The last of the first k timers that runs and is overdue, or -1. */
  function LastOverdue(ts: seq<Timer>, k: nat): (j: int)
    requires k <= |ts|
    ensures -1 <= j < k && (j >= 0 ==> Running(ts[j]) && !Ahead(ts[j].counter))
    ensures forall i :: j < i < k && Running(ts[i]) ==> Ahead(ts[i].counter)
  {
    if k == 0 then -1
    else if Running(ts[k - 1]) && !Ahead(ts[k - 1].counter) then k - 1
    else LastOverdue(ts, k - 1)
  }

  /** What the first k timers make of a deadline: behind an overdue one, what is due before it is forgotten. */
  function Deadline(ts: seq<Timer>, now: u32, limit: int, k: nat): int
    requires k <= |ts|
  {
    var j := LastOverdue(ts, k);
    if j < 0 then Earliest(ts, now, limit, 0, k) else Earliest(ts, now, 4, j + 1, k)
  }

  lemma OneMoreTimer(ts: seq<Timer>, now: u32, limit: int, k: nat)
    requires k < |ts|
    ensures Deadline(ts, now, limit, k + 1) ==
      if !Running(ts[k]) then Deadline(ts, now, limit, k)
      else if !Ahead(ts[k].counter) then 4
      else Min(Deadline(ts, now, limit, k), Remaining(ts[k], now))
  {
  }

  lemma NoTimer(ts: seq<Timer>, now: u32, limit: int)
    ensures Deadline(ts, now, limit, 0) == limit
    ensures forall i :: 0 <= i < |ts| && Running(ts[i]) ==> ts[i].counter.isCounting
  {
  }

  /** Without an overdue timer that is the earliest event; otherwise it is no later than 4. */
  lemma DeadlineIs(ts: seq<Timer>, now: u32, limit: int, k: nat)
    requires k <= |ts|
    ensures AllAhead(ts, k) <==> LastOverdue(ts, k) < 0
    ensures AllAhead(ts, k) ==> Deadline(ts, now, limit, k) == Earliest(ts, now, limit, 0, k)
    ensures !AllAhead(ts, k) ==> Deadline(ts, now, limit, k) <= 4
  {
  }

  /** The first of `limit` and what is due for those of the first k timers that are not overdue themselves. */
  function EarliestAhead(ts: seq<Timer>, now: u32, limit: int, k: nat): (r: int)
    requires k <= |ts|
    ensures r <= limit
    ensures forall i :: 0 <= i < k && Running(ts[i]) && Ahead(ts[i].counter) ==> r <= Remaining(ts[i], now)
    ensures r == limit || exists i :: 0 <= i < k && Running(ts[i]) && Ahead(ts[i].counter) && r == Remaining(ts[i], now)
  {
    if k == 0 then limit
    else
      var r := EarliestAhead(ts, now, limit, k - 1);
      if Running(ts[k - 1]) && Ahead(ts[k - 1].counter) then Min(r, Remaining(ts[k - 1], now)) else r
  }

  /** A deadline after which something would be missed that is not overdue yet. */
  predicate Late(deadline: int, ts: seq<Timer>, now: u32, limit: int) {
    deadline > limit ||
    exists i :: 0 <= i < |ts| && Running(ts[i]) && Ahead(ts[i].counter) && deadline > Remaining(ts[i], now)
  }

  /**
    Exactly when the deadline is late: when a timer is overdue, and the vsync edge or a timer
    in front of the last overdue one comes sooner than in 4 cycles and than the timers behind it.
   */
  lemma DeadlineLate(ts: seq<Timer>, now: u32, limit: int)
    ensures var (d, j) := (Deadline(ts, now, limit, |ts|), LastOverdue(ts, |ts|));
      Late(d, ts, now, limit) <==> j >= 0 && EarliestAhead(ts, now, limit, j) < Earliest(ts, now, 4, j + 1, |ts|)
  {
  }

  predicate Sound(t: Timer, now: u32) {
    Running(t) ==> Settled(t.counter) && Remaining(t, now) >= 0
  }

  function InitialTimer(i: nat, now: u32): Timer {
    Timer(Counter(0, 0xffff, 2, 0, false, false, false, false, false, false), now, 9 + i, false, false, 0)
  }

  /** The next test is not far behind the last update. */
  predicate Near(test: u32, start: u32) {
    -2 * SPAN <= S32(Sub(test, start))
  }

  /** The first of `limit` and what is due for the timers from `from` to k. */
  function Earliest(ts: seq<Timer>, now: u32, limit: int, from: nat, k: nat): (r: int)
    requires from <= k <= |ts|
    ensures r <= limit && forall i :: from <= i < k && Running(ts[i]) ==> r <= Remaining(ts[i], now)
    ensures r == limit || exists i :: from <= i < k && Running(ts[i]) && r == Remaining(ts[i], now)
  {
    if k == from then limit
    else
      var r := Earliest(ts, now, limit, from, k - 1);
      if Running(ts[k - 1]) then Min(r, Remaining(ts[k - 1], now)) else r
  }

  /** One timer's part of an update. */
  function UpdateTimer(t: Timer, now: u32): Timer
    requires WellFormed(t)
  {
    if !t.counter.isCounting then t
    else if t.counter.clockSource == 3 then t.(start := now)
    else
      var u := Update(t.counter, Elapsed(t, now));
      t.(counter := u.counter, start := U32(now - u.elapsed))
  }

  function Lines(interrupt: nat, events: seq<Event>): seq<nat> {
    seq(|events|, i => interrupt)
  }

  /** The interrupts an update of the first k timers raises. */
  function Raised(ts: seq<Timer>, now: u32, k: nat): seq<nat>
    requires k <= |ts| && forall i :: 0 <= i < |ts| ==> WellFormed(ts[i])
  {
    if k == 0 then []
    else
      Raised(ts, now, k - 1) +
      var t := ts[k - 1];
      if Running(t) then Lines(t.interrupt, Update(t.counter, Elapsed(t, now)).events) else []
  }

  /** After an update on time, the next event still lies ahead. */
  lemma UpdateOnTime(c: Counter, e: nat)
    requires Settled(c) && e <= Due(c)
    ensures var u := Update(c, e); Settled(u.counter) && u.elapsed < Due(u.counter) && u.elapsed < 512
  {
    if e < Due(c) {
      UpdateEarly(c, e);
      AdvanceDue(c, e);
    } else {
      TickDue(c, e - 1);
      DueSteps(Update(c, e).counter, 0);
    }
  }

  lemma UpdatedSound(t: Timer, now: u32)
    requires WellFormed(t) && Sound(t, now)
    ensures var u := UpdateTimer(t, now);
      WellFormed(u) && Sound(u, now) && (Ahead(t.counter) ==> Ahead(u.counter)) && Running(u) == Running(t)
    ensures t.counter.isCounting ==> Elapsed(UpdateTimer(t, now), now) < 512
    ensures UpdateTimer(t, now).counter.isCounting == t.counter.isCounting
    ensures Running(t) ==> Remaining(UpdateTimer(t, now), now) > 0
  {
    if Running(t) {
      UpdateOnTime(t.counter, Elapsed(t, now));
      var u := Update(t.counter, Elapsed(t, now));
      Rewound(now, u.elapsed);
      SettledRuns(u.counter);
      hide Update, Due, Settled;
    } else {
      SinceNothing(now);
    }
  }

  /** From when nothing is due, an update after n cycles on time is n cycles of the hardware. */
  lemma UpdateIsHardware(t: Timer, now: u32, end: u32, n: nat, at: nat)
    requires WellFormed(t) && Running(t) && Sound(t, now) && n <= Remaining(t, now) && Remaining(t, now) > 0
    requires end == U32(now + n)
    ensures IsRate(UpdateTimer(t, end).counter.rate)
    ensures var u := UpdateTimer(t, end);
      Ticks(ModeOf(t.counter), TickerOf(t.counter, Elapsed(t, now)), at, n) ==
      (TickerOf(u.counter, Elapsed(u, end)), Stamp(at + n, Update(t.counter, Elapsed(t, end)).events))
  {
    hide Ticks, TickerOf, Update, Due, Settled, Sub, U32, ModeOf, Stamp;
    var e := Elapsed(t, now);
    DueSmall(t.counter);
    EndMoves(now, t.start, n);
    UpdateRefines(t.counter, e, at, n);
    UpdateOnTime(t.counter, e + n);
    Rewound(end, Update(t.counter, e + n).elapsed);
  }

  lemma DueSmall(c: Counter)
    requires Settled(c)
    ensures Due(c) <= 0x200_0000
  {
    DueBounds(c);
  }

  lemma SettledRuns(c: Counter)
    requires Settled(c)
    ensures Clocked(c) && Ahead(c) && WellFormed(Timer(c, 0, 0, false, false, 0))
  {
  }

  lemma Rewound(now: u32, e: nat)
    requires e < TWO32
    ensures Sub(now, U32(now - e)) == e
  {
  }

  /** Cycles moved into the count: the hardware's count is the same, and its phase. */
  lemma CountedElapsed(c: Counter, now: u32, e: nat)
    requires IsRate(c.rate) && e < TWO32
    ensures var left := Sub(now, U32(now - e % c.rate));
      left == e % c.rate < c.rate && TickerOf(Advance(c, e), left) == TickerOf(c, e)
  {
    Rewound(now, e % c.rate);
    NoFurther(e, c.rate);
    hide U32, Sub;
  }

  lemma NoFurther(e: nat, r: nat)
    requires IsRate(r)
    ensures e % r / r == 0 && e % r % r == e % r
  {
    if r == 2 {
    } else if r == 32 {
    } else {
    }
  }

  class Timers {
    var timers: seq<Timer>
    var gates: set<nat>
    var cycle: u32          // cpuRegs.cycle
    var nextsCounter: u32   // the cycle of the last update
    var nextCounter: int    // from there, the cycles until the next
    var nextEventCycle: u32 // the cycle of the next event test
    var irqs: seq<nat>      // the interrupts raised so far
    const sync: Sync.Counters

    // -------------------------------------------------------------------------------------
    // What holds between any two operations
    // -------------------------------------------------------------------------------------

    /** Cycles since the last update. */
    ghost function Since(): u32
      reads `cycle, `nextsCounter
    {
      Sub(cycle, nextsCounter)
    }

    ghost function VsyncLeft(): int
      reads `cycle, sync
    {
      sync.state.vLength - Sub(cycle, sync.state.vStart)
    }

    /**
      Distances are far from wrapping around. The vsync edge was ahead at the last update, and the
      next one is no more than 3 cycles late for it, which it can be if it comes in 4.
     */
    ghost predicate Base()
      reads `timers, `cycle, `nextsCounter, `nextCounter, sync
    {
      |timers| == 4 && (forall i :: 0 <= i < 4 ==> WellFormed(timers[i])) &&
      (forall i :: 0 <= i < 4 && timers[i].counter.isCounting ==> Elapsed(timers[i], cycle) <= Since() + 512) &&
      Since() <= SPAN && -2 * SPAN <= nextCounter <= SPAN && VsyncShape() &&
      VsyncLeft() + Since() > 0 && nextCounter - Since() <= VsyncLeft() + 3
    }

    /** Besides, no timer is overdue. */
    ghost predicate Shape()
      reads `timers, `cycle, `nextsCounter, `nextCounter, sync
    {
      Base() && forall i :: 0 <= i < 4 ==> Ahead(timers[i].counter)
    }

    ghost predicate VsyncShape()
      reads `cycle, sync
    {
      var (s, info) := (sync.state, sync.info);
      4 <= info.render <= SPAN && 4 <= info.blank <= SPAN &&
      s.vLength == (if s.inVSync then info.blank else info.render) && VsyncLeft() >= -3
    }

    /** The next update comes no later than timer i's next event, if it runs. */
    ghost predicate InTime(i: nat)
      requires i < |timers|
      reads `timers, `cycle, `nextsCounter, `nextCounter
    {
      Running(timers[i]) ==> nextCounter - Since() <= Remaining(timers[i], cycle)
    }

    ghost predicate VsyncInTime()
      reads `cycle, `nextsCounter, `nextCounter, sync
    {
      nextCounter - Since() <= VsyncLeft()
    }

    /** The next update comes no later than the vsync edge and whatever is due for a timer. */
    ghost predicate NotLate()
      reads `timers, `cycle, `nextsCounter, `nextCounter, sync
    {
      VsyncInTime() && forall i :: 0 <= i < |timers| ==> InTime(i)
    }

    ghost predicate OnTime()
      reads `timers, `cycle
    {
      forall i :: 0 <= i < |timers| ==> Sound(timers[i], cycle)
    }

    ghost predicate Valid()
      reads `timers, `cycle, `nextsCounter, `nextCounter, sync
    {
      Shape() && NotLate() && OnTime()
    }

    /** The next event test comes no later than the next update. */
    ghost predicate TestInTime()
      reads `nextEventCycle, `nextsCounter, `nextCounter
    {
      Near(nextEventCycle, nextsCounter) && S32(Sub(nextEventCycle, nextsCounter)) <= nextCounter
    }

    /** rcntInit */
    constructor (info: Sync.Info, cycle: u32)
      requires 4 <= info.render <= SPAN && 4 <= info.blank <= SPAN
      ensures Valid() && irqs == [] && gates == {} && fresh(sync)
      ensures timers == [InitialTimer(0, cycle), InitialTimer(1, cycle), InitialTimer(2, cycle), InitialTimer(3, cycle)]
      ensures this.cycle == nextsCounter == cycle && nextCounter == info.render
      ensures sync.info == info && sync.state == Sync.State(cycle, info.hRender, false, cycle, info.render, false)
    {
      timers := [InitialTimer(0, cycle), InitialTimer(1, cycle), InitialTimer(2, cycle), InitialTimer(3, cycle)];
      gates := {};
      this.cycle := cycle;
      nextEventCycle := cycle;
      irqs := [];
      sync := new Sync.Counters(info, cycle);
      new;
      InitialTimersSound(timers, cycle);
      SinceNothing(cycle);
      hide WellFormed, Sound, Ahead, Running, Remaining, Elapsed, InitialTimer, Earliest, AllAhead;
      cpuRcntSet();
      EarliestLater(timers, cycle, VsyncLeft());
      NoneRuns(timers, cycle, VsyncLeft());
    }

    // -------------------------------------------------------------------------------------
    // Deadlines
    // -------------------------------------------------------------------------------------

    method cpuSetNextEvent(start: u32, delta: int)
      requires -TWO31 <= delta < TWO31
      modifies `nextEventCycle
      ensures S32(Sub(nextEventCycle, start)) == Min(old(S32(Sub(nextEventCycle, start))), delta)
    {
      if S32(Sub(nextEventCycle, start)) > delta {
        nextEventCycle := U32(start + delta);
        EndAt(start, delta);
      }
    }

    /** An event so many cycles from the last update: the deadline comes forward to it. */
    method BringForward(delta: int)
      requires -2 * SPAN <= delta <= 2 * SPAN && -2 * SPAN <= nextCounter <= SPAN
      modifies `nextCounter, `nextEventCycle
      ensures nextCounter == Min(old(nextCounter), delta)
      ensures old(TestInTime()) ==> TestInTime()
      ensures old(Near(nextEventCycle, nextsCounter)) ==> Near(nextEventCycle, nextsCounter)
      ensures S32(Sub(nextEventCycle, nextsCounter)) >= Min(old(S32(Sub(nextEventCycle, nextsCounter))), nextCounter)
    {
      if delta < nextCounter {
        nextCounter := delta;
        cpuSetNextEvent(nextsCounter, nextCounter);
      }
    }

    /** Brings the deadline forward to the timer's next event. A timer that is overdue sets it to 4, though. */
    method rcntSetOne(i: nat)
      requires i < |timers| && WellFormed(timers[i]) && Since() <= SPAN && -2 * SPAN <= nextCounter <= SPAN
      requires Running(timers[i]) ==> Elapsed(timers[i], cycle) <= Since() + 512
      modifies `nextCounter, `nextEventCycle
      ensures Running(timers[i]) && !Ahead(timers[i].counter) ==> nextCounter == 4
      ensures Running(timers[i]) && Ahead(timers[i].counter) ==>
        nextCounter == Min(old(nextCounter), Remaining(timers[i], cycle) + Since())
      ensures !Running(timers[i]) ==> nextCounter == old(nextCounter)
      ensures -2 * SPAN <= nextCounter <= SPAN
      ensures old(TestInTime()) && (Running(timers[i]) ==> Ahead(timers[i].counter)) ==> TestInTime()
      ensures old(Near(nextEventCycle, nextsCounter)) ==> Near(nextEventCycle, nextsCounter)
      ensures S32(Sub(nextEventCycle, nextsCounter)) >= Min(old(S32(Sub(nextEventCycle, nextsCounter))), nextCounter)
    {
      hide TestInTime, Near, S32, U32, Sub, IsRate;
      var t := timers[i];
      var c := t.counter;
      if !c.isCounting || c.clockSource == 3 { return; }
      if c.count > 0x1_0000 || c.count > c.target {
        nextCounter := 4;
        return;
      }
      DueBounds(c);
      var elapsed, since := Sub(cycle, t.start), Sub(cycle, nextsCounter);
      SmallDistance((0x1_0000 - c.count) * c.rate, elapsed, since);
      BringForward(S32(U32((0x1_0000 - c.count) * c.rate - elapsed)) + since);
      if c.target >= FUTURE { return; }
      SmallDistance((c.target - c.count) * c.rate, elapsed, since);
      BringForward(S32(U32((c.target - c.count) * c.rate - elapsed)) + since);
    }

    /** Sets the deadline anew: it is exactly the earliest event, unless a timer is overdue. */
    method cpuRcntSet()
      requires |timers| == 4 && forall i :: 0 <= i < 4 ==> WellFormed(timers[i])
      requires forall i :: 0 <= i < 4 && timers[i].counter.isCounting ==> Elapsed(timers[i], cycle) <= 512
      requires VsyncShape()
      modifies `nextsCounter, `nextCounter, `nextEventCycle
      ensures nextsCounter == cycle && 0 <= nextCounter <= SPAN
      ensures nextCounter == NotBelowZero(Deadline(timers, cycle, VsyncLeft(), 4))
      ensures AllAhead(timers, 4) ==> nextCounter == NotBelowZero(Earliest(timers, cycle, VsyncLeft(), 0, 4))
      ensures !AllAhead(timers, 4) ==> nextCounter <= 4
      ensures old(Near(nextEventCycle, cycle)) ==> Near(nextEventCycle, cycle)
      ensures AllAhead(timers, 4) ==>
        S32(Sub(nextEventCycle, cycle)) >=
          Min(old(S32(Sub(nextEventCycle, cycle))), Deadline(timers, cycle, VsyncLeft(), 4))
    {
      hide U32, S32, Due, Sub, IsRate, Ahead, Running, Earliest, Deadline, LastOverdue, AllAhead, WellFormed, Near;
      nextsCounter := cycle;
      SinceNothing(cycle);
      nextCounter := S32(U32(sync.state.vLength - Sub(cycle, sync.state.vStart)));
      Fits(VsyncLeft());
      NoTimer(timers, cycle, VsyncLeft());
      DeadlineIs(timers, cycle, VsyncLeft(), 4);
      ghost var limit := VsyncLeft();
      for i := 0 to 4
        invariant nextsCounter == cycle && -2 * SPAN <= nextCounter <= SPAN
        invariant nextCounter == Deadline(timers, cycle, limit, i)
        invariant old(Near(nextEventCycle, cycle)) ==> Near(nextEventCycle, cycle)
        invariant AllAhead(timers, i) ==>
          S32(Sub(nextEventCycle, cycle)) >= Min(old(S32(Sub(nextEventCycle, cycle))), nextCounter)
      {
        hide VsyncShape;
        OneMoreTimer(timers, cycle, limit, i);
        OneMoreAhead(timers, i);
        rcntSetOne(i);
      }
      if nextCounter < 0 { nextCounter := 0; }
    }

    // -------------------------------------------------------------------------------------
    // Updates
    // -------------------------------------------------------------------------------------

    method hwIntcIrq(n: nat)
      modifies `irqs
      ensures irqs == old(irqs) + [n]
    {
      irqs := irqs + [n];
    }

    method cpuTestTarget(i: nat)
      requires i < |timers|
      modifies `timers, `irqs
      ensures var t := old(timers)[i]; var (c, events) := TestTarget(t.counter);
        timers == old(timers)[i := t.(counter := c)] && irqs == old(irqs) + Lines(t.interrupt, events)
    {
      var t := timers[i];
      var c := t.counter;
      if c.count < c.target {
      } else if c.targetInterrupt {
        c := c.(targetReached := true);
        hwIntcIrq(t.interrupt);
        if c.zeroReturn {
          c := c.(count := c.count - c.target);
        } else {
          c := c.(target := SetFuture(c.target));
        }
      } else {
        c := c.(target := SetFuture(c.target));
      }
      timers := timers[i := t.(counter := c)];
    }

    method cpuTestOverflow(i: nat)
      requires i < |timers|
      modifies `timers, `irqs
      ensures var t := old(timers)[i]; var (c, events) := TestOverflow(t.counter);
        timers == old(timers)[i := t.(counter := c)] && irqs == old(irqs) + Lines(t.interrupt, events)
    {
      var t := timers[i];
      var c := t.counter;
      if c.count > 0xffff {
        if c.overflowInterrupt {
          c := c.(overflowReached := true);
          hwIntcIrq(t.interrupt);
        }
        c := c.(count := c.count - 0x1_0000, target := c.target % 0x1_0000);
      }
      timers := timers[i := t.(counter := c)];
    }

    /** Moves the whole steps among the elapsed cycles into the count. */
    method CountElapsed(t: Timer) returns (u: Timer)
      requires Running(t) && IsRate(t.counter.rate)
      ensures u == Counted(t, cycle)
    {
      var r := t.counter.rate;
      assert r > 0;
      var change := Sub(cycle, t.start);
      Remainder(change, r);
      hide IsRate, U32, Sub;
      var c := t.counter.(count := t.counter.count + change / r);
      u := t.(counter := c, start := U32(cycle - (change - change / r * r)));
    }

    /** When the step that is under way began; a timer that does not count begins now. */
    method StepStart(t: Timer) returns (start: u32)
      requires Running(t) ==> IsRate(t.counter.rate)
      ensures start == if t.counter.isCounting then Counted(t, cycle).start else cycle
    {
      start := cycle;
      if t.counter.isCounting {
        start := t.start;
        if t.counter.clockSource != 3 {
          var u := CountElapsed(t);
          start := u.start;
        }
      }
    }

    /** The part of rcntUpdate that is done for each timer. */
    method UpdateOne(i: nat)
      requires i < |timers| && WellFormed(timers[i])
      requires timers[i].counter.isCounting ==> Elapsed(timers[i], cycle) < TWO31
      modifies `timers, `irqs
      ensures var t := old(timers)[i];
        timers == old(timers)[i := UpdateTimer(t, cycle)] &&
        irqs == old(irqs) + if Running(t) then Lines(t.interrupt, Update(t.counter, Elapsed(t, cycle)).events) else []
    {
      var t := timers[i];
      if !t.counter.isCounting { return; }
      if t.counter.clockSource == 3 {
        timers := timers[i := t.(start := cycle)];
        return;
      }
      t := CountElapsed(t);
      timers := timers[i := t];
      cpuTestTarget(i);
      cpuTestOverflow(i);
    }

    method UpdateEach()
      requires |timers| == 4 && forall i :: 0 <= i < 4 ==> WellFormed(timers[i])
      requires forall i :: 0 <= i < 4 && timers[i].counter.isCounting ==> Elapsed(timers[i], cycle) < TWO31
      modifies `timers, `irqs
      ensures |timers| == 4 && forall i :: 0 <= i < 4 ==> timers[i] == UpdateTimer(old(timers)[i], cycle)
      ensures irqs == old(irqs) + Raised(old(timers), cycle, 4)
    {
      hide WellFormed, UpdateTimer, Running, Elapsed, Lines;
      for i := 0 to 4
        invariant |timers| == 4
        invariant forall j :: 0 <= j < i ==> timers[j] == UpdateTimer(old(timers)[j], cycle)
        invariant forall j :: i <= j < 4 ==> timers[j] == old(timers)[j]
        invariant irqs == old(irqs) + Raised(old(timers), cycle, i)
      {
        UpdateOne(i);
      }
    }

    /** Every timer is updated. If all are sound, the next event lies ahead. */
    method rcntUpdate()
      requires Base()
      modifies this`timers, this`irqs, this`nextCounter, this`nextsCounter, this`nextEventCycle, sync
      ensures Base() && nextsCounter == cycle
      ensures sync.state == UpdatedSync(old(sync.state), sync.info, cycle) && sync.info == old(sync.info)
      ensures forall i :: 0 <= i < 4 ==> timers[i] == UpdateTimer(old(timers)[i], cycle)
      ensures irqs == old(irqs) + Raised(old(timers), cycle, 4)
      ensures nextCounter == NotBelowZero(Deadline(timers, cycle, VsyncLeft(), 4))
      ensures forall i :: 0 <= i < 4 && old(Sound(timers[i], cycle)) ==>
        Sound(timers[i], cycle) && (Running(timers[i]) ==> Remaining(timers[i], cycle) > 0)
      ensures AllAhead(timers, 4) ==>
        VsyncInTime() && forall i :: 0 <= i < 4 && Remaining(timers[i], cycle) >= 0 ==> InTime(i)
      ensures old(Valid()) ==> Valid() && nextCounter == Earliest(timers, cycle, VsyncLeft(), 0, 4) > 0
      ensures old(Near(nextEventCycle, cycle)) ==> Near(nextEventCycle, cycle)
      ensures old(Valid()) ==> S32(Sub(nextEventCycle, cycle)) >= Min(old(S32(Sub(nextEventCycle, cycle))), nextCounter)
    {
      hide WellFormed, UpdateTimer, Running, Elapsed, Lines, Ahead, Remaining, Sound, Earliest, Raised, AllAhead,
        Deadline, Sync.Reached, Sync.NextVPart, Sub, U32, S32, Near, Valid, Shape, InTime, VsyncInTime;
      ghost var valid := Valid();
      if valid { ValidTimers(); }
      VsyncEdge(sync.state, sync.info, cycle);
      sync.rcntUpdate_vSync(cycle);
      UpdateEach();
      EachUpdated(old(timers), timers, cycle);
      EachUpdatedSound(old(timers), timers, cycle);
      cpuRcntSet();
      SinceNothing(cycle);
      DeadlineIs(timers, cycle, VsyncLeft(), 4);
      assert Base();
      hide Base, UpdatedSync;
      if AllAhead(timers, 4) { EarliestInTime(); }
      if valid { UpdatedValid(); }
    }

    lemma ValidTimers()
      requires Valid()
      ensures forall i :: 0 <= i < 4 ==> Sound(timers[i], cycle) && Ahead(timers[i].counter)
    {
    }

    /** Just after an update, the earliest event is a deadline that is late for nothing still ahead. */
    lemma EarliestInTime()
      requires |timers| == 4 && VsyncLeft() > 0 && Since() == 0
      requires nextCounter == NotBelowZero(Earliest(timers, cycle, VsyncLeft(), 0, 4))
      ensures VsyncInTime() && forall i :: 0 <= i < 4 && Remaining(timers[i], cycle) >= 0 ==> InTime(i)
    {
      hide Running, Remaining;
    }

    lemma UpdatedValid()
      requires Base() && VsyncLeft() > 0 && Since() == 0 && AllAhead(timers, 4)
      requires nextCounter == NotBelowZero(Earliest(timers, cycle, VsyncLeft(), 0, 4))
      requires forall i :: 0 <= i < 4 ==> Sound(timers[i], cycle) && Ahead(timers[i].counter)
      requires forall i :: 0 <= i < 4 && Running(timers[i]) ==> Remaining(timers[i], cycle) > 0
      ensures Valid() && nextCounter == Earliest(timers, cycle, VsyncLeft(), 0, 4) > 0
    {
      EarliestLater(timers, cycle, VsyncLeft());
      hide WellFormed, Running, Elapsed, Ahead, Remaining, Sound, Earliest, AllAhead, VsyncShape;
    }

    lemma ValidIsBase()
      requires Valid()
      ensures Base()
    {
    }

    lemma DeadlineBounds()
      requires Base()
      ensures |timers| == 4 && Since() <= SPAN && -2 * SPAN <= nextCounter <= SPAN
    {
    }

    /** Before the deadline nothing that it is in time for is due yet. */
    lemma NothingDue()
      requires Since() < nextCounter
      ensures VsyncInTime() ==> VsyncLeft() > 0
      ensures forall i :: 0 <= i < |timers| && InTime(i) && Running(timers[i]) ==> Remaining(timers[i], cycle) > 0
    {
      hide Running, Remaining;
    }

    lemma NothingDueNow()
      requires Valid()
      ensures Since() < nextCounter ==> VsyncLeft() > 0
      ensures Since() < nextCounter ==>
        forall i :: 0 <= i < 4 && Running(timers[i]) ==> Remaining(timers[i], cycle) > 0
    {
      ValidInTime();
      if Since() < nextCounter { NothingDue(); }
    }

    lemma ValidInTime()
      requires Valid()
      ensures VsyncInTime() && |timers| == 4 && forall i :: 0 <= i < 4 ==> InTime(i) && Sound(timers[i], cycle)
    {
    }

    /** The timers' part of the event test, which also says when the next test must come. */
    method cpuEventTest()
      requires Base()
      modifies this`timers, this`irqs, this`nextCounter, this`nextsCounter, this`nextEventCycle, sync
      ensures Base() && TestInTime() && sync.info == old(sync.info)
      ensures old(Since() >= nextCounter) ==>
        (forall i :: 0 <= i < 4 ==> timers[i] == UpdateTimer(old(timers)[i], cycle)) &&
        irqs == old(irqs) + Raised(old(timers), cycle, 4) && nextsCounter == cycle &&
        sync.state == UpdatedSync(old(sync.state), sync.info, cycle) &&
        nextCounter == NotBelowZero(Deadline(timers, cycle, VsyncLeft(), 4))
      ensures old(Since() < nextCounter) ==>
        timers == old(timers) && irqs == old(irqs) && sync.state == old(sync.state) &&
        nextsCounter == old(nextsCounter) && nextCounter == old(nextCounter)
      ensures forall i :: 0 <= i < 4 && old(Sound(timers[i], cycle) && (Since() >= nextCounter || InTime(i))) ==>
        Sound(timers[i], cycle) && (Running(timers[i]) ==> Remaining(timers[i], cycle) > 0)
      ensures old(Since() >= nextCounter) && AllAhead(timers, 4) ==>
        VsyncInTime() && forall i :: 0 <= i < 4 && Remaining(timers[i], cycle) >= 0 ==> InTime(i)
      ensures old(Valid()) ==>
        Valid() && VsyncLeft() > 0 &&
        (forall i :: 0 <= i < 4 && Running(timers[i]) ==> Remaining(timers[i], cycle) > 0) &&
        S32(Sub(nextEventCycle, nextsCounter)) >= Min(Since() + WAIT_CYCLES, nextCounter)
    {
      hide Running, Remaining, Ahead, WellFormed, Raised, UpdateTimer, Sound, Elapsed, VsyncShape, VsyncLeft,
        Base, Shape, NotLate, OnTime, Earliest, Deadline, U32, Valid, S32, Sub, Near, UpdatedSync, InTime, VsyncInTime,
        AllAhead;
      DeadlineBounds();
      if Valid() { ValidInTime(); }
      nextEventCycle := U32(cycle + WAIT_CYCLES);
      TestDistance(cycle, nextsCounter);
      TestDistance(cycle, cycle);
      SinceNothing(cycle);
      if S32(Sub(cycle, nextsCounter)) >= nextCounter {
        rcntUpdate();
        DeadlineBounds();
      } else {
        NothingDue();
      }
      if Valid() { ValidInTime(); NothingDueNow(); }
      StillNear(nextEventCycle, nextsCounter, nextCounter);
      cpuSetNextEvent(nextsCounter, nextCounter);
    }

    /**
      The EE runs on, though no further than its next event test: no event is missed that the deadline is in time for.
     */
    method RunFor(n: nat)
      requires Base() && TestInTime() && n <= S32(Sub(nextEventCycle, cycle))
      modifies `cycle
      ensures cycle == U32(old(cycle) + n) && Base() && TestInTime()
      ensures old(VsyncInTime()) ==> VsyncInTime() && VsyncLeft() >= 0
      ensures forall i :: 0 <= i < 4 && old(InTime(i)) ==>
        InTime(i) && (old(Sound(timers[i], cycle)) ==> Sound(timers[i], cycle))
      ensures old(Valid()) ==> Valid()
    {
      hide U32, Sub, S32, Settled, Due, WellFormed, Ahead, Running, Elapsed, Remaining, Sound;
      RunSpan(nextEventCycle, cycle, nextsCounter, nextCounter, n);
      EndMoves(cycle, nextsCounter, n);
      EndMoves(cycle, sync.state.vStart, n);
      forall i | 0 <= i < 4
        ensures timers[i].counter.isCounting ==> Elapsed(timers[i], U32(cycle + n)) == Elapsed(timers[i], cycle) + n
        ensures Sound(timers[i], cycle) && InTime(i) ==> Sound(timers[i], U32(cycle + n))
        ensures Running(timers[i]) ==> Remaining(timers[i], U32(cycle + n)) == Remaining(timers[i], cycle) - n
      {
        TimerMoves(timers[i], cycle, n);
      }
      cycle := U32(cycle + n);
    }

    // -------------------------------------------------------------------------------------
    // Registers
    // -------------------------------------------------------------------------------------

    /**
      rcntRcount. For a running timer that is exactly the hardware's count, unless the timer's next
      event is due now, not handled yet, and resets the count: then the hardware is at zero already.
     */
    method rcntRcount(i: nat) returns (r: nat)
      requires i < |timers| && WellFormed(timers[i])
      ensures r ==
        if Running(timers[i]) then Read(timers[i].counter, Elapsed(timers[i], cycle)) else timers[i].counter.count
      ensures Sound(timers[i], cycle) && Running(timers[i]) ==>
        (r == Hardware(timers[i], cycle).count <==> Remaining(timers[i], cycle) > 0 || KeepsCount(timers[i].counter))
      ensures Sound(timers[i], cycle) && Running(timers[i]) && Remaining(timers[i], cycle) == 0 &&
              !KeepsCount(timers[i].counter) ==>
        Hardware(timers[i], cycle).count == 0 &&
        r == if Armed(timers[i].counter) then timers[i].counter.target else 0x1_0000
    {
      if Sound(timers[i], cycle) && Running(timers[i]) { ReadHere(timers[i], cycle); }
      hide Sound, Hardware, Remaining, KeepsCount;
      var t := timers[i];
      if t.counter.isCounting && t.counter.clockSource != 3 {
        r := t.counter.count + Sub(cycle, t.start) / t.counter.rate;
      } else {
        r := t.counter.count;
      }
    }

    lemma TimerFacts(i: nat)
      requires Base() && i < 4
      ensures |timers| == 4 && WellFormed(timers[i]) && (Running(timers[i]) ==> IsRate(timers[i].counter.rate))
      ensures timers[i].counter.isCounting ==> Elapsed(timers[i], cycle) <= Since() + 512
      ensures Valid() ==> Sound(timers[i], cycle) && Ahead(timers[i].counter)
    {
    }

    /** The deadline has come forward to timer i's next event, if it runs, and no further. */
    ghost predicate Rescheduled(i: nat, was: int)
      requires i < |timers|
      reads `timers, `cycle, `nextsCounter, `nextCounter
    {
      nextCounter == if Running(timers[i]) then Min(was, Remaining(timers[i], cycle) + Since()) else was
    }

    /** The deadline is rescheduled for timer i, and in time for it and for all it was in time for. */
    twostate predicate Scheduled(i: nat)
      requires i < 4 && old(|timers|) == |timers| == 4
      reads `timers, `cycle, `nextsCounter, `nextCounter, `nextEventCycle, sync
    {
      Rescheduled(i, old(nextCounter)) && InTime(i) && (old(VsyncInTime()) ==> VsyncInTime()) &&
      (forall j :: 0 <= j < 4 && j != i && old(InTime(j)) ==> InTime(j)) && (old(TestInTime()) ==> TestInTime())
    }

    /** Puts a timer in place and schedules it. */
    method Store(i: nat, t: Timer)
      requires Base() && i < 4 && WellFormed(t)
      requires t.counter.isCounting ==> t.start == cycle || Elapsed(t, cycle) <= Since() + 512
      modifies `timers, `nextCounter, `nextEventCycle
      ensures timers == old(timers)[i := t] && Base()
      ensures if Running(t) && !Ahead(t.counter) then nextCounter == 4 else Scheduled(i)
      ensures old(Valid()) && Ahead(t.counter) ==> Shape() && NotLate() && (Valid() <==> Sound(t, cycle))
    {
      assert Running(t) ==> t.counter.isCounting;
      SinceNothing(cycle);
      assert t.start == cycle ==> Elapsed(t, cycle) == 0;
      hide WellFormed, Ahead, Elapsed, Remaining, Running, Sound, VsyncShape, TestInTime;
      timers := timers[i := t];
      rcntSetOne(i);
    }

    /** A new count: the target is armed if it is not behind. The phase within a step is kept. */
    method rcntWcount(i: nat, value: nat)
      requires Base() && i < 4
      modifies `timers, `nextCounter, `nextEventCycle
      ensures timers == old(timers)[i := CountWritten(old(timers)[i], value % 0x1_0000, cycle)]
      ensures Base() && Scheduled(i)
      ensures Sound(timers[i], cycle) <==>
        !old(Running(timers[i])) ||
        (value % 0x1_0000 != old(Target16(timers[i].counter)) && old(Target16(timers[i].counter)) != 0)
      ensures old(Valid()) ==> Shape() && NotLate() && (Valid() <==> Sound(timers[i], cycle))
    {
      TimerFacts(i);
      hide Valid, Shape, NotLate, OnTime, TestInTime, WellFormed, Sound, Ahead, Elapsed, IsRate, Base, Scheduled;
      var t := timers[i];
      CountWrittenSound(t, value % 0x1_0000, cycle);
      var u := SetCount(t, value % 0x1_0000);
      hide CountWritten, Counted, Running, Target16, Target;
      Store(i, u);
    }

    /** The timer with its new count. */
    method SetCount(t: Timer, count: nat) returns (u: Timer)
      requires Running(t) ==> IsRate(t.counter.rate)
      ensures u == CountWritten(t, count, cycle)
    {
      hide Counted, IsRate, Target16;
      var start := StepStart(t);
      var target := Unarmed(t.counter);
      if count > target {
        target := target + FUTURE;
      }
      u := t.(counter := t.counter.(count := count, target := target), start := start);
    }

    /** The target without its FUTURE bit. */
    method Unarmed(c: Counter) returns (target: nat)
      ensures target == Target16(c)
    {
      target := c.target % 0x1_0000;
    }

    /** A new target: armed if the hardware's count is before it. Count and phase are kept. */
    method rcntWtarget(i: nat, value: nat)
      requires Base() && i < 4
      modifies `timers, `nextCounter, `nextEventCycle
      ensures timers == old(timers)[i := TargetWritten(old(timers)[i], value % 0x1_0000, cycle)]
      ensures Base()
      ensures if old(Running(timers[i]) && Counted(timers[i], cycle).counter.count > 0x1_0000) then nextCounter == 4
        else Scheduled(i)
      ensures Sound(timers[i], cycle) <==>
        !old(Running(timers[i])) || (value % 0x1_0000 != 0 && old(Counted(timers[i], cycle).counter.count) <= 0xffff)
      ensures old(Valid()) ==> Shape() && NotLate() && (Valid() <==> Sound(timers[i], cycle))
    {
      TimerFacts(i);
      hide Valid, Shape, NotLate, OnTime, TestInTime, WellFormed, Sound, Ahead, Elapsed, IsRate, Base, Scheduled;
      var t := timers[i];
      TargetWrittenSound(t, value % 0x1_0000, cycle);
      var u := SetTarget(t, value % 0x1_0000);
      hide TargetWritten, Counted, Running;
      Store(i, u);
    }

    /** The timer with its new target. */
    method SetTarget(t: Timer, value: nat) returns (u: Timer)
      requires Running(t) ==> IsRate(t.counter.rate)
      ensures u == TargetWritten(t, value, cycle)
    {
      u := t;
      if t.counter.isCounting && t.counter.clockSource != 3 {
        u := CountElapsed(t);
      }
      var target := value;
      if target <= u.counter.count {
        target := target + FUTURE;
      }
      u := u.(counter := u.counter.(target := target));
    }

    /** rcntWmode and _rcntSetGate: a timer with a gate stops, and waits for it. */
    method rcntWmode(i: nat, value: nat)
      requires Base() && i < 4
      modifies `timers, `gates, `nextCounter, `nextEventCycle
      ensures timers == old(timers)[i := ModeWritten(old(timers)[i], value, sync.info, cycle)]
      ensures gates == if Gated(value) then old(gates) + {i} else old(gates) - {i}
      ensures Base()
      ensures
        if Running(timers[i]) && !old(Ahead(Counted(timers[i], cycle).counter)) then nextCounter == 4 else Scheduled(i)
      ensures Sound(timers[i], cycle) <==> old(ModeFits(timers[i], value, cycle))
      ensures old(Valid()) ==> Shape() && NotLate() && (Valid() <==> Sound(timers[i], cycle))
    {
      hide Valid, Shape, NotLate, OnTime, TestInTime, WellFormed, Sound, Ahead, Elapsed, IsRate, Base,
        ModeFits, Running, InTime, VsyncInTime, Rescheduled;
      TimerFacts(i);
      var t := timers[i];
      ModeFitsExactly(t, value, sync.info, cycle);
      ModeWrittenSound(t, value, sync.info, cycle);
      if Gated(value) {
        gates := gates + {i};
      } else {
        gates := gates - {i};
      }
      var u := SetMode(t, value);
      hide ModeWritten, Counted;
      Store(i, u);
    }

    /** The timer with its new mode; with a gate it is reset. */
    method SetMode(t: Timer, value: nat) returns (u: Timer)
      requires Running(t) ==> IsRate(t.counter.rate)
      ensures u == ModeWritten(t, value, sync.info, cycle)
    {
      u := t;
      if t.counter.isCounting {
        if t.counter.clockSource != 3 {
          u := CountElapsed(t);
        }
      } else {
        u := t.(start := cycle);
      }
      u := WithMode(u, value, sync.info);
      if Bit(value, 0x4) && !(!Bit(value, 0x8) && value % 4 == 3) {
        u := u.(counter := u.counter.(isCounting := false, count := 0), start := cycle);
      }
    }
  }

  /** The hardware's timer now, stepped each cycle from when the emulator's count was right. */
  function Hardware(t: Timer, now: u32): Ticker
    requires Running(t) ==> IsRate(t.counter.rate)
  {
    if Running(t) then Ticks(ModeOf(t.counter), TickerOf(t.counter, 0), t.start, Elapsed(t, now)).0
    else Ticker(t.counter.count, 0, Armed(t.counter), t.counter.targetReached, t.counter.overflowReached)
  }

  lemma ReadHere(t: Timer, now: u32)
    requires WellFormed(t) && Running(t) && Sound(t, now)
    ensures var (r, h) := (Read(t.counter, Elapsed(t, now)), Hardware(t, now).count);
      (r == h <==> Remaining(t, now) > 0 || KeepsCount(t.counter)) &&
      (Remaining(t, now) == 0 && !KeepsCount(t.counter) ==>
        h == 0 && r == if Armed(t.counter) then t.counter.target else 0x1_0000)
  {
    DueSteps(t.counter, 0);
    hide Ticks, Read, Settled, Due, ModeOf, TickerOf, KeepsCount;
    ReadIsHardware(t.counter, 0, t.start, Elapsed(t, now));
  }

  /** The timer with all its whole steps in the count. */
  function Counted(t: Timer, now: u32): Timer
    requires Running(t) ==> IsRate(t.counter.rate)
  {
    if Running(t) then
      var e := Elapsed(t, now);
      t.(counter := Advance(t.counter, e), start := U32(now - e % t.counter.rate))
    else t
  }

  function Target(armed: bool, target: nat): nat {
    if armed then target else target + FUTURE
  }

  function CountWritten(t: Timer, count: nat, now: u32): Timer
    requires Running(t) ==> IsRate(t.counter.rate)
  {
    var target := Target16(t.counter);
    t.(counter := t.counter.(count := count, target := Target(count <= target, target)),
       start := if t.counter.isCounting then Counted(t, now).start else now)
  }

  function TargetWritten(t: Timer, target: nat, now: u32): Timer
    requires Running(t) ==> IsRate(t.counter.rate)
  {
    var u := Counted(t, now);
    u.(counter := u.counter.(target := Target(u.counter.count < target, target)))
  }

  predicate Bit(value: nat, weight: nat)
    requires weight > 0
  {
    value / weight % 2 == 1
  }

  /** The gate holds, unless both it and the clock are the hblank. */
  predicate Gated(value: nat) {
    Bit(value, 0x4) && !(!Bit(value, 0x8) && value % 4 == 3)
  }

  /** The mode bits: writing a one to a "reached" flag clears it. */
  function WithMode(t: Timer, value: nat, info: Sync.Info): Timer {
    var c := t.counter;
    var rate := match value % 4 case 0 => 2 case 1 => 32 case 2 => 512 case _ => info.hBlank + info.hRender;
    t.(gateOn := Bit(value, 0x4), gateVblank := Bit(value, 0x8), gateMode := value / 0x10 % 4,
       counter := c.(clockSource := value % 4, rate := rate,
                     zeroReturn := Bit(value, 0x40), isCounting := Bit(value, 0x80),
                     targetInterrupt := Bit(value, 0x100), overflowInterrupt := Bit(value, 0x200),
                     targetReached := c.targetReached && !Bit(value, 0x400),
                     overflowReached := c.overflowReached && !Bit(value, 0x800)))
  }

  function ModeWritten(t: Timer, value: nat, info: Sync.Info, now: u32): Timer
    requires Running(t) ==> IsRate(t.counter.rate)
  {
    var u := WithMode(if t.counter.isCounting then Counted(t, now) else t.(start := now), value, info);
    if Gated(value) then u.(counter := u.counter.(isCounting := false, count := 0), start := now) else u
  }

  function Weigh(b: bool, weight: nat): nat {
    if b then weight else 0
  }

  /** The mode register as it is read. */
  function ModeWord(t: Timer): nat {
    LowMode(t) + Weigh(t.counter.targetReached, 0x400) + Weigh(t.counter.overflowReached, 0x800)
  }

  /** Its bits below the two flags. */
  function LowMode(t: Timer): nat {
    var c := t.counter;
    c.clockSource + Weigh(t.gateOn, 0x4) + Weigh(t.gateVblank, 0x8) + 0x10 * t.gateMode +
    Weigh(c.zeroReturn, 0x40) + Weigh(c.isCounting, 0x80) +
    Weigh(c.targetInterrupt, 0x100) + Weigh(c.overflowInterrupt, 0x200)
  }

  /** The remainder one bit further up. */
  lemma OneMoreBit(value: nat, w: nat)
    requires w > 0
    ensures value % (2 * w) == value % w + Weigh(Bit(value, w), w)
  {
    var q := value / w;
    assert value == w * q + value % w;
    assert q == 2 * (q / 2) + q % 2;
    assert w * q == 2 * w * (q / 2) + w * (q % 2);
    DivisionIs(value, 2 * w, q / 2, value % w + w * (q % 2));
  }

  lemma TwoMoreBits(value: nat)
    ensures value % 0x40 == value % 0x10 + 0x10 * (value / 0x10 % 4)
  {
  }

  /** The low ten bits of a word. */
  lemma LowTen(value: nat)
    ensures value % 0x400 == value % 4 + Weigh(Bit(value, 0x4), 0x4) + Weigh(Bit(value, 0x8), 0x8) +
      0x10 * (value / 0x10 % 4) + Weigh(Bit(value, 0x40), 0x40) + Weigh(Bit(value, 0x80), 0x80) +
      Weigh(Bit(value, 0x100), 0x100) + Weigh(Bit(value, 0x200), 0x200)
  {
    OneMoreBit(value, 0x4);
    OneMoreBit(value, 0x8);
    TwoMoreBits(value);
    OneMoreBit(value, 0x40);
    OneMoreBit(value, 0x80);
    OneMoreBit(value, 0x100);
    OneMoreBit(value, 0x200);
    hide Bit, Weigh;
  }

  /**
    What the mode register reads as after a write: its low ten bits are the value's, but for the
    count enable of a timer that waits for its gate; and of the two flags above them, those that
    were set and are not written as one.
   */
  lemma ModeReadsBack(t: Timer, value: nat, info: Sync.Info, now: u32)
    requires Running(t) ==> IsRate(t.counter.rate)
    ensures var word := ModeWord(ModeWritten(t, value, info, now));
      word % 0x400 == value % 0x400 - Weigh(Gated(value) && Bit(value, 0x80), 0x80) &&
      (word / 0x400 % 2 == 1 <==> t.counter.targetReached && !Bit(value, 0x400)) &&
      (word / 0x800 == 1 <==> t.counter.overflowReached && !Bit(value, 0x800)) && word < 0x1000
  {
    var u := ModeWritten(t, value, info, now);
    FlagsWritten(t, value, info, now);
    LowModeWritten(t, value, info, now);
    LowModeFits(u);
    FlagsInWord(u);
    hide Bit, Gated, ModeWritten, LowMode, ModeWord;
  }

  lemma FlagsWritten(t: Timer, value: nat, info: Sync.Info, now: u32)
    requires Running(t) ==> IsRate(t.counter.rate)
    ensures var u := ModeWritten(t, value, info, now);
      u.counter.clockSource < 4 && u.gateMode < 4 &&
      u.counter.targetReached == (t.counter.targetReached && !Bit(value, 0x400)) &&
      u.counter.overflowReached == (t.counter.overflowReached && !Bit(value, 0x800))
  {
    hide Bit, Gated;
  }

  lemma LowModeWritten(t: Timer, value: nat, info: Sync.Info, now: u32)
    requires Running(t) ==> IsRate(t.counter.rate)
    ensures LowMode(ModeWritten(t, value, info, now)) ==
      value % 0x400 - Weigh(Gated(value) && Bit(value, 0x80), 0x80)
  {
    LowTen(value);
    var u := ModeWritten(t, value, info, now);
    assert u.counter.isCounting == (Bit(value, 0x80) && !Gated(value));
    hide Bit, Gated, ModeWritten;
  }

  lemma LowModeFits(t: Timer)
    requires t.counter.clockSource < 4 && t.gateMode < 4
    ensures LowMode(t) < 0x400
  {
  }

  /** A timer after a reset: all is zero but the target, and the interrupt by which it is told from the others. */
  lemma ResetTimer(i: nat, now: u32)
    ensures var t := InitialTimer(i, now);
      ModeWord(t) == 0 && t.counter.count == 0 && t.counter.target == 0xffff && t.counter.rate == 2 &&
      t.start == now && t.interrupt == 9 + i
  {
  }

  /** The flags are where they are read. */
  lemma FlagsInWord(t: Timer)
    requires LowMode(t) < 0x400
    ensures var word := ModeWord(t);
      word % 0x400 == LowMode(t) && word < 0x1000 &&
      (word / 0x400 % 2 == 1 <==> t.counter.targetReached) && (word / 0x800 == 1 <==> t.counter.overflowReached)
  {
    hide LowMode;
  }

  lemma ModeWrittenWellFormed(t: Timer, value: nat, info: Sync.Info, now: u32)
    requires WellFormed(t)
    ensures WellFormed(ModeWritten(t, value, info, now))
  {
    hide Bit, Gated, Elapsed, U32;
  }

  /** A write of the mode: a timer that keeps running with its clock loses no cycle by it. */
  lemma ModeWrittenSound(t: Timer, value: nat, info: Sync.Info, now: u32)
    requires WellFormed(t)
    ensures var u := ModeWritten(t, value, info, now);
      WellFormed(u) && (Running(u) ==> (Ahead(u.counter) <==> Ahead(Counted(t, now).counter))) &&
      (u.counter.isCounting ==> u.start == now || Elapsed(u, now) <= Elapsed(t, now))
    ensures Sound(t, now) && Ahead(t.counter) ==> Ahead(ModeWritten(t, value, info, now).counter)
    ensures var u := ModeWritten(t, value, info, now);
      Running(t) && Running(u) && u.counter.rate == t.counter.rate ==>
        var (a, b) := (TickerOf(t.counter, Elapsed(t, now)), TickerOf(u.counter, Elapsed(u, now)));
        (b.count, b.phase, b.armed) == (a.count, a.phase, a.armed) &&
        b.targetReached == (a.targetReached && !Bit(value, 0x400)) &&
        b.overflowReached == (a.overflowReached && !Bit(value, 0x800))
  {
    hide Bit, Gated;
    ModeWrittenWellFormed(t, value, info, now);
    if Running(t) {
      var e := Elapsed(t, now);
      CountedElapsed(t.counter, now, e);
      NoFurther(e, t.counter.rate);
      if Sound(t, now) { CountedAhead(t, now); }
    }
  }

  lemma CountedAhead(t: Timer, now: u32)
    requires WellFormed(t) && Running(t) && Sound(t, now)
    ensures Ahead(Counted(t, now).counter)
  {
    DueSteps(t.counter, Elapsed(t, now));
    hide Sub;
  }

  /** The rate of clock source 0, 1 or 2. */
  function RateOf(source: nat): nat {
    if source == 0 then 2 else if source == 1 then 32 else 512
  }

  /** How many steps of the count there are to the timer's next event. */
  function Steps(c: Counter): int {
    (if Armed(c) then c.target else 0x1_0000) - c.count
  }

  /**
    When a timer can be given a mode: if it will run, its target is not zero, its next event is
    not due, and the cycles left over from its last step fit into what is left at the new rate.
   */
  predicate ModeFits(t: Timer, value: nat, now: u32)
    requires Running(t) ==> IsRate(t.counter.rate)
  {
    var starts := Bit(value, 0x80) && !Gated(value) && value % 4 != 3;
    var v := Counted(t, now);
    var left := if t.counter.isCounting then Elapsed(v, now) else 0;
    starts ==>
      Target16(t.counter) != 0 && Steps(v.counter) > 0 && left <= Steps(v.counter) * RateOf(value % 4)
  }

  /** Exactly the modes that fit leave the timer sound. */
  lemma ModeFitsExactly(t: Timer, value: nat, info: Sync.Info, now: u32)
    requires WellFormed(t)
    ensures Sound(ModeWritten(t, value, info, now), now) <==> ModeFits(t, value, now)
  {
    hide Bit;
    var u := ModeWritten(t, value, info, now);
    if Running(u) {
      var v := Counted(t, now);
      SinceNothing(now);
      assert u.counter.rate == RateOf(value % 4) && IsRate(u.counter.rate);
      assert u.counter.count == v.counter.count && u.counter.target == t.counter.target;
      assert Due(u.counter) == Steps(v.counter) * u.counter.rate;
      hide Counted, ModeWritten, WithMode;
    }
  }

  /**
    The same for a timer that keeps running, with nothing due: exactly if the cycles left over
    fit. They always do if the clock does not get faster.
   */
  lemma SlowerClockSound(t: Timer, value: nat, info: Sync.Info, now: u32)
    requires WellFormed(t) && Sound(t, now) && Running(t) && Remaining(t, now) > 0
    ensures var u := ModeWritten(t, value, info, now);
      Running(u) ==>
        (Sound(u, now) <==>
          Elapsed(t, now) % t.counter.rate <=
          ((if Armed(t.counter) then t.counter.target else 0x1_0000) - Counted(t, now).counter.count) * u.counter.rate)
    ensures var u := ModeWritten(t, value, info, now);
      Running(u) && u.counter.rate >= t.counter.rate ==> Sound(u, now)
  {
    var e := Elapsed(t, now);
    var u := ModeWritten(t, value, info, now);
    SettledRuns(t.counter);
    ModeFitsExactly(t, value, info, now);
    UpdateEarly(t.counter, e);
    CountedElapsed(t.counter, now, e);
    if Running(u) {
      hide Bit;
      assert ModeFits(t, value, now) <==> e % t.counter.rate <= Steps(Counted(t, now).counter) * u.counter.rate;
      StepTimes(Steps(Counted(t, now).counter), u.counter.rate);
    }
  }

  /** Less than a step is always left. */
  lemma StepsWait(c: Counter, left: nat)
    requires Settled(c) && left < c.rate
    ensures left < Due(c)
  {
    DueSteps(c, 0);
    NoFurther(left, c.rate);
    DueSteps(c, left);
  }

  lemma StepTimes(steps: int, rate: nat)
    requires steps > 0
    ensures steps * rate >= rate
  {
  }

  /**
    Exactly when an update leaves a timer overdue, if it is less than FUTURE steps behind: when it
    ran past its target by more than the whole target, or past the overflow by more than that.
   */
  lemma OverdueAfterUpdate(t: Timer, now: u32)
    requires WellFormed(t) && Running(t) && Read(t.counter, Elapsed(t, now)) < FUTURE
    ensures var (c, n) := (t.counter, Read(t.counter, Elapsed(t, now)));
      var resets := Armed(c) && c.targetInterrupt && c.zeroReturn && n >= c.target;
      var m := if resets then n - c.target else n;
      !Ahead(UpdateTimer(t, now).counter) <==> if m > 0xffff then m - 0x1_0000 > Target16(c) else resets && m > c.target
  {
    OverdueAfterTest(t.counter.(count := Read(t.counter, Elapsed(t, now))));
    hide Test, Ahead, IsRate;
  }

  lemma OverdueAfterTest(c: Counter)
    requires (c.target < 0x1_0000 || FUTURE <= c.target < FUTURE + 0x1_0000) && c.count < FUTURE
    ensures var resets := Armed(c) && c.targetInterrupt && c.zeroReturn && c.count >= c.target;
      var m := if resets then c.count - c.target else c.count;
      !Ahead(Test(c).0) <==> if m > 0xffff then m - 0x1_0000 > Target16(c) else resets && m > c.target
  {
    var d := TestTarget(c).0;
    if c.count < c.target {
      assert d == c;
    }
  }

  /** With a faster clock it may run past its target by more than the whole target: then it stays overdue. */
  lemma FasterClockRunsOver(now: u32, info: Sync.Info)
    ensures var c := Counter(99, 100, 512, 2, true, true, true, false, false, false);
      var t := Timer(c, U32(now - 511), 9, false, false, 0);
      var u := ModeWritten(t, 0x1c0, info, now);
      WellFormed(t) && Sound(t, now) && Remaining(t, now) > 0 && WellFormed(u) && !Sound(u, now) &&
      !Ahead(UpdateTimer(u, now).counter)
  {
    var t := Timer(Counter(99, 100, 512, 2, true, true, true, false, false, false), U32(now - 511), 9, false, false, 0);
    Rewound(now, 511);
    var u := ModeWritten(t, 0x1c0, info, now);
    assert Elapsed(t, now) == 511;
    assert u.counter.count == 99 && u.counter.rate == 2 && Elapsed(u, now) == 511;
    assert Update(u.counter, 511).counter.count == 254;
  }

  /** What a write of the count does to the hardware, and when the timer is still sound. */
  lemma CountWrittenSound(t: Timer, count: nat, now: u32)
    requires WellFormed(t) && count < 0x1_0000
    ensures var u := CountWritten(t, count, now);
      WellFormed(u) && Ahead(u.counter) && (u.counter.isCounting ==> Elapsed(u, now) <= Elapsed(t, now)) &&
      (!u.counter.isCounting ==> u.start == now)
    ensures Sound(CountWritten(t, count, now), now) <==>
      !Running(t) || (count != Target16(t.counter) && Target16(t.counter) != 0)
    ensures Running(t) ==>
      var u := CountWritten(t, count, now);
      TickerOf(u.counter, Elapsed(u, now)) ==
      TickerOf(t.counter, Elapsed(t, now)).(count := count, armed := count <= Target16(t.counter))
  {
    if Running(t) {
      var e := Elapsed(t, now);
      CountedElapsed(t.counter, now, e);
      NoFurther(e, t.counter.rate);
      if count != Target16(t.counter) && Target16(t.counter) != 0 {
        DueSteps(CountWritten(t, count, now).counter, 0);
      }
    }
  }

  lemma TargetWrittenSound(t: Timer, target: nat, now: u32)
    requires WellFormed(t) && target < 0x1_0000
    ensures var u := TargetWritten(t, target, now);
      WellFormed(u) && (u.counter.isCounting ==> Elapsed(u, now) <= Elapsed(t, now)) && Running(u) == Running(t) &&
      (Ahead(u.counter) <==> Counted(t, now).counter.count <= 0x1_0000)
    ensures Sound(t, now) && Ahead(t.counter) ==> Ahead(TargetWritten(t, target, now).counter)
    ensures Sound(TargetWritten(t, target, now), now) <==>
      !Running(t) || (target != 0 && Counted(t, now).counter.count <= 0xffff)
    ensures Running(t) ==>
      var u := TargetWritten(t, target, now);
      TickerOf(u.counter, Elapsed(u, now)) ==
      TickerOf(t.counter, Elapsed(t, now)).(armed := Counted(t, now).counter.count < target)
  {
    if Running(t) {
      var v := Counted(t, now);
      CountedElapsed(t.counter, now, Elapsed(t, now));
      if Sound(t, now) { CountedBounds(t, now); }
      hide Sub, U32, Settled, Due, Counted;
      TargetOf(v.counter, target, Elapsed(v, now));
    }
  }

  lemma CountedBounds(t: Timer, now: u32)
    requires WellFormed(t) && Running(t) && Sound(t, now)
    ensures Counted(t, now).counter.count <= 0x1_0000
  {
    DueSteps(t.counter, Elapsed(t, now));
    hide Settled, Sub;
  }

  /** A counter with less than a step elapsed is given a target. */
  lemma TargetOf(c: Counter, target: nat, left: nat)
    requires Clocked(c) && target < 0x1_0000 && left < c.rate
    ensures var d := c.(target := Target(c.count < target, target));
      (Settled(d) && left <= Due(d)) == (target != 0 && c.count <= 0xffff) &&
      Armed(d) == (c.count < target) && (d.target < 0x1_0000 || FUTURE <= d.target < FUTURE + 0x1_0000)
  {
    var d := c.(target := Target(c.count < target, target));
    if Settled(d) { StepsWait(d, left); }
  }

  /** The next test as the event test first sets it. */
  lemma TestDistance(now: u32, start: u32)
    requires start == now || Sub(now, start) <= SPAN
    ensures S32(Sub(U32(now + WAIT_CYCLES), start)) == Sub(now, start) + WAIT_CYCLES &&
      S32(Sub(now, start)) == Sub(now, start)
    ensures Near(U32(now + WAIT_CYCLES), start)
  {
    EndMoves(now, start, WAIT_CYCLES);
  }

  /** A test not far behind the last update stays so as it comes forward to the deadline. */
  lemma StillNear(test: u32, start: u32, deadline: int)
    requires Near(test, start) && deadline >= -2 * SPAN
    ensures forall t: u32 :: S32(Sub(t, start)) == Min(S32(Sub(test, start)), deadline) ==> Near(t, start)
  {
  }

  lemma TimerMoves(t: Timer, now: u32, n: nat)
    requires t.counter.isCounting ==> Elapsed(t, now) + n < TWO32
    ensures t.counter.isCounting ==> Elapsed(t, U32(now + n)) == Elapsed(t, now) + n
    ensures Running(t) ==> Remaining(t, U32(now + n)) == Remaining(t, now) - n
    ensures Sound(t, now) && (Running(t) ==> n <= Remaining(t, now)) ==> Sound(t, U32(now + n))
  {
    if t.counter.isCounting {
      EndMoves(now, t.start, n);
    }
    hide U32, Sub, Settled, Due;
  }

  /** Up to the next test is up to the deadline. */
  lemma RunSpan(test: u32, now: u32, start: u32, deadline: int, n: nat)
    requires -2 * SPAN <= S32(Sub(test, start)) <= deadline <= SPAN && Sub(now, start) <= SPAN
    requires n <= S32(Sub(test, now))
    ensures Sub(now, start) + n <= deadline
  {
  }

  /** Whatever state a timer is in, an update leaves less than a step elapsed. */
  lemma EachUpdated(ts: seq<Timer>, us: seq<Timer>, now: u32)
    requires |ts| == |us| == 4 && forall i :: 0 <= i < 4 ==> WellFormed(ts[i]) && us[i] == UpdateTimer(ts[i], now)
    ensures forall i :: 0 <= i < 4 ==> WellFormed(us[i]) && (us[i].counter.isCounting ==> Elapsed(us[i], now) < 512)
  {
    forall i | 0 <= i < 4
      ensures WellFormed(us[i]) && (us[i].counter.isCounting ==> Elapsed(us[i], now) < 512)
    {
      UpdatedWellFormed(ts[i], now);
      hide WellFormed, UpdateTimer, Elapsed;
    }
    hide WellFormed, UpdateTimer, Elapsed;
  }

  lemma UpdatedWellFormed(t: Timer, now: u32)
    requires WellFormed(t)
    ensures var u := UpdateTimer(t, now); WellFormed(u) && (u.counter.isCounting ==> Elapsed(u, now) < 512)
  {
    if Running(t) {
      var u := Update(t.counter, Elapsed(t, now));
      TestKeeps(Advance(t.counter, Elapsed(t, now)));
      hide Test;
      Rewound(now, u.elapsed);
    } else {
      SinceNothing(now);
    }
  }

  lemma TestKeeps(c: Counter)
    requires c.target < 0x1_0000 || FUTURE <= c.target < FUTURE + 0x1_0000
    ensures var d := Test(c).0;
      (d.target < 0x1_0000 || FUTURE <= d.target < FUTURE + 0x1_0000) &&
      d.rate == c.rate && d.clockSource == c.clockSource && d.isCounting == c.isCounting
  {
    var e := TestTarget(c).0;
    assert e.target < 0x1_0000 || FUTURE <= e.target < FUTURE + 0x1_0000;
    hide TestTarget, SetFuture;
  }

  lemma EachUpdatedSound(ts: seq<Timer>, us: seq<Timer>, now: u32)
    requires |ts| == |us| == 4 && forall i :: 0 <= i < 4 ==> WellFormed(ts[i]) && us[i] == UpdateTimer(ts[i], now)
    ensures forall i :: 0 <= i < 4 && Sound(ts[i], now) ==>
      Sound(us[i], now) && (Ahead(ts[i].counter) ==> Ahead(us[i].counter)) &&
      (Running(us[i]) ==> Remaining(us[i], now) > 0)
    ensures (forall i :: 0 <= i < 4 ==> Sound(ts[i], now) && Ahead(ts[i].counter)) ==> AllAhead(us, 4)
  {
    forall i | 0 <= i < 4 && Sound(ts[i], now)
      ensures Sound(us[i], now) && (Ahead(ts[i].counter) ==> Ahead(us[i].counter))
      ensures Running(us[i]) ==> Remaining(us[i], now) > 0
    {
      UpdatedSound(ts[i], now);
      hide Running, UpdateTimer, Remaining;
    }
    hide Running, UpdateTimer, Remaining, Sound, Ahead;
  }

  lemma NoneRuns(ts: seq<Timer>, now: u32, limit: int)
    requires |ts| == 4 && forall i :: 0 <= i < 4 ==> !Running(ts[i])
    ensures Earliest(ts, now, limit, 0, 4) == limit
  {
  }

  lemma InitialTimersSound(ts: seq<Timer>, now: u32)
    requires |ts| == 4 && forall i :: 0 <= i < 4 ==> ts[i] == InitialTimer(i, now)
    ensures AllAhead(ts, 4) && forall i :: 0 <= i < 4 ==> WellFormed(ts[i]) && Sound(ts[i], now) && Ahead(ts[i].counter)
    ensures forall i :: 0 <= i < 4 ==> !Running(ts[i]) && !ts[i].counter.isCounting
  {
  }

  lemma EarliestLater(ts: seq<Timer>, now: u32, limit: int)
    requires |ts| == 4 && limit > 0 && forall i :: 0 <= i < 4 && Running(ts[i]) ==> Remaining(ts[i], now) > 0
    ensures 0 < Earliest(ts, now, limit, 0, 4) <= limit
    ensures forall i :: 0 <= i < 4 && Running(ts[i]) ==> Earliest(ts, now, limit, 0, 4) <= Remaining(ts[i], now)
  {
  }

  function UpdatedSync(s: Sync.State, info: Sync.Info, now: u32): Sync.State {
    if Sync.Reached(now, s.vStart, s.vLength) then Sync.NextVPart(s, info) else s
  }

  /** No more than 3 cycles late, the vsync counter's next edge lies ahead after its update. */
  lemma VsyncEdge(s: Sync.State, info: Sync.Info, now: u32)
    requires 4 <= info.render <= SPAN && 4 <= info.blank <= SPAN
    requires s.vLength == (if s.inVSync then info.blank else info.render) && Sub(now, s.vStart) <= s.vLength + 3
    ensures var t := UpdatedSync(s, info, now);
      t.vLength == (if t.inVSync then info.blank else info.render) && Sub(now, t.vStart) < t.vLength
  {
    var (left, n) := (Sub(now, s.vStart), s.vLength);
    assert S32(left) == left;
    if left >= n {
      StartMoves(now, s.vStart, n);
      hide Sub, U32, S32;
    }
  }

  lemma Remainder(x: nat, r: nat)
    requires IsRate(r)
    ensures x - x / r * r == x % r
  {
    if r == 2 {
    } else if r == 32 {
    } else {
    }
  }

  lemma SmallDistance(due: int, elapsed: u32, since: u32)
    requires 0 <= due <= 0x200_0000 && since <= SPAN && elapsed <= since + 512
    ensures S32(U32(due - elapsed)) == due - elapsed && -513 <= due - elapsed + since <= 2 * SPAN
  {
    Fits(due - elapsed);
  }

  lemma DueBounds(c: Counter)
    requires IsRate(c.rate) && Ahead(c) && (c.target < 0x1_0000 || FUTURE <= c.target < FUTURE + 0x1_0000)
    ensures 0 <= (0x1_0000 - c.count) * c.rate <= 0x200_0000
    ensures Armed(c) ==> 0 <= (c.target - c.count) * c.rate <= (0x1_0000 - c.count) * c.rate
  {
    if c.rate == 2 {
    } else if c.rate == 32 {
    } else {
    }
  }

  // ---------------------------------------------------------------------------------------
  // A deadline that is late
  // ---------------------------------------------------------------------------------------

  /** A timer of 2 cycles a step with its target at 257, started at cycle 0. */
  function NearTimer(): Timer {
    Timer(Counter(0, 257, 2, 0, true, true, true, false, false, false), 0, 9, false, false, 0)
  }

  /** One of 512 cycles a step that is a step before its target of 100, and the same with 2 cycles a step. */
  function SlowTimer(): Timer {
    Timer(Counter(99, 100, 512, 2, true, true, true, false, false, false), 0, 10, false, false, 0)
  }

  function FastTimer(): Timer {
    SlowTimer().(counter := SlowTimer().counter.(rate := 2, clockSource := 0))
  }

  lemma NearTimerSet(info: Sync.Info)
    ensures var t := TargetWritten(InitialTimer(0, 0), 257, 0);
      !Running(InitialTimer(0, 0)) && !Running(t) && ModeWritten(t, 0x1c0, info, 0) == NearTimer() &&
      ModeFits(t, 0x1c0, 0)
    ensures Running(NearTimer()) && Remaining(NearTimer(), 0) == 514
    ensures Ahead(TargetWritten(InitialTimer(0, 0), 257, 0).counter)
  {
  }

  lemma SlowTimerSet(info: Sync.Info)
    ensures var t := TargetWritten(InitialTimer(1, 0), 100, 0); var u := CountWritten(t, 99, 0);
      !Running(InitialTimer(1, 0)) && !Running(t) && !Running(u) && ModeWritten(u, 0x1c2, info, 0) == SlowTimer() &&
      ModeFits(u, 0x1c2, 0) && Ahead(u.counter)
    ensures Running(SlowTimer()) && Remaining(SlowTimer(), 0) == 512
  {
  }

  lemma StoppedTimers()
    ensures !Running(InitialTimer(2, 0)) && !Running(InitialTimer(3, 0))
  {
  }

  lemma Counted0()
    ensures Counted(TargetWritten(InitialTimer(0, 0), 257, 0), 0) == TargetWritten(InitialTimer(0, 0), 257, 0)
    ensures Counted(CountWritten(TargetWritten(InitialTimer(1, 0), 100, 0), 99, 0), 0) ==
      CountWritten(TargetWritten(InitialTimer(1, 0), 100, 0), 99, 0)
  {
  }

  lemma SlowTimerCounted()
    ensures Counted(SlowTimer(), 511) == SlowTimer() && SlowTimer().counter.isCounting && Ahead(SlowTimer().counter)
  {
    Distances();
    LessThanAStep(511, 512);
    hide Sub;
    assert SlowTimer().counter.rate == 512 && Elapsed(SlowTimer(), 511) == 511;
  }

  lemma LessThanAStep(e: nat, r: nat)
    requires e < r
    ensures e / r == 0 && e % r == e
  {
  }

  lemma FastTimerMode(info: Sync.Info)
    ensures WithMode(SlowTimer(), 0x1c0, info) == FastTimer() && !Gated(0x1c0)
  {
    FastBits();
    hide Bit;
  }

  lemma FastBits()
    ensures !Bit(0x1c0, 0x4) && !Bit(0x1c0, 0x8) && Bit(0x1c0, 0x40) && Bit(0x1c0, 0x80) && Bit(0x1c0, 0x100)
    ensures !Bit(0x1c0, 0x200) && !Bit(0x1c0, 0x400) && !Bit(0x1c0, 0x800)
  {
  }

  /** 511 cycles later, the slow timer's clock is set to 2 cycles. */
  lemma SlowTimerSpeedsUp(info: Sync.Info)
    ensures ModeWritten(SlowTimer(), 0x1c0, info, 511) == FastTimer()
  {
    hide Bit, Counted, WithMode, Gated, SlowTimer, FastTimer;
    SlowTimerCounted();
    FastTimerMode(info);
  }

  /** It is then 254 steps past its target, and stays overdue. */
  lemma FastTimerOverdue()
    ensures Running(FastTimer()) && WellFormed(FastTimer()) && Remaining(FastTimer(), 511) == -509
    ensures !Ahead(UpdateTimer(FastTimer(), 511).counter) && Running(UpdateTimer(FastTimer(), 511))
  {
    OverdueAfterUpdate(FastTimer(), 511);
  }

  /** The other timer's target is then 3 cycles ahead. */
  lemma NearTimerUpdated()
    ensures var u := UpdateTimer(NearTimer(), 511);
      Running(u) && Ahead(u.counter) && u.counter.count == 255 && Remaining(u, 511) == 3
  {
    Distances();
    Rewound(511, 1);
    UpdateEarly(NearTimer().counter, 511);
    assert 511 / 2 == 255 && 511 % 2 == 1;
    hide Sub, U32;
  }

  lemma Distances()
    ensures Sub(0, 0) == 0 && Sub(511, 0) == 511 && Sub(511, 511) == 0 && U32(511) == 511 && U32(0) == 0
    ensures forall length: int :: length > 511 ==> !Sync.Reached(511, 0, length)
  {
  }

  /** Behind an overdue timer 1, with timers 2 and 3 stopped, the deadline is 4. */
  lemma SecondOverdue(ts: seq<Timer>, now: u32, limit: int)
    requires |ts| == 4 && Running(ts[1]) && !Ahead(ts[1].counter) && !Running(ts[2]) && !Running(ts[3])
    ensures Deadline(ts, now, limit, 4) == 4
  {
    assert LastOverdue(ts, 2) == LastOverdue(ts, 3) == LastOverdue(ts, 4) == 1;
    assert Earliest(ts, now, 4, 2, 2) == Earliest(ts, now, 4, 2, 3) == Earliest(ts, now, 4, 2, 4);
  }

  lemma StoppedStay(ts: seq<Timer>, now: u32)
    ensures forall i :: 0 <= i < |ts| && WellFormed(ts[i]) && !Running(ts[i]) ==> !Running(UpdateTimer(ts[i], now))
  {
  }

  /** The first of the two timers is set up. */
  method NearTimerStarts(info: Sync.Info) returns (s: Timers)
    requires 600 <= info.render <= SPAN && 4 <= info.blank <= SPAN
    ensures fresh(s) && fresh(s.sync) && s.Valid() && s.sync.info == info
    ensures s.cycle == 0 && s.nextsCounter == 0 && s.nextCounter == 514
    ensures s.sync.state == Sync.State(0, info.hRender, false, 0, info.render, false)
    ensures s.timers == [NearTimer(), InitialTimer(1, 0), InitialTimer(2, 0), InitialTimer(3, 0)]
  {
    hide WellFormed, Ahead, Elapsed, Remaining, Running, Sound, CountWritten, TargetWritten, ModeWritten, ModeFits,
      UpdateTimer, Raised, Deadline, Gated, NearTimer, Near, Sub, U32, S32, InitialTimer, Counted,
      Timers.VsyncLeft, Timers.Shape, Timers.NotLate, Timers.OnTime, Timers.TestInTime, Timers.Base;
    NearTimerSet(info);
    Distances();
    Counted0();
    s := new Timers(info, 0);
    s.ValidIsBase();
    hide Timers.Valid;
    s.rcntWtarget(0, 257);
    s.rcntWmode(0, 0x1c0);
  }

  /** And the second, which is due 2 cycles before it. */
  method BothTimersStart(info: Sync.Info) returns (s: Timers)
    requires 600 <= info.render <= SPAN && 4 <= info.blank <= SPAN
    ensures fresh(s) && fresh(s.sync) && s.Valid() && s.sync.info == info
    ensures s.cycle == 0 && s.nextsCounter == 0 && s.nextCounter == 512
    ensures s.sync.state == Sync.State(0, info.hRender, false, 0, info.render, false)
    ensures s.timers == [NearTimer(), SlowTimer(), InitialTimer(2, 0), InitialTimer(3, 0)]
  {
    hide WellFormed, Ahead, Elapsed, Remaining, Running, Sound, CountWritten, TargetWritten, ModeWritten, ModeFits,
      UpdateTimer, Raised, Deadline, Gated, NearTimer, SlowTimer, Near, Sub, U32, S32, InitialTimer, Counted,
      Timers.VsyncLeft, Timers.Shape, Timers.NotLate, Timers.OnTime, Timers.TestInTime, Timers.Base, Timers.Valid;
    SlowTimerSet(info);
    Distances();
    Counted0();
    s := NearTimerStarts(info);
    s.ValidIsBase();
    s.rcntWtarget(1, 100);
    s.rcntWcount(1, 99);
    s.rcntWmode(1, 0x1c2);
  }

  /** Both run until a cycle before the second is due. */
  method BothTimersRun(info: Sync.Info) returns (s: Timers)
    requires 600 <= info.render <= SPAN && 4 <= info.blank <= SPAN
    ensures fresh(s) && fresh(s.sync) && s.Base() && s.sync.info == info
    ensures s.cycle == 511 && s.nextsCounter == 0 && s.nextCounter == 512
    ensures s.sync.state == Sync.State(0, info.hRender, false, 0, info.render, false)
    ensures s.timers[0] == NearTimer() && s.timers[1] == SlowTimer() && !Running(s.timers[2]) && !Running(s.timers[3])
  {
    hide WellFormed, Ahead, Elapsed, Remaining, Running, Sound, UpdateTimer, Raised, Deadline, NearTimer, SlowTimer,
      Near, Sub, U32, S32, InitialTimer, AllAhead, Timers.VsyncLeft, Timers.Shape, Timers.NotLate, Timers.TestInTime,
      Timers.Base, Timers.Valid, Timers.InTime, Timers.VsyncInTime;
    Distances();
    StoppedTimers();
    s := BothTimersStart(info);
    s.ValidIsBase();
    s.cpuEventTest();
    s.ValidInTime();
    s.RunFor(511);
  }

  /**
    A run to a late deadline, with any timing: a timer's clock is made faster 511 cycles into a
    step, which leaves it overdue after the update; the timer in front of it is due in 3 cycles,
    but the next update in 4.
   */
  method LateDeadline(info: Sync.Info) returns (s: Timers)
    requires 600 <= info.render <= SPAN && 4 <= info.blank <= SPAN
    ensures fresh(s) && s.nextsCounter == s.cycle == 511 && s.nextCounter == 4
    ensures |s.timers| == 4 && Running(s.timers[0]) && Ahead(s.timers[0].counter) &&
      Remaining(s.timers[0], s.cycle) == 3
    ensures Late(s.nextCounter, s.timers, s.cycle, s.VsyncLeft())
  {
    hide WellFormed, Ahead, Elapsed, Remaining, Running, Sound, ModeWritten, ModeFits, UpdateTimer, Raised, Deadline,
      Gated, NearTimer, SlowTimer, FastTimer, Counted, Near, Sub, U32, S32, Sync.Reached, Sync.NextVPart, AllAhead,
      Timers.InTime, Timers.VsyncInTime, Timers.TestInTime, Timers.Valid;
    s := BothTimersRun(info);
    SlowTimerSpeedsUp(info);
    SlowTimerCounted();
    FastTimerOverdue();
    NearTimerUpdated();
    Distances();
    s.rcntWmode(1, 0x1c0);
    StoppedStay(s.timers, 511);
    s.cpuEventTest();
    SecondOverdue(s.timers, 511, s.VsyncLeft());
  }

  /** For one, with the timing of NTSC. */
  method LateDeadlineNtsc() returns (s: Timers)
    ensures fresh(s) && s.nextCounter == 4 && Late(s.nextCounter, s.timers, s.cycle, s.VsyncLeft())
  {
    var info := Sync.VSyncInfoCalc(2997, 525, true);
    NtscTiming();
    s := LateDeadline(info);
  }

  lemma NtscTiming()
    ensures var info := Sync.VSyncInfoCalc(2997, 525, true); info.render == 2460060 && info.blank == 2460060
  {
  }
}
