/**
  An EE timer two ways: as the emulator keeps it, a count and the cycles gone by since it was
  right, updated now and then; and as the hardware has it, stepped every cycle.
 */
module TimerSpec {

  const FUTURE: nat := 0x1000_0000 // target bit: the counter must wrap before the target counts

  datatype Counter = Counter(
    count: nat, target: nat, rate: nat, clockSource: nat,
    isCounting: bool, zeroReturn: bool, targetInterrupt: bool, overflowInterrupt: bool,
    targetReached: bool, overflowReached: bool)

  predicate Armed(c: Counter) {
    c.target < FUTURE
  }

  /** The 16-bit target without the FUTURE bit. */
  function Target16(c: Counter): nat {
    c.target % 0x1_0000
  }

  predicate IsRate(r: nat) {
    r == 2 || r == 32 || r == 512
  }

  /** Counted by cycles (and not by scanlines). */
  predicate Clocked(c: Counter) {
    c.isCounting && c.clockSource < 3 && IsRate(c.rate)
  }

  /** The target register holds 16 bits, and perhaps FUTURE. */
  predicate Proper(c: Counter) {
    (c.target < 0x1_0000 || FUTURE <= c.target < FUTURE + 0x1_0000) && Target16(c) >= 1
  }

  /** Between events: the count has neither run over nor passed an armed target. */
  predicate Settled(c: Counter)
    ensures Settled(c) ==> IsRate(c.rate)
  {
    Clocked(c) && Proper(c) && c.count <= 0xffff && (Armed(c) ==> c.count < c.target)
  }

  // ---------------------------------------------------------------------------------------
  // The emulator's counter
  // ---------------------------------------------------------------------------------------

  datatype Event = TargetEvent | OverflowEvent

  /** _cpuTestTarget */
  function TestTarget(c: Counter): (Counter, seq<Event>) {
    if c.count < c.target then (c, [])
    else if c.targetInterrupt then
      if c.zeroReturn then (c.(targetReached := true, count := c.count - c.target), [TargetEvent])
      else (c.(targetReached := true, target := SetFuture(c.target)), [TargetEvent])
    else (c.(target := SetFuture(c.target)), [])
  }

  function SetFuture(target: nat): nat {
    if target / FUTURE % 2 == 1 then target else target + FUTURE
  }

  /** _cpuTestOverflow */
  function TestOverflow(c: Counter): (Counter, seq<Event>) {
    if c.count <= 0xffff then (c, [])
    else
      var d := c.(count := c.count - 0x1_0000, target := c.target % 0x1_0000);
      if c.overflowInterrupt then (d.(overflowReached := true), [OverflowEvent]) else (d, [])
  }

  function Test(c: Counter): (Counter, seq<Event>) {
    var (d, a) := TestTarget(c);
    var (e, b) := TestOverflow(d);
    (e, a + b)
  }

  function Advance(c: Counter, elapsed: nat): Counter
    requires IsRate(c.rate)
  {
    c.(count := c.count + elapsed / c.rate)
  }

  datatype Updated = Updated(counter: Counter, elapsed: nat, events: seq<Event>)

  /** One counter's part of rcntUpdate, with the cycles gone by since its count was right. */
  function Update(c: Counter, elapsed: nat): Updated
    requires IsRate(c.rate)
  {
    var (d, events) := Test(Advance(c, elapsed));
    Updated(d, elapsed % c.rate, events)
  }

  /** In how many cycles, from when the count was right, the next event is due. */
  function Due(c: Counter): int {
    ((if Armed(c) && c.target < 0x1_0000 then c.target else 0x1_0000) - c.count) * c.rate
  }

  // ---------------------------------------------------------------------------------------
  // The hardware's counter
  // ---------------------------------------------------------------------------------------

  /** `phase` counts cycles within one step of the count; `mode` are the bits that do not change. */
  datatype Ticker = Ticker(count: nat, phase: nat, armed: bool, targetReached: bool, overflowReached: bool)

  datatype Mode = Mode(target: nat, rate: nat, zeroReturn: bool, targetInterrupt: bool, overflowInterrupt: bool)

  /** One step of the count: the target first, then the wrap. */
  function Count(m: Mode, t: Ticker): (Ticker, seq<Event>) {
    var n := t.count + 1;
    if t.armed && n == m.target then
      if m.targetInterrupt then
        (Ticker(if m.zeroReturn then 0 else n, 0, m.zeroReturn, true, t.overflowReached), [TargetEvent])
      else (Ticker(n, 0, false, t.targetReached, t.overflowReached), [])
    else if n == 0x1_0000 then
      (Ticker(0, 0, true, t.targetReached, t.overflowReached || m.overflowInterrupt),
       if m.overflowInterrupt then [OverflowEvent] else [])
    else (Ticker(n, 0, t.armed, t.targetReached, t.overflowReached), [])
  }

  /** One cycle. */
  function Tick(m: Mode, t: Ticker): (Ticker, seq<Event>) {
    if t.phase + 1 < m.rate then (t.(phase := t.phase + 1), []) else Count(m, t)
  }

  /** n cycles from time `now` on; events are stamped with their cycle. */
  function Ticks(m: Mode, t: Ticker, now: nat, n: nat): (Ticker, seq<(nat, Event)>)
    decreases n
  {
    if n == 0 then (t, [])
    else
      var (u, events) := Tick(m, t);
      var (v, later) := Ticks(m, u, now + 1, n - 1);
      (v, Stamp(now + 1, events) + later)
  }

  function Stamp(now: nat, events: seq<Event>): (s: seq<(nat, Event)>)
    ensures |s| == |events|
  {
    if events == [] then [] else [(now, events[0])] + Stamp(now, events[1..])
  }

  // ---------------------------------------------------------------------------------------
  // The one stands for the other
  // ---------------------------------------------------------------------------------------

  function ModeOf(c: Counter): Mode {
    Mode(Target16(c), c.rate, c.zeroReturn, c.targetInterrupt, c.overflowInterrupt)
  }

  /** What the hardware has while the emulator has not updated for some cycles. */
  function TickerOf(c: Counter, elapsed: nat): Ticker
    requires IsRate(c.rate)
  {
    Ticker(c.count + elapsed / c.rate, elapsed % c.rate, Armed(c), c.targetReached, c.overflowReached)
  }

  /** One more cycle completes a step of the count, or moves within it. */
  lemma NextCycle(e: nat, r: nat)
    requires IsRate(r)
    ensures 0 / r == 0 && 0 % r == 0 && e % r < r
    ensures (e + 1) / r == if e % r + 1 == r then e / r + 1 else e / r
    ensures (e + 1) % r == if e % r + 1 == r then 0 else e % r + 1
  {
    if r == 2 {
    } else if r == 32 {
    } else {
    }
  }

  /** What is due lies a whole number of steps ahead. */
  lemma DueSteps(c: Counter, elapsed: nat)
    requires Settled(c)
    ensures Due(c) > 0 && Due(c) % c.rate == 0
    ensures Due(c) / c.rate == (if Armed(c) then c.target else 0x1_0000) - c.count
    ensures elapsed < Due(c) <==> elapsed / c.rate < Due(c) / c.rate
    ensures elapsed + 1 == Due(c) ==> elapsed % c.rate == c.rate - 1 && elapsed / c.rate + 1 == Due(c) / c.rate
  {
    if c.rate == 2 {
    } else if c.rate == 32 {
    } else {
    }
  }

  /** Before the event is due, an update only moves cycles into the count. */
  lemma UpdateEarly(c: Counter, elapsed: nat)
    requires Settled(c) && elapsed < Due(c)
    ensures Update(c, elapsed) == Updated(Advance(c, elapsed), elapsed % c.rate, [])
    ensures Settled(Advance(c, elapsed))
  {
    DueSteps(c, elapsed);
  }

  /** One cycle before the event is due passes without one. */
  lemma TickEarly(c: Counter, elapsed: nat)
    requires Settled(c) && elapsed + 1 < Due(c)
    ensures Tick(ModeOf(c), TickerOf(c, elapsed)) == (TickerOf(c, elapsed + 1), [])
  {
    DueSteps(c, elapsed + 1);
    NextCycle(elapsed, c.rate);
    SettledTarget(c);
    hide Due, Settled, IsRate;
    var (q, r, q') := (elapsed / c.rate, elapsed % c.rate, (elapsed + 1) / c.rate);
    assert Armed(c) ==> c.count + q' < c.target == Target16(c);
  }

  lemma SettledTarget(c: Counter)
    requires Settled(c)
    ensures Armed(c) ==> c.target == Target16(c)
  {
  }

  /** The counter just after its next event, and what that event raises. */
  function AfterDue(c: Counter): (Counter, seq<Event>) {
    if !Armed(c) then
      (c.(count := 0, target := Target16(c), overflowReached := c.overflowReached || c.overflowInterrupt),
       if c.overflowInterrupt then [OverflowEvent] else [])
    else if !c.targetInterrupt then (c.(count := c.target, target := c.target + FUTURE), [])
    else if c.zeroReturn then (c.(count := 0, targetReached := true), [TargetEvent])
    else (c.(count := c.target, target := c.target + FUTURE, targetReached := true), [TargetEvent])
  }

  lemma UpdateAtTarget(c: Counter)
    requires Settled(c) && Armed(c)
    ensures Test(c.(count := c.target)) == AfterDue(c)
  {
    assert Test(c.(count := c.target)).1 == AfterDue(c).1;
  }

  lemma UpdateAtOverflow(c: Counter)
    requires Settled(c) && !Armed(c)
    ensures Test(c.(count := 0x1_0000)) == AfterDue(c)
  {
    assert Test(c.(count := 0x1_0000)).1 == AfterDue(c).1;
  }

  lemma AfterDueSettled(c: Counter)
    requires Settled(c)
    ensures Settled(AfterDue(c).0) && ModeOf(AfterDue(c).0) == ModeOf(c)
  {
  }

  lemma AdvanceToDue(c: Counter)
    requires Settled(c)
    ensures Due(c) > 0 && Due(c) % c.rate == 0 &&
      Advance(c, Due(c)) == c.(count := if Armed(c) then c.target else 0x1_0000)
  {
    DueSteps(c, 0);
  }

  /** An update on the cycle the event is due. */
  lemma UpdateDue(c: Counter)
    requires Settled(c)
    ensures var (d, events) := AfterDue(c);
      Update(c, Due(c)) == Updated(d, 0, events) && Settled(d) && ModeOf(d) == ModeOf(c)
  {
    hide Test, Due, Settled, AfterDue, Advance, ModeOf;
    AdvanceToDue(c);
    AfterDueSettled(c);
    if Armed(c) {
      UpdateAtTarget(c);
    } else {
      UpdateAtOverflow(c);
    }
  }

  lemma TickTarget(c: Counter, t: Ticker)
    requires Settled(c) && Armed(c) && t == Ticker(c.target - 1, c.rate - 1, true, c.targetReached, c.overflowReached)
    ensures Tick(ModeOf(c), t) == (TickerOf(AfterDue(c).0, 0), AfterDue(c).1)
  {
  }

  lemma TickOverflow(c: Counter, t: Ticker)
    requires Settled(c) && !Armed(c) && t == Ticker(0xffff, c.rate - 1, false, c.targetReached, c.overflowReached)
    ensures Tick(ModeOf(c), t) == (TickerOf(AfterDue(c).0, 0), AfterDue(c).1)
  {
  }

  /** The cycle on which the event is due: hardware and update agree on the event and on what follows. */
  lemma TickDue(c: Counter, elapsed: nat)
    requires Settled(c) && elapsed + 1 == Due(c)
    ensures var u := Update(c, Due(c));
      Settled(u.counter) && u.elapsed == 0 && ModeOf(u.counter) == ModeOf(c) &&
      Tick(ModeOf(c), TickerOf(c, elapsed)) == (TickerOf(u.counter, 0), u.events)
  {
    DueSteps(c, elapsed);
    UpdateDue(c);
    var t := TickerOf(c, elapsed);
    hide Tick, AfterDue, Update, Due, ModeOf;
    if Armed(c) {
      TickTarget(c, t);
    } else {
      TickOverflow(c, t);
    }
  }

  lemma {:induction false} TicksEarly(c: Counter, elapsed: nat, now: nat, n: nat)
    requires Settled(c) && elapsed + n < Due(c)
    ensures Ticks(ModeOf(c), TickerOf(c, elapsed), now, n) == (TickerOf(c, elapsed + n), [])
    decreases n
  {
    if n > 0 {
      TickEarly(c, elapsed);
      hide Tick, Settled, Due, TickerOf;
      TicksEarly(c, elapsed + 1, now + 1, n - 1);
      assert Stamp(now + 1, []) + [] == [];
    }
  }

  lemma {:induction false} TicksSplit(m: Mode, t: Ticker, now: nat, a: nat, b: nat)
    ensures var (u, early) := Ticks(m, t, now, a); var (v, late) := Ticks(m, u, now + a, b);
      Ticks(m, t, now, a + b) == (v, early + late)
    decreases a
  {
    hide Tick;
    if a > 0 {
      var (u, events) := Tick(m, t);
      TicksSplit(m, u, now + 1, a - 1, b);
      var (v, early) := Ticks(m, u, now + 1, a - 1);
      var (w, late) := Ticks(m, v, now + a, b);
      assert Stamp(now + 1, events) + (early + late) == (Stamp(now + 1, events) + early) + late;
    } else {
      assert [] + Ticks(m, t, now, b).1 == Ticks(m, t, now, b).1;
    }
  }

  /** Moving whole steps into the count leaves the deadline where it was. */
  lemma AdvanceDue(c: Counter, elapsed: nat)
    requires Settled(c) && elapsed < Due(c)
    ensures elapsed % c.rate < Due(Advance(c, elapsed)) == Due(c) - elapsed / c.rate * c.rate
    ensures TickerOf(Advance(c, elapsed), elapsed % c.rate) == TickerOf(c, elapsed)
  {
    UpdateEarly(c, elapsed);
    if c.rate == 2 {
    } else if c.rate == 32 {
    } else {
    }
  }

  /** An update on time does what the hardware did in the cycles since the last one. */
  lemma UpdateRefines(c: Counter, elapsed: nat, now: nat, n: nat)
    requires Settled(c) && elapsed < Due(c) && elapsed + n <= Due(c)
    ensures var u := Update(c, elapsed + n);
      Settled(u.counter) && u.elapsed < Due(u.counter) && ModeOf(u.counter) == ModeOf(c) &&
      Ticks(ModeOf(c), TickerOf(c, elapsed), now, n) == (TickerOf(u.counter, u.elapsed), Stamp(now + n, u.events))
  {
    hide TickerOf, Tick, Update, Due, Settled, ModeOf, Ticks, Stamp;
    if elapsed + n < Due(c) {
      RefinesEarly(c, elapsed, now, n);
    } else {
      RefinesDue(c, elapsed, now, n - 1);
    }
  }

  lemma RefinesEarly(c: Counter, elapsed: nat, now: nat, n: nat)
    requires Settled(c) && elapsed + n < Due(c)
    ensures var u := Update(c, elapsed + n);
      Settled(u.counter) && u.elapsed < Due(u.counter) && ModeOf(u.counter) == ModeOf(c) &&
      Ticks(ModeOf(c), TickerOf(c, elapsed), now, n) == (TickerOf(u.counter, u.elapsed), Stamp(now + n, u.events))
  {
    hide TickerOf, Tick, Update, Due, Settled, ModeOf, Ticks;
    UpdateEarly(c, elapsed + n);
    AdvanceDue(c, elapsed + n);
    AdvanceKeeps(c, elapsed + n);
    TicksEarly(c, elapsed, now, n);
  }

  lemma RefinesDue(c: Counter, elapsed: nat, now: nat, n: nat)
    requires Settled(c) && elapsed + n + 1 == Due(c)
    ensures var u := Update(c, elapsed + n + 1);
      Settled(u.counter) && u.elapsed < Due(u.counter) && ModeOf(u.counter) == ModeOf(c) &&
      Ticks(ModeOf(c), TickerOf(c, elapsed), now, n + 1) ==
        (TickerOf(u.counter, u.elapsed), Stamp(now + n + 1, u.events))
  {
    hide TickerOf, Tick, Update, Due, Settled, ModeOf, Ticks, Stamp;
    LastTick(c, elapsed + n, now + n);
    TicksEarly(c, elapsed, now, n);
    TicksSplit(ModeOf(c), TickerOf(c, elapsed), now, n, 1);
    var events := Stamp(now + n + 1, Update(c, elapsed + n + 1).events);
    assert [] + events == events;
  }

  lemma AdvanceKeeps(c: Counter, elapsed: nat)
    requires Settled(c) && elapsed < Due(c)
    ensures ModeOf(Advance(c, elapsed)) == ModeOf(c) && Settled(Advance(c, elapsed)) && Stamp(0, []) == []
  {
    UpdateEarly(c, elapsed);
  }

  /** The cycle on which the event is due, as a run of one cycle. */
  lemma LastTick(c: Counter, elapsed: nat, now: nat)
    requires Settled(c) && elapsed + 1 == Due(c)
    ensures var u := Update(c, elapsed + 1);
      Settled(u.counter) && u.elapsed < Due(u.counter) && ModeOf(u.counter) == ModeOf(c) &&
      Ticks(ModeOf(c), TickerOf(c, elapsed), now, 1) == (TickerOf(u.counter, u.elapsed), Stamp(now + 1, u.events))
  {
    TickDue(c, elapsed);
    var u := Update(c, Due(c));
    DueSteps(u.counter, 0);
    hide TickerOf, Tick, Update, Due, Settled, ModeOf;
    assert Ticks(ModeOf(c), TickerOf(u.counter, 0), now + 1, 0) == (TickerOf(u.counter, 0), []);
    assert Stamp(now + 1, u.events) + [] == Stamp(now + 1, u.events);
  }

  // ---------------------------------------------------------------------------------------
  // Runs
  // ---------------------------------------------------------------------------------------

  function Sum(ns: seq<nat>): nat {
    if ns == [] then 0 else ns[0] + Sum(ns[1..])
  }

  datatype LazyState = LazyState(counter: Counter, elapsed: nat, events: seq<(nat, Event)>)

  /** Updates after ns[0] cycles, then after ns[1] more, and so on. */
  function LazyRun(c: Counter, elapsed: nat, now: nat, ns: seq<nat>): LazyState
    requires IsRate(c.rate)
    decreases |ns|
  {
    if ns == [] then LazyState(c, elapsed, [])
    else
      var u := Update(c, elapsed + ns[0]);
      var r := LazyRun(u.counter, u.elapsed, now + ns[0], ns[1..]);
      LazyState(r.counter, r.elapsed, Stamp(now + ns[0], u.events) + r.events)
  }

  /** No update comes later than the event that is due, though any number may come earlier. */
  predicate OnTime(c: Counter, elapsed: nat, ns: seq<nat>)
    requires IsRate(c.rate)
    decreases |ns|
  {
    ns != [] ==>
      elapsed + ns[0] <= Due(c) &&
      var u := Update(c, elapsed + ns[0]);
      OnTime(u.counter, u.elapsed, ns[1..])
  }

  lemma NoTicks(m: Mode, t: Ticker, now: nat)
    ensures Ticks(m, t, now, 0) == (t, [])
  {
  }

  /**
    The lazy timer refines the hardware: however often it is updated, as long as that is on time,
    its count, flags and target-disable bit and the cycle of every interrupt are the hardware's.
   */
  lemma {:induction false} LazyRefines(c: Counter, elapsed: nat, now: nat, ns: seq<nat>)
    requires Settled(c) && elapsed < Due(c) && OnTime(c, elapsed, ns)
    ensures var r := LazyRun(c, elapsed, now, ns);
      Settled(r.counter) && r.elapsed < Due(r.counter) && ModeOf(r.counter) == ModeOf(c) &&
      Ticks(ModeOf(c), TickerOf(c, elapsed), now, Sum(ns)) == (TickerOf(r.counter, r.elapsed), r.events)
    decreases |ns|
  {
    hide Update, Due, Ticks, TickerOf, Settled, ModeOf;
    if ns == [] {
      NoTicks(ModeOf(c), TickerOf(c, elapsed), now);
    } else {
      UpdateRefines(c, elapsed, now, ns[0]);
      var u := Update(c, elapsed + ns[0]);
      LazyRefines(u.counter, u.elapsed, now + ns[0], ns[1..]);
      TicksSplit(ModeOf(c), TickerOf(c, elapsed), now, ns[0], Sum(ns[1..]));
    }
  }

  /** rcntRcount */
  function Read(c: Counter, elapsed: nat): nat
    requires IsRate(c.rate)
  {
    c.count + elapsed / c.rate
  }

  /** The next event is a target that does not reset the count. */
  predicate KeepsCount(c: Counter) {
    Armed(c) && !(c.targetInterrupt && c.zeroReturn)
  }

  /** What is read on the cycle the event is due, before the update, and what the count is then. */
  lemma DueCount(c: Counter)
    requires Settled(c)
    ensures Read(c, Due(c)) == (if Armed(c) then c.target else 0x1_0000) > 0
    ensures Update(c, Due(c)).counter.count == if KeepsCount(c) then c.target else 0
  {
    hide Due, Update, Settled;
    AdvanceToDue(c);
    UpdateDue(c);
    ReadIsAdvance(c, Due(c));
    TargetPositive(c);
  }

  lemma TargetPositive(c: Counter)
    requires Settled(c)
    ensures c.target > 0
  {
  }

  lemma ReadIsAdvance(c: Counter, elapsed: nat)
    requires IsRate(c.rate)
    ensures Read(c, elapsed) == Advance(c, elapsed).count
  {
  }

  /**
    Exactly when a read n cycles on, without an update, is the hardware's count: always before the
    next event is due, and on that very cycle if the event does not reset the count. If it does,
    the hardware is at zero already, while the read still gives the target, or 0x10000.
   */
  lemma ReadIsHardware(c: Counter, elapsed: nat, now: nat, n: nat)
    requires Settled(c) && elapsed < Due(c) && elapsed + n <= Due(c)
    ensures var h := Ticks(ModeOf(c), TickerOf(c, elapsed), now, n).0.count;
      (Read(c, elapsed + n) == h <==> elapsed + n < Due(c) || KeepsCount(c)) &&
      (elapsed + n == Due(c) && !KeepsCount(c) ==>
        h == 0 && Read(c, elapsed + n) == if Armed(c) then c.target else 0x1_0000)
  {
    hide Ticks, Due, Update, ModeOf, Settled;
    DueCount(c);
    if elapsed + n < Due(c) {
      TicksEarly(c, elapsed, now, n);
    } else {
      UpdateRefines(c, elapsed, now, n);
      UpdatedCount(c);
    }
  }

  /** Just updated on the cycle the event is due, the hardware has the emulator's count. */
  lemma UpdatedCount(c: Counter)
    requires Settled(c)
    ensures var u := Update(c, Due(c));
      IsRate(u.counter.rate) && TickerOf(u.counter, u.elapsed).count == u.counter.count
  {
    UpdateDue(c);
  }

  /** The same behind any run of updates on time. */
  lemma ReadBehindUpdates(c: Counter, elapsed: nat, now: nat, ns: seq<nat>, n: nat)
    requires Settled(c) && elapsed < Due(c) && OnTime(c, elapsed, ns)
    requires var r := LazyRun(c, elapsed, now, ns); IsRate(r.counter.rate) && r.elapsed + n <= Due(r.counter)
    ensures var r := LazyRun(c, elapsed, now, ns);
      Read(r.counter, r.elapsed + n) == Ticks(ModeOf(c), TickerOf(c, elapsed), now, Sum(ns) + n).0.count <==>
      r.elapsed + n < Due(r.counter) || KeepsCount(r.counter)
  {
    hide LazyRun, OnTime, Due, Ticks, ModeOf, TickerOf, Settled, KeepsCount, Read, Sum, IsRate;
    LazyRefines(c, elapsed, now, ns);
    var r := LazyRun(c, elapsed, now, ns);
    TicksSplit(ModeOf(c), TickerOf(c, elapsed), now, Sum(ns), n);
    ReadIsHardware(r.counter, r.elapsed, now + Sum(ns), n);
  }

  /**
    A timer that resets at 5, read on the cycle it gets there: 5 before the update and 0 after it, as in the hardware.
   */
  lemma ReadTooEarly()
    ensures var c := Counter(0, 5, 2, 0, true, true, true, false, false, false);
      Settled(c) && Due(c) == 10 && Read(c, 10) == 5 && Read(Update(c, 10).counter, 0) == 0 &&
      Ticks(ModeOf(c), TickerOf(c, 0), 0, 10).0.count == 0
  {
    var c := Counter(0, 5, 2, 0, true, true, true, false, false, false);
    DueCount(c);
    ReadIsHardware(c, 0, 0, 10);
    hide Ticks, Update;
  }

  /**
    A count or flag read before the next event is due does not depend on which updates ran, nor on
    how long ago the last one was.
   */
  lemma ReadsAgree(c: Counter, elapsed: nat, now: nat, a: seq<nat>, m: nat, b: seq<nat>, n: nat)
    requires Settled(c) && elapsed < Due(c) && OnTime(c, elapsed, a) && OnTime(c, elapsed, b) &&
      Sum(a) + m == Sum(b) + n
    requires var r := LazyRun(c, elapsed, now, a); IsRate(r.counter.rate) && r.elapsed + m < Due(r.counter)
    requires var s := LazyRun(c, elapsed, now, b); IsRate(s.counter.rate) && s.elapsed + n < Due(s.counter)
    ensures var r := LazyRun(c, elapsed, now, a); var s := LazyRun(c, elapsed, now, b);
      Read(r.counter, r.elapsed + m) == Read(s.counter, s.elapsed + n) && Armed(r.counter) == Armed(s.counter) &&
      r.counter.targetReached == s.counter.targetReached && r.counter.overflowReached == s.counter.overflowReached &&
      r.events == s.events
  {
    hide LazyRun, Ticks, Due, OnTime, Settled, TickerOf, ModeOf, Read, Armed;
    BehindUpdates(c, elapsed, now, a, m);
    BehindUpdates(c, elapsed, now, b, n);
    var (r, s) := (LazyRun(c, elapsed, now, a), LazyRun(c, elapsed, now, b));
    TickerFields(r.counter, r.elapsed + m);
    TickerFields(s.counter, s.elapsed + n);
  }

  lemma TickerFields(c: Counter, elapsed: nat)
    requires IsRate(c.rate)
    ensures var t := TickerOf(c, elapsed);
      t.count == Read(c, elapsed) && t.armed == Armed(c) && t.targetReached == c.targetReached &&
      t.overflowReached == c.overflowReached
  {
  }

  /** Before the next event is due, the hardware is where the last update and the cycles since say. */
  lemma BehindUpdates(c: Counter, elapsed: nat, now: nat, ns: seq<nat>, n: nat)
    requires Settled(c) && elapsed < Due(c) && OnTime(c, elapsed, ns)
    requires var r := LazyRun(c, elapsed, now, ns); IsRate(r.counter.rate) && r.elapsed + n < Due(r.counter)
    ensures var r := LazyRun(c, elapsed, now, ns);
      Ticks(ModeOf(c), TickerOf(c, elapsed), now, Sum(ns) + n) == (TickerOf(r.counter, r.elapsed + n), r.events)
  {
    hide LazyRun, OnTime, Due, Ticks, ModeOf, TickerOf, Settled, Sum, IsRate;
    LazyRefines(c, elapsed, now, ns);
    var r := LazyRun(c, elapsed, now, ns);
    TicksSplit(ModeOf(c), TickerOf(c, elapsed), now, Sum(ns), n);
    TicksEarly(r.counter, r.elapsed, now + Sum(ns), n);
    assert r.events + [] == r.events;
  }

  /**
    With a target of zero every update fires, however little time passed, and the next one fires
    again exactly if the count returns to zero; otherwise the target waits for an overflow.
   */
  lemma ZeroTargetFiresAgain(c: Counter, elapsed: nat)
    requires Clocked(c) && c.target == 0 && c.targetInterrupt && Read(c, elapsed) <= 0xffff
    ensures var u := Update(c, elapsed);
      u.events == [TargetEvent] && u.counter.count == Read(c, elapsed) &&
      Update(u.counter, u.elapsed).events == if c.zeroReturn then [TargetEvent] else []
  {
    var u := Update(c, elapsed);
    if c.rate == 2 {
    } else if c.rate == 32 {
    } else {
    }
  }
}
