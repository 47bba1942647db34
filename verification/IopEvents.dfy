/**
  The IOP's pending events. Each is due some cycles after it was raised; one cycle number, the
  next branch, says when to look at them again. All cycle numbers wrap around.
 */
module IopEvents {
  import opened Words
  import opened Sequences

  const EVENTS: nat := 12
  const SIF2: nat := 0
  const CDVD: nat := 1
  const SIF0: nat := 2
  const SIF1: nat := 3
  const DMA11: nat := 4
  const DMA12: nat := 5
  const SIO: nat := 6
  const CDROM: nat := 7
  const CDROM_READ: nat := 8
  const CDVD_READ: nat := 9
  const DEV9: nat := 10
  const USB: nat := 11

  /** What a callback does here: it raises events, each so many cycles ahead. */
  datatype Raise = Raise(event: nat, delta: nat)

  type Script = s: seq<Raise> | forall r :: r in s ==> r.event < EVENTS && r.delta < TWO31 witness []

  /** The events that are tested whether or not one of them is pending; SIO can be switched off. */
  predicate Frequent(n: nat, sioOn: bool) {
    n == SIF0 || n == SIF1 || n == SIF2 || (n == SIO && sioOn) || n == CDVD_READ
  }

  /** The next branch after psxSetNextBranch. */
  function Sooner(next: u32, start: u32, delta: int): u32 {
    if S32(Sub(next, start)) > delta then U32(start + delta) else next
  }

  /** Seen from now: the branch comes forward to the event, if it was not further away than a signed word counts. */
  lemma ComesForward(next: u32, start: u32, delta: int, now: u32)
    requires 0 <= delta < TWO31 && S32(Sub(next, now)) >= 0
    requires Sub(now, start) + S32(Sub(next, now)) < TWO31
    ensures S32(Sub(Sooner(next, start, delta), now)) == Min(S32(Sub(next, now)), delta - Sub(now, start))
  {
    EndMoves(now, start, S32(Sub(next, now)));
    EndAt(now, S32(Sub(next, now)));
    EndAt(now, delta - Sub(now, start));
    SameStart(start, now, delta);
  }

  lemma SameStart(start: u32, now: u32, delta: int)
    ensures U32(start + delta) == U32(now + (delta - Sub(now, start)))
  {
  }

  /**
    Exactly when an event that is not due yet is in time for the branch: if the branch was early
    enough anyway, or was less than 0x80000000 cycles away from the event's start. From further
    away it looks as if it had gone by.
   */
  lemma FarBranchStaysLate(next: u32, start: u32, delta: int, now: u32)
    requires Sub(now, start) <= delta < TWO31 && S32(Sub(next, now)) >= 0
    ensures var left := delta - Sub(now, start);
      S32(Sub(Sooner(next, start, delta), now)) <= left <==>
      S32(Sub(next, now)) <= left || Sub(now, start) + S32(Sub(next, now)) < TWO31
  {
    if Sub(now, start) + S32(Sub(next, now)) < TWO31 {
      ComesForward(next, start, delta, now);
    } else {
      assert S32(Sub(next, start)) < 0;
    }
  }

  /** However far the event's start is, the branch only comes forward, and not to before now. */
  lemma OnlyForward(next: u32, start: u32, delta: int, now: u32)
    requires 0 <= delta < TWO31 && S32(Sub(next, now)) >= 0 && S32(Sub(now, start)) <= delta
    ensures 0 <= S32(Sub(Sooner(next, start, delta), now)) <= S32(Sub(next, now))
  {
    var (age, ahead) := (Sub(now, start), S32(Sub(next, now)));
    EndMoves(now, start, if age + ahead < TWO32 then ahead else 0);
    if age + ahead < TWO31 {
      ComesForward(next, start, delta, now);
    } else if age + ahead < TWO32 {
      assert S32(Sub(next, start)) < 0;
    } else {
      Beyond(next, start, delta, now);
    }
  }

  /** The start lies in the future. */
  lemma Beyond(next: u32, start: u32, delta: int, now: u32)
    requires 0 <= delta < TWO31 && S32(Sub(next, now)) >= 0 && Sub(now, start) + S32(Sub(next, now)) >= TWO32
    ensures 0 <= S32(Sub(Sooner(next, start, delta), now)) <= S32(Sub(next, now))
  {
    var ahead := delta + TWO32 - Sub(now, start);
    SameStart(start, now, delta);
    if S32(Sub(next, start)) > delta {
      assert Sub(next, start) == Sub(now, start) + S32(Sub(next, now)) - TWO32;
      assert U32(now + (delta - Sub(now, start))) == U32(now + ahead);
      EndAt(now, ahead);
    }
  }

  class Scheduler {
    var cycle: u32
    var interrupt: set<nat> // the pending events
    var sCycle: seq<u32>
    var eCycle: seq<int>
    var next: u32           // g_iopNextEventCycle
    var nextsCounter: u32
    var nextCounter: int
    ghost var fired: multiset<nat> // the callbacks run so far

    /** psxReset, as far as it concerns events: none is pending. The counters are due in `counters` cycles. */
    constructor (counters: nat)
      requires counters < TWO31
      ensures Valid() && cycle == 0 && interrupt == {} && next == 4 && nextsCounter == 0 && nextCounter == counters
    {
      cycle, interrupt, next, nextsCounter, nextCounter := 0, {}, 4, 0, counters;
      sCycle := seq(EVENTS, i => 0);
      eCycle := seq(EVENTS, i => 0);
      fired := multiset{};
    }

    /** In how many cycles the next branch comes. */
    ghost function Ahead(): int
      reads `cycle, `next
    {
      S32(Sub(next, cycle))
    }

    ghost predicate Tables()
      reads `interrupt, `sCycle, `eCycle
    {
      |sCycle| == |eCycle| == EVENTS &&
      (forall n :: n in interrupt ==> n < EVENTS) && forall n :: 0 <= n < EVENTS ==> 0 <= eCycle[n] < TWO31
    }

    ghost function Age(n: nat): u32
      requires Tables() && n < EVENTS
      reads `cycle, `interrupt, `sCycle, `eCycle
    {
      Sub(cycle, sCycle[n])
    }

    /** The event's start is not so far from the next branch that the distance wraps. */
    ghost predicate Close(n: nat)
      requires Tables() && n < EVENTS
      reads `cycle, `interrupt, `sCycle, `eCycle, `next
    {
      n in interrupt ==> Age(n) + Ahead() < TWO31
    }

    ghost predicate Valid()
      reads `cycle, `interrupt, `sCycle, `eCycle, `next
    {
      Tables() && Ahead() >= 0
    }

    /** If the event is pending, the next branch comes no later than it is due. */
    ghost predicate InTime(n: nat)
      requires Tables() && n < EVENTS
      reads `cycle, `interrupt, `sCycle, `eCycle, `next
    {
      n in interrupt ==> Ahead() <= eCycle[n] - Age(n)
    }

    method psxSetNextBranch(start: u32, delta: int)
      requires 0 <= delta < TWO31
      modifies `next
      ensures next == Sooner(old(next), start, delta)
      ensures old(Ahead()) >= 0 && S32(Sub(cycle, start)) <= delta ==> 0 <= Ahead() <= old(Ahead())
      ensures old(Ahead()) >= 0 && Sub(cycle, start) + old(Ahead()) < TWO31 ==>
        Ahead() == Min(old(Ahead()), delta - Sub(cycle, start))
    {
      if Ahead() >= 0 && S32(Sub(cycle, start)) <= delta { OnlyForward(next, start, delta, cycle); }
      if Ahead() >= 0 && Sub(cycle, start) + Ahead() < TWO31 { ComesForward(next, start, delta, cycle); }
      if S32(Sub(next, start)) > delta {
        next := U32(start + delta);
      }
    }

    /** Also when the IOP has already passed the branch: then the event is in time anyway. */
    method PSX_INT(n: nat, delta: int)
      requires Tables() && n < EVENTS && 0 <= delta < TWO31
      modifies `interrupt, `sCycle, `eCycle, `next
      ensures Tables() && (old(Valid()) ==> Valid()) && interrupt == old(interrupt) + {n} && InTime(n)
      ensures forall m :: 0 <= m < EVENTS && old(InTime(m)) ==> InTime(m)
      ensures forall m :: 0 <= m < EVENTS && old(Close(m)) ==> Close(m)
      ensures Ahead() == Min(old(Ahead()), delta)
      ensures sCycle == old(sCycle)[n := cycle] && eCycle == old(eCycle)[n := delta]
    {
      SinceNothing(cycle);
      interrupt := interrupt + {n};
      sCycle := sCycle[n := cycle];
      eCycle := eCycle[n := delta];
      psxSetNextBranch(cycle, delta);
    }

    /** A callback: it raises whatever it likes. */
    method Callback(script: Script)
      requires Valid()
      modifies `interrupt, `sCycle, `eCycle, `next
      ensures Valid() && old(interrupt) <= interrupt && Ahead() <= old(Ahead())
      ensures forall r :: r in script ==> r.event in interrupt && InTime(r.event)
      ensures script == [] ==> unchanged(`interrupt, `sCycle, `eCycle, `next)
      ensures forall m :: 0 <= m < EVENTS && old(InTime(m)) ==> InTime(m)
      ensures forall m :: 0 <= m < EVENTS && old(Close(m)) ==> Close(m)
    {
      for i := 0 to |script|
        invariant Valid() && old(interrupt) <= interrupt && Ahead() <= old(Ahead())
        invariant forall r :: r in script[..i] ==> r.event in interrupt && InTime(r.event)
        invariant script == [] ==> unchanged(`interrupt, `sCycle, `eCycle, `next)
        invariant forall m :: 0 <= m < EVENTS && old(InTime(m)) ==> InTime(m)
        invariant forall m :: 0 <= m < EVENTS && old(Close(m)) ==> Close(m)
      {
        PSX_INT(script[i].event, script[i].delta);
      }
    }

    /**
      Runs the event's callback if it is due, and else sees to it that the branch comes in time,
      unless the event began too far from it.
     */
    method IopTestEvent(n: nat, script: Script)
      requires Valid() && n < EVENTS
      modifies `interrupt, `sCycle, `eCycle, `next, `fired
      ensures Valid() && (old(Close(n)) ==> InTime(n))
      ensures forall m :: 0 <= m < EVENTS && old(InTime(m)) ==> InTime(m)
      ensures forall m :: 0 <= m < EVENTS && old(Close(m)) ==> Close(m)
      ensures old(Idle(next)) ==> unchanged(`interrupt, `sCycle, `eCycle, `next)
      ensures fired ==
        old(fired) + if n in old(interrupt) && old(S32(Age(n)) >= eCycle[n]) then multiset{n} else multiset{}
      ensures fired[n] > old(fired)[n] ==> forall r :: r in script ==> r.event in interrupt && InTime(r.event)
      ensures forall m :: m in old(interrupt) ==> m in interrupt || fired[m] > old(fired)[m]
    {
      if n !in interrupt { return; }
      if S32(Sub(cycle, sCycle[n])) >= eCycle[n] {
        interrupt := interrupt - {n};
        fired := fired + multiset{n};
        Callback(script);
      } else {
        psxSetNextBranch(sCycle[n], eCycle[n]);
      }
    }

    /** No event is due, nor asks for a branch sooner than `branch`. */
    ghost predicate Idle(branch: u32)
      requires Tables()
      reads `cycle, `interrupt, `sCycle, `eCycle
    {
      forall n :: n in interrupt ==> S32(Age(n)) < eCycle[n] && Sooner(branch, sCycle[n], eCycle[n]) == branch
    }

    /** Tests some events one after the other. */
    method TestInTurn(events: seq<nat>, scripts: seq<Script>)
      requires Valid() && |scripts| == EVENTS && forall n :: n in events ==> n < EVENTS
      modifies `interrupt, `sCycle, `eCycle, `next, `fired
      ensures Valid() && old(fired) <= fired
      ensures forall n :: 0 <= n < EVENTS && ((n in events && old(Close(n))) || old(InTime(n))) ==> InTime(n)
      ensures forall n :: 0 <= n < EVENTS && old(Close(n)) ==> Close(n)
      ensures forall n :: n in old(interrupt) ==> n in interrupt || fired[n] > old(fired)[n]
      ensures forall n :: n !in events ==> fired[n] == old(fired)[n]
      ensures old(Idle(next)) ==> unchanged(`interrupt, `sCycle, `eCycle, `next)
    {
      hide Tables, Close, InTime, Idle;
      for i := 0 to |events|
        invariant Valid() && old(fired) <= fired
        invariant forall n :: 0 <= n < EVENTS && ((n in events[..i] && old(Close(n))) || old(InTime(n))) ==> InTime(n)
        invariant forall n :: 0 <= n < EVENTS && old(Close(n)) ==> Close(n)
        invariant forall n :: n in old(interrupt) ==> n in interrupt || fired[n] > old(fired)[n]
        invariant forall n :: n !in events ==> fired[n] == old(fired)[n]
        invariant old(Idle(next)) ==> unchanged(`interrupt, `sCycle, `eCycle, `next)
      {
        assert events[i] in events;
        IopTestEvent(events[i], scripts[events[i]]);
      }
    }

    lemma NotPending()
      requires Tables()
      ensures forall n :: 0 <= n < EVENTS && n !in interrupt ==> InTime(n)
    {
    }

    /** _psxTestInterrupts: the rarer events only if one of them is pending, and SIO only if it is switched on. */
    method psxTestInterrupts(sioOn: bool, scripts: seq<Script>)
      requires Valid() && |scripts| == EVENTS
      modifies `interrupt, `sCycle, `eCycle, `next, `fired
      ensures Valid() && old(fired) <= fired
      ensures forall n :: 0 <= n < EVENTS && (((n != SIO || sioOn) && old(Close(n))) || old(InTime(n))) ==> InTime(n)
      ensures forall n :: n in old(interrupt) ==> n in interrupt || fired[n] > old(fired)[n]
      ensures !sioOn ==> fired[SIO] == old(fired)[SIO]
      ensures old(Idle(next)) ==> unchanged(`interrupt, `sCycle, `eCycle, `next)
    {
      hide Close, InTime, Idle, Tables;
      TestFrequent(sioOn, scripts);
      TestRare(scripts);
    }

    method TestFrequent(sioOn: bool, scripts: seq<Script>)
      requires Valid() && |scripts| == EVENTS
      modifies `interrupt, `sCycle, `eCycle, `next, `fired
      ensures Valid() && old(fired) <= fired
      ensures forall n :: 0 <= n < EVENTS && ((Frequent(n, sioOn) && old(Close(n))) || old(InTime(n))) ==> InTime(n)
      ensures forall n :: 0 <= n < EVENTS && old(Close(n)) ==> Close(n)
      ensures forall n :: n in old(interrupt) ==> n in interrupt || fired[n] > old(fired)[n]
      ensures !sioOn ==> fired[SIO] == old(fired)[SIO]
      ensures old(Idle(next)) ==> unchanged(`interrupt, `sCycle, `eCycle, `next)
    {
      hide Close, InTime, Idle, Tables;
      TestInTurn([SIF0, SIF1, SIF2] + (if sioOn then [SIO] else []) + [CDVD_READ], scripts);
    }

    method TestRare(scripts: seq<Script>)
      requires Valid() && |scripts| == EVENTS
      modifies `interrupt, `sCycle, `eCycle, `next, `fired
      ensures Valid() && old(fired) <= fired
      ensures forall n :: 0 <= n < EVENTS && ((!Frequent(n, true) && old(Close(n))) || old(InTime(n))) ==> InTime(n)
      ensures forall n :: n in old(interrupt) ==> n in interrupt || fired[n] > old(fired)[n]
      ensures fired[SIO] == old(fired)[SIO]
      ensures old(Idle(next)) ==> unchanged(`interrupt, `sCycle, `eCycle, `next)
    {
      hide Close, InTime, Idle, Tables;
      var rare := [CDVD, DMA11, DMA12, CDROM, CDROM_READ, DEV9, USB];
      assert forall n :: 0 <= n < EVENTS && !Frequent(n, true) ==> n in rare;
      if exists n :: n in rare && n in interrupt {
        TestInTurn(rare, scripts);
      } else {
        NotPending();
      }
    }

    /**
      psxRcntUpdate as far as it concerns events: the branch is set anew, before each counter and
      device may bring it forward or raise an event.
     */
    method psxRcntUpdate(script: Script, branches: seq<nat>, newCounter: int)
      requires Tables() && forall b :: b in branches ==> b < TWO31
      modifies `interrupt, `sCycle, `eCycle, `next, `nextsCounter, `nextCounter
      ensures Valid() && old(interrupt) <= interrupt && nextsCounter == cycle && nextCounter == newCounter
      ensures Ahead() <= 32 && forall b :: b in branches ==> Ahead() <= b
      ensures forall r :: r in script ==> r.event in interrupt && InTime(r.event)
      ensures forall n :: 0 <= n < EVENTS && (n in old(interrupt) ==> old(Age(n)) + 32 < TWO31) ==> Close(n)
      ensures script == [] && branches == [] ==> unchanged(`interrupt, `sCycle, `eCycle) && next == U32(cycle + 32)
    {
      hide Close, InTime, Ahead, Age, Sub, S32, U32, Sooner;
      ResetBranch(newCounter);
      Callback(script);
      BringForward(branches);
    }

    /** The counters' next update is set, and the branch to 32 cycles from now. */
    method ResetBranch(newCounter: int)
      requires Tables()
      modifies `next, `nextsCounter, `nextCounter
      ensures Valid() && nextsCounter == cycle && nextCounter == newCounter && next == U32(cycle + 32) && Ahead() == 32
      ensures forall n :: 0 <= n < EVENTS && (n in interrupt ==> Age(n) + 32 < TWO31) ==> Close(n)
    {
      next := U32(cycle + 32);
      EndAt(cycle, 32);
      nextCounter := newCounter;
      nextsCounter := cycle;
    }

    /** Each counter may bring the branch forward. */
    method BringForward(branches: seq<nat>)
      requires Valid() && forall b :: b in branches ==> b < TWO31
      modifies `next
      ensures Valid() && Ahead() <= old(Ahead()) && (branches == [] ==> next == old(next))
      ensures forall b :: b in branches ==> Ahead() <= b
      ensures forall n :: 0 <= n < EVENTS && old(Close(n)) ==> Close(n)
      ensures forall n :: 0 <= n < EVENTS && old(InTime(n)) ==> InTime(n)
    {
      for i := 0 to |branches|
        invariant Valid() && Ahead() <= old(Ahead()) && (branches == [] ==> next == old(next))
        invariant forall b :: b in branches[..i] ==> Ahead() <= b
      {
        SinceNothing(cycle);
        assert branches[i] in branches;
        psxSetNextBranch(cycle, branches[i]);
        assert branches[..i + 1] == branches[..i] + [branches[i]];
      }
      assert branches[..|branches|] == branches;
    }

    /** In how many cycles the event test first sets the branch. */
    ghost function First(): int
      reads `cycle, `nextsCounter, `nextCounter
    {
      if S32(Sub(cycle, nextsCounter)) >= nextCounter then 32 else nextCounter - Sub(cycle, nextsCounter)
    }

    /**
      No event is late: whatever the callbacks raise, when the test is over the next branch comes
      no later than any pending event is due, but for SIO while it is switched off, and for an
      event that was pending and began 0x80000000 cycles or more before the branch first set.
     */
    method iopEventTest(sioOn: bool, script: Script, branches: seq<nat>, newCounter: int, scripts: seq<Script>)
      requires Tables() && |scripts| == EVENTS && forall b :: b in branches ==> b < TWO31
      requires Sub(cycle, nextsCounter) < TWO31 && -TWO31 <= nextCounter < TWO31
      modifies `interrupt, `sCycle, `eCycle, `next, `nextsCounter, `nextCounter, `fired
      ensures Valid() && old(fired) <= fired
      ensures forall n :: 0 <= n < EVENTS && (n != SIO || sioOn) ==>
        (n in old(interrupt) ==> old(Age(n) + First()) < TWO31) ==> InTime(n)
      ensures forall n :: n in old(interrupt) ==> n in interrupt || fired[n] > old(fired)[n]
      ensures !sioOn ==> fired[SIO] == old(fired)[SIO]
      ensures if old(Sub(cycle, nextsCounter) >= nextCounter) then nextsCounter == cycle && nextCounter == newCounter
        else unchanged(`nextsCounter, `nextCounter)
      ensures script == [] && branches == [] && old(Idle(U32(cycle + First()))) ==>
        unchanged(`interrupt, `sCycle, `eCycle) && next == U32(cycle + old(First()))
    {
      hide Sooner, Close, InTime, Idle, U32;
      SetFirstBranch(script, branches, newCounter);
      if interrupt != {} {
        hide Tables;
        psxTestInterrupts(sioOn, scripts);
      } else {
        NotPending();
      }
    }

    /** Updates the counters if they are due, and else sets the branch to when they are. */
    method SetFirstBranch(script: Script, branches: seq<nat>, newCounter: int)
      requires Tables() && forall b :: b in branches ==> b < TWO31
      requires Sub(cycle, nextsCounter) < TWO31 && -TWO31 <= nextCounter < TWO31
      modifies `interrupt, `sCycle, `eCycle, `next, `nextsCounter, `nextCounter
      ensures Valid() && old(interrupt) <= interrupt
      ensures forall n :: 0 <= n < EVENTS && (n in old(interrupt) ==> old(Age(n) + First()) < TWO31) ==> Close(n)
      ensures if old(Sub(cycle, nextsCounter) >= nextCounter) then nextsCounter == cycle && nextCounter == newCounter
        else unchanged(`nextsCounter, `nextCounter)
      ensures script == [] && branches == [] ==>
        unchanged(`interrupt, `sCycle, `eCycle) && next == U32(cycle + old(First()))
    {
      if S32(Sub(cycle, nextsCounter)) >= nextCounter {
        psxRcntUpdate(script, branches, newCounter);
      } else {
        next := U32(nextsCounter + nextCounter);
        SameStart(nextsCounter, cycle, nextCounter);
        EndAt(cycle, nextCounter - Sub(cycle, nextsCounter));
      }
    }

    /** The IOP runs on, though no further than the next branch. */
    method RunFor(k: nat)
      requires Valid() && k <= Ahead()
      modifies `cycle
      ensures cycle == U32(old(cycle) + k) && Valid() && Ahead() == old(Ahead()) - k
      ensures forall n :: 0 <= n < EVENTS && old(Close(n)) ==> Close(n)
      ensures forall n :: 0 <= n < EVENTS && old(InTime(n)) ==> InTime(n) && (n in interrupt ==> Age(n) <= eCycle[n])
    {
      cycle := U32(cycle + k);
    }
  }

  // ---------------------------------------------------------------------------------------
  // An event that is late
  // ---------------------------------------------------------------------------------------

  const NEVER: int := 0x7fff_ffff

  /** An event, and a test a cycle later, in which the counters find nothing to wait for. */
  method FarStart() returns (s: Scheduler)
    ensures fresh(s) && s.Valid() && s.interrupt == {CDVD} && s.cycle == s.nextsCounter == 1 && s.nextCounter == NEVER
    ensures s.sCycle[CDVD] == 0 && s.eCycle[CDVD] == 1000
  {
    hide U32, S32, Sub, Sooner, Scheduler.Close, Scheduler.InTime;
    FarWords();
    s := new Scheduler(1);
    s.PSX_INT(CDVD, 1000);
    s.RunFor(1);
    s.iopEventTest(true, [], [], NEVER, seq(EVENTS, i => []));
  }

  lemma FarWords()
    ensures Sub(0, 0) == 0 && Sub(1, 0) == 1 && Sub(1, 1) == 0 && U32(1) == 1 && U32(33) == 33 &&
      U32(1 + NEVER) == 0x8000_0000
    ensures S32(Sub(4, 0)) == 4 && S32(1) == 1 && S32(0) == 0 && S32(Sub(0x8000_0000, 1)) == NEVER
    ensures Sooner(33, 0, 1000) == 33 && Sooner(0x8000_0000, 0, 1000) == 0x8000_0000
  {
  }

  /**
    A run to a branch that is late: an event due in 1000 cycles is raised a cycle before the
    counters are updated, and that update finds nothing to wait for. The next test then sets the
    branch 0x7fffffff cycles ahead of the update, and from the event's start that looks like the
    past. psxRcntUpdate leaves it there when no counter counts cycles (all are stopped or count
    scanlines) and neither the SPU2 nor the USB plugin is called by cycles.
   */
  method FarRun() returns (s: Scheduler)
    ensures fresh(s) && s.Valid() && CDVD in s.interrupt && !s.InTime(CDVD)
    ensures s.Ahead() == NEVER && s.eCycle[CDVD] - s.Age(CDVD) == 999
  {
    hide U32, S32, Sub, Sooner, Scheduler.Close;
    FarWords();
    s := FarStart();
    s.iopEventTest(true, [], [], NEVER, seq(EVENTS, i => []));
  }
}
