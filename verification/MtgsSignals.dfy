/**
  How the EE thread and the GS thread put each other to sleep and wake each other: the stall of
  a writer that finds the MTGS ring full, the limit on queued vsyncs, and the event that starts
  the GS thread. Every load, store, exchange, post and wait is a step of its own.
 */
module MtgsSignals {

  const RING_SIZE: nat := 0x80000

  /** A packet in the ring, as far as signals are concerned: its words, and whether it is a vsync. */
  datatype Packet = Packet(words: nat, isVsync: bool)

  function Words(ps: seq<Packet>): nat {
    if ps == [] then 0 else ps[0].words + Words(ps[1..])
  }

  function Vsyncs(ps: seq<Packet>): nat {
    if ps == [] then 0 else (if ps[0].isVsync then 1 else 0) + Vsyncs(ps[1..])
  }

  lemma {:induction false} Append(ps: seq<Packet>, p: Packet)
    ensures Words(ps + [p]) == Words(ps) + p.words
    ensures Vsyncs(ps + [p]) == Vsyncs(ps) + if p.isVsync then 1 else 0
  {
    if ps == [] {
      assert ps + [p] == [p];
    } else {
      assert (ps + [p])[1..] == ps[1..] + [p];
      Append(ps[1..], p);
    }
  }

  /**
    The EE thread: Stall samples the read position; from SetPosition to Recheck it is in the sleep
    loop of GenericStall, and from CountFrame to SleepVsync at the end of PostVsyncStart.
   */
  datatype EePc =
    | Idle | Stall(p: Packet) | SetPosition(p: Packet, amount: nat) | SetEnable(p: Packet) | LoadBusy(p: Packet)
    | PostEvent(p: Packet) | SleepRing(p: Packet) | Recheck(p: Packet) | Commit(p: Packet)
    | CountFrame | Listen | KickEvent | SleepVsync

  /** The GS thread: the loop of ExecuteTaskInThread, one access to shared state at a time. */
  datatype GsPc =
    | Release | SleepEvent | Acquire | Test
    | VsyncCount | VsyncTake | VsyncPost | VsyncRelease | VsyncAcquire
    | Move | TestEnable(words: nat) | CountDown(words: nat) | Disable | RingPost
    | Empty | Valve | ValveReset | ValvePost | LastTake | LastPost

  predicate InVsync(g: GsPc) {
    g.VsyncCount? || g.VsyncTake? || g.VsyncPost? || g.VsyncRelease? || g.VsyncAcquire?
  }

  datatype State = State(
    ee: EePc, gs: GsPc, ring: seq<Packet>,
    busy: bool, event: nat,
    enable: bool, position: int, onReset: nat,
    listener: bool, vsync: nat, frames: int, queueSize: nat)

  function FreeRoom(s: State): int {
    RING_SIZE - Words(s.ring)
  }

  /** How much GenericStall wants to see done before it is woken: a quarter of what is to do, or room for the packet. */
  function SomeDone(room: int, size: nat): (n: nat)
    requires 0 <= room <= RING_SIZE
    ensures n > size && 4 * n + 3 >= RING_SIZE - room && (n == size + 1 || 4 * n <= RING_SIZE - room)
  {
    if (RING_SIZE - room) / 4 < size + 1 then size + 1 else (RING_SIZE - room) / 4
  }

  /** The spin-wait for small amounts is never taken: a full ring always has more than 0x80 words to empty. */
  lemma NeverSpins(room: int, size: nat)
    requires 0 <= room <= size < RING_SIZE
    ensures SomeDone(room, size) > 0x80
  {
  }

  // ---------------------------------------------------------------------------------------
  // Steps
  // ---------------------------------------------------------------------------------------

  /** The EE thread is not asleep; the ring never overflows, see Inv. */
  predicate EeEnabled(s: State) {
    (s.ee.Stall? ==> 0 <= FreeRoom(s)) && (s.ee.SleepRing? ==> s.onReset > 0) && (s.ee.SleepVsync? ==> s.vsync > 0)
  }

  /** The step of the EE thread while it sends a packet or waits. */
  function EeAfter(s: State): State
    requires EeEnabled(s) && !s.ee.Idle?
  {
    match s.ee
    case Stall(p) =>
      if FreeRoom(s) <= p.words then s.(ee := SetPosition(p, SomeDone(FreeRoom(s), p.words))) else s.(ee := Commit(p))
    case SetPosition(p, amount) => s.(position := amount, ee := SetEnable(p))
    case SetEnable(p) => s.(enable := true, ee := LoadBusy(p))
    case LoadBusy(p) => s.(ee := if s.busy then SleepRing(p) else PostEvent(p))
    case PostEvent(p) => s.(event := s.event + 1, ee := SleepRing(p))
    case SleepRing(p) => s.(onReset := s.onReset - 1, ee := Recheck(p))
    case Recheck(p) => s.(ee := if FreeRoom(s) > p.words then Commit(p) else SetEnable(p))
    case Commit(p) => s.(ring := s.ring + [p], ee := if p.isVsync then CountFrame else Idle)
    case CountFrame => s.(frames := s.frames + 1, ee := if s.frames < s.queueSize then Idle else Listen)
    case Listen => s.(listener := true, ee := KickEvent)
    case KickEvent => s.(event := s.event + 1, ee := SleepVsync)
    case SleepVsync => s.(vsync := s.vsync - 1, ee := Idle)
  }

  /** A step of the EE thread; only sending a new packet is its own choice. */
  ghost predicate EeStep(s: State, t: State) {
    if s.ee.Idle? then exists p: Packet :: 1 <= p.words < RING_SIZE && t == s.(ee := Stall(p))
    else EeEnabled(s) && t == EeAfter(s)
  }

  predicate GsEnabled(s: State) {
    s.gs.SleepEvent? ==> s.event > 0
  }

  /** The step of the GS thread. */
  function GsStep(s: State): State
    requires GsEnabled(s)
    requires (InVsync(s.gs) || s.gs.Move?) ==> s.ring != []
  {
    match s.gs
    case Release => s.(busy := false, gs := SleepEvent)
    case SleepEvent => s.(event := s.event - 1, gs := Acquire)
    case Acquire => s.(busy := true, gs := Test)
    case Test => s.(gs := if s.ring == [] then Empty else if s.ring[0].isVsync then VsyncCount else Move)
    case VsyncCount => s.(frames := s.frames - 1, gs := VsyncTake)
    case VsyncTake => s.(listener := false, gs := if s.listener then VsyncPost else VsyncRelease)
    case VsyncPost => s.(vsync := s.vsync + 1, gs := VsyncRelease)
    case VsyncRelease => s.(busy := false, gs := VsyncAcquire)
    case VsyncAcquire => s.(busy := true, gs := Move)
    case Move => s.(ring := s.ring[1..], gs := TestEnable(s.ring[0].words))
    case TestEnable(words) => s.(gs := if s.enable then CountDown(words) else Test)
    case CountDown(words) => s.(position := s.position - words, gs := if s.position <= 0 then Disable else Test)
    case Disable => s.(enable := false, gs := RingPost)
    case RingPost => s.(onReset := s.onReset + 1, gs := Test)
    case Empty => s.(busy := false, gs := Valve)
    case Valve => s.(enable := false, gs := if s.enable then ValveReset else LastTake)
    case ValveReset => s.(position := 0, gs := ValvePost)
    case ValvePost => s.(onReset := s.onReset + 1, gs := LastTake)
    case LastTake => s.(listener := false, gs := if s.listener then LastPost else Release)
    case LastPost => s.(vsync := s.vsync + 1, gs := Release)
  }

  /** A step of either thread, or a post of the event by a third one. */
  ghost predicate Next(s: State, t: State) {
    EeStep(s, t) || (Ready(s) && t == GsStep(s)) || t == s.(event := s.event + 1)
  }

  /** The GS thread can take a step. */
  predicate Ready(s: State) {
    GsEnabled(s) && ((InVsync(s.gs) || s.gs.Move?) ==> s.ring != [])
  }

  ghost predicate Initial(s: State) {
    s.ee.Idle? && s.gs.SleepEvent? && s.ring == [] && !s.busy && !s.enable && !s.listener &&
    s.event == s.onReset == s.vsync == 0 && s.frames == 0
  }

  // ---------------------------------------------------------------------------------------
  // The invariant
  // ---------------------------------------------------------------------------------------

  function One(b: bool): nat {
    if b then 1 else 0
  }

  /** The EE is sending a packet. */
  predicate Sending(e: EePc) {
    !(e.Idle? || e.CountFrame? || e.Listen? || e.KickEvent? || e.SleepVsync?)
  }

  /** m_RingBufferIsBusy says whether the GS thread is still going to look at everything. */
  predicate BusyOk(s: State) {
    s.busy == (
      s.gs.Test? || (InVsync(s.gs) && !s.gs.VsyncAcquire?) || s.gs.Move? || s.gs.TestEnable? || s.gs.CountDown? ||
      s.gs.Disable? || s.gs.RingPost? || s.gs.Empty?)
  }

  predicate RingOk(s: State) {
    Words(s.ring) < RING_SIZE &&
    (s.ee.Commit? ==> Words(s.ring) + s.ee.p.words < RING_SIZE) &&
    (forall p :: p in s.ring ==> p.words >= 1) &&
    (Sending(s.ee) ==> 1 <= s.ee.p.words < RING_SIZE) &&
    (InVsync(s.gs) ==> s.ring != [] && s.ring[0].isVsync) &&
    (s.gs.Move? ==> s.ring != [])
  }

  /** Exactly one wake-up is on its way while the EE is in its sleep loop, and none otherwise. */
  predicate RingSignal(s: State) {
    One(s.enable) + One((s.gs.RingPost? || s.gs.ValveReset? || s.gs.ValvePost?)) + s.onReset
      == One(s.ee.LoadBusy? || s.ee.PostEvent? || s.ee.SleepRing?) &&
    (s.gs.CountDown? || s.gs.Disable? ==> s.enable) &&
    ((s.gs.Disable? || s.gs.RingPost? || s.gs.ValvePost?) || s.onReset > 0 || s.ee.Recheck? ==> s.position <= 0)
  }

  /** While the EE relies on the enable flag, the GS thread is not asleep for good. */
  predicate RingWake(s: State) {
    s.ee.SleepRing? && s.enable && (s.gs.LastTake? || s.gs.LastPost? || s.gs.Release? || s.gs.SleepEvent?) ==>
      s.event > 0
  }

  predicate VsyncSignal(s: State) {
    One(s.listener) + One((s.gs.VsyncPost? || s.gs.LastPost?)) + s.vsync == One(s.ee.KickEvent? || s.ee.SleepVsync?)
  }

  predicate VsyncWake(s: State) {
    s.ee.SleepVsync? && s.listener && (s.gs.Release? || s.gs.SleepEvent?) ==> s.event > 0
  }

  /** The GS thread has counted the vsync at the front of the ring as presented. */
  predicate Presenting(s: State) {
    s.gs.VsyncTake? || s.gs.VsyncPost? || s.gs.VsyncRelease? || s.gs.VsyncAcquire? ||
    (s.gs.Move? && s.ring != [] && s.ring[0].isVsync)
  }

  /** The frame count is the number of vsync packets sent and not yet presented. */
  predicate FramesOk(s: State) {
    s.frames + One(s.ee.CountFrame?) + One(Presenting(s)) == Vsyncs(s.ring)
  }

  ghost predicate Inv(s: State) {
    RingOk(s) && BusyOk(s) && RingSignal(s) && RingWake(s) && VsyncSignal(s) && VsyncWake(s) && FramesOk(s)
  }

  lemma EeKeepsRing(s: State, t: State)
    requires Inv(s) && EeStep(s, t)
    ensures RingOk(t) && FramesOk(t)
  {
    hide RingOk, FramesOk, RingWake, RingSignal, BusyOk, VsyncSignal, VsyncWake, EeStep;
    if s.ee.Commit? {
      CommitKeepsRing(s, t);
    } else if s.ee.Idle? || s.ee.Stall? || s.ee.Recheck? {
      LookKeepsRing(s, t);
    } else if s.ee.CountFrame? || s.ee.Listen? || s.ee.KickEvent? || s.ee.SleepVsync? {
      VsyncKeepsRing(s, t);
    } else {
      SleepKeepsRing(s, t);
    }
  }

  lemma LookKeepsRing(s: State, t: State)
    requires RingOk(s) && FramesOk(s) && (s.ee.Idle? || s.ee.Stall? || s.ee.Recheck?) && EeStep(s, t)
    ensures RingOk(t) && FramesOk(t)
  {
    hide Words, Vsyncs, SomeDone;
    assert t == s.(ee := t.ee);
  }

  lemma VsyncKeepsRing(s: State, t: State)
    requires RingOk(s) && FramesOk(s) && EeStep(s, t)
    requires s.ee.CountFrame? || s.ee.Listen? || s.ee.KickEvent? || s.ee.SleepVsync?
    ensures RingOk(t) && FramesOk(t)
  {
    hide Words, Vsyncs, SomeDone;
    assert t.ring == s.ring && t.gs == s.gs;
  }

  lemma SleepKeepsRing(s: State, t: State)
    requires RingOk(s) && FramesOk(s) && EeStep(s, t)
    requires s.ee.SetPosition? || s.ee.SetEnable? || s.ee.LoadBusy? || s.ee.PostEvent? || s.ee.SleepRing?
    ensures RingOk(t) && FramesOk(t)
  {
    hide Words, Vsyncs, SomeDone;
    assert t.ring == s.ring && t.gs == s.gs && t.frames == s.frames && Sending(t.ee) && t.ee.p == s.ee.p;
  }

  lemma CommitKeepsRing(s: State, t: State)
    requires RingOk(s) && FramesOk(s) && s.ee.Commit? && EeStep(s, t)
    ensures RingOk(t) && FramesOk(t)
  {
    Append(s.ring, s.ee.p);
    hide Words, Vsyncs, SomeDone;
  }

  lemma EeKeepsSignals(s: State, t: State)
    requires Inv(s) && EeStep(s, t)
    ensures BusyOk(t) && RingSignal(t) && RingWake(t)
  {
    hide Words, Vsyncs, FramesOk, VsyncSignal, VsyncWake, SomeDone, RingOk;
  }

  lemma EeKeepsVsync(s: State, t: State)
    requires Inv(s) && EeStep(s, t)
    ensures VsyncSignal(t) && VsyncWake(t)
  {
    hide Words, Vsyncs, FramesOk, RingWake, RingSignal, SomeDone, RingOk, BusyOk;
  }

  lemma GsKeepsRing(s: State)
    requires Inv(s) && GsEnabled(s)
    ensures Ready(s) && RingOk(GsStep(s)) && FramesOk(GsStep(s))
  {
    GsKeepsRoom(s);
    GsKeepsFrames(s);
    hide RingOk, FramesOk, RingWake, VsyncSignal, VsyncWake, RingSignal, BusyOk, GsStep;
  }

  lemma GsKeepsRoom(s: State)
    requires RingOk(s) && GsEnabled(s)
    ensures Ready(s) && RingOk(GsStep(s))
  {
    if s.gs.Move? {
      assert s.ring == [s.ring[0]] + s.ring[1..];
    } else {
      OnlyMoveReads(s);
      hide Words, GsStep;
    }
  }

  /** But for Move, no step of the GS thread changes the ring, nor the front of it between tests. */
  lemma OnlyMoveReads(s: State)
    requires Ready(s) && !s.gs.Move?
    ensures var t := GsStep(s);
      t.ring == s.ring && t.ee == s.ee &&
      (InVsync(t.gs) && !InVsync(s.gs) ==> s.ring != [] && s.ring[0].isVsync) &&
      (t.gs.Move? ==> s.ring != [])
  {
    var t := GsStep(s);
    match s.gs {
      case Test | VsyncCount | VsyncTake | VsyncPost | VsyncRelease | VsyncAcquire => assert t.ring == s.ring;
      case Release | SleepEvent | Acquire | TestEnable(_) | CountDown(_) => assert t.ring == s.ring;
      case Disable | RingPost | Empty | Valve | ValveReset | ValvePost => assert t.ring == s.ring;
      case LastTake | LastPost => assert t.ring == s.ring;
    }
  }

  lemma GsKeepsFrames(s: State)
    requires RingOk(s) && FramesOk(s) && Ready(s)
    ensures FramesOk(GsStep(s))
  {
    if s.gs.Move? {
      hide Words;
    } else {
      OnlyMoveReads(s);
      OnlyCountCounts(s);
      hide Words, Vsyncs, GsStep, Presenting;
    }
  }

  lemma OnlyCountCounts(s: State)
    requires RingOk(s) && Ready(s) && !s.gs.Move?
    ensures var t := GsStep(s); t.frames + One(Presenting(t)) == s.frames + One(Presenting(s))
  {
    hide Words;
    var t := GsStep(s);
    match s.gs {
      case VsyncCount => assert Presenting(t) && !Presenting(s);
      case VsyncTake | VsyncPost | VsyncRelease | VsyncAcquire => assert Presenting(t) && Presenting(s);
      case Test => assert !Presenting(t);
      case Release | SleepEvent | Acquire | TestEnable(_) | CountDown(_) => assert t.frames == s.frames;
      case Disable | RingPost | Empty | Valve | ValveReset | ValvePost => assert t.frames == s.frames;
      case LastTake | LastPost => assert t.frames == s.frames;
    }
  }

  lemma GsKeepsSignals(s: State)
    requires Inv(s) && Ready(s)
    ensures BusyOk(GsStep(s)) && RingSignal(GsStep(s)) && RingWake(GsStep(s))
  {
    hide Words, Vsyncs, FramesOk, VsyncSignal, VsyncWake;
    var t := GsStep(s);
    match s.gs {
      case CountDown(_) | Disable | RingPost => assert RingSignal(t);
      case Valve | ValveReset | ValvePost => assert RingSignal(t);
      case _ => assert t.position == s.position && t.onReset == s.onReset && t.enable == s.enable;
    }
  }

  lemma GsKeepsVsync(s: State)
    requires Inv(s) && Ready(s)
    ensures VsyncSignal(GsStep(s)) && VsyncWake(GsStep(s))
  {
    hide Words, Vsyncs, FramesOk, RingWake, RingSignal, BusyOk, RingOk;
    var t := GsStep(s);
    match s.gs {
      case Release | SleepEvent => assert VsyncWake(t);
      case VsyncTake | VsyncPost => assert VsyncSignal(t);
      case LastTake | LastPost => assert VsyncSignal(t);
      case _ => assert t.listener == s.listener && t.vsync == s.vsync;
    }
  }

  lemma NextKeeps(s: State, t: State)
    requires Inv(s) && Next(s, t)
    ensures Inv(t)
  {
    if EeStep(s, t) {
      EeKeepsRing(s, t);
      EeKeepsSignals(s, t);
      EeKeepsVsync(s, t);
    } else if Ready(s) && t == GsStep(s) {
      GsKeepsRing(s);
      GsKeepsSignals(s);
      GsKeepsVsync(s);
    }
  }

  // ---------------------------------------------------------------------------------------
  // The limit on queued vsyncs
  // ---------------------------------------------------------------------------------------

  /** The EE goes on exactly if, besides its own, fewer vsyncs than the limit wait in the ring; else it will sleep. */
  lemma SleepsAtLimit(s: State, t: State)
    requires Inv(s) && s.ee.CountFrame? && EeStep(s, t)
    ensures if Vsyncs(s.ring) - One(Presenting(s)) - 1 < s.queueSize then t.ee.Idle? else t.ee.Listen?
  {
    hide Vsyncs, Words;
  }

  /** The EE has to be woken for a vsync, and the wake-up has not been sent. */
  predicate Unanswered(s: State) {
    (s.ee.Listen? || s.ee.KickEvent? || s.ee.SleepVsync?) && s.vsync == 0 && !s.gs.VsyncPost? && !s.gs.LastPost?
  }

  /** The GS thread has found the ring empty, and has not looked at the listener since. */
  predicate RanOut(g: GsPc) {
    g.Empty? || g.Valve? || g.ValveReset? || g.ValvePost? || g.LastTake?
  }

  /** A wake-up because the ring ran out comes once at most before the next vsync is presented. */
  predicate QueueOk(s: State) {
    s.frames + One(s.gs.VsyncTake?) <= s.queueSize + 1 + One(Unanswered(s)) &&
    (RanOut(s.gs) ==> s.frames <= s.queueSize + One(Unanswered(s)))
  }

  lemma EeKeepsQueue(s: State, t: State)
    requires Inv(s) && QueueOk(s) && EeStep(s, t)
    ensures QueueOk(t) && t.queueSize == s.queueSize
  {
    hide Words, Vsyncs, SomeDone, RingOk, RingWake, RingSignal, BusyOk, VsyncWake, FramesOk;
  }

  lemma GsKeepsQueue(s: State)
    requires Inv(s) && QueueOk(s) && Ready(s)
    ensures QueueOk(GsStep(s)) && GsStep(s).queueSize == s.queueSize
  {
    if s.gs.Test? && s.ring == [] { NothingQueued(s); }
    hide Words, Vsyncs, FramesOk, RingOk, RingWake, RingSignal, BusyOk, VsyncWake;
  }

  lemma NothingQueued(s: State)
    requires FramesOk(s) && s.ring == []
    ensures s.frames <= 0
  {
  }

  lemma {:induction false} RunKeepsQueue(states: seq<State>, i: nat)
    requires Run(states) && i < |states|
    ensures QueueOk(states[i]) && states[i].queueSize == states[0].queueSize
  {
    if i > 0 {
      RunKeepsQueue(states, i - 1);
      RunKeeps(states, i - 1);
      assert Next(states[i - 1], states[i]);
      hide Inv, QueueOk, Initial, Next;
      NextKeepsQueue(states[i - 1], states[i]);
    } else {
      hide Next;
    }
  }

  lemma NextKeepsQueue(s: State, t: State)
    requires Inv(s) && QueueOk(s) && Next(s, t)
    ensures QueueOk(t) && t.queueSize == s.queueSize
  {
    hide Inv, QueueOk, EeStep, GsStep;
    if EeStep(s, t) {
      EeKeepsQueue(s, t);
    } else if Ready(s) && t == GsStep(s) {
      GsKeepsQueue(s);
    } else {
      PostKeepsQueue(s, t);
    }
  }

  lemma PostKeepsQueue(s: State, t: State)
    requires QueueOk(s) && t == s.(event := s.event + 1)
    ensures QueueOk(t) && t.queueSize == s.queueSize
  {
  }

  /** In every interleaving there are never more than three vsyncs over the limit in the ring. */
  lemma QueueBounded(states: seq<State>, i: nat)
    requires Run(states) && i < |states|
    ensures Vsyncs(states[i].ring) <= states[0].queueSize + 3
  {
    RunKeepsQueue(states, i);
    RunKeeps(states, i);
    hide Vsyncs, RingOk, BusyOk, RingSignal, RingWake, VsyncWake;
  }

  // ---------------------------------------------------------------------------------------
  // Every sleep ends
  // ---------------------------------------------------------------------------------------

  /** How far the GS thread is from its next post for the ring, or for a vsync. */
  function Rank(s: State, forVsync: bool): nat {
    40 * |s.ring| +
    match s.gs
    case TestEnable(_) => 38
    case CountDown(_) => 37
    case Disable => 36
    case RingPost => 35
    case LastTake => if forVsync then 14 else 30
    case LastPost => if forVsync then 13 else 29
    case Release => 28
    case SleepEvent => 27
    case Acquire => 26
    case Test => 25
    case VsyncCount => 24
    case VsyncTake => 23
    case VsyncPost => 22
    case VsyncRelease => 21
    case VsyncAcquire => 20
    case Move => 19
    case Empty => 18
    case Valve => 17
    case ValveReset => 16
    case ValvePost => 15
  }

  /** The state after n steps of the GS thread alone. */
  function GsAfter(s: State, n: nat): State
    decreases n
  {
    if n == 0 || !Ready(s) then s else GsAfter(GsStep(s), n - 1)
  }

  lemma RingSleepStep(s: State)
    requires Inv(s) && s.ee.SleepRing? && s.onReset == 0
    ensures Ready(s) && Inv(GsStep(s)) && GsStep(s).ee == s.ee
    ensures GsStep(s).onReset > 0 || Rank(GsStep(s), false) < Rank(s, false)
  {
    GsKeepsRing(s);
    GsKeepsSignals(s);
    GsKeepsVsync(s);
    hide Words, Vsyncs, FramesOk, VsyncSignal, VsyncWake;
  }

  lemma VsyncSleepStep(s: State)
    requires Inv(s) && s.ee.SleepVsync? && s.vsync == 0
    ensures Ready(s) && Inv(GsStep(s)) && GsStep(s).ee == s.ee
    ensures GsStep(s).vsync > 0 || Rank(GsStep(s), true) < Rank(s, true)
  {
    GsKeepsRing(s);
    GsKeepsSignals(s);
    GsKeepsVsync(s);
    hide Words, Vsyncs, FramesOk, RingWake;
  }

  /** The EE thread wakes up from a sleep. */
  ghost predicate Wakes(s: State, e: EePc) {
    exists t :: EeStep(s, t) && t.ee == e
  }

  lemma CanWake(s: State)
    ensures s.ee.SleepRing? && s.onReset > 0 ==> Wakes(s, Recheck(s.ee.p))
    ensures s.ee.SleepVsync? && s.vsync > 0 ==> Wakes(s, Idle)
  {
    if s.ee.SleepRing? && s.onReset > 0 {
      assert EeStep(s, EeAfter(s));
    } else if s.ee.SleepVsync? && s.vsync > 0 {
      assert EeStep(s, EeAfter(s));
    }
  }

  /** A sleeping writer is woken after finitely many steps of the GS thread. */
  lemma {:induction false} RingSleepEnds(s: State) returns (n: nat)
    requires Inv(s) && s.ee.SleepRing?
    ensures GsAfter(s, n).onReset > 0 && GsAfter(s, n).ee == s.ee
    decreases Rank(s, false)
  {
    if s.onReset > 0 {
      n := 0;
    } else {
      RingSleepStep(s);
      hide Inv, GsStep;
      var t := GsStep(s);
      if t.onReset > 0 {
        assert GsAfter(t, 0) == t;
        n := 1;
      } else {
        var m := RingSleepEnds(t);
        n := m + 1;
      }
    }
  }

  lemma {:induction false} VsyncSleepEnds(s: State) returns (n: nat)
    requires Inv(s) && s.ee.SleepVsync?
    ensures GsAfter(s, n).vsync > 0 && GsAfter(s, n).ee == s.ee
    decreases Rank(s, true)
  {
    if s.vsync > 0 {
      n := 0;
    } else {
      VsyncSleepStep(s);
      hide Inv, GsStep;
      var t := GsStep(s);
      if t.vsync > 0 {
        assert GsAfter(t, 0) == t;
        n := 1;
      } else {
        var m := VsyncSleepEnds(t);
        n := m + 1;
      }
    }
  }

  /** How far the GS thread is from looking whether to sleep. */
  function Left(g: GsPc): nat {
    match g
    case TestEnable(_) => 20
    case CountDown(_) => 19
    case Disable => 18
    case RingPost => 17
    case Acquire => 16
    case Test => 15
    case VsyncCount => 14
    case VsyncTake => 13
    case VsyncPost => 12
    case VsyncRelease => 11
    case VsyncAcquire => 10
    case Move => 9
    case Empty => 8
    case Valve => 7
    case ValveReset => 6
    case ValvePost => 5
    case LastTake => 4
    case LastPost => 3
    case Release => 2
    case SleepEvent => 1
  }

  lemma LeftShrinks(s: State)
    requires Ready(s)
    ensures var t := GsStep(s);
      t.event < s.event ||
      (t.event == s.event && (|t.ring| < |s.ring| || (|t.ring| == |s.ring| && Left(t.gs) < Left(s.gs))))
  {
    if s.gs.Move? || s.gs.SleepEvent? {
      hide Left;
    } else {
      LeftCounts(s);
      hide GsStep, Left;
    }
  }

  lemma LeftCounts(s: State)
    requires Ready(s) && !s.gs.Move? && !s.gs.SleepEvent?
    ensures var t := GsStep(s); t.event == s.event && t.ring == s.ring && Left(t.gs) < Left(s.gs)
  {
    var t := GsStep(s);
    match s.gs {
      case TestEnable(_) | CountDown(_) | Disable | RingPost => assert Left(t.gs) < Left(s.gs);
      case Acquire | Test | VsyncCount | VsyncTake => assert Left(t.gs) < Left(s.gs);
      case VsyncPost | VsyncRelease | VsyncAcquire => assert Left(t.gs) < Left(s.gs);
      case Empty | Valve | ValveReset | ValvePost => assert Left(t.gs) < Left(s.gs);
      case LastTake | LastPost | Release => assert Left(t.gs) < Left(s.gs);
    }
  }

  /** But for the two sleeps, the EE thread can always go on, and with any packet that fits into the ring. */
  lemma EeGoesOn(s: State, p: Packet)
    requires Inv(s) && 1 <= p.words < RING_SIZE
    ensures s.ee.Idle? ==> EeStep(s, s.(ee := Stall(p)))
    ensures !s.ee.SleepRing? && !s.ee.SleepVsync? ==> exists t :: EeStep(s, t)
  {
    if s.ee.Idle? {
      assert EeStep(s, s.(ee := Stall(p)));
    } else if !s.ee.SleepRing? && !s.ee.SleepVsync? {
      assert EeStep(s, EeAfter(s));
    }
  }

  /** Left alone, the GS thread goes to sleep, with every post of its event taken. */
  lemma {:induction false} GsComesToRest(s: State) returns (n: nat)
    requires Inv(s)
    ensures var t := GsAfter(s, n); Inv(t) && t.gs.SleepEvent? && t.event == 0
    decreases s.event, |s.ring|, Left(s.gs)
  {
    GsKeepsAll(s);
    if !Ready(s) {
      n := 0;
    } else {
      LeftShrinks(s);
      hide Inv, GsStep;
      var m := GsComesToRest(GsStep(s));
      n := m + 1;
    }
  }

  lemma GsKeepsAll(s: State)
    requires Inv(s)
    ensures Ready(s) ==> Inv(GsStep(s))
    ensures Ready(s) <==> GsEnabled(s)
  {
    if GsEnabled(s) {
      GsKeepsRing(s);
      GsKeepsSignals(s);
      GsKeepsVsync(s);
    }
  }

  ghost predicate Run(states: seq<State>) {
    |states| > 0 && Initial(states[0]) && forall i :: 0 <= i < |states| - 1 ==> Next(states[i], states[i + 1])
  }

  lemma {:induction false} RunKeeps(states: seq<State>, i: nat)
    requires Run(states) && i < |states|
    ensures Inv(states[i])
  {
    if i > 0 {
      RunKeeps(states, i - 1);
      NextKeeps(states[i - 1], states[i]);
    }
  }

  /**
    In every interleaving: a sleeping EE thread is woken by the GS thread alone, whatever point
    that is at; at most one wake-up is ever outstanding and none is left over; and the ring
    position has been counted down when GenericStall leaves its sleep.
   */
  lemma NoLostWakeUp(states: seq<State>, i: nat)
    requires Run(states) && i < |states|
    ensures states[i].ee.SleepRing? ==> exists n :: Wakes(GsAfter(states[i], n), Recheck(states[i].ee.p))
    ensures states[i].ee.SleepVsync? ==> exists n :: Wakes(GsAfter(states[i], n), Idle)
    ensures states[i].onReset + states[i].vsync <= 1
    ensures states[i].onReset > 0 ==> states[i].ee.LoadBusy? || states[i].ee.PostEvent? || states[i].ee.SleepRing?
    ensures states[i].vsync > 0 ==> states[i].ee.KickEvent? || states[i].ee.SleepVsync?
    ensures states[i].ee.Recheck? ==> states[i].position <= 0
  {
    RunKeeps(states, i);
    var s := states[i];
    if s.ee.SleepRing? {
      var n := RingSleepEnds(s);
      CanWake(GsAfter(s, n));
    }
    if s.ee.SleepVsync? {
      var n := VsyncSleepEnds(s);
      CanWake(GsAfter(s, n));
    }
    hide GsStep, FramesOk, RingOk;
  }
}
