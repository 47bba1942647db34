/**
  How a VU1 program's packets reach the GS thread in MTVU mode. The EE thread commits the program
  to the VU thread and sends a command for it to the GS thread; the VU thread queues the packet
  and posts semaXGkick; the GS thread waits for that and takes the packet. Both rings in between
  are first in, first out, so that only their lengths appear here.
 */
module MtvuHandoff {

  /** A finished packet: where it is, and how much readAmount counts for it. */
  datatype Packet = Packet(offset: nat, size: nat, readAmount: nat)

  function Amount(p: Packet): nat {
    p.size + p.readAmount
  }

  function Total(ps: seq<Packet>): nat {
    if ps == [] then 0 else Amount(ps[0]) + Total(ps[1..])
  }

  lemma {:induction false} TotalAppend(ps: seq<Packet>, p: Packet)
    ensures Total(ps + [p]) == Total(ps) + Amount(p)
  {
    if ps == [] {
      assert ps + [p] == [p];
    } else {
      assert (ps + [p])[1..] == ps[1..] + [p];
      TotalAppend(ps[1..], p);
    }
  }

  datatype EePc = EeIdle | EeFake | EeSend
  datatype VuPc = VuIdle | VuRun | VuPush(p: Packet) | VuPost
  datatype GsPc = GsIdle | GsWait | GsGet | GsSub(p: Packet) | GsPop(p: Packet)

  /**
    `executes` counts the programs committed, `commands` the commands sent, `started` the programs
    the VU thread took and `taken` the commands the GS thread took. `produced` and `consumed`
    record the packets queued by the programs and those taken for the commands.
   */
  datatype State = State(
    ee: EePc, vu: VuPc, gs: GsPc,
    executes: nat, fakePackets: nat, commands: nat, started: nat, taken: nat,
    queue: seq<Packet>, capacity: nat, semaXGkick: nat, readAmount: int,
    produced: seq<Packet>, consumed: seq<Packet>)

  predicate EeStep(s: State, t: State) {
    match s.ee
    // ExecuteVU commits a program, or a paused transfer resumes with a fake packet.
    case EeIdle =>
      t == s.(executes := s.executes + 1, ee := EeFake) ||
      (s.fakePackets > 0 && t == s.(fakePackets := s.fakePackets - 1, ee := EeSend))
    case EeFake => t == s.(fakePackets := s.fakePackets + 1, ee := EeIdle)
    case EeSend => t == s.(commands := s.commands + 1, ee := EeIdle)
  }

  ghost predicate VuStep(s: State, t: State) {
    match s.vu
    case VuIdle => s.started < s.executes && t == s.(started := s.started + 1, vu := VuRun)
    case VuRun => exists p :: t == s.(readAmount := s.readAmount + Amount(p), vu := VuPush(p))
    case VuPush(p) =>
      t == if |s.queue| < s.capacity then s.(queue := s.queue + [p], produced := s.produced + [p], vu := VuPost) else s
    case VuPost => t == s.(semaXGkick := s.semaXGkick + 1, vu := VuIdle)
  }

  /** Taking from an empty queue is the error path: it yields an empty packet. */
  predicate GsStep(s: State, t: State) {
    match s.gs
    case GsIdle => s.taken < s.commands && t == s.(taken := s.taken + 1, gs := GsWait)
    case GsWait => s.semaXGkick > 0 && t == s.(semaXGkick := s.semaXGkick - 1, gs := GsGet)
    case GsGet =>
      var p := if s.queue != [] then s.queue[0] else Packet(0, 0, 0);
      t == s.(consumed := s.consumed + [p], gs := GsSub(p))
    case GsSub(p) => t == s.(readAmount := s.readAmount - Amount(p), gs := GsPop(p))
    case GsPop(p) => t == s.(queue := if s.queue != [] then s.queue[1..] else [], gs := GsIdle)
  }

  ghost predicate Next(s: State, t: State) {
    EeStep(s, t) || VuStep(s, t) || GsStep(s, t)
  }

  ghost predicate Initial(s: State) {
    s.ee == EeIdle && s.vu == VuIdle && s.gs == GsIdle &&
    s.executes == s.fakePackets == s.commands == s.started == s.taken == s.semaXGkick == 0 && s.readAmount == 0 &&
    s.queue == s.produced == s.consumed == []
  }

  // ---------------------------------------------------------------------------------------
  // The invariant
  // ---------------------------------------------------------------------------------------

  function One(b: bool): nat {
    if b then 1 else 0
  }

  /** Every program has a command, sent or still to be sent. */
  predicate CommandsOk(s: State) {
    s.commands + s.fakePackets + One(s.ee.EeFake?) + One(s.ee.EeSend?) == s.executes && s.taken <= s.commands
  }

  /** Every program that ran has queued one packet and posted once for it, or is about to. */
  predicate ProgramsOk(s: State) {
    s.started <= s.executes && s.started == |s.produced| + One(s.vu.VuRun? || s.vu.VuPush?)
  }

  /** How many packets the GS thread has removed from the queue. */
  function Popped(s: State): int {
    |s.consumed| - One(s.gs.GsSub? || s.gs.GsPop?)
  }

  ghost predicate QueueOk(s: State) {
    0 <= Popped(s) && |s.consumed| <= |s.produced| && s.queue == s.produced[Popped(s)..] &&
    s.consumed == s.produced[..|s.consumed|] &&
    |s.consumed| == s.taken - One(s.gs.GsWait? || s.gs.GsGet?) &&
    s.semaXGkick + |s.consumed| + One(s.gs.GsGet?) + One(s.vu.VuPost?) == |s.produced| &&
    ((s.gs.GsSub? || s.gs.GsPop?) ==> s.consumed != [] && s.gs.p == s.consumed[|s.consumed| - 1])
  }

  /** readAmount is the sum over the packets queued, plus one about to be queued, less one about to be removed. */
  predicate AmountOk(s: State) {
    var pushing := if s.vu.VuPush? then Amount(s.vu.p) else 0;
    var popping := if s.gs.GsPop? then Amount(s.gs.p) else 0;
    s.readAmount == Total(s.queue) + pushing - popping
  }

  ghost predicate Inv(s: State) {
    CommandsOk(s) && ProgramsOk(s) && QueueOk(s) && AmountOk(s)
  }

  lemma EeKeeps(s: State, t: State)
    requires Inv(s) && EeStep(s, t)
    ensures Inv(t)
  {
    EeLeaves(s, t);
    QueueFrame(s, t);
    hide QueueOk, AmountOk;
    match s.ee {
      case EeIdle =>
      case EeFake =>
      case EeSend =>
    }
  }

  lemma EeLeaves(s: State, t: State)
    requires CommandsOk(s) && EeStep(s, t)
    ensures SameQueue(s, t) && CommandsOk(t) && t.executes >= s.executes
  {
    match s.ee {
      case EeIdle =>
      case EeFake =>
      case EeSend =>
    }
  }

  /** Nothing changed that concerns the queue. */
  predicate SameQueue(s: State, t: State) {
    (t.vu, t.gs) == (s.vu, s.gs) && (t.queue, t.produced, t.consumed) == (s.queue, s.produced, s.consumed) &&
    (t.started, t.taken, t.semaXGkick, t.readAmount) == (s.started, s.taken, s.semaXGkick, s.readAmount)
  }

  lemma QueueFrame(s: State, t: State)
    requires QueueOk(s) && AmountOk(s) && SameQueue(s, t)
    ensures QueueOk(t) && AmountOk(t)
  {
    hide Total, Amount, One;
  }

  lemma VuKeeps(s: State, t: State)
    requires Inv(s) && VuStep(s, t)
    ensures Inv(t)
  {
    hide Amount;
    match s.vu {
      case VuPush(p) =>
        if |s.queue| < s.capacity {
          PushKeeps(s, t);
        }
      case VuIdle => hide Total;
      case VuRun => hide Total;
      case VuPost => hide Total;
    }
  }

  lemma PushKeeps(s: State, t: State)
    requires Inv(s) && VuStep(s, t) && s.vu.VuPush? && |s.queue| < s.capacity
    ensures Inv(t)
  {
    TotalAppend(s.queue, s.vu.p);
    hide Total, Amount;
    assert t.produced[Popped(s)..] == s.queue + [s.vu.p];
    assert t.consumed == t.produced[..|t.consumed|];
    assert CommandsOk(t) && ProgramsOk(t);
    assert QueueOk(t);
  }

  lemma GsKeeps(s: State, t: State)
    requires Inv(s) && GsStep(s, t)
    ensures Inv(t)
    ensures s.gs.GsGet? ==> s.queue != [] && t.consumed == s.consumed + [s.produced[|s.consumed|]]
  {
    hide Inv;
    match s.gs {
      case GsIdle => StartKeeps(s, t);
      case GsWait => StartKeeps(s, t);
      case GsGet => GetKeeps(s, t);
      case GsSub(_) => SubKeeps(s, t);
      case GsPop(_) => PopKeeps(s, t);
    }
  }

  lemma StartKeeps(s: State, t: State)
    requires Inv(s) && GsStep(s, t) && (s.gs.GsIdle? || s.gs.GsWait?)
    ensures Inv(t)
  {
    hide Total, Amount;
  }

  lemma GetKeeps(s: State, t: State)
    requires Inv(s) && GsStep(s, t) && s.gs.GsGet?
    ensures Inv(t) && s.queue != [] && t.consumed == s.consumed + [s.produced[|s.consumed|]]
  {
    hide Total, Amount;
    assert s.queue[0] == s.produced[Popped(s)];
    assert t.consumed == t.produced[..|t.consumed|];
    assert QueueOk(t);
  }

  lemma SubKeeps(s: State, t: State)
    requires Inv(s) && GsStep(s, t) && s.gs.GsSub?
    ensures Inv(t)
  {
    hide Total, Amount;
  }

  lemma PopKeeps(s: State, t: State)
    requires Inv(s) && GsStep(s, t) && s.gs.GsPop?
    ensures Inv(t)
  {
    hide Amount;
    assert t.queue == s.produced[Popped(s) + 1..];
    assert s.queue[0] == s.gs.p;
    assert AmountOk(t);
    hide Total;
    assert QueueOk(t);
  }

  ghost predicate Run(states: seq<State>) {
    |states| > 0 && Initial(states[0]) && forall i :: 0 <= i < |states| - 1 ==> Next(states[i], states[i + 1])
  }

  lemma InitialOk(s: State)
    requires Initial(s)
    ensures Inv(s)
  {
  }

  lemma NextKeeps(s: State, t: State)
    requires Inv(s) && Next(s, t)
    ensures Inv(t)
  {
    hide Inv, EeStep, VuStep, GsStep;
    if EeStep(s, t) { EeKeeps(s, t); }
    else if VuStep(s, t) { VuKeeps(s, t); }
    else { GsKeeps(s, t); }
  }

  lemma {:induction false} RunKeeps(states: seq<State>, i: nat)
    requires Run(states) && i < |states|
    ensures Inv(states[i])
  {
    hide Inv, Next, Initial;
    if i == 0 {
      InitialOk(states[0]);
    } else {
      RunKeeps(states, i - 1);
      NextKeeps(states[i - 1], states[i]);
    }
  }

  /**
    In every interleaving: the queue holds a packet whenever the GS thread takes one, the n-th
    command gets the packet of the n-th program, and there are never more commands than programs.
   */
  lemma PacketsMatchCommands(states: seq<State>, i: nat)
    requires Run(states) && i < |states|
    ensures states[i].gs.GsGet? ==> states[i].queue != []
    ensures states[i].consumed <= states[i].produced
    ensures states[i].gs.GsIdle? ==> |states[i].consumed| == states[i].taken
    ensures states[i].commands <= states[i].executes && |states[i].produced| <= states[i].started <= states[i].executes
    ensures states[i].gs.GsIdle? && !states[i].vu.VuPush? ==> states[i].readAmount == Total(states[i].queue)
  {
    RunKeeps(states, i);
  }

  /**
    Nobody waits for a packet that will not come: when the GS thread waits and nothing is posted,
    the VU thread has a program to run or a post to make, and the queue does not hold it up.
   */
  lemma WaitIsAnswered(states: seq<State>, i: nat)
    requires Run(states) && i < |states| && states[i].gs.GsWait? && states[i].semaXGkick == 0
    ensures !states[i].vu.VuIdle? || states[i].started < states[i].executes
    ensures states[i].queue == [] || states[i].vu.VuPost?
  {
    RunKeeps(states, i);
  }

  /** A thread that has something to do can do it. */
  lemma NobodyStuck(s: State)
    requires Inv(s)
    ensures exists t :: EeStep(s, t)
    ensures s.ee.EeIdle? && s.fakePackets > 0 ==> exists t :: EeStep(s, t) && t.ee.EeSend?
    ensures s.gs.GsWait? && s.semaXGkick > 0 ==> exists t :: GsStep(s, t) && t.gs.GsGet?
    ensures s.gs.GsIdle? && s.taken < s.commands ==> exists t :: GsStep(s, t) && t.gs.GsWait?
    ensures !s.gs.GsIdle? && !s.gs.GsWait? ==> exists t :: GsStep(s, t)
  {
    match s.ee {
      case EeIdle =>
        assert EeStep(s, s.(executes := s.executes + 1, ee := EeFake));
        if s.fakePackets > 0 { assert EeStep(s, s.(fakePackets := s.fakePackets - 1, ee := EeSend)); }
      case EeFake => assert EeStep(s, s.(fakePackets := s.fakePackets + 1, ee := EeIdle));
      case EeSend => assert EeStep(s, s.(commands := s.commands + 1, ee := EeIdle));
    }
    GsNotStuck(s);
  }

  lemma GsNotStuck(s: State)
    ensures s.gs.GsWait? && s.semaXGkick > 0 ==> exists t :: GsStep(s, t) && t.gs.GsGet?
    ensures s.gs.GsIdle? && s.taken < s.commands ==> exists t :: GsStep(s, t) && t.gs.GsWait?
    ensures !s.gs.GsIdle? && !s.gs.GsWait? ==> exists t :: GsStep(s, t)
  {
    match s.gs {
      case GsIdle =>
        if s.taken < s.commands { assert GsStep(s, s.(taken := s.taken + 1, gs := GsWait)); }
      case GsWait =>
        if s.semaXGkick > 0 { assert GsStep(s, s.(semaXGkick := s.semaXGkick - 1, gs := GsGet)); }
      case GsGet =>
        var p := if s.queue != [] then s.queue[0] else Packet(0, 0, 0);
        assert GsStep(s, s.(consumed := s.consumed + [p], gs := GsSub(p)));
      case GsSub(p) => assert GsStep(s, s.(readAmount := s.readAmount - Amount(p), gs := GsPop(p)));
      case GsPop(p) => assert GsStep(s, s.(queue := if s.queue != [] then s.queue[1..] else [], gs := GsIdle));
    }
  }

  ghost predicate VuRuns(states: seq<State>) {
    |states| > 0 && forall i :: 0 <= i < |states| - 1 ==> VuStep(states[i], states[i + 1])
  }

  /** How far the VU thread is from its next post. */
  function ToPost(v: VuPc): nat {
    match v
    case VuIdle => 3
    case VuRun => 2
    case VuPush(_) => 1
    case VuPost => 0
  }

  /** The VU thread alone ends the wait of the GS thread, in four steps at most. */
  lemma {:induction false} VuAnswers(s: State) returns (states: seq<State>)
    requires Inv(s) && s.gs.GsWait? && s.capacity > 0
    ensures VuRuns(states) && states[0] == s && |states| <= if s.semaXGkick > 0 then 1 else 2 + ToPost(s.vu)
    ensures states[|states| - 1].gs.GsWait? && states[|states| - 1].semaXGkick > 0
    decreases s.semaXGkick == 0, ToPost(s.vu)
  {
    states := [s];
    if s.semaXGkick == 0 {
      var t := VuGoesOn(s);
      VuKeeps(s, t);
      hide Inv, VuStep;
      var rest := VuAnswers(t);
      states := [s] + rest;
    }
  }

  lemma VuGoesOn(s: State) returns (t: State)
    requires Inv(s) && s.gs.GsWait? && s.capacity > 0 && s.semaXGkick == 0
    ensures VuStep(s, t) && t.gs == s.gs && t.capacity == s.capacity
    ensures t.semaXGkick > 0 || (t.semaXGkick == 0 && ToPost(t.vu) < ToPost(s.vu))
  {
    match s.vu {
      case VuIdle => t := s.(started := s.started + 1, vu := VuRun);
      case VuRun => t := s.(readAmount := s.readAmount + Amount(Packet(0, 0, 0)), vu := VuPush(Packet(0, 0, 0)));
      case VuPush(p) => t := s.(queue := s.queue + [p], produced := s.produced + [p], vu := VuPost);
      case VuPost => t := s.(semaXGkick := s.semaXGkick + 1, vu := VuIdle);
    }
  }
}
