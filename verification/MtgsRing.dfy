/**
  The MTGS ring: the EE thread writes packets of one or more words and then publishes them by
  moving m_WritePos; the GS thread reads them and moves m_ReadPos. Every access to the ring and
  to the two positions is a step of its own, and the steps of the two threads interleave freely.
 */
module MtgsRing {
  import opened WrappedCopy

  /** The command whose packets carry payload words; all other commands are one word. */
  const VSYNC: nat := 3

  datatype Packet = Simple(tag: Quad) | Data(payload: seq<Quad>)

  predicate Proper(p: Packet) {
    p.Simple? ==> p.tag.command != VSYNC
  }

  function Size(p: Packet): nat {
    if p.Simple? then 1 else 1 + |p.payload|
  }

  function Total(ps: seq<Packet>): nat {
    if ps == [] then 0 else Size(ps[0]) + Total(ps[1..])
  }

  // ---------------------------------------------------------------------------------------
  // What the ring holds
  // ---------------------------------------------------------------------------------------

  /** The first word of a packet; a data packet only sets the command and the length. */
  predicate Tagged(q: Quad, p: Packet) {
    match p
    case Simple(tag) => q == tag && tag.command != VSYNC
    case Data(payload) => q.command == VSYNC && q.data0 == |payload|
  }

  ghost predicate Stored(ring: seq<Quad>, pos: nat, p: Packet)
    requires pos < |ring|
  {
    Size(p) <= |ring| && Tagged(ring[pos], p) &&
    (p.Data? ==> Window(ring, Wrap(pos + 1, |ring|), |p.payload|) == p.payload)
  }

  /** The ring holds the packets one behind the other from pos on. */
  ghost predicate Holds(ring: seq<Quad>, pos: nat, ps: seq<Packet>)
    requires pos < |ring|
    decreases ps
  {
    ps == [] ||
    (Stored(ring, pos, ps[0]) && Holds(ring, Wrap(pos + Size(ps[0]), |ring|), ps[1..]))
  }

  /** Two rings that agree on the len words from pos on. */
  ghost predicate Same(a: seq<Quad>, b: seq<Quad>, pos: nat, len: nat)
    requires |a| == |b| && pos < |a|
  {
    forall j :: 0 <= j < |a| && Dist(pos, j, |a|) < len ==> a[j] == b[j]
  }

  lemma StoredSame(a: seq<Quad>, b: seq<Quad>, pos: nat, p: Packet)
    requires |a| == |b| && pos < |a| && Stored(a, pos, p) && Same(a, b, pos, Size(p))
    ensures Stored(b, pos, p)
  {
    var n := |a|;
    assert Dist(pos, pos, n) == 0;
    if p.Data? {
      forall k | 0 <= k < |p.payload|
        ensures Window(b, Wrap(pos + 1, n), |p.payload|)[k] == p.payload[k]
      {
        assert Dist(pos, Wrap(Wrap(pos + 1, n) + k, n), n) == k + 1;
        assert Window(a, Wrap(pos + 1, n), |p.payload|)[k] == p.payload[k];
      }
    }
  }

  lemma {:induction false} HoldsSame(a: seq<Quad>, b: seq<Quad>, pos: nat, ps: seq<Packet>)
    requires |a| == |b| && pos < |a| && Holds(a, pos, ps) && Total(ps) <= |a| && Same(a, b, pos, Total(ps))
    ensures Holds(b, pos, ps)
    decreases ps
  {
    if ps != [] {
      StoredSame(a, b, pos, ps[0]);
      var next := Wrap(pos + Size(ps[0]), |a|);
      forall j | 0 <= j < |a| && Dist(next, j, |a|) < Total(ps[1..])
        ensures a[j] == b[j]
      {
        assert Dist(pos, j, |a|) < Total(ps);
      }
      HoldsSame(a, b, next, ps[1..]);
    }
  }

  lemma {:induction false} HoldsAppend(ring: seq<Quad>, pos: nat, ps: seq<Packet>, p: Packet)
    requires pos < |ring| && Holds(ring, pos, ps) && Total(ps) <= |ring|
    requires Stored(ring, Wrap(pos + Total(ps), |ring|), p)
    ensures Holds(ring, pos, ps + [p]) && Total(ps + [p]) == Total(ps) + Size(p)
    decreases ps
  {
    if ps == [] {
      assert ps + [p] == [p];
      assert [p][1..] == [];
    } else {
      assert (ps + [p])[1..] == ps[1..] + [p];
      HoldsAppend(ring, Wrap(pos + Size(ps[0]), |ring|), ps[1..], p);
    }
  }

  // ---------------------------------------------------------------------------------------
  // The two threads
  // ---------------------------------------------------------------------------------------

  /** Where the EE thread is: between packets, waiting for room, filling, or about to publish. */
  datatype EePc =
    | EeIdle
    | EeStall(packet: Packet)
    | EeTag(packet: Packet)
    | EeFill(packet: Packet, filled: nat, pos: nat)
    | EePublish(packet: Packet, pos: nat)

  /** Where the GS thread is: between packets, or reading the payload of one. */
  datatype GsPc = GsIdle | GsRead(inc: nat, tag: Quad, payload: seq<Quad>)

  /** `committed` and `processed` record the packets published and the packets read, in order. */
  datatype State = State(
    ring: seq<Quad>, readPos: nat, writePos: nat, ee: EePc, gs: GsPc,
    committed: seq<Packet>, processed: seq<Packet>)

  function FreeRoom(readPos: nat, writePos: nat, n: nat): int {
    if writePos < readPos then readPos - writePos else n - (writePos - readPos)
  }

  predicate InBounds(s: State) {
    s.readPos < |s.ring| && s.writePos < |s.ring|
  }

  /** A new packet is to be sent; its size must be below that of the ring. */
  ghost predicate Begin(s: State, t: State) {
    s.ee.EeIdle? && exists p :: Proper(p) && Size(p) < |s.ring| && t == s.(ee := EeStall(p))
  }

  /** GenericStall looks at the read position; it goes on if that leaves more room than the packet needs. */
  predicate CheckRoom(s: State, t: State) {
    s.ee.EeStall? &&
    t == if FreeRoom(s.readPos, s.writePos, |s.ring|) > Size(s.ee.packet) then s.(ee := EeTag(s.ee.packet)) else s
  }

  /** The first word of the packet is written. */
  predicate WriteTag(s: State, t: State)
    requires InBounds(s)
  {
    s.ee.EeTag? &&
    var p := s.ee.packet;
    var word := if p.Simple? then p.tag else s.ring[s.writePos].(command := VSYNC, data0 := |p.payload|);
    var pos := Wrap(s.writePos + 1, |s.ring|);
    t == s.(ring := s.ring[s.writePos := word], ee := if p.Simple? then EePublish(p, pos) else EeFill(p, 0, pos))
  }

  /** One word of the payload is written. */
  predicate FillWord(s: State, t: State) {
    s.ee.EeFill? && s.ee.pos < |s.ring| && s.ee.packet.Data? && s.ee.filled < |s.ee.packet.payload| &&
    t == s.(ring := s.ring[s.ee.pos := s.ee.packet.payload[s.ee.filled]],
            ee := s.ee.(filled := s.ee.filled + 1, pos := Wrap(s.ee.pos + 1, |s.ring|)))
  }

  /** SendDataPacket corrects the length in the tag to the words between the two positions. */
  predicate PatchTag(s: State, t: State)
    requires InBounds(s)
  {
    s.ee.EeFill? && s.ee.packet.Data? && s.ee.filled == |s.ee.packet.payload| && s.ee.pos < |s.ring| &&
    var actual := Dist(s.writePos, s.ee.pos, |s.ring|) - 1;
    actual >= 0 &&
    t == s.(ring := s.ring[s.writePos := s.ring[s.writePos].(data0 := actual)], ee := EePublish(s.ee.packet, s.ee.pos))
  }

  predicate Publish(s: State, t: State) {
    s.ee.EePublish? &&
    t == s.(writePos := s.ee.pos, ee := EeIdle, committed := s.committed + [s.ee.packet])
  }

  /** The GS thread sees a packet and reads its first word. */
  predicate ReadTag(s: State, t: State)
    requires InBounds(s)
  {
    s.gs.GsIdle? && s.readPos != s.writePos &&
    var tag := s.ring[s.readPos];
    t == s.(gs := GsRead(1 + (if tag.command == VSYNC then tag.data0 else 0), tag, []))
  }

  predicate ReadWord(s: State, t: State)
    requires InBounds(s)
  {
    s.gs.GsRead? && 1 + |s.gs.payload| < s.gs.inc && 1 + |s.gs.payload| < |s.ring| &&
    var word := s.ring[Wrap(s.readPos + 1 + |s.gs.payload|, |s.ring|)];
    t == s.(gs := s.gs.(payload := s.gs.payload + [word]))
  }

  /** The packet is processed and the read position moves behind it. */
  predicate Advance(s: State, t: State)
    requires InBounds(s)
  {
    s.gs.GsRead? && 1 + |s.gs.payload| == s.gs.inc && s.gs.inc <= |s.ring| &&
    var p := if s.gs.tag.command == VSYNC then Data(s.gs.payload) else Simple(s.gs.tag);
    t == s.(readPos := Wrap(s.readPos + s.gs.inc, |s.ring|), gs := GsIdle, processed := s.processed + [p])
  }

  ghost predicate Next(s: State, t: State) {
    InBounds(s) &&
    (Begin(s, t) || CheckRoom(s, t) || WriteTag(s, t) || FillWord(s, t) || PatchTag(s, t) || Publish(s, t) ||
     ReadTag(s, t) || ReadWord(s, t) || Advance(s, t))
  }

  ghost predicate Initial(s: State) {
    |s.ring| >= 2 && s.readPos == 0 && s.writePos == 0 && s.ee.EeIdle? && s.gs.GsIdle? &&
    s.committed == s.processed == []
  }

  // ---------------------------------------------------------------------------------------
  // The invariant
  // ---------------------------------------------------------------------------------------

  ghost predicate RingOk(s: State) {
    InBounds(s) && s.processed <= s.committed &&
    var pending := s.committed[|s.processed|..];
    Total(pending) < |s.ring| && Holds(s.ring, s.readPos, pending) &&
    s.writePos == Wrap(s.readPos + Total(pending), |s.ring|)
  }

  ghost predicate EeOk(s: State)
    requires RingOk(s)
  {
    var n := |s.ring|;
    var used := Total(s.committed[|s.processed|..]);
    match s.ee
    case EeIdle => true
    case EeStall(p) => Proper(p) && Size(p) < n
    case EeTag(p) => Proper(p) && used + Size(p) < n
    case EeFill(p, filled, pos) =>
      p.Data? && used + Size(p) < n && filled <= |p.payload| && pos == Wrap(s.writePos + 1 + filled, n) &&
      Tagged(s.ring[s.writePos], p) && Window(s.ring, Wrap(s.writePos + 1, n), filled) == p.payload[..filled]
    case EePublish(p, pos) =>
      used + Size(p) < n && pos == Wrap(s.writePos + Size(p), n) && Stored(s.ring, s.writePos, p)
  }

  ghost predicate GsOk(s: State)
    requires RingOk(s)
  {
    s.gs.GsRead? ==>
      |s.processed| < |s.committed| &&
      var p := s.committed[|s.processed|];
      s.gs.inc == Size(p) && 1 + |s.gs.payload| <= s.gs.inc && Tagged(s.gs.tag, p) &&
      (p.Data? ==> s.gs.payload == p.payload[..|s.gs.payload|])
  }

  ghost predicate Inv(s: State) {
    RingOk(s) && EeOk(s) && GsOk(s)
  }

  /** The room that GenericStall computes is the ring's size less what is pending. */
  lemma FreeRoomIsFree(s: State)
    requires RingOk(s)
    ensures FreeRoom(s.readPos, s.writePos, |s.ring|) == |s.ring| - Total(s.committed[|s.processed|..])
  {
  }

  /** A write behind everything pending keeps the ring's packets. */
  lemma WriteBehind(s: State, at: nat, word: Quad)
    requires RingOk(s) && at < |s.ring| && Dist(s.readPos, at, |s.ring|) >= Total(s.committed[|s.processed|..])
    ensures Holds(s.ring[at := word], s.readPos, s.committed[|s.processed|..])
  {
    HoldsSame(s.ring, s.ring[at := word], s.readPos, s.committed[|s.processed|..]);
  }

  lemma WriteTagKeeps(s: State, t: State)
    requires Inv(s) && WriteTag(s, t)
    ensures Inv(t)
  {
    var word := t.ring[s.writePos];
    WriteBehind(s, s.writePos, word);
    assert RingOk(t);
  }

  /** The next word of a payload goes behind everything the ring holds so far. */
  lemma FillWordWrites(s: State, filled: nat, at: nat, word: Quad)
    requires RingOk(s) && Total(s.committed[|s.processed|..]) + filled + 1 < |s.ring|
    requires at == Wrap(s.writePos + 1 + filled, |s.ring|)
    ensures var ring := s.ring[at := word]; var start := Wrap(s.writePos + 1, |s.ring|);
      RingOk(s.(ring := ring)) && ring[s.writePos] == s.ring[s.writePos] &&
      Window(ring, start, filled + 1) == Window(s.ring, start, filled) + [word] &&
      Wrap(at + 1, |s.ring|) == Wrap(s.writePos + 1 + filled + 1, |s.ring|)
  {
    WriteBehind(s, at, word);
    WindowGrows(s.ring, Wrap(s.writePos + 1, |s.ring|), filled, word);
  }

  lemma FillWordKeeps(s: State, t: State)
    requires Inv(s) && FillWord(s, t)
    ensures Inv(t)
  {
    hide Holds, Window, Total, Wrap, Stored, Tagged;
    var (p, filled) := (s.ee.packet, s.ee.filled);
    FillWordWrites(s, filled, s.ee.pos, p.payload[filled]);
    assert p.payload[..filled + 1] == p.payload[..filled] + [p.payload[filled]];
    var u := s.(ring := t.ring);
    assert RingOk(u) && t == u.(ee := t.ee);
    assert RingOk(t) && GsOk(t);
    hide RingOk, GsOk;
    assert EeOk(t);
  }

  /**
    Word by word, the ring becomes what one wrapped copy of the payload makes of it, which reads back as the payload.
   */
  lemma FillIsCopy(s: State, t: State, before: seq<Quad>)
    requires Inv(s) && FillWord(s, t) && |before| == |s.ring|
    requires s.ring == Written(before, Wrap(s.writePos + 1, |s.ring|), s.ee.packet.payload[..s.ee.filled])
    ensures var (start, payload) := (Wrap(s.writePos + 1, |s.ring|), s.ee.packet.payload);
      t.ring == Written(before, start, payload[..s.ee.filled + 1]) &&
      (s.ee.filled + 1 == |payload| ==> Window(t.ring, start, |payload|) == payload)
  {
    hide Inv, FillWord, Window, Written, Wrap;
    FillPlace(s, t);
    CopyOneMore(before, Wrap(s.writePos + 1, |s.ring|), s.ee.packet.payload, s.ee.filled);
  }

  lemma CopyOneMore(before: seq<Quad>, start: nat, payload: seq<Quad>, filled: nat)
    requires start < |before| && filled < |payload| < |before|
    ensures var ring := Written(before, start, payload[..filled])[Wrap(start + filled, |before|) := payload[filled]];
      ring == Written(before, start, payload[..filled + 1]) &&
      (filled + 1 == |payload| ==> Window(ring, start, |payload|) == payload)
  {
    hide Window, Written, Wrap;
    OneMoreWord(before, start, payload[..filled], payload[filled]);
    assert payload[..filled + 1] == payload[..filled] + [payload[filled]];
    ReadBack(before, start, payload[..filled + 1]);
    assert payload[..|payload|] == payload;
  }

  /** Where the next word goes. */
  lemma FillPlace(s: State, t: State)
    requires Inv(s) && FillWord(s, t)
    ensures s.ee.EeFill? && s.ee.packet.Data? && s.ee.filled < |s.ee.packet.payload| < |s.ring| && s.writePos < |s.ring|
    ensures var pos := Wrap(Wrap(s.writePos + 1, |s.ring|) + s.ee.filled, |s.ring|);
      t.ring == s.ring[pos := s.ee.packet.payload[s.ee.filled]]
  {
    hide Holds, Total, Window;
  }

  lemma PatchTagKeeps(s: State, t: State)
    requires Inv(s) && PatchTag(s, t)
    ensures Inv(t)
    ensures t.ring == s.ring // the length was right from the start
  {
    WriteBehind(s, s.writePos, t.ring[s.writePos]);
    assert s.ee.packet.payload[..s.ee.filled] == s.ee.packet.payload;
    assert t.ring[s.writePos] == s.ring[s.writePos];
    assert t.ring == s.ring;
    assert RingOk(t);
  }

  lemma PublishKeeps(s: State, t: State)
    requires Inv(s) && Publish(s, t)
    ensures Inv(t)
  {
    var pending := s.committed[|s.processed|..];
    assert t.committed[|t.processed|..] == pending + [s.ee.packet];
    HoldsAppend(s.ring, s.readPos, pending, s.ee.packet);
    assert RingOk(t);
  }

  lemma ReadTagKeeps(s: State, t: State)
    requires Inv(s) && ReadTag(s, t)
    ensures Inv(t)
  {
    var pending := s.committed[|s.processed|..];
    assert pending != [] && pending[0] == s.committed[|s.processed|];
    assert RingOk(t);
  }

  lemma ReadWordKeeps(s: State, t: State)
    requires Inv(s) && ReadWord(s, t)
    ensures Inv(t)
  {
    hide Holds, Total;
    var p := s.committed[|s.processed|];
    var k := |s.gs.payload|;
    OldestStored(s);
    WindowAt(s, p, k);
    hide Stored, Window, Wrap;
    assert p.payload[..k + 1] == p.payload[..k] + [p.payload[k]];
    assert RingOk(t) && EeOk(t);
    hide RingOk, EeOk;
    assert GsOk(t);
  }

  /** The oldest packet that is not read lies at the read position. */
  lemma OldestStored(s: State)
    requires RingOk(s) && |s.processed| < |s.committed|
    ensures Stored(s.ring, s.readPos, s.committed[|s.processed|])
  {
    assert s.committed[|s.processed|..][0] == s.committed[|s.processed|];
  }

  lemma WindowAt(s: State, p: Packet, k: nat)
    requires InBounds(s) && Stored(s.ring, s.readPos, p) && p.Data? && k < |p.payload| && |p.payload| < |s.ring|
    ensures s.ring[Wrap(s.readPos + 1 + k, |s.ring|)] == p.payload[k]
  {
    var n := |s.ring|;
    assert Window(s.ring, Wrap(s.readPos + 1, n), |p.payload|)[k] == p.payload[k];
  }

  /** The reader moves by exactly the size the writer moved by, and records exactly the packet that was sent. */
  lemma AdvanceKeeps(s: State, t: State)
    requires Inv(s) && Advance(s, t)
    ensures Inv(t)
    ensures t.processed == s.processed + [s.committed[|s.processed|]]
  {
    hide Holds, Window, Wrap, Total, Stored;
    var p := s.committed[|s.processed|];
    if p.Data? {
      assert s.gs.payload == p.payload;
    }
    assert t.processed == s.processed + [p];
    OldestRemoved(s);
    assert t.committed[|t.processed|..] == s.committed[|s.processed|..][1..];
    assert RingOk(t);
    hide RingOk;
    assert EeOk(t);
  }

  /** Without the oldest packet the others lie from behind it on. */
  lemma OldestRemoved(s: State)
    requires RingOk(s) && |s.processed| < |s.committed|
    ensures var p := s.committed[|s.processed|]; var rest := s.committed[|s.processed|..][1..];
      Size(p) <= |s.ring| && Total(s.committed[|s.processed|..]) == Size(p) + Total(rest) &&
      Holds(s.ring, Wrap(s.readPos + Size(p), |s.ring|), rest) &&
      s.writePos == Wrap(Wrap(s.readPos + Size(p), |s.ring|) + Total(rest), |s.ring|)
  {
    var pending := s.committed[|s.processed|..];
    assert pending[0] == s.committed[|s.processed|];
    hide Stored, Window;
  }

  lemma NextKeeps(s: State, t: State)
    requires Inv(s) && Next(s, t)
    ensures Inv(t)
  {
    if WriteTag(s, t) { WriteTagKeeps(s, t); }
    else if FillWord(s, t) { FillWordKeeps(s, t); }
    else if PatchTag(s, t) { PatchTagKeeps(s, t); }
    else if Publish(s, t) { PublishKeeps(s, t); }
    else if ReadTag(s, t) { ReadTagKeeps(s, t); }
    else if ReadWord(s, t) { ReadWordKeeps(s, t); }
    else if Advance(s, t) { AdvanceKeeps(s, t); }
    else {
      assert Begin(s, t) || CheckRoom(s, t);
      assert RingOk(t);
      FreeRoomIsFree(s);
    }
  }

  // ---------------------------------------------------------------------------------------
  // Runs
  // ---------------------------------------------------------------------------------------

  ghost predicate Run(states: seq<State>) {
    |states| > 0 && Initial(states[0]) && forall i :: 0 <= i < |states| - 1 ==> Next(states[i], states[i + 1])
  }

  lemma {:induction false} RunKeeps(states: seq<State>, i: nat)
    requires Run(states) && i < |states|
    ensures Inv(states[i])
  {
    if i > 0 {
      RunKeeps(states, i - 1);
      NextKeeps(states[i - 1], states[i]);
    }
  }

  /**
    In every interleaving the GS thread has read exactly a prefix of the packets published, in
    order, with the payloads they were published with; and the ring is never full.
   */
  lemma FirstInFirstOut(states: seq<State>, i: nat)
    requires Run(states) && i < |states|
    ensures states[i].processed <= states[i].committed
    ensures Total(states[i].committed[|states[i].processed|..]) < |states[i].ring|
    ensures states[i].readPos == states[i].writePos <==> states[i].processed == states[i].committed
  {
    RunKeeps(states, i);
    var s := states[i];
    var pending := s.committed[|s.processed|..];
    if s.processed != s.committed {
      assert pending != [];
    } else {
      assert pending == [];
    }
  }

  // ---------------------------------------------------------------------------------------
  // Nobody is stuck
  // ---------------------------------------------------------------------------------------

  ghost predicate GsNext(s: State, t: State) {
    InBounds(s) && (ReadTag(s, t) || ReadWord(s, t) || Advance(s, t))
  }

  ghost predicate EeNext(s: State, t: State) {
    InBounds(s) &&
    (Begin(s, t) || CheckRoom(s, t) || WriteTag(s, t) || FillWord(s, t) || PatchTag(s, t) || Publish(s, t))
  }

  /** Whatever it is at, the EE thread can go on with its packet; between packets, with any packet that fits. */
  lemma EeGoesOn(s: State, p: Packet)
    requires Inv(s) && Proper(p) && Size(p) < |s.ring|
    ensures exists t :: EeNext(s, t)
    ensures s.ee.EeIdle? ==> EeNext(s, s.(ee := EeStall(p)))
  {
    var n := |s.ring|;
    match s.ee {
      case EeIdle => assert EeNext(s, s.(ee := EeStall(p)));
      case EeStall(q) =>
        var t := if FreeRoom(s.readPos, s.writePos, n) > Size(q) then s.(ee := EeTag(q)) else s;
        assert CheckRoom(s, t);
        assert EeNext(s, t);
      case EeTag(q) =>
        var word := if q.Simple? then q.tag else s.ring[s.writePos].(command := VSYNC, data0 := |q.payload|);
        var pos := Wrap(s.writePos + 1, n);
        var next := if q.Simple? then EePublish(q, pos) else EeFill(q, 0, pos);
        assert EeNext(s, s.(ring := s.ring[s.writePos := word], ee := next));
      case EeFill(q, filled, pos) => FillGoesOn(s);
      case EePublish(q, pos) =>
        assert EeNext(s, s.(writePos := pos, ee := EeIdle, committed := s.committed + [q]));
    }
  }

  lemma FillGoesOn(s: State)
    requires Inv(s) && s.ee.EeFill?
    ensures exists t :: EeNext(s, t)
  {
    hide Holds, Total, Window, Tagged;
    var (n, p, filled, pos) := (|s.ring|, s.ee.packet, s.ee.filled, s.ee.pos);
    if filled < |p.payload| {
      var next := s.ee.(filled := filled + 1, pos := Wrap(pos + 1, n));
      assert EeNext(s, s.(ring := s.ring[pos := p.payload[filled]], ee := next));
    } else {
      var actual := Dist(s.writePos, pos, n) - 1;
      assert actual == filled;
      var ring := s.ring[s.writePos := s.ring[s.writePos].(data0 := actual)];
      assert EeNext(s, s.(ring := ring, ee := EePublish(p, pos)));
    }
  }

  /** While there is something to read, the GS thread can take a step, and gets nearer to the end. */
  lemma GsGoesOn(s: State) returns (t: State)
    requires Inv(s) && s.processed != s.committed
    ensures GsNext(s, t) && Inv(t) && t.ee == s.ee && t.committed == s.committed && |t.ring| == |s.ring|
    ensures Behind(t) < Behind(s) || (Behind(t) == Behind(s) && Left(t) < Left(s))
  {
    var n := |s.ring|;
    OldestStored(s);
    OldestRemoved(s);
    hide Holds, Total, Window;
    if s.gs.GsIdle? {
      var tag := s.ring[s.readPos];
      t := s.(gs := GsRead(1 + (if tag.command == VSYNC then tag.data0 else 0), tag, []));
      PendingApart(s);
      assert ReadTag(s, t);
      ReadTagKeeps(s, t);
    } else if 1 + |s.gs.payload| < s.gs.inc {
      var word := s.ring[Wrap(s.readPos + 1 + |s.gs.payload|, n)];
      t := s.(gs := s.gs.(payload := s.gs.payload + [word]));
      assert ReadWord(s, t);
      ReadWordKeeps(s, t);
    } else {
      var p := if s.gs.tag.command == VSYNC then Data(s.gs.payload) else Simple(s.gs.tag);
      t := s.(readPos := Wrap(s.readPos + s.gs.inc, n), gs := GsIdle, processed := s.processed + [p]);
      assert Advance(s, t);
      AdvanceKeeps(s, t);
    }
  }

  /** How many packets are to be read, and how many steps the one at hand takes. */
  function Behind(s: State): int {
    |s.committed| - |s.processed|
  }

  function Left(s: State): int {
    if s.gs.GsIdle? then |s.ring| + 1 else s.gs.inc - |s.gs.payload|
  }

  lemma PendingApart(s: State)
    requires RingOk(s) && s.processed != s.committed
    ensures s.readPos != s.writePos
  {
    assert s.committed[|s.processed|..] != [];
  }

  ghost predicate GsRun(states: seq<State>) {
    |states| > 0 && forall i :: 0 <= i < |states| - 1 ==> GsNext(states[i], states[i + 1])
  }

  /** Alone, the GS thread reads everything that is published, and then a stalled writer has room. */
  lemma {:induction false} GsReadsAll(s: State) returns (states: seq<State>)
    requires Inv(s)
    ensures GsRun(states) && states[0] == s
    ensures var t := states[|states| - 1];
      Inv(t) && t.ee == s.ee && t.processed == t.committed == s.committed &&
      (s.ee.EeStall? ==> CheckRoom(t, t.(ee := EeTag(s.ee.packet))))
    decreases |s.committed| - |s.processed|, if s.processed != s.committed then Left(s) else 0
  {
    if s.processed == s.committed {
      states := [s];
      FreeRoomIsFree(s);
      assert s.committed[|s.processed|..] == [];
    } else {
      var t := GsGoesOn(s);
      hide Inv, GsNext;
      var rest := GsReadsAll(t);
      states := [s] + rest;
    }
  }
}
