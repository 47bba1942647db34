/**
  The GIF tag parser of a path, as a pure function of the bytes it is given.

  `Step` is one turn of the parser's loop, `Exec` one call that runs until a packet is
  complete, a SIGNAL stalls or data runs out, and `Drain` repeats `Exec` until it stops
  completing packets. `ExecAppend` and `DrainAppend` show that none of them can tell how
  the bytes were cut into pieces.
 */
module GifParser {
  import opened Sequences

  type byte = x: int | 0 <= x < 256

  // ---------------------------------------------------------------------------------------
  // Tags
  // ---------------------------------------------------------------------------------------

  datatype Format = Packed | Reglist | Image

  /** The state of a path: which kind of tag it is on, idle, or (path 3) simulating length. */
  datatype Phase = Idle | InPacked | InReglist | InImage | Waiting

  const REG_AD: nat := 14

  /** `nLoop` and `nRegIdx` count down the registers a packed tag still has to process. */
  datatype GifTag = GifTag(
    nLoop: nat, nRegs: nat, nRegIdx: nat, len: nat, cycles: nat, regs: seq<nat>,
    eop: bool, format: Format, hasAD: bool, isValid: bool)

  const NO_TAG := GifTag(0, 0, 0, 0, 0, [], false, Packed, false, false)

  /** The i-th register descriptor: nibble i of the tag's upper eight bytes. */
  function RegAt(q: seq<byte>, i: nat): nat
    requires |q| == 16 && i < 16
  {
    if i % 2 == 0 then q[8 + i / 2] % 16 else q[8 + i / 2] / 16
  }

  /** Whether one of the first n registers is A+D. */
  predicate NamesAD(q: seq<byte>, n: nat)
    requires |q| == 16 && n <= 16
  {
    exists i :: 0 <= i < n && RegAt(q, i) == REG_AD
  }

  function RegList(q: seq<byte>, n: nat): (r: seq<nat>)
    requires |q| == 16 && n <= 16
    ensures |r| == n && forall i :: 0 <= i < n ==> r[i] == RegAt(q, i)
  {
    seq(n, i requires 0 <= i < n => RegAt(q, i))
  }

  /** Reads a tag; the length of its data never includes the tag itself. */
  function DecodeTag(q: seq<byte>): (t: GifTag)
    requires |q| == 16
    ensures t.isValid && t.len % 16 == 0
    ensures t.hasAD ==> t.format == Packed && WellFormed(t) && t.len == 16 * PackedLeft(t)
  {
    var lo: int, hi: int, fmt: int := q[0], q[1], q[7];
    var nloop: nat := lo + 256 * (hi % 128);
    var nRegs := if fmt / 16 == 0 then 16 else fmt / 16;
    if fmt / 4 % 4 == 0 then PackedTag(nloop, nRegs, q, hi >= 128)
    else ImageTag(nloop, if fmt / 4 % 4 == 1 then nRegs else 0, hi >= 128)
  }

  function PackedTag(nloop: nat, nRegs: nat, q: seq<byte>, eop: bool): (t: GifTag)
    requires |q| == 16 && 1 <= nRegs <= 16
    ensures t.isValid && t.len % 16 == 0 && t.format == Packed && WellFormed(t) && t.len == 16 * PackedLeft(t)
  {
    var words := nRegs * nloop;
    GifTag(nloop, nRegs, 0, words * 16, words * 16 * 2, RegList(q, nRegs), eop, Packed, NamesAD(q, nRegs), true)
  }

  /** REGLIST data, two registers to a word, if there are registers; else IMAGE data. */
  function ImageTag(nloop: nat, nRegs: nat, eop: bool): (t: GifTag)
    ensures t.isValid && t.len % 16 == 0 && !t.hasAD
  {
    if nRegs > 0 then
      var words := nRegs * nloop;
      GifTag(nloop, nRegs, 0, (words + 1) / 2 * 16, (words + 1) / 2 * 16 * 4, [], eop, Reglist, false, true)
    else GifTag(nloop, 0, 0, nloop * 16, nloop * 16 * 4, [], eop, Image, false, true)
  }

  predicate WellFormed(t: GifTag) {
    |t.regs| == t.nRegs && t.nRegIdx < t.nRegs && (t.nLoop == 0 ==> t.nRegIdx == 0)
  }

  /** How many register writes a packed tag still has to process. */
  function PackedLeft(t: GifTag): int {
    t.nRegs * t.nLoop - t.nRegIdx
  }

  function PackedStep(t: GifTag): (r: GifTag)
    requires WellFormed(t) && t.nLoop > 0
    ensures WellFormed(r) && PackedLeft(r) == PackedLeft(t) - 1
    ensures r == t.(nLoop := r.nLoop, nRegIdx := r.nRegIdx)
  {
    if t.nRegIdx + 1 >= t.nRegs then
      assert t.nRegs * (t.nLoop - 1) == t.nRegs * t.nLoop - t.nRegs;
      t.(nRegIdx := 0, nLoop := t.nLoop - 1)
    else
      t.(nRegIdx := t.nRegIdx + 1)
  }

  lemma PackedLeftZero(t: GifTag)
    requires WellFormed(t)
    ensures PackedLeft(t) >= 0
    ensures PackedLeft(t) == 0 <==> t.nLoop == 0
  {
    if t.nLoop > 0 {
      assert t.nRegs * t.nLoop == t.nRegs * (t.nLoop - 1) + t.nRegs;
      assert t.nRegs * (t.nLoop - 1) >= 0;
    }
  }

  function PhaseOf(f: Format): Phase {
    match f
    case Packed => InPacked
    case Reglist => InReglist
    case Image => InImage
  }

  // ---------------------------------------------------------------------------------------
  // SIGNAL, FINISH and LABEL
  // ---------------------------------------------------------------------------------------

  datatype SignalWrite = SignalWrite(data: nat, mask: nat)

  /** The GS registers the parser writes, plus `log`, every SIGNAL write parsed so far. */
  datatype Signals = Signals(
    csrSignal: bool, csrFinish: bool, sigid: nat, lblid: nat,
    queued: bool, pending: SignalWrite, log: seq<SignalWrite>)

  const NO_SIGNALS := Signals(false, false, 0, 0, false, SignalWrite(0, 0), [])

  /** `(id & ~mask) | (data & mask)` on the low `bits` bits. */
  function MaskBits(id: nat, data: nat, mask: nat, bits: nat): nat {
    if bits == 0 then 0
    else (if mask % 2 == 1 then data % 2 else id % 2) + 2 * MaskBits(id / 2, data / 2, mask / 2, bits - 1)
  }

  function Masked(id: nat, w: SignalWrite): nat {
    MaskBits(id, w.data, w.mask, 32)
  }

  function Fold(log: seq<SignalWrite>): nat {
    if log == [] then 0 else Masked(Fold(log[..|log| - 1]), log[|log| - 1])
  }

  /** Every SIGNAL parsed so far has reached SIGID, in order, except at most the queued last one. */
  ghost predicate Delivered(s: Signals) {
    if s.queued then
      s.csrSignal && |s.log| > 0 && s.log[|s.log| - 1] == s.pending && s.sigid == Fold(s.log[..|s.log| - 1])
    else
      s.sigid == Fold(s.log)
  }

  function Word(q: seq<byte>, at: nat): nat
    requires at + 4 <= |q|
  {
    var b0: int, b1: int, b2: int, b3: int := q[at], q[at + 1], q[at + 2], q[at + 3];
    b0 + 0x100 * b1 + 0x1_0000 * b2 + 0x100_0000 * b3
  }

  /** One A+D register write; the second result says that a SIGNAL stalled the GIF. */
  function HandleAD(s: Signals, q: seq<byte>): (r: (Signals, bool))
    requires |q| == 16
    ensures r.1 <==> q[8] == 0x60 && s.csrSignal && !s.queued
    ensures r.1 ==> r.0.queued
    ensures !r.1 ==> r.0.queued == s.queued
  {
    var w := SignalWrite(Word(q, 0), Word(q, 4));
    if q[8] == 0x60 then
      if s.csrSignal then
        if !s.queued then (s.(queued := true, pending := w, log := s.log + [w]), true)
        else (s.(log := s.log + [w]), false)
      else
        (s.(sigid := Masked(s.sigid, w), csrSignal := true, log := s.log + [w]), false)
    else if q[8] == 0x61 then (s.(csrFinish := true), false)
    else if q[8] == 0x62 then (s.(lblid := Masked(s.lblid, w)), false)
    else (s, false)
  }

  /** What a write of the SIGNAL bit to CSR does to these registers, before transfers resume. */
  function Acknowledge(s: Signals): Signals {
    if s.queued then s.(sigid := Masked(s.sigid, s.pending), csrSignal := true, queued := false)
    else s.(csrSignal := false)
  }

  /** A SIGNAL parsed while none is queued is never lost: it is applied at once or queued. */
  lemma HandleDelivers(s: Signals, q: seq<byte>)
    requires |q| == 16 && Delivered(s) && !s.queued
    ensures Delivered(HandleAD(s, q).0)
    ensures s.log <= HandleAD(s, q).0.log
  {
    var w := SignalWrite(Word(q, 0), Word(q, 4));
    assert (s.log + [w])[..|s.log|] == s.log;
  }

  lemma AcknowledgeDelivers(s: Signals)
    requires Delivered(s)
    ensures Delivered(Acknowledge(s)) && !Acknowledge(s).queued && Acknowledge(s).log == s.log
    ensures Acknowledge(s).sigid == Fold(s.log)
  {
  }

  /** Parsing a SIGNAL while another one is queued would lose it: the case the unit must exclude. */
  lemma QueuedSignalWouldBeLost(s: Signals, q: seq<byte>)
    requires |q| == 16 && Delivered(s) && s.queued && q[8] == 0x60
    requires Masked(Fold(s.log), SignalWrite(Word(q, 0), Word(q, 4))) != Fold(s.log)
    ensures Acknowledge(HandleAD(s, q).0).sigid != Fold(HandleAD(s, q).0.log)
  {
    var w := SignalWrite(Word(q, 0), Word(q, 4));
    assert (s.log + [w])[..|s.log|] == s.log;
  }

  // ---------------------------------------------------------------------------------------
  // The parser
  // ---------------------------------------------------------------------------------------

  /** What a path remembers between calls: its tag and the packet gathered so far. */
  datatype Parse = Parse(tag: GifTag, size: nat, cycles: nat, phase: Phase)

  const FRESH := Parse(NO_TAG, 0, 0, Idle)

  datatype Finished = Finished(size: nat, cycles: nat)

  predicate Sound(p: Parse) {
    (p.tag.isValid ==>
      p.tag.hasAD && p.tag.format == Packed && WellFormed(p.tag) && p.size >= 16 && p.phase == InPacked) &&
    (p.phase.Idle? || p.phase.Waiting? ==> p.size == 0)
  }

  /**
    Waits: more bytes are needed. Stalls: a SIGNAL was queued. Completes: end of a packet.
    Goes on: the parser's loop takes another turn.
   */
  datatype Verdict = Waits | Stalls | Completes | GoesOn

  datatype Result = Result(verdict: Verdict, p: Parse, sig: Signals, used: nat, packet: Finished)

  const NO_PACKET := Finished(0, 0)

  function Later(r: Result, n: nat): Result {
    r.(used := n + r.used)
  }

  /** The phase behind a completed packet: only path 3 waits to be told to go on. */
  function Rested(path3: bool): (p: Phase)
    ensures if path3 then p.Waiting? else p.Idle?
  {
    if path3 then Waiting else Idle
  }

  /** The end of a tag: with EOP the packet is complete. */
  function Close(p: Parse, sig: Signals, used: nat, path3: bool): Result {
    var tag := p.tag.(isValid := false);
    if tag.eop then
      Result(Completes, Parse(tag, 0, 0, Rested(path3)), sig, used, Finished(p.size, p.cycles))
    else
      Result(GoesOn, p.(tag := tag), sig, used, NO_PACKET)
  }

  /** A new tag: its data counts as used at once, unless it has A+D registers to look at. */
  function TagTaken(p: Parse, sig: Signals, path3: bool): Result {
    if p.tag.hasAD then Result(GoesOn, p.(size := p.size + 16), sig, 16, NO_PACKET)
    else Close(p.(size := p.size + 16 + p.tag.len), sig, 16 + p.tag.len, path3)
  }

  /** One turn of the parser's loop. */
  function Step(p: Parse, sig: Signals, d: seq<byte>, path3: bool): (r: Result)
    requires Sound(p)
    ensures Sound(r.p) && r.used <= |d|
    ensures r.verdict.Waits? ==> r.used == 0 && r.sig == sig
    ensures r.verdict.GoesOn? || r.verdict.Completes? ==>
      r.used >= 16 || (r.used == 0 && p.tag.isValid && !r.p.tag.isValid)
    ensures if r.verdict.Completes? then
        r.packet.size == p.size + r.used >= 16 && r.p.size == 0 && !r.p.tag.isValid && r.p.phase == Rested(path3)
      else r.p.size == p.size + r.used
  {
    if !p.tag.isValid then
      if |d| < 16 then Result(Waits, p, sig, 0, NO_PACKET)
      else
        var t := DecodeTag(d[..16]);
        if !t.hasAD && |d| < 16 + t.len then
          Result(Waits, Parse(t.(isValid := false), p.size, p.cycles, PhaseOf(t.format)), sig, 0, NO_PACKET)
        else
          TagTaken(Parse(t, p.size, p.cycles + 2 + t.cycles, PhaseOf(t.format)), sig, path3)
    else if p.tag.nLoop == 0 then Close(p, sig, 0, path3)
    else if |d| < 16 then Result(Waits, p, sig, 0, NO_PACKET)
    else
      var (sig', stall) := if p.tag.regs[p.tag.nRegIdx] == REG_AD then HandleAD(sig, d[..16]) else (sig, false);
      var tag := PackedStep(p.tag);
      Result(if stall && !(tag.eop && tag.nLoop == 0) then Stalls else GoesOn,
        Parse(tag, p.size + 16, p.cycles, p.phase), sig', 16, NO_PACKET)
  }

  /** One call of the parser on the bytes it has: turns until one does not go on. */
  function Exec(p: Parse, sig: Signals, d: seq<byte>, path3: bool): (r: Result)
    requires Sound(p)
    ensures Sound(r.p) && r.used <= |d| && !r.verdict.GoesOn?
    ensures if r.verdict.Completes? then
        r.packet.size == p.size + r.used >= 16 && r.p.size == 0 && !r.p.tag.isValid && r.p.phase == Rested(path3)
      else r.p.size == p.size + r.used
    ensures r.verdict.Completes? ==> r.used > 0 || p.tag.isValid
    decreases |d|, if p.tag.isValid then 1 else 0
  {
    var s := Step(p, sig, d, path3);
    if s.verdict.GoesOn? then Later(Exec(s.p, s.sig, d[s.used..], path3), s.used) else s
  }

  /** One turn at the front of a run that already used n bytes. */
  lemma ExecTurn(p: Parse, sig: Signals, d: seq<byte>, path3: bool, n: nat)
    requires Sound(p)
    ensures var s := Step(p, sig, d, path3);
      Later(Exec(p, sig, d, path3), n) ==
      if s.verdict.GoesOn? then Later(Exec(s.p, s.sig, d[s.used..], path3), n + s.used) else Later(s, n)
  {
    hide Step, Sound;
  }

  lemma ExecOnce(p: Parse, sig: Signals, d: seq<byte>, path3: bool)
    requires Sound(p)
    ensures var s := Step(p, sig, d, path3);
      Exec(p, sig, d, path3) == if s.verdict.GoesOn? then Later(Exec(s.p, s.sig, d[s.used..], path3), s.used) else s
  {
    hide Step, Sound;
  }

  datatype DrainResult = DrainResult(packets: seq<Finished>, last: Result)

  /** `r` after other packets were completed and other bytes used. */
  function Behind(packets: seq<Finished>, n: nat, r: DrainResult): DrainResult {
    DrainResult(packets + r.packets, Later(r.last, n))
  }

  lemma BehindBehind(a: seq<Finished>, m: nat, b: seq<Finished>, n: nat, r: DrainResult)
    ensures Behind(a, m, Behind(b, n, r)) == Behind(a + b, m + n, r)
  {
    assert a + (b + r.packets) == (a + b) + r.packets;
  }

  /** `Exec` again and again until it no longer completes a packet. */
  function Drain(p: Parse, sig: Signals, d: seq<byte>, path3: bool): (r: DrainResult)
    requires Sound(p)
    ensures !r.last.verdict.Completes? && Sound(r.last.p) && r.last.used <= |d|
    decreases |d|, if p.tag.isValid then 1 else 0
  {
    var r := Exec(p, sig, d, path3);
    if r.verdict.Completes? then
      Behind([r.packet], r.used, Drain(r.p, r.sig, d[r.used..], path3))
    else DrainResult([], r)
  }

  lemma DrainOnce(p: Parse, sig: Signals, d: seq<byte>, path3: bool)
    requires Sound(p)
    ensures var r := Exec(p, sig, d, path3);
      Drain(p, sig, d, path3) ==
        if r.verdict.Completes? then Behind([r.packet], r.used, Drain(r.p, r.sig, d[r.used..], path3))
        else DrainResult([], r)
  {
    hide Exec, Sound;
  }

  // ---------------------------------------------------------------------------------------
  // Chunk independence
  // ---------------------------------------------------------------------------------------

  /** Bytes behind those a turn used do not matter; a turn that waits can be taken again. */
  lemma StepAppend(p: Parse, sig: Signals, a: seq<byte>, b: seq<byte>, path3: bool)
    requires Sound(p)
    ensures var s := Step(p, sig, a, path3);
      Step(if s.verdict.Waits? then s.p else p, sig, a + b, path3) ==
      if s.verdict.Waits? then Step(p, sig, a + b, path3) else s
  {
    if |a| >= 16 {
      assert (a + b)[..16] == a[..16];
    }
  }

  lemma {:induction false} ExecAppend(p: Parse, sig: Signals, a: seq<byte>, b: seq<byte>, path3: bool)
    requires Sound(p)
    ensures var r := Exec(p, sig, a, path3);
      Exec(p, sig, a + b, path3) ==
      if r.verdict.Waits? then Later(Exec(r.p, r.sig, a[r.used..] + b, path3), r.used) else r
    decreases |a|, if p.tag.isValid then 1 else 0
  {
    hide Step, Sound, Exec;
    var s := Step(p, sig, a, path3);
    StepAppend(p, sig, a, b, path3);
    ExecOnce(p, sig, a, path3);
    ExecOnce(p, sig, a + b, path3);
    if s.verdict.GoesOn? {
      var a' := a[s.used..];
      assert (a + b)[s.used..] == a' + b;
      ExecAppend(s.p, s.sig, a', b, path3);
      var r := Exec(s.p, s.sig, a', path3);
      assert a'[r.used..] == a[s.used + r.used..];
    } else if s.verdict.Waits? {
      ExecOnce(s.p, sig, a + b, path3);
      assert a[0..] == a;
    }
  }

  /**
    Feeding `a` and later `b` completes the same packets, with the same sizes and cycles, and
    ends in the same state as feeding `a + b` at once; if `a` already stalls on a SIGNAL, then
    `b` is not looked at.
   */
  lemma {:induction false} DrainAppend(p: Parse, sig: Signals, a: seq<byte>, b: seq<byte>, path3: bool)
    requires Sound(p)
    ensures var r := Drain(p, sig, a, path3);
      Drain(p, sig, a + b, path3) ==
      if r.last.verdict.Waits? then
        Behind(r.packets, r.last.used, Drain(r.last.p, r.last.sig, a[r.last.used..] + b, path3))
      else r
    decreases |a|, if p.tag.isValid then 1 else 0
  {
    hide Exec, Sound, Drain;
    ExecAppend(p, sig, a, b, path3);
    DrainOnce(p, sig, a, path3);
    DrainOnce(p, sig, a + b, path3);
    var r := Exec(p, sig, a, path3);
    var a' := a[r.used..];
    if r.verdict.Completes? {
      assert (a + b)[r.used..] == a' + b;
      DrainAppend(r.p, r.sig, a', b, path3);
      var rest := Drain(r.p, r.sig, a', path3);
      assert a'[rest.last.used..] == a[r.used + rest.last.used..];
      if rest.last.verdict.Waits? {
        BehindBehind([r.packet], r.used, rest.packets, rest.last.used,
                     Drain(rest.last.p, rest.last.sig, a'[rest.last.used..] + b, path3));
      }
    } else if r.verdict.Waits? {
      DrainOnce(r.p, r.sig, a' + b, path3);
      var e := Exec(r.p, r.sig, a' + b, path3);
      assert (a + b)[r.used + e.used..] == (a' + b)[e.used..];
    }
  }

  function Concat(pieces: seq<seq<byte>>): seq<byte> {
    if pieces == [] then [] else pieces[0] + Concat(pieces[1..])
  }

  /** Data that comes in pieces: what one run leaves is looked at again with the next piece. */
  function Feed(p: Parse, sig: Signals, d: seq<byte>, pieces: seq<seq<byte>>, path3: bool): DrainResult
    requires Sound(p)
    decreases |pieces|
  {
    var r := Drain(p, sig, d, path3);
    if pieces == [] || !r.last.verdict.Waits? then r
    else
      Behind(r.packets, r.last.used,
             Feed(r.last.p, r.last.sig, d[r.last.used..] + pieces[0], pieces[1..], path3))
  }

  /** Any number of pieces completes the packets of the whole, and ends in the same state, or at the same stall. */
  lemma {:induction false} FeedIsDrain(p: Parse, sig: Signals, d: seq<byte>, pieces: seq<seq<byte>>, path3: bool)
    requires Sound(p)
    ensures Feed(p, sig, d, pieces, path3) == Drain(p, sig, d + Concat(pieces), path3)
    decreases |pieces|
  {
    hide Drain, Sound, Exec;
    var r := Drain(p, sig, d, path3);
    if pieces == [] {
      assert d + [] == d;
    } else {
      DrainAppend(p, sig, d, Concat(pieces), path3);
      if r.last.verdict.Waits? {
        var rest := d[r.last.used..];
        FeedIsDrain(r.last.p, r.last.sig, rest + pieces[0], pieces[1..], path3);
        Associate(rest, pieces[0], Concat(pieces[1..]));
      }
    }
  }

  /** A run that waits for data waits again if no data comes. */
  lemma WaitsAgain(p: Parse, sig: Signals, d: seq<byte>, path3: bool)
    requires Sound(p) && Exec(p, sig, d, path3).verdict.Waits?
    ensures var r := Exec(p, sig, d, path3); Exec(r.p, r.sig, d[r.used..], path3).verdict.Waits?
  {
    var r := Exec(p, sig, d, path3);
    assert d + [] == d && d[r.used..] + [] == d[r.used..];
    ExecAppend(p, sig, d, [], path3);
  }

  predicate SameButSize(p: Parse, q: Parse) {
    p.tag == q.tag && p.cycles == q.cycles && p.phase == q.phase
  }

  lemma StepIgnoresSize(p: Parse, q: Parse, sig: Signals, d: seq<byte>, path3: bool)
    requires Sound(p) && Sound(q) && SameButSize(p, q)
    ensures var s := Step(p, sig, d, path3); var t := Step(q, sig, d, path3);
      s.verdict == t.verdict && s.sig == t.sig && s.used == t.used && SameButSize(s.p, t.p)
  {
  }

  /** Where a run stops, and in which state, does not depend on how much of the packet was handed over before. */
  lemma {:induction false} ExecIgnoresSize(p: Parse, q: Parse, sig: Signals, d: seq<byte>, path3: bool)
    requires Sound(p) && Sound(q) && SameButSize(p, q)
    ensures var r := Exec(p, sig, d, path3); var t := Exec(q, sig, d, path3);
      r.verdict == t.verdict && r.sig == t.sig && r.used == t.used && SameButSize(r.p, t.p)
    decreases |d|, if p.tag.isValid then 1 else 0
  {
    hide Step, Sound, SameButSize, Exec;
    StepIgnoresSize(p, q, sig, d, path3);
    ExecOnce(p, sig, d, path3);
    ExecOnce(q, sig, d, path3);
    var s := Step(p, sig, d, path3);
    if s.verdict.GoesOn? {
      ExecIgnoresSize(s.p, Step(q, sig, d, path3).p, s.sig, d[s.used..], path3);
    }
  }

  // ---------------------------------------------------------------------------------------
  // Packet sizes
  // ---------------------------------------------------------------------------------------

  /** The size of the packet at the front of `d`, if all of it is there: tags up to the one with EOP. */
  function PacketSize(d: seq<byte>): Option<nat>
    decreases |d|
  {
    if |d| < 16 then None
    else
      var t := DecodeTag(d[..16]);
      var n := 16 + t.len;
      if |d| < n then None
      else if t.eop then Some(n)
      else Plus(n, PacketSize(d[n..]))
  }

  function Plus(n: nat, o: Option<nat>): Option<nat> {
    if o.Some? then Some(n + o.value) else None
  }

  /** What is left of a packet that is already being parsed. */
  function RestSize(p: Parse, d: seq<byte>): Option<nat>
    requires Sound(p)
  {
    if !p.tag.isValid then PacketSize(d)
    else
      PackedLeftZero(p.tag);
      var n := 16 * PackedLeft(p.tag);
      if |d| < n then None else if p.tag.eop then Some(n) else Plus(n, PacketSize(d[n..]))
  }

  /** What one turn does to the size of the rest of the packet. */
  ghost predicate StepAgrees(p: Parse, d: seq<byte>, s: Result)
    requires Sound(p) && Sound(s.p) && s.used <= |d|
  {
    match s.verdict
    case Waits => RestSize(p, d) == None
    case Completes => RestSize(p, d) == Some(s.used)
    case GoesOn => RestSize(p, d) == Plus(s.used, RestSize(s.p, d[s.used..]))
    case Stalls => true
  }

  /** A turn that reads a tag. */
  lemma TagAgrees(p: Parse, sig: Signals, d: seq<byte>, path3: bool)
    requires Sound(p) && !p.tag.isValid
    ensures StepAgrees(p, d, Step(p, sig, d, path3))
  {
    if |d| >= 16 {
      var t := DecodeTag(d[..16]);
      if t.hasAD && |d| >= 16 + t.len {
        assert d[16..][t.len..] == d[16 + t.len..];
      }
    }
  }

  /** A turn that steps over one register of an A+D tag, or leaves the tag. */
  lemma RegisterAgrees(p: Parse, sig: Signals, d: seq<byte>, path3: bool)
    requires Sound(p) && p.tag.isValid
    ensures StepAgrees(p, d, Step(p, sig, d, path3))
  {
    PackedLeftZero(p.tag);
    var n := 16 * PackedLeft(p.tag);
    if p.tag.nLoop == 0 {
      assert d[0..] == d;
    } else if |d| >= 16 {
      PackedLeftZero(PackedStep(p.tag));
      if |d| >= n {
        assert d[16..][n - 16..] == d[n..];
      }
    }
  }

  /** However the registers of A+D tags are stepped through, a packet's size is that of its tags. */
  lemma {:induction false} RestSizeAgrees(p: Parse, sig: Signals, d: seq<byte>, path3: bool)
    requires Sound(p)
    ensures var r := Exec(p, sig, d, path3);
      (r.verdict.Completes? ==> RestSize(p, d) == Some(r.used)) && (r.verdict.Waits? ==> RestSize(p, d) == None)
    decreases |d|, if p.tag.isValid then 1 else 0
  {
    hide Step, RestSize, Sound, Exec;
    if p.tag.isValid {
      RegisterAgrees(p, sig, d, path3);
    } else {
      TagAgrees(p, sig, d, path3);
    }
    ExecOnce(p, sig, d, path3);
    var s := Step(p, sig, d, path3);
    if s.verdict.GoesOn? {
      RestSizeAgrees(s.p, s.sig, d[s.used..], path3);
    }
  }

  /**
    From a packet boundary, the parser completes exactly the packet that the size computation
    predicts, and it waits exactly when that computation runs out of data (or a SIGNAL stalls it).
   */
  lemma PacketSizeAgrees(p: Parse, sig: Signals, d: seq<byte>, path3: bool)
    requires Sound(p) && !p.tag.isValid && p.size == 0
    ensures var r := Exec(p, sig, d, path3);
      !r.verdict.Stalls? ==> (r.verdict.Completes? <==> PacketSize(d).Some?)
    ensures var r := Exec(p, sig, d, path3);
      r.verdict.Completes? ==> PacketSize(d) == Some(r.used) && r.packet.size == r.used
  {
    RestSizeAgrees(p, sig, d, path3);
  }

  /** Where the data of the k-th tag ends, counted from 1; behind it comes the next tag. */
  function TagEnd(d: seq<byte>, k: nat): Option<nat> {
    if k == 0 then Some(0)
    else
      var e := TagEnd(d, k - 1);
      if e.None? || e.value + 16 > |d| then None
      else Some(e.value + 16 + DecodeTag(d[e.value..e.value + 16]).len)
  }

  lemma TagEndNext(d: seq<byte>, k: nat)
    ensures TagEnd(d, 0) == Some(0)
    ensures var e := TagEnd(d, k);
      e.Some? && e.value + 16 <= |d| ==>
        TagEnd(d, k + 1) == Some(e.value + 16 + DecodeTag(d[e.value..e.value + 16]).len)
  {
    hide DecodeTag;
  }

  /** The k-th tag ends from `size` on and before `limit`. */
  predicate EndsBetween(d: seq<byte>, k: nat, size: nat, limit: nat) {
    TagEnd(d, k).Some? && size <= TagEnd(d, k).value < limit
  }

  lemma {:induction false} TagEndsGrow(d: seq<byte>, j: nat, k: nat)
    requires j <= k && TagEnd(d, k).Some?
    ensures TagEnd(d, j).Some? && TagEnd(d, j).value <= TagEnd(d, k).value
    decreases k
  {
    hide DecodeTag;
    if j < k { TagEndsGrow(d, j, k - 1); }
  }

  /** The first tag that ends at or behind both limits decides whether one ends between them. */
  lemma NoneBetween(d: seq<byte>, k: nat, size: nat, limit: nat)
    requires k > 0 && TagEnd(d, k).Some? && TagEnd(d, k).value >= limit
    requires TagEnd(d, k - 1).Some? && TagEnd(d, k - 1).value < size
    ensures !exists j: nat :: EndsBetween(d, j, size, limit)
  {
    hide TagEnd, DecodeTag;
    forall j: nat
      ensures !EndsBetween(d, j, size, limit)
    {
      if TagEnd(d, j).Some? {
        if j < k { TagEndsGrow(d, j, k - 1); } else { TagEndsGrow(d, k, j); }
      }
    }
  }

  /** The tag at the front of a packet. */
  lemma SizeOfFirst(d: seq<byte>)
    requires |d| >= 16
    ensures var t := DecodeTag(d[..16]); var n := 16 + t.len;
      PacketSize(d) == if |d| < n then None else if t.eop then Some(n) else Plus(n, PacketSize(d[n..]))
  {
    hide DecodeTag;
  }

  /** The size of a packet whose tags are known up to `at`. */
  lemma SizeAt(d: seq<byte>, at: nat)
    requires at + 16 <= |d| && PacketSize(d) == Plus(at, PacketSize(d[at..]))
    ensures var t := DecodeTag(d[at..at + 16]); var next := at + 16 + t.len;
      PacketSize(d) ==
      if |d| < next then None else if t.eop then Some(next) else Plus(next, PacketSize(d[next..]))
  {
    hide DecodeTag, PacketSize;
    var rest := d[at..];
    SizeOfFirst(rest);
    assert rest[..16] == d[at..at + 16];
    var n := 16 + DecodeTag(rest[..16]).len;
    if |rest| >= n {
      assert rest[n..] == d[at + n..];
    }
  }

  /**
    The size computation that callers use: `d` is the memory from the packet on (VU memory,
    which wraps, is unrolled once for path 1) and `size` what the caller has. Path 1 packets
    that do not fit in VU memory count as empty.
   */
  method GetGSPacketSize(path1: bool, d: seq<byte>, size: nat) returns (r: Option<nat>)
    requires path1 ==> |d| == 0x4000
    ensures !path1 && PacketSize(d).Some? ==> r == Some(Min(size, PacketSize(d).value))
    ensures path1 && size >= 0x4000 ==>
      r == Some(if PacketSize(d).Some? && PacketSize(d).value < 0x4000 then PacketSize(d).value else 0)
    ensures path1 && PacketSize(d).Some? && PacketSize(d).value < 0x4000 ==> r == Some(Min(size, PacketSize(d).value))
    ensures path1 && !(PacketSize(d).Some? && PacketSize(d).value < 0x4000) ==>
      r == Some(if exists k: nat :: EndsBetween(d, k, size, 0x4000) then size else 0)
  {
    hide PacketSize, DecodeTag, TagEnd;
    var curSize := 0;
    ghost var k := 0;
    TagEndNext(d, 0);
    assert d[0..] == d;
    while true
      invariant curSize <= |d| && curSize % 16 == 0 && (path1 ==> curSize < 0x4000)
      invariant PacketSize(d) == Plus(curSize, PacketSize(d[curSize..]))
      invariant TagEnd(d, k) == Some(curSize)
      invariant curSize < size || curSize == 0
      decreases |d| - curSize
    {
      if curSize + 16 > |d| { // the memory ends here
        TooShort(d[curSize..]);
        return None;
      }
      SizeAt(d, curSize);
      var tag := DecodeTag(d[curSize..curSize + 16]);
      TagEndNext(d, k);
      curSize, k := curSize + 16 + tag.len, k + 1;
      if path1 && curSize >= 0x4000 {
        if size > 0 { NoneBetween(d, k, size, 0x4000); }
        return Some(0);
      }
      if curSize >= size {
        assert path1 ==> EndsBetween(d, k, size, 0x4000);
        return Some(size);
      }
      if tag.eop { return Some(curSize); }
      if curSize > |d| { return None; }
    }
  }

  lemma TooShort(d: seq<byte>)
    requires |d| < 16
    ensures PacketSize(d) == None
  {
  }

  // ---------------------------------------------------------------------------------------
  // SIGNAL over a whole run of the parser
  // ---------------------------------------------------------------------------------------

  /** A SIGNAL may be queued only while the tag that ends the packet has nothing left to process. */
  predicate Quiet(p: Parse, sig: Signals) {
    sig.queued ==> p.tag.isValid && p.tag.nLoop == 0 && p.tag.eop
  }

  lemma StepDelivers(p: Parse, sig: Signals, d: seq<byte>, path3: bool)
    requires Sound(p) && Delivered(sig) && Quiet(p, sig)
    ensures var s := Step(p, sig, d, path3);
      Delivered(s.sig) && sig.log <= s.sig.log &&
      (s.verdict.GoesOn? ==> Quiet(s.p, s.sig)) &&
      (s.verdict.Waits? ==> !s.sig.queued) && (s.verdict.Stalls? ==> s.sig.queued)
  {
    if |d| >= 16 && !sig.queued {
      HandleDelivers(sig, d[..16]);
    }
    hide Delivered;
  }

  /**
    No SIGNAL is parsed while one is queued, so each call keeps all of them in order; a call
    that runs out of data leaves none queued.
   */
  lemma {:induction false} ExecDelivers(p: Parse, sig: Signals, d: seq<byte>, path3: bool)
    requires Sound(p) && Delivered(sig) && Quiet(p, sig)
    ensures var r := Exec(p, sig, d, path3);
      Delivered(r.sig) && sig.log <= r.sig.log &&
      (r.verdict.Waits? ==> !r.sig.queued) && (r.verdict.Stalls? ==> r.sig.queued)
    decreases |d|, if p.tag.isValid then 1 else 0
  {
    StepDelivers(p, sig, d, path3);
    hide Step, Sound, Delivered, Quiet;
    var s := Step(p, sig, d, path3);
    if s.verdict.GoesOn? {
      ExecDelivers(s.p, s.sig, d[s.used..], path3);
    }
  }
}
