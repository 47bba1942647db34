/**
  The GIF parser against a plain scan of the data: which register writes it handles, how many
  cycles a packet costs, and which kind of tag it is on. The scan counts the registers of a tag
  in turn; it knows neither loop counters nor where one call of the parser ends.
 */
module GifScan {
  import opened Sequences
  import opened GifParser

  /** The A+D writes, the cycles of the tags, and the phase behind the last tag that was read. */
  datatype Scanned = Scanned(writes: seq<seq<byte>>, cycles: nat, phase: Phase)

  /** Of n quadwords for the registers in turn, from number `first` on, those for A+D, as far as there is data. */
  function TagWrites(regs: seq<nat>, d: seq<byte>, first: nat, n: nat): (ws: seq<seq<byte>>)
    requires |regs| > 0
    ensures forall w :: w in ws ==> |w| == 16
    decreases n
  {
    if n == 0 || |d| < 16 then []
    else
      (if regs[first % |regs|] == REG_AD then [d[..16]] else []) + TagWrites(regs, d[16..], first + 1, n - 1)
  }

  /** The packet at the front of `d`, up to the tag with EOP, or up to where data runs out. */
  function Scan(d: seq<byte>, phase: Phase): (r: Scanned)
    ensures forall w :: w in r.writes ==> |w| == 16
    decreases |d|, 0
  {
    if |d| < 16 then Scanned([], 0, phase)
    else
      var t := DecodeTag(d[..16]);
      var now := PhaseOf(t.format);
      if t.hasAD then
        var r := ScanRegisters(t.regs, t.eop, d[16..], 0, t.len / 16, now);
        r.(cycles := 2 + t.cycles + r.cycles)
      else if |d| < 16 + t.len then Scanned([], 0, now)
      else if t.eop then Scanned([], 2 + t.cycles, now)
      else
        var r := Scan(d[16 + t.len..], now);
        r.(cycles := 2 + t.cycles + r.cycles)
  }

  /** The data for n registers in turn, from number `first` on, and the packet behind it. */
  function ScanRegisters(regs: seq<nat>, eop: bool, d: seq<byte>, first: nat, n: nat, phase: Phase): (r: Scanned)
    requires |regs| > 0
    ensures forall w :: w in r.writes ==> |w| == 16
    decreases |d|, 2
  {
    var r := ScanBehind(eop, d, n, phase);
    r.(writes := TagWrites(regs, d, first, n) + r.writes)
  }

  /** The packet behind n quadwords, unless it ends with them. */
  function ScanBehind(eop: bool, d: seq<byte>, n: nat, phase: Phase): (r: Scanned)
    ensures forall w :: w in r.writes ==> |w| == 16
    decreases |d|, 1
  {
    if |d| < 16 * n || eop then Scanned([], 0, phase) else Scan(d[16 * n..], phase)
  }

  /** The rest of a packet that is being parsed. */
  function Rest(p: Parse, d: seq<byte>): (r: Scanned)
    requires Sound(p)
    ensures forall w :: w in r.writes ==> |w| == 16
  {
    var t := p.tag;
    if t.isValid then
      PackedLeftZero(t);
      ScanRegisters(t.regs, t.eop, d, t.nRegIdx, PackedLeft(t), p.phase)
    else Scan(d, p.phase)
  }

  /** Some writes, handled one after the other. */
  function Handled(sig: Signals, ws: seq<seq<byte>>): Signals
    requires forall w :: w in ws ==> |w| == 16
    decreases |ws|
  {
    if ws == [] then sig else Handled(HandleAD(sig, ws[0]).0, ws[1..])
  }

  lemma SameTurn(a: nat, n: nat)
    requires n > 0
    ensures (a + n) % n == a % n
  {
    DivisionIs(a + n, n, a / n + 1, a % n);
  }

  lemma {:induction false} TurnAgain(regs: seq<nat>, d: seq<byte>, first: nat, n: nat)
    requires |regs| > 0
    ensures TagWrites(regs, d, first + |regs|, n) == TagWrites(regs, d, first, n)
    decreases n
  {
    if n > 0 && |d| >= 16 {
      TurnAgain(regs, d[16..], first + 1, n - 1);
      SameTurn(first, |regs|);
      assert first + |regs| + 1 == first + 1 + |regs|;
    }
  }

  /** What a turn leaves of the scan. */
  ghost predicate TurnAgrees(p: Parse, sig: Signals, d: seq<byte>, s: Result)
    requires Sound(p) && Sound(s.p) && s.used <= |d|
  {
    var (now, rest) := (Rest(p, d), Rest(s.p, d[s.used..]));
    match s.verdict
    case Waits => now == Scanned([], 0, s.p.phase) && s.sig == sig && s.p.cycles == p.cycles
    case Completes => now.writes == [] && s.sig == sig && s.packet.cycles == p.cycles + now.cycles
    case _ =>
      s.p.cycles + rest.cycles == p.cycles + now.cycles && rest.phase == now.phase &&
      if now.writes == rest.writes then s.sig == sig
      else |d| >= 16 && now.writes == [d[..16]] + rest.writes && s.sig == HandleAD(sig, d[..16]).0
  }

  lemma TagTurn(p: Parse, sig: Signals, d: seq<byte>, path3: bool)
    requires Sound(p) && !p.tag.isValid
    ensures TurnAgrees(p, sig, d, Step(p, sig, d, path3))
  {
    if |d| >= 16 { FirstRegister(d[..16]); }
    hide DecodeTag;
  }

  lemma FirstRegister(q: seq<byte>)
    requires |q| == 16
    ensures DecodeTag(q).nRegIdx == 0
  {
  }

  /** The writes of n registers, from one on and from the one behind it. */
  lemma OneRegister(regs: seq<nat>, d: seq<byte>, at: nat, n: nat)
    requires at < |regs| && n > 0 && |d| >= 16
    ensures TagWrites(regs, d, at, n) ==
      (if regs[at] == REG_AD then [d[..16]] else []) +
      TagWrites(regs, d[16..], if at + 1 < |regs| then at + 1 else 0, n - 1)
  {
    DivisionIs(at, |regs|, 0, at);
    if at + 1 == |regs| {
      TurnAgain(regs, d[16..], 0, n - 1);
    }
  }

  lemma StepsOn(t: GifTag)
    requires WellFormed(t) && t.nLoop > 0
    ensures var u := PackedStep(t);
      PackedLeft(t) > 0 && PackedLeft(u) == PackedLeft(t) - 1 && t.nRegIdx < |t.regs| && u.regs == t.regs &&
      u.eop == t.eop && u.nRegIdx == if t.nRegIdx + 1 < |t.regs| then t.nRegIdx + 1 else 0
  {
    PackedLeftZero(t);
    hide PackedLeft;
  }

  lemma ScanOne(regs: seq<nat>, eop: bool, d: seq<byte>, at: nat, n: nat, phase: Phase)
    requires at < |regs| && n > 0 && |d| >= 16
    ensures var r := ScanRegisters(regs, eop, d[16..], if at + 1 < |regs| then at + 1 else 0, n - 1, phase);
      ScanRegisters(regs, eop, d, at, n, phase) ==
      r.(writes := (if regs[at] == REG_AD then [d[..16]] else []) + r.writes)
  {
    hide TagWrites, ScanBehind, ScanRegisters;
    var next := if at + 1 < |regs| then at + 1 else 0;
    OneRegister(regs, d, at, n);
    SameBehind(eop, d, n, phase);
    InTwoParts(regs, eop, d, at, n, phase);
    InTwoParts(regs, eop, d[16..], next, n - 1, phase);
    var first := if regs[at] == REG_AD then [d[..16]] else [];
    Associate(first, TagWrites(regs, d[16..], next, n - 1), ScanBehind(eop, d, n, phase).writes);
  }

  lemma InTwoParts(regs: seq<nat>, eop: bool, d: seq<byte>, first: nat, n: nat, phase: Phase)
    requires |regs| > 0
    ensures var r := ScanBehind(eop, d, n, phase);
      ScanRegisters(regs, eop, d, first, n, phase) == r.(writes := TagWrites(regs, d, first, n) + r.writes)
  {
    hide TagWrites, ScanBehind;
  }

  lemma SameBehind(eop: bool, d: seq<byte>, n: nat, phase: Phase)
    requires n > 0 && |d| >= 16
    ensures ScanBehind(eop, d, n, phase) == ScanBehind(eop, d[16..], n - 1, phase)
  {
    hide Scan;
    if |d| >= 16 * n {
      assert d[16..][16 * (n - 1)..] == d[16 * n..];
    }
  }

  lemma RegisterTurn(p: Parse, sig: Signals, d: seq<byte>, path3: bool)
    requires Sound(p) && p.tag.isValid
    ensures TurnAgrees(p, sig, d, Step(p, sig, d, path3))
  {
    hide TurnAgrees, Step, Rest;
    if p.tag.nLoop == 0 {
      LastRegister(p, sig, d, path3);
    } else if |d| >= 16 {
      NextRegister(p, sig, d, path3);
    } else {
      AwaitedRegister(p, sig, d, path3);
    }
  }

  lemma LastRegister(p: Parse, sig: Signals, d: seq<byte>, path3: bool)
    requires Sound(p) && p.tag.isValid && p.tag.nLoop == 0
    ensures TurnAgrees(p, sig, d, Step(p, sig, d, path3))
  {
    var t := p.tag;
    PackedLeftZero(t);
    hide PackedLeft, TagWrites, Scan;
    assert d[0..] == d;
    NoRegisters(t.regs, d, t.nRegIdx);
    assert ScanBehind(t.eop, d, 0, p.phase) == if t.eop then Scanned([], 0, p.phase) else Scan(d, p.phase);
  }

  lemma NextRegister(p: Parse, sig: Signals, d: seq<byte>, path3: bool)
    requires Sound(p) && p.tag.isValid && p.tag.nLoop > 0 && |d| >= 16
    ensures TurnAgrees(p, sig, d, Step(p, sig, d, path3))
  {
    hide HandleAD, ScanRegisters, TagWrites, Scan, DecodeTag, PackedStep;
    var t := p.tag;
    PackedLeftZero(t);
    StepsOn(t);
    hide PackedLeft;
    ScanOne(t.regs, t.eop, d, t.nRegIdx, PackedLeft(t), p.phase);
  }

  lemma AwaitedRegister(p: Parse, sig: Signals, d: seq<byte>, path3: bool)
    requires Sound(p) && p.tag.isValid && p.tag.nLoop > 0 && |d| < 16
    ensures TurnAgrees(p, sig, d, Step(p, sig, d, path3))
  {
    var t := p.tag;
    PackedLeftZero(t);
    var n := PackedLeft(t);
    hide PackedLeft, TagWrites, Scan;
    NoData(t.regs, d, t.nRegIdx, n);
    assert ScanBehind(t.eop, d, n, p.phase) == Scanned([], 0, p.phase);
  }

  lemma NoRegisters(regs: seq<nat>, d: seq<byte>, first: nat)
    requires |regs| > 0
    ensures TagWrites(regs, d, first, 0) == []
  {
  }

  lemma NoData(regs: seq<nat>, d: seq<byte>, first: nat, n: nat)
    requires |regs| > 0 && |d| < 16
    ensures TagWrites(regs, d, first, n) == []
  {
  }

  lemma TurnScanned(p: Parse, sig: Signals, d: seq<byte>, path3: bool)
    requires Sound(p)
    ensures TurnAgrees(p, sig, d, Step(p, sig, d, path3))
  {
    if p.tag.isValid {
      RegisterTurn(p, sig, d, path3);
    } else {
      TagTurn(p, sig, d, path3);
    }
  }

  lemma HandledFirst(sig: Signals, w: seq<byte>, ws: seq<seq<byte>>)
    requires |w| == 16 && forall v :: v in ws ==> |v| == 16
    ensures Handled(sig, [w] + ws) == Handled(HandleAD(sig, w).0, ws)
  {
    assert ([w] + ws)[1..] == ws;
  }

  /**
    A call of the parser handles exactly the register writes that the scan finds, in their order,
    and counts its cycles; a call that stalls handles them as far as the SIGNAL that stalled it.
   */
  lemma {:induction false} ExecScans(p: Parse, sig: Signals, d: seq<byte>, path3: bool) returns (k: nat)
    requires Sound(p)
    ensures var (r, now) := (Exec(p, sig, d, path3), Rest(p, d));
      k <= |now.writes| && r.sig == Handled(sig, now.writes[..k]) && (!r.verdict.Stalls? ==> k == |now.writes|) &&
      (r.verdict.Completes? ==> r.packet.cycles == p.cycles + now.cycles) &&
      (r.verdict.Waits? ==> r.p.cycles == p.cycles + now.cycles && r.p.phase == now.phase)
    decreases |d|, if p.tag.isValid then 1 else 0
  {
    hide Step, Sound, Exec, HandleAD, Rest;
    ExecOnce(p, sig, d, path3);
    TurnScanned(p, sig, d, path3);
    var s := Step(p, sig, d, path3);
    var (now, rest) := (Rest(p, d), Rest(s.p, d[s.used..]));
    k := 0;
    if s.verdict.GoesOn? {
      k := ExecScans(s.p, s.sig, d[s.used..], path3);
    }
    if (s.verdict.GoesOn? || s.verdict.Stalls?) && now.writes != rest.writes {
      HandledFirst(sig, d[..16], rest.writes[..k]);
      assert now.writes[..k + 1] == [d[..16]] + rest.writes[..k];
      k := k + 1;
    }
  }
}
