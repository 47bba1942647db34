/**
  The hsync and vsync counters. Both count in whole cycles, so that a frame's scanlines do not
  last exactly as long as two vsync periods; hSyncError makes up for that once in each period.
 */
module SyncCounters {
  import opened Words

  // ---------------------------------------------------------------------------------------
  // Timing
  // ---------------------------------------------------------------------------------------

  const PS2CLK: nat := 294_912_000

  datatype Info = Info(render: nat, blank: nat, hRender: nat, hBlank: nat, hSyncError: int)

  /** Ten-thousandths of a cycle, rounded to cycles. */
  function Round(x: nat): (r: nat)
    ensures x - 5000 < 10000 * r <= x + 5000
  {
    x / 10000 + if x % 10000 >= 5000 then 1 else 0
  }

  function Scanline(frame: nat, scans: nat): nat
    requires scans > 0
  {
    frame / scans
  }

  /** The timing of a frame of `scans` scanlines at rate100 / 100 frames per second. */
  function VSyncInfoCalc(rate100: nat, scans: nat, analog: bool): Info
    requires rate100 > 0 && scans > 0
  {
    var frame := PS2CLK * 1000000 / rate100;
    var halfFrame := frame / 2;
    var blank := halfFrame / 2;
    var render := halfFrame - blank;
    var scanline := Scanline(frame, scans);
    var hBlank := scanline / 2;
    var hRender := scanline - hBlank;
    var b, r := Round(blank), Round(render);
    if analog then
      var hb, hr := Round(hBlank), Round(hRender);
      Info(r, b, hr, hb, r + b - (hr + hb) * scans / 2)
    else
      Info(r, b, Round(hRender / 2), Round(hBlank / 2), 0)
  }

  /** scanline * scans lies within scans below the frame. */
  lemma ScanlinesFill(frame: nat, scans: nat)
    requires scans > 0
    ensures frame - scans < Scanline(frame, scans) * scans <= frame
  {
    var q, r := frame / scans, frame % scans;
    assert frame == q * scans + r;
  }

  lemma Scaled(a: int, b: int, scans: nat)
    requires a <= b
    ensures a * scans <= b * scans
  {
  }

  /** Rounding a scanline costs at most one cycle, so that all scanlines cost at most `scans` cycles. */
  lemma RoundedScanlines(line: nat, rounded: nat, scans: nat)
    requires line - 10000 <= 10000 * rounded <= line + 10000
    ensures line * scans - 10000 * scans <= 10000 * (rounded * scans) <= line * scans + 10000 * scans
  {
    Scaled(line, 10000 * (rounded + 1), scans);
    Scaled(10000 * rounded, line + 10000, scans);
    assert 10000 * (rounded + 1) * scans == 10000 * (rounded * scans) + 10000 * scans;
    assert 10000 * rounded * scans == 10000 * (rounded * scans);
    assert (line + 10000) * scans == line * scans + 10000 * scans;
  }

  /** What the rounding leaves of a frame, a scanline, and their difference. */
  lemma AnalogInfo(rate100: nat, scans: nat)
    requires rate100 > 0 && scans > 0
    ensures var info := VSyncInfoCalc(rate100, scans, true); var frame := PS2CLK * 1000000 / rate100;
      frame - 20001 <= 20000 * (info.render + info.blank) <= frame + 20000 &&
      Scanline(frame, scans) - 10000 <= 10000 * (info.hRender + info.hBlank) <= Scanline(frame, scans) + 10000 &&
      info.hSyncError == info.render + info.blank - (info.hRender + info.hBlank) * scans / 2
  {
    var frame := PS2CLK * 1000000 / rate100;
    hide Scanline;
    var lines := (VSyncInfoCalc(rate100, scans, true).hRender + VSyncInfoCalc(rate100, scans, true).hBlank) * scans;
  }

  /** Both parts of a vsync period, and of a scanline, are equally long but for a cycle, in all video modes. */
  lemma EqualParts(rate100: nat, scans: nat, analog: bool)
    requires rate100 > 0 && scans > 0
    ensures var info := VSyncInfoCalc(rate100, scans, analog);
      0 <= info.render - info.blank <= 1 && 0 <= info.hRender - info.hBlank <= 1
  {
    hide Scanline;
  }

  /** In the other modes a scanline lasts half as long, a frame does not, and nothing is corrected. */
  lemma DigitalInfo(rate100: nat, scans: nat)
    requires rate100 > 0 && scans > 0
    ensures var (info, analog) := (VSyncInfoCalc(rate100, scans, false), VSyncInfoCalc(rate100, scans, true));
      var frame := PS2CLK * 1000000 / rate100;
      info.render == analog.render && info.blank == analog.blank && info.hSyncError == 0 &&
      Scanline(frame, scans) - 20003 <= 20000 * (info.hRender + info.hBlank) <= Scanline(frame, scans) + 20000
  {
    hide Scanline;
  }

  /** The correction is never more than half a cycle for each scanline, and three cycles. */
  lemma ErrorBound(rate100: nat, scans: nat)
    requires rate100 > 0 && scans > 0
    ensures var e := VSyncInfoCalc(rate100, scans, true).hSyncError;
      -10001 * scans - 60000 <= 20000 * e <= 10001 * scans + 60000
    ensures scans <= 10000 ==> -(scans / 2 + 3) <= VSyncInfoCalc(rate100, scans, true).hSyncError <= scans / 2 + 3
  {
    var frame := PS2CLK * 1000000 / rate100;
    var info := VSyncInfoCalc(rate100, scans, true);
    AnalogInfo(rate100, scans);
    ScanlinesFill(frame, scans);
    hide VSyncInfoCalc, Scanline;
    var each := Scanline(frame, scans);
    Gap(frame, each, each * scans, scans, info.render + info.blank, info.hRender + info.hBlank);
  }

  /** A vsync period is half a frame, and the scanlines a whole one, but for the rounding. */
  lemma Gap(frame: nat, each: nat, lines: nat, scans: nat, period: nat, line: nat)
    requires frame - 20001 <= 20000 * period <= frame + 20000 && each - 10000 <= 10000 * line <= each + 10000
    requires lines == each * scans && frame - scans < lines <= frame
    ensures -10001 * scans - 60000 <= 20000 * (period - line * scans / 2) <= 10001 * scans + 60000
    ensures scans <= 10000 ==> -(scans / 2 + 3) <= period - line * scans / 2 <= scans / 2 + 3
  {
    RoundedScanlines(each, line, scans);
    Halves(frame, lines, scans, period, line * scans);
  }

  lemma Halves(frame: nat, lines: nat, scans: nat, period: nat, h: nat)
    requires frame - scans < lines <= frame && frame - 20001 <= 20000 * period <= frame + 20000
    requires lines - 10000 * scans <= 10000 * h <= lines + 10000 * scans
    ensures -10001 * scans - 60000 <= 20000 * (period - h / 2) <= 10001 * scans + 60000
    ensures scans <= 10000 ==> -(scans / 2 + 3) <= period - h / 2 <= scans / 2 + 3
  {
  }

  // ---------------------------------------------------------------------------------------
  // The counters
  // ---------------------------------------------------------------------------------------

  /** Where both counters are: the start and length of the current part, and which part that is. */
  datatype State = State(hStart: u32, hLength: int, inHBlank: bool, vStart: u32, vLength: int, inVSync: bool)

  /** cpuTestCycle, for the words `cycle` and `start` */
  predicate Reached(cycle: u32, start: u32, length: int) {
    S32(Sub(cycle, start)) >= length
  }

  /** The hsync counter as its next part begins, whatever the cycle. */
  function NextHPart(s: State, info: Info): State {
    if s.inHBlank then s.(hStart := U32(s.hStart + info.hBlank), hLength := info.hRender, inHBlank := false)
    else s.(hStart := U32(s.hStart + info.hRender), hLength := info.hBlank, inHBlank := true)
  }

  /** The vsync counter as its next part begins: at the start of vsync, the scanlines are moved too. */
  function NextVPart(s: State, info: Info): State {
    if s.inVSync then s.(vStart := U32(s.vStart + info.blank), vLength := info.render, inVSync := false)
    else
      s.(vStart := U32(s.vStart + info.render), vLength := info.blank, inVSync := true,
         hStart := U32(s.hStart + info.hSyncError))
  }

  class Counters {
    var state: State
    var info: Info

    constructor (info: Info, cycle: u32)
      ensures this.info == info && state == State(cycle, info.hRender, false, cycle, info.render, false)
    {
      this.info := info;
      state := State(cycle, info.hRender, false, cycle, info.render, false);
    }

    method rcntUpdate_hScanline(cycle: u32)
      modifies `state
      ensures state ==
        if Reached(cycle, old(state.hStart), old(state.hLength)) then NextHPart(old(state), info) else old(state)
    {
      if !Reached(cycle, state.hStart, state.hLength) { return; }
      if state.inHBlank {
        state := state.(hStart := U32(state.hStart + info.hBlank));
        state := state.(hLength := info.hRender, inHBlank := false);
      } else {
        state := state.(hStart := U32(state.hStart + info.hRender));
        state := state.(hLength := info.hBlank, inHBlank := true);
      }
    }

    method rcntUpdate_vSync(cycle: u32)
      modifies `state
      ensures state ==
        if Reached(cycle, old(state.vStart), old(state.vLength)) then NextVPart(old(state), info) else old(state)
    {
      if !Reached(cycle, state.vStart, state.vLength) { return; }
      if state.inVSync {
        state := state.(vStart := U32(state.vStart + info.blank));
        state := state.(vLength := info.render, inVSync := false);
      } else {
        state := state.(vStart := U32(state.vStart + info.render));
        state := state.(vLength := info.blank, inVSync := true);
        state := state.(hStart := U32(state.hStart + info.hSyncError)); // make up for rounded scanlines
      }
    }
  }

  // ---------------------------------------------------------------------------------------
  // Over many frames
  // ---------------------------------------------------------------------------------------

  datatype Call = H(cycle: u32) | V(cycle: u32)

  /** The state after some calls, and how many of them moved the hsync and the vsync counter. */
  function Run(s: State, info: Info, calls: seq<Call>): (r: (State, nat, nat))
    decreases |calls|
  {
    if calls == [] then (s, 0, 0)
    else
      var last := calls[|calls| - 1];
      var (t, h, v) := Run(s, info, calls[..|calls| - 1]);
      match last
      case H(cycle) => if Reached(cycle, t.hStart, t.hLength) then (NextHPart(t, info), h + 1, v) else (t, h, v)
      case V(cycle) => if Reached(cycle, t.vStart, t.vLength) then (NextVPart(t, info), h, v + 1) else (t, h, v)
  }

  /** Half a turn at a time: after an odd number of parts, the first part is one ahead. */
  function Parts(n: nat, first: int, second: int): int {
    n / 2 * (first + second) + if n % 2 == 1 then first else 0
  }

  lemma OneMorePart(n: nat, first: int, second: int)
    ensures Parts(n + 1, first, second) == Parts(n, first, second) + if n % 2 == 1 then second else first
  {
    if n % 2 == 1 {
      assert (n + 1) / 2 == n / 2 + 1;
      assert (n / 2 + 1) * (first + second) == n / 2 * (first + second) + first + second;
    }
  }

  /** Both counters' start cycles, however the calls are mixed and whenever they come. */
  lemma {:induction false} StartCycles(s: State, info: Info, calls: seq<Call>)
    requires !s.inHBlank && !s.inVSync
    ensures var (t, h, v) := Run(s, info, calls);
      t.hStart == U32(s.hStart + Parts(h, info.hRender, info.hBlank) + Parts(v, info.hSyncError, 0)) &&
      t.vStart == U32(s.vStart + Parts(v, info.render, info.blank)) &&
      (t.inHBlank <==> h % 2 == 1) && (t.inVSync <==> v % 2 == 1)
    decreases |calls|
  {
    hide Parts, U32, Reached;
    if calls == [] {
      NoParts(s);
    } else {
      StartCycles(s, info, calls[..|calls| - 1]);
      var (t, h, v) := Run(s, info, calls[..|calls| - 1]);
      OneMorePart(h, info.hRender, info.hBlank);
      OneMorePart(v, info.render, info.blank);
      OneMorePart(v, info.hSyncError, 0);
      var (hs, vs) := (s.hStart + Parts(h, info.hRender, info.hBlank) + Parts(v, info.hSyncError, 0),
                       s.vStart + Parts(v, info.render, info.blank));
      Adds(hs, if t.inHBlank then info.hBlank else info.hRender);
      Adds(hs, info.hSyncError);
      Adds(vs, if t.inVSync then info.blank else info.render);
    }
  }

  lemma NoParts(s: State)
    ensures forall a: int, b: int :: Parts(0, a, b) == 0
    ensures U32(s.hStart) == s.hStart && U32(s.vStart) == s.vStart
  {
  }

  /**
    Over n whole frames, that is 2n vsync periods and n times `scans` scanlines, the counters
    drift apart by exactly one cycle a frame if a frame's scanlines last an odd number of cycles,
    and not at all if they do not.
   */
  lemma DriftPerFrame(rate100: nat, scans: nat, s: State, calls: seq<Call>, n: nat)
    requires rate100 > 0 && scans > 0 && !s.inHBlank && !s.inVSync
    requires var r := Run(s, VSyncInfoCalc(rate100, scans, true), calls); r.1 == 2 * (n * scans) && r.2 == 4 * n
    ensures var info := VSyncInfoCalc(rate100, scans, true); var t := Run(s, info, calls).0;
      U32(t.hStart - s.hStart - (t.vStart - s.vStart)) == U32(n * ((info.hRender + info.hBlank) * scans % 2))
  {
    var info := VSyncInfoCalc(rate100, scans, true);
    StartCycles(s, info, calls);
    AnalogInfo(rate100, scans);
    hide VSyncInfoCalc, Run, Parts, U32;
    Drift(s.hStart, s.vStart, info, n, scans);
  }

  lemma Drift(x: u32, y: u32, info: Info, n: nat, scans: nat)
    requires info.hSyncError == info.render + info.blank - (info.hRender + info.hBlank) * scans / 2
    ensures var a := Parts(2 * (n * scans), info.hRender, info.hBlank) + Parts(4 * n, info.hSyncError, 0);
      var b := Parts(4 * n, info.render, info.blank);
      U32(U32(x + a) - x - (U32(y + b) - y)) == U32(n * ((info.hRender + info.hBlank) * scans % 2))
  {
    hide Parts, U32;
    var line := info.hRender + info.hBlank;
    FramesOfLines(n, line, scans);
    FramesOfPeriods(n, info.render + info.blank, line * scans);
    Apart(x, y, n * (line * scans) + Parts(4 * n, info.hSyncError, 0), 2 * n * (info.render + info.blank));
  }

  /** The distance of two words that moved by a and by b. */
  lemma Apart(x: u32, y: u32, a: int, b: int)
    ensures U32(U32(x + a) - x - (U32(y + b) - y)) == U32(a - b)
  {
  }

  /** Scanlines taken one by one or frame by frame. */
  lemma FramesOfLines(n: nat, line: nat, scans: nat)
    ensures n * scans * line == n * (line * scans)
    ensures forall a: int, b: int :: a + b == line ==> Parts(2 * (n * scans), a, b) == n * (line * scans)
  {
    forall a: int, b: int | a + b == line ensures Parts(2 * (n * scans), a, b) == n * scans * line {
    }
  }

  lemma FramesOfPeriods(n: nat, period: nat, h: nat)
    ensures n * h + Parts(4 * n, period - h / 2, 0) - 2 * n * period == n * (h % 2)
    ensures forall a: int, b: int :: a + b == period ==> Parts(4 * n, a, b) == 2 * n * period
  {
    assert h == 2 * (h / 2) + h % 2;
    assert n * h == n * (2 * (h / 2)) + n * (h % 2);
    assert 2 * n * (period - h / 2) == 2 * n * period - n * (2 * (h / 2));
  }
}
