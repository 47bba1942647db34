/**
  What the GIF parser reads, field by field: a tag and a register write as they lie in memory,
  and what each bit of SIGID and LBLID comes from.
 */
module GifLayout {
  import opened Sequences
  import opened GifParser

  // ---------------------------------------------------------------------------------------
  // Numbers as bits, and as bytes from the lowest one
  // ---------------------------------------------------------------------------------------

  function Pow2(n: nat): (p: nat)
    ensures p > 0
  {
    if n == 0 then 1 else 2 * Pow2(n - 1)
  }

  /** Bit b of x. */
  function BitOf(x: nat, b: nat): (r: nat)
    ensures r <= 1
  {
    if b == 0 then x % 2 else BitOf(x / 2, b - 1)
  }

  function LittleEndian(x: nat, n: nat): (q: seq<byte>)
    ensures |q| == n
  {
    if n == 0 then [] else [x % 256] + LittleEndian(x / 256, n - 1)
  }

  /** Byte k has what is left of the number without its lower bytes. */
  lemma {:induction false} ByteAt(x: nat, n: nat, k: nat)
    requires k < n
    ensures LittleEndian(x, n)[k] == x / Pow2(8 * k) % 256
  {
    if k > 0 {
      ByteAt(x / 256, n - 1, k - 1);
      EightMore(8 * (k - 1));
      DivideTwice(x, Pow2(8 * (k - 1)));
    }
  }

  lemma EightMore(n: nat)
    ensures Pow2(n + 8) == 256 * Pow2(n)
  {
    assert Pow2(n + 8) == 2 * Pow2(n + 7) == 4 * Pow2(n + 6) == 8 * Pow2(n + 5) == 16 * Pow2(n + 4);
    assert Pow2(n + 4) == 2 * Pow2(n + 3) == 4 * Pow2(n + 2) == 8 * Pow2(n + 1);
  }

  lemma DivideTwice(x: nat, b: nat)
    requires b > 0
    ensures x / 256 / b == x / (256 * b)
  {
    var (s, t) := (x / 256 / b, x / 256 % b);
    assert x == 256 * (b * s + t) + x % 256;
    DivisionIs(x, 256 * b, s, 256 * t + x % 256);
  }

  // ---------------------------------------------------------------------------------------
  // Tags
  // ---------------------------------------------------------------------------------------

  /** A tag's fields; `rest` stands for the bits from 16 to 57, which do not matter here. */
  datatype Fields = Fields(nloop: nat, eop: bool, rest: nat, flg: nat, nreg: nat, regs: seq<nat>)

  predicate Proper(f: Fields) {
    f.nloop < 0x8000 && f.rest < 0x400_0000_0000 && f.flg < 4 && f.nreg < 16 && |f.regs| == 16 && AllNibbles(f.regs)
  }

  predicate AllNibbles(regs: seq<nat>) {
    forall i :: 0 <= i < |regs| ==> regs[i] < 16
  }

  /** NLOOP in bits 0 to 14, EOP in bit 15, FLG in bits 58 and 59, NREG in bits 60 to 63. */
  function LowWord(f: Fields): nat {
    f.nloop + (if f.eop then 0x8000 else 0) + 0x1_0000 * f.rest +
    0x400_0000_0000_0000 * f.flg + 0x1000_0000_0000_0000 * f.nreg
  }

  /** Four bits for each register, the first one lowest. */
  function HighWord(regs: seq<nat>): nat {
    if regs == [] then 0 else regs[0] + 16 * HighWord(regs[1..])
  }

  function Layout(f: Fields): (q: seq<byte>)
    ensures |q| == 16
  {
    LittleEndian(LowWord(f), 8) + LittleEndian(HighWord(f.regs), 8)
  }

  lemma LowBytes(f: Fields)
    requires Proper(f)
    ensures var q := LittleEndian(LowWord(f), 8);
      q[0] == f.nloop % 256 && q[1] == f.nloop / 256 + (if f.eop then 128 else 0) &&
      q[7] == f.rest / 0x100_0000_0000 + 4 * f.flg + 16 * f.nreg
  {
    ByteAt(LowWord(f), 8, 0);
    ByteAt(LowWord(f), 8, 1);
    ByteAt(LowWord(f), 8, 7);
    Powers();
    LowestTwo(f);
    Highest(f);
    hide LittleEndian, Pow2, LowWord;
  }

  lemma LowestTwo(f: Fields)
    requires Proper(f)
    ensures LowWord(f) % 256 == f.nloop % 256
    ensures LowWord(f) / 256 % 256 == f.nloop / 256 + if f.eop then 128 else 0
  {
    var (eop, upper) := (if f.eop then 128 else 0, f.rest + 0x400_0000_0000 * f.flg + 0x1000_0000_0000 * f.nreg);
    DivisionIs(LowWord(f), 256, f.nloop / 256 + eop + 256 * upper, f.nloop % 256);
  }

  lemma Highest(f: Fields)
    requires Proper(f)
    ensures LowWord(f) / 0x100_0000_0000_0000 % 256 == f.rest / 0x100_0000_0000 + 4 * f.flg + 16 * f.nreg
  {
    DivisionIs(LowWord(f), 0x100_0000_0000_0000, f.rest / 0x100_0000_0000 + 4 * f.flg + 16 * f.nreg,
      f.nloop + (if f.eop then 0x8000 else 0) + 0x1_0000 * (f.rest % 0x100_0000_0000));
  }

  lemma Powers()
    ensures Pow2(0) == 1 && Pow2(8) == 256 && Pow2(56) == 0x100_0000_0000_0000
  {
    EightMore(0);
    EightMore(8);
    EightMore(16);
    EightMore(24);
    EightMore(32);
    EightMore(40);
    EightMore(48);
  }

  lemma {:induction false} HighBytes(regs: seq<nat>, n: nat)
    requires |regs| == 2 * n && AllNibbles(regs)
    ensures forall k :: 0 <= k < n ==> LittleEndian(HighWord(regs), n)[k] == regs[2 * k] + 16 * regs[2 * k + 1]
  {
    if n > 0 {
      var tail := regs[2..];
      HighBytes(tail, n - 1);
      assert regs[1..][1..] == tail;
      assert HighWord(regs) == regs[0] + 16 * regs[1] + 256 * HighWord(tail);
      assert LittleEndian(HighWord(regs), n) ==
        [regs[0] + 16 * regs[1]] + LittleEndian(HighWord(tail), n - 1);
      forall k | 0 < k < n
        ensures LittleEndian(HighWord(regs), n)[k] == regs[2 * k] + 16 * regs[2 * k + 1]
      {
        assert tail[2 * (k - 1)] == regs[2 * k] && tail[2 * (k - 1) + 1] == regs[2 * k + 1];
      }
    }
  }

  lemma RegistersRead(f: Fields, i: nat)
    requires Proper(f) && i < 16
    ensures RegAt(Layout(f), i) == f.regs[i]
  {
    HighBytes(f.regs, 8);
    var k := i / 2;
    var (a, b) := (f.regs[2 * k], f.regs[2 * k + 1]);
    hide LittleEndian, HighWord, LowWord;
    assert Layout(f)[8 + k] == a + 16 * b;
    hide Layout;
    TwoNibbles(a, b);
  }

  lemma TwoNibbles(a: nat, b: nat)
    requires a < 16
    ensures (a + 16 * b) % 16 == a && (a + 16 * b) / 16 == b
  {
  }

  /** How many registers a tag names: none for an image, and a zero stands for 16. */
  function Registers(f: Fields): nat {
    if f.flg >= 2 then 0 else if f.nreg == 0 then 16 else f.nreg
  }

  /** The length is that of the data: NLOOP times so many quadwords, half as many, rounded up, or one each. */
  predicate HoldsData(f: Fields, len: nat) {
    var n := f.nloop * Registers(f);
    len % 16 == 0 &&
    if f.flg == 0 then len == 16 * n
    else if f.flg == 1 then 8 * n <= len < 8 * n + 16
    else len == 16 * f.nloop
  }

  /** What is read of a tag that was laid out. */
  predicate ReadAs(f: Fields, t: GifTag) {
    t.isValid && t.nLoop == f.nloop && t.eop == f.eop && t.nRegs == Registers(f) && t.nRegIdx == 0 &&
    t.format == (if f.flg == 0 then Packed else if f.flg == 1 then Reglist else Image) &&
    HoldsData(f, t.len) && t.cycles == (if f.flg == 0 then 2 * t.len else 4 * t.len)
  }

  /** A tag is read as it was laid out: its fields, the length of its data, and its registers. */
  lemma TagReadBack(f: Fields)
    requires Proper(f)
    ensures ReadAs(f, DecodeTag(Layout(f)))
    ensures f.flg == 0 ==> DecodeTag(Layout(f)).regs == f.regs[..Registers(f)]
    ensures DecodeTag(Layout(f)).hasAD <==> f.flg == 0 && REG_AD in f.regs[..Registers(f)]
  {
    hide ReadAs, HoldsData;
    TagKind(f);
    var (q, n) := (Layout(f), Registers(f));
    if f.flg == 0 {
      PackedReadAs(f, q);
      RegistersFound(f, n);
    } else {
      ImageReadAs(f);
    }
  }

  lemma TagKind(f: Fields)
    requires Proper(f)
    ensures DecodeTag(Layout(f)) ==
      if f.flg == 0 then PackedTag(f.nloop, Registers(f), Layout(f), f.eop) else ImageTag(f.nloop, Registers(f), f.eop)
  {
    FieldsInBytes(f);
    hide Layout, AllNibbles, PackedTag, ImageTag;
  }

  lemma FieldsInBytes(f: Fields)
    requires Proper(f)
    ensures var q := Layout(f); var (lo: int, hi: int) := (q[0], q[1]);
      lo + 256 * (hi % 128) == f.nloop && (hi >= 128 <==> f.eop) && q[7] / 16 == f.nreg && q[7] / 4 % 4 == f.flg
  {
    LowBytes(f);
    var (low, e) := (LittleEndian(LowWord(f), 8), if f.eop then 128 else 0);
    assert Layout(f)[0] == low[0] && Layout(f)[1] == low[1] && Layout(f)[7] == low[7];
    hide Layout, LittleEndian, LowWord, HighWord, AllNibbles;
    TwoBytes(f.nloop, e);
    TopByte(f.rest, f.flg, f.nreg);
  }

  lemma TopByte(rest: nat, flg: nat, nreg: nat)
    requires rest < 0x400_0000_0000 && flg < 4 && nreg < 16
    ensures var x := rest / 0x100_0000_0000 + 4 * flg + 16 * nreg; x / 16 == nreg && x / 4 % 4 == flg
  {
    var top := rest / 0x100_0000_0000;
    assert top < 4;
    ThreeParts(top, flg, nreg);
  }

  lemma ThreeParts(top: nat, flg: nat, nreg: nat)
    requires top < 4 && flg < 4
    ensures var x := top + 4 * flg + 16 * nreg; x / 16 == nreg && x / 4 % 4 == flg
  {
    var x := top + 4 * flg + 16 * nreg;
    DivisionIs(x, 16, nreg, top + 4 * flg);
    DivisionIs(x, 4, flg + 4 * nreg, top);
    DivisionIs(flg + 4 * nreg, 4, nreg, flg);
  }

  lemma TwoBytes(nloop: nat, e: nat)
    requires nloop < 0x8000 && (e == 0 || e == 128)
    ensures nloop % 256 + 256 * ((nloop / 256 + e) % 128) == nloop && (nloop / 256 + e >= 128 <==> e == 128)
  {
  }

  lemma PackedReadAs(f: Fields, q: seq<byte>)
    requires Proper(f) && f.flg == 0 && |q| == 16
    ensures ReadAs(f, PackedTag(f.nloop, Registers(f), q, f.eop))
  {
    hide AllNibbles;
    assert f.nloop * Registers(f) == Registers(f) * f.nloop;
  }

  lemma ImageReadAs(f: Fields)
    requires Proper(f) && f.flg > 0
    ensures ReadAs(f, ImageTag(f.nloop, Registers(f), f.eop)) && !ImageTag(f.nloop, Registers(f), f.eop).hasAD
  {
    hide AllNibbles;
    assert f.nloop * Registers(f) == Registers(f) * f.nloop;
  }

  lemma RegistersFound(f: Fields, n: nat)
    requires Proper(f) && n <= 16
    ensures RegList(Layout(f), n) == f.regs[..n]
    ensures NamesAD(Layout(f), n) <==> REG_AD in f.regs[..n]
  {
    var q := Layout(f);
    forall i | 0 <= i < 16
      ensures RegAt(q, i) == f.regs[i]
    {
      RegistersRead(f, i);
    }
    hide Layout, RegAt, AllNibbles;
    forall i | 0 <= i < n
      ensures RegAt(q, i) == f.regs[..n][i]
    {
    }
    if REG_AD in f.regs[..n] {
      var i :| 0 <= i < n && f.regs[..n][i] == REG_AD;
      assert RegAt(q, i) == REG_AD;
    }
  }

  // ---------------------------------------------------------------------------------------
  // Every sixteen bytes are a tag
  // ---------------------------------------------------------------------------------------

  function FromBytes(q: seq<byte>): nat {
    if q == [] then 0 else (var b: int := q[0]; b + 256 * FromBytes(q[1..]))
  }

  lemma {:induction false} BytesBack(q: seq<byte>)
    ensures LittleEndian(FromBytes(q), |q|) == q
  {
    if q != [] {
      BytesBack(q[1..]);
      assert FromBytes(q) % 256 == q[0] && FromBytes(q) / 256 == FromBytes(q[1..]);
    }
  }

  lemma {:induction false} BytesBelow(q: seq<byte>)
    ensures FromBytes(q) < Pow2(8 * |q|)
  {
    if q != [] {
      BytesBelow(q[1..]);
      EightMore(8 * |q[1..]|);
    }
  }

  function Nibbles(x: nat, n: nat): (s: seq<nat>)
    ensures |s| == n && AllNibbles(s)
  {
    if n == 0 then [] else [x % 16] + Nibbles(x / 16, n - 1)
  }

  lemma {:induction false} NibblesBack(x: nat, n: nat)
    requires x < Pow2(4 * n)
    ensures HighWord(Nibbles(x, n)) == x
  {
    if n > 0 {
      assert Pow2(4 * n) == 16 * Pow2(4 * (n - 1)) by {
        var m := 4 * (n - 1);
        assert Pow2(m + 4) == 2 * Pow2(m + 3) == 4 * Pow2(m + 2) == 8 * Pow2(m + 1);
      }
      NibblesBack(x / 16, n - 1);
      assert Nibbles(x, n)[1..] == Nibbles(x / 16, n - 1);
    }
  }

  /** The fields of any sixteen bytes. */
  lemma EveryTag(q: seq<byte>) returns (f: Fields)
    requires |q| == 16
    ensures Proper(f) && Layout(f) == q
  {
    var (low, high) := (FromBytes(q[..8]), FromBytes(q[8..]));
    BytesBelow(q[..8]);
    BytesBelow(q[8..]);
    Powers();
    EightMore(56);
    BytesBack(q[..8]);
    BytesBack(q[8..]);
    NibblesBack(high, 16);
    hide FromBytes, Pow2, Nibbles, LittleEndian, HighWord, AllNibbles;
    f := SplitLow(low, Nibbles(high, 16));
    assert q[..8] + q[8..] == q;
  }

  lemma SplitLow(low: nat, regs: seq<nat>) returns (f: Fields)
    requires low < 0x1_0000_0000_0000_0000 && |regs| == 16 && AllNibbles(regs)
    ensures Proper(f) && LowWord(f) == low && f.regs == regs
  {
    hide AllNibbles;
    var l1 := low / 0x8000;
    var l2 := l1 / 2;
    var l3 := l2 / 0x400_0000_0000;
    f := Fields(low % 0x8000, l1 % 2 == 1, l2 % 0x400_0000_0000, l3 % 4, l3 / 4, regs);
  }

  // ---------------------------------------------------------------------------------------
  // SIGNAL, FINISH and LABEL
  // ---------------------------------------------------------------------------------------

  /** Each of a word's bits is the write's where the mask has a one, and else the old one. */
  ghost predicate Merged(was: nat, w: SignalWrite, now: nat) {
    now < 0x1_0000_0000 &&
    forall b :: 0 <= b < 32 ==> BitOf(now, b) == if BitOf(w.mask, b) == 1 then BitOf(w.data, b) else BitOf(was, b)
  }

  lemma {:induction false} MaskedBit(id: nat, data: nat, mask: nat, bits: nat, b: nat)
    requires b < bits
    ensures BitOf(MaskBits(id, data, mask, bits), b) ==
      if BitOf(mask, b) == 1 then BitOf(data, b) else BitOf(id, b)
  {
    if b > 0 {
      MaskedBit(id / 2, data / 2, mask / 2, bits - 1, b - 1);
    }
  }

  lemma {:induction false} MaskedBelow(id: nat, data: nat, mask: nat, bits: nat)
    ensures MaskBits(id, data, mask, bits) < Pow2(bits)
  {
    if bits > 0 {
      MaskedBelow(id / 2, data / 2, mask / 2, bits - 1);
    }
  }

  lemma MaskedMerges(id: nat, w: SignalWrite)
    ensures Merged(id, w, Masked(id, w))
  {
    forall b | 0 <= b < 32
      ensures BitOf(Masked(id, w), b) == if BitOf(w.mask, b) == 1 then BitOf(w.data, b) else BitOf(id, b)
    {
      MaskedBit(id, w.data, w.mask, 32, b);
    }
    MaskedBelow(id, w.data, w.mask, 32);
    Powers();
    EightMore(8);
    EightMore(16);
    EightMore(24);
  }

  /** Bit b as the last write that it was not masked out of left it. */
  function LastBit(log: seq<SignalWrite>, b: nat): nat {
    if log == [] then 0
    else
      var w := log[|log| - 1];
      if BitOf(w.mask, b) == 1 then BitOf(w.data, b) else LastBit(log[..|log| - 1], b)
  }

  lemma {:induction false} NoBit(b: nat)
    ensures BitOf(0, b) == 0
  {
    if b > 0 {
      NoBit(b - 1);
    }
  }

  /** Behind any writes, each bit is what the last write that it was not masked out of gave it. */
  lemma {:induction false} FoldBit(log: seq<SignalWrite>, b: nat)
    requires b < 32
    ensures BitOf(Fold(log), b) == LastBit(log, b)
  {
    if log == [] {
      NoBit(b);
    } else {
      FoldBit(log[..|log| - 1], b);
      MaskedMerges(Fold(log[..|log| - 1]), log[|log| - 1]);
    }
  }

  /** A write to a register: the data in the low four bytes, the mask behind it, then the register's number. */
  function WriteLayout(w: SignalWrite, reg: byte, upper: seq<byte>): (q: seq<byte>)
    requires |upper| == 7
    ensures |q| == 16
  {
    LittleEndian(w.data, 4) + LittleEndian(w.mask, 4) + [reg] + upper
  }

  lemma FourBytes(x: nat)
    ensures var s := LittleEndian(x, 4);
      s[0] == x % 256 && s[1] == x / 256 % 256 && s[2] == x / 256 / 256 % 256 && s[3] == x / 256 / 256 / 256 % 256
  {
    var y := x / 256;
    var z := y / 256;
    assert LittleEndian(z, 2) == [z % 256] + LittleEndian(z / 256, 1);
    assert LittleEndian(y, 3) == [y % 256] + LittleEndian(z, 2);
    assert LittleEndian(x, 4) == [x % 256] + LittleEndian(y, 3);
  }

  lemma WordRead(q: seq<byte>, at: nat, x: nat)
    requires at + 4 <= |q| && x < 0x1_0000_0000 && q[at..at + 4] == LittleEndian(x, 4)
    ensures Word(q, at) == x
  {
    FourBytes(x);
    hide LittleEndian;
    var s := q[at..at + 4];
    assert s[0] == q[at] && s[1] == q[at + 1] && s[2] == q[at + 2] && s[3] == q[at + 3];
  }

  lemma WriteRead(w: SignalWrite, reg: byte, upper: seq<byte>)
    requires |upper| == 7 && w.data < 0x1_0000_0000 && w.mask < 0x1_0000_0000
    ensures var q := WriteLayout(w, reg, upper); SignalWrite(Word(q, 0), Word(q, 4)) == w && q[8] == reg
  {
    var q := WriteLayout(w, reg, upper);
    assert q[0..4] == LittleEndian(w.data, 4) && q[4..8] == LittleEndian(w.mask, 4);
    hide LittleEndian;
    WordRead(q, 0, w.data);
    WordRead(q, 4, w.mask);
  }

  /** What a write to any register does, all else staying as it is. */
  lemma WriteHandled(s: Signals, w: SignalWrite, reg: byte, upper: seq<byte>)
    requires |upper| == 7 && w.data < 0x1_0000_0000 && w.mask < 0x1_0000_0000
    ensures var (t, stall) := HandleAD(s, WriteLayout(w, reg, upper));
      match reg
      case 0x60 =>
        if !s.csrSignal then
          Merged(s.sigid, w, t.sigid) && t == s.(sigid := t.sigid, csrSignal := true, log := s.log + [w])
        else t == if s.queued then s.(log := s.log + [w]) else s.(queued := true, pending := w, log := s.log + [w])
      case 0x61 => t == s.(csrFinish := true)
      case 0x62 => Merged(s.lblid, w, t.lblid) && t == s.(lblid := t.lblid)
      case _ => t == s
  {
    WriteRead(w, reg, upper);
    MaskedMerges(s.sigid, w);
    MaskedMerges(s.lblid, w);
    hide WriteLayout, Masked, Merged, Word;
  }

  /** The acknowledge: a queued SIGNAL takes its turn, and its bit of CSR stays set for it; else that is cleared. */
  lemma AcknowledgeMerges(s: Signals)
    ensures var t := Acknowledge(s);
      if s.queued then
        Merged(s.sigid, s.pending, t.sigid) && t == s.(sigid := t.sigid, csrSignal := true, queued := false)
      else t == s.(csrSignal := false)
  {
    MaskedMerges(s.sigid, s.pending);
    hide Masked, Merged;
  }

  /** With no SIGNAL queued, SIGID has in each bit what the last SIGNAL parsed that does not mask it gave it. */
  lemma SigidBits(s: Signals, b: nat)
    requires Delivered(s) && !s.queued && b < 32
    ensures BitOf(s.sigid, b) == LastBit(s.log, b)
  {
    FoldBit(s.log, b);
  }
}
