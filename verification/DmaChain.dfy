/**
  The GIF's DMA channel in source-chain mode: it reads tags from memory, and hands the data each
  tag names to the GIF, which may take any part of it at a time.
 */
module DmaChain {
  import opened Words
  import opened WrappedCopy
  import opened Sequences

  datatype Fetched = Word(quad: Quad) | Unmapped

  type Memory = u32 -> Fetched

  datatype Id = Refe | Cnt | Next | Ref | Refs | Call | Ret | End

  datatype Tag = Tag(qwc: nat, id: Id, irq: bool, addr: u32)

  function IdOf(n: nat): Id {
    match n
    case 0 => Refe
    case 1 => Cnt
    case 2 => Next
    case 3 => Ref
    case 4 => Refs
    case 5 => Call
    case 6 => Ret
    case _ => End
  }

  function TagOf(q: Quad): (t: Tag)
    ensures t.qwc < 0x1_0000
  {
    Tag(q.command % 0x1_0000, IdOf(q.command / 0x1000_0000 % 8), q.command / 0x8000_0000 % 2 == 1, U32(q.data0))
  }

  /** The address n words further on. */
  function Plus(a: u32, n: nat): u32 {
    U32(a + 16 * n)
  }

  lemma PlusPlus(a: u32, m: nat, n: nat)
    ensures Plus(Plus(a, m), n) == Plus(a, m + n) && Plus(a, 0) == a
  {
    Adds(a + 16 * m, 16 * n);
  }

  predicate Readable(mem: Memory, a: u32, n: nat) {
    forall i :: 0 <= i < n ==> mem(Plus(a, i)).Word?
  }

  function WordsAt(mem: Memory, a: u32, n: nat): (s: seq<Quad>)
    ensures |s| == n
  {
    seq(n, i requires 0 <= i < n => match mem(Plus(a, i)) case Word(q) => q case Unmapped => Quad(0, 0, 0, 0))
  }

  lemma WordsSplit(mem: Memory, a: u32, m: nat, n: nat)
    requires m <= n
    ensures WordsAt(mem, a, n) == WordsAt(mem, a, m) + WordsAt(mem, Plus(a, m), n - m)
    ensures Readable(mem, a, n) ==> Readable(mem, Plus(a, m), n - m) && (n > m ==> mem(Plus(a, m)).Word?)
  {
    forall i: nat ensures Plus(Plus(a, m), i) == Plus(a, m + i) {
      PlusPlus(a, m, i);
    }
  }

  // ---------------------------------------------------------------------------------------
  // The reference: a walk along the tags with a stack of return addresses
  // ---------------------------------------------------------------------------------------

  datatype Walker = Walker(tag: u32, stack: seq<u32>, done: bool)

  /** Where the walk goes from a tag, and whether it ends there. */
  function After(w: Walker, t: Tag, tie: bool): Walker {
    var data := Plus(w.tag, 1);
    var behind := Plus(data, t.qwc);
    var n := |w.stack|;
    var v := match t.id
      case Refe => Walker(data, w.stack, true)
      case Cnt => Walker(behind, w.stack, false)
      case Next => Walker(t.addr, w.stack, false)
      case Ref => Walker(data, w.stack, false)
      case Refs => Walker(data, w.stack, false)
      case Call => if n < 2 then Walker(t.addr, w.stack + [behind], false) else w.(done := true)
      case Ret => if n == 1 || n == 2 then Walker(w.stack[n - 1], w.stack[..n - 1], false) else w.(done := true)
      case End => w.(done := true);
    v.(done := v.done || (tie && t.irq))
  }

  function DataStart(w: Walker, t: Tag): u32 {
    if t.id.Refe? || t.id.Ref? || t.id.Refs? then t.addr else Plus(w.tag, 1)
  }

  /** Data that begins in unmapped memory is dropped whole. */
  predicate Dropped(mem: Memory, a: u32, n: nat) {
    n > 0 && mem(a).Unmapped?
  }

  /** All splits of the data deliver the same: it is mapped throughout, or dropped. */
  predicate Whole(mem: Memory, a: u32, n: nat) {
    Dropped(mem, a, n) || Readable(mem, a, n)
  }

  function DataAt(mem: Memory, a: u32, n: nat): seq<Quad> {
    if Dropped(mem, a, n) then [] else WordsAt(mem, a, n)
  }

  lemma NoData(mem: Memory, a: u32)
    ensures DataAt(mem, a, 0) == [] && Whole(mem, a, 0)
  {
  }

  lemma DataDropped(mem: Memory, a: u32, n: nat)
    requires n > 0 && mem(a).Unmapped?
    ensures DataAt(mem, a, n) == []
  {
  }

  /** Data that begins in mapped memory is delivered in two pieces as in one, if all of it is mapped. */
  lemma DataSplit(mem: Memory, a: u32, m: nat, n: nat)
    requires m <= n && mem(a).Word?
    ensures DataAt(mem, a, n)[..m] == WordsAt(mem, a, m)
    ensures Whole(mem, a, n) ==>
      DataAt(mem, a, n) == WordsAt(mem, a, m) + DataAt(mem, Plus(a, m), n - m) && Whole(mem, Plus(a, m), n - m) &&
      (n > m ==> mem(Plus(a, m)).Word?)
  {
    WordsSplit(mem, a, m, n);
    PlusPlus(a, 0, 0);
  }

  /** Where the walk goes on: behind a CNT tag, not past data that is dropped. */
  function Onward(mem: Memory, w: Walker, t: Tag, tie: bool): Walker {
    var v := After(w, t, tie);
    if t.id.Cnt? && Dropped(mem, DataStart(w, t), t.qwc) then v.(tag := Plus(w.tag, 1)) else v
  }

  datatype Walked = Walked(walker: Walker, data: seq<Quad>, intact: bool)

  /** One tag; a walk that is over, or whose next tag cannot be read, stays where it is. */
  function WalkOne(mem: Memory, w: Walker, tie: bool): Walked {
    if w.done || mem(w.tag).Unmapped? then Walked(w, [], true)
    else
      var t := TagOf(mem(w.tag).quad);
      var a := DataStart(w, t);
      Walked(Onward(mem, w, t, tie), DataAt(mem, a, t.qwc), Whole(mem, a, t.qwc))
  }

  /** Up to n tags, their data one behind the other, and whether all of it is mapped or dropped. */
  function Walk(mem: Memory, w: Walker, tie: bool, n: nat): Walked {
    if n == 0 then Walked(w, [], true)
    else
      var r := Walk(mem, w, tie, n - 1);
      var s := WalkOne(mem, r.walker, tie);
      Walked(s.walker, r.data + s.data, r.intact && s.intact)
  }

  // ---------------------------------------------------------------------------------------
  // Tags as they lie in memory
  // ---------------------------------------------------------------------------------------

  /** QWC in bits 0 to 15, the kind in bits 28 to 30, the interrupt bit above; `rest` does not matter here. */
  predicate LaidOut(q: Quad, qwc: nat, rest: nat, kind: nat, irq: bool, addr: u32) {
    qwc < 0x1_0000 && rest < 0x1000 && kind < 8 && q.data0 == addr &&
    q.command == qwc + 0x1_0000 * rest + 0x1000_0000 * kind + if irq then 0x8000_0000 else 0
  }

  lemma TagReadBack(q: Quad, qwc: nat, rest: nat, kind: nat, irq: bool, addr: u32)
    requires LaidOut(q, qwc, rest, kind, irq, addr)
    ensures TagOf(q) == Tag(qwc, IdOf(kind), irq, addr)
  {
    var x := if irq then 1 else 0;
    assert q.command / 0x1_0000 == rest + 0x1000 * (kind + 8 * x);
    assert q.command / 0x1000_0000 == kind + 8 * x;
  }

  /** n words of data lie in memory from an address on. */
  predicate LiesAt(mem: Memory, a: u32, data: seq<Quad>) {
    forall i :: 0 <= i < |data| ==> mem((a + 16 * i) % TWO32) == Word(data[i])
  }

  lemma ReadsData(mem: Memory, a: u32, data: seq<Quad>)
    requires LiesAt(mem, a, data)
    ensures DataAt(mem, a, |data|) == data && !Dropped(mem, a, |data|)
  {
    if data != [] { assert mem(a) == mem((a + 16 * 0) % TWO32) == Word(data[0]); }
    forall i | 0 <= i < |data|
      ensures mem(Plus(a, i)) == Word(data[i])
    {
      assert mem((a + 16 * i) % TWO32) == Word(data[i]);
    }
    assert WordsAt(mem, a, |data|) == data;
  }

  /** Where the data of a tag lies, by its kind: REFE, REF and REFS name its address, the others have it behind them. */
  function DataPlace(kind: nat, at: u32, addr: u32): u32 {
    if kind == 0 || kind == 3 || kind == 4 then addr else (at + 16) % TWO32
  }

  /** Where the walk goes from a tag of a kind, with the place behind its data. */
  function Gone(kind: nat, w: Walker, behind: u32, addr: u32, heeded: bool): Walker {
    var n := |w.stack|;
    var (pushes, pops) := (kind == 5 && n < 2, kind == 6 && 1 <= n <= 2);
    var over := kind == 0 || kind == 7 || (kind == 5 && !pushes) || (kind == 6 && !pops) || heeded;
    match kind
    case 1 => Walker(behind, w.stack, over)
    case 2 => Walker(addr, w.stack, over)
    case 5 => if pushes then Walker(addr, w.stack + [behind], over) else w.(done := over)
    case 6 => if pops then Walker(w.stack[n - 1], w.stack[..n - 1], over) else w.(done := over)
    case 7 => w.(done := over)
    case _ => Walker((w.tag + 16) % TWO32, w.stack, over)
  }

  lemma KindGoesOn(w: Walker, qwc: nat, kind: nat, irq: bool, addr: u32, tie: bool)
    requires !w.done && kind < 8
    ensures var t := Tag(qwc, IdOf(kind), irq, addr);
      After(w, t, tie) == Gone(kind, w, Plus(w.tag, 1 + qwc), addr, irq && tie) &&
      DataStart(w, t) == DataPlace(kind, w.tag, addr)
  {
    PlusPlus(w.tag, 1, qwc);
  }

  /**
    What a tag in memory does, by its kind: its data is delivered; CNT goes on behind that, NEXT at
    the address, REF and REFS behind the tag, CALL at the address with the place behind its data on
    the stack, and RET at the place that is on top of the stack. REFE and END end the transfer, as
    do a third CALL, a RET with nothing to return to, and an interrupt bit that is to be heeded.
   */
  lemma TagTaken(
    mem: Memory, w: Walker, tie: bool, q: Quad, data: seq<Quad>, rest: nat, kind: nat, irq: bool, addr: u32)
    requires !w.done && mem(w.tag) == Word(q) && LaidOut(q, |data|, rest, kind, irq, addr)
    requires LiesAt(mem, DataPlace(kind, w.tag, addr), data)
    ensures WalkOne(mem, w, tie).data == data
    ensures WalkOne(mem, w, tie).walker ==
      Gone(kind, w, (w.tag + 16 + 16 * |data|) % TWO32, addr, irq && tie)
  {
    assert kind < 8;
    TagReadBack(q, |data|, rest, kind, irq, addr);
    ReadsData(mem, DataPlace(kind, w.tag, addr), data);
    KindGoesOn(w, |data|, kind, irq, addr, tie);
    hide LiesAt, DataAt, TagOf, Dropped, LaidOut, Whole, After, DataStart, Gone;
  }

  lemma {:induction false} WalkPrefix(mem: Memory, w: Walker, tie: bool, m: nat, n: nat)
    requires m <= n
    ensures Walk(mem, w, tie, m).data <= Walk(mem, w, tie, n).data
    ensures Walk(mem, w, tie, m).walker.done ==> Walk(mem, w, tie, n) == Walk(mem, w, tie, m)
  {
    hide WalkOne;
    if m < n {
      WalkPrefix(mem, w, tie, m, n - 1);
      WalkOver(mem, Walk(mem, w, tie, n - 1).walker, tie);
    }
  }

  lemma WalkOver(mem: Memory, w: Walker, tie: bool)
    ensures w.done ==> WalkOne(mem, w, tie) == Walked(w, [], true)
  {
  }

  lemma SameEnds(s: seq<u32>, a: u32, t: seq<u32>, b: u32)
    requires s + [a] == t + [b]
    ensures s == t && a == b
  {
    assert (s + [a])[|s|] == (t + [b])[|t|];
    assert s == (s + [a])[..|s|];
    assert t == (t + [b])[..|t|];
  }

  /** A tag pushes one address, pops one, or leaves the stack alone. */
  lemma StackStep(mem: Memory, w: Walker, tie: bool)
    ensures var s := WalkOne(mem, w, tie).walker.stack;
      s == w.stack || (w.stack != [] && s == w.stack[..|w.stack| - 1]) || (s != [] && s[..|s| - 1] == w.stack)
  {
  }

  lemma PrefixKept(s: seq<u32>, t: seq<u32>, n: nat)
    requires n <= |s| && n <= |t|
    requires t == s || (s != [] && t == s[..|s| - 1]) || (t != [] && t[..|t| - 1] == s)
    ensures t[..n] == s[..n]
  {
  }

  /** A stack that never gets shorter than n keeps its first n addresses. */
  lemma {:induction false} StackKept(mem: Memory, w: Walker, tie: bool, n: nat, k: nat)
    requires n <= |w.stack| && forall i :: 0 <= i <= k ==> |Walk(mem, w, tie, i).walker.stack| >= n
    ensures |Walk(mem, w, tie, k).walker.stack| >= n && Walk(mem, w, tie, k).walker.stack[..n] == w.stack[..n]
  {
    hide WalkOne, Plus;
    if k > 0 {
      StackKept(mem, w, tie, n, k - 1);
      var u := Walk(mem, w, tie, k - 1).walker;
      StackStep(mem, u, tie);
      PrefixKept(u.stack, WalkOne(mem, u, tie).walker.stack, n);
    }
  }

  lemma CallStep(mem: Memory, w: Walker, tie: bool)
    requires !w.done && mem(w.tag).Word? && |w.stack| < 2 && TagOf(mem(w.tag).quad).id.Call?
    ensures WalkOne(mem, w, tie).walker.stack == w.stack + [Plus(w.tag, 1 + TagOf(mem(w.tag).quad).qwc)]
  {
    PlusPlus(w.tag, 1, TagOf(mem(w.tag).quad).qwc);
  }

  lemma ReturnStep(mem: Memory, w: Walker, tie: bool)
    requires !w.done && mem(w.tag).Word? && 1 <= |w.stack| <= 2 && TagOf(mem(w.tag).quad).id.Ret?
    ensures var r := WalkOne(mem, w, tie).walker; r.stack + [r.tag] == w.stack
  {
  }

  /** A CALL and the RET that belongs to it: the walk goes on behind the CALL's data with its stack. */
  lemma CallReturns(mem: Memory, w: Walker, tie: bool, k: nat)
    requires !w.done && mem(w.tag).Word? && |w.stack| < 2
    requires TagOf(mem(w.tag).quad).id.Call?
    requires var called := WalkOne(mem, w, tie).walker;
      (forall i :: 0 <= i <= k ==> |Walk(mem, called, tie, i).walker.stack| > |w.stack|) &&
      var r := Walk(mem, called, tie, k).walker;
      !r.done && |r.stack| == |w.stack| + 1 && mem(r.tag).Word? && TagOf(mem(r.tag).quad).id.Ret?
    ensures var r := Walk(mem, WalkOne(mem, w, tie).walker, tie, k).walker;
      var back := WalkOne(mem, r, tie).walker;
      back.tag == Plus(w.tag, 1 + TagOf(mem(w.tag).quad).qwc) && back.stack == w.stack
  {
    var called := WalkOne(mem, w, tie).walker;
    CallStep(mem, w, tie);
    hide WalkOne, Plus, TagOf, Walk;
    StackKept(mem, called, tie, |w.stack| + 1, k);
    var r := Walk(mem, called, tie, k).walker;
    assert r.stack == called.stack by {
      assert r.stack[..|w.stack| + 1] == r.stack && called.stack[..|w.stack| + 1] == called.stack;
    }
    ReturnStep(mem, r, tie);
    var back := WalkOne(mem, r, tie).walker;
    SameEnds(back.stack, back.tag, w.stack, Plus(w.tag, 1 + TagOf(mem(w.tag).quad).qwc));
  }

  /** The shortest such walk: the CALL leads straight to a RET, with no interrupt bit in between. */
  lemma CallToReturn(mem: Memory, w: Walker, tie: bool)
    requires !w.done && mem(w.tag).Word? && |w.stack| < 2
    requires var call := TagOf(mem(w.tag).quad);
      call.id.Call? && !call.irq && mem(call.addr).Word? && TagOf(mem(call.addr).quad).id.Ret? &&
      !TagOf(mem(call.addr).quad).irq
    ensures Walk(mem, w, tie, 2).walker == Walker(Plus(w.tag, 1 + TagOf(mem(w.tag).quad).qwc), w.stack, false)
  {
    CallStep(mem, w, tie);
    var called := WalkOne(mem, w, tie).walker;
    ReturnStep(mem, called, tie);
    var back := WalkOne(mem, called, tie).walker;
    assert called.tag == TagOf(mem(w.tag).quad).addr && !called.done && !back.done;
    TwoTags(mem, w, tie);
    hide WalkOne, TagOf, Plus, Walk;
    SameEnds(back.stack, back.tag, w.stack, Plus(w.tag, 1 + TagOf(mem(w.tag).quad).qwc));
  }

  lemma TwoTags(mem: Memory, w: Walker, tie: bool)
    ensures Walk(mem, w, tie, 2).walker == WalkOne(mem, WalkOne(mem, w, tie).walker, tie).walker
  {
    hide WalkOne;
    assert Walk(mem, w, tie, 0).walker == w;
    assert Walk(mem, w, tie, 1).walker == WalkOne(mem, w, tie).walker;
  }

  // ---------------------------------------------------------------------------------------
  // The channel
  // ---------------------------------------------------------------------------------------

  datatype Status = BusError | Stalled | Moved | Again | Finished

  /** The interrupt bit ends the transfer, and does nothing else. */
  lemma TakesTag(mem: Memory, w: Walker, t: Tag, tie: bool)
    ensures var plain := Tag(t.qwc, t.id, false, t.addr);
      DataStart(w, t) == DataStart(w, plain) &&
      var v := Onward(mem, w, plain, false);
      Onward(mem, w, t, tie) == v.(done := v.done || (tie && t.irq))
  {
  }

  lemma WalkFurther(mem: Memory, start: Walker, tie: bool, n: nat, w: Walker)
    requires !w.done && mem(w.tag).Word? && Walk(mem, start, tie, n).walker == w
    ensures var t := TagOf(mem(w.tag).quad); var a := DataStart(w, t); var r := Walk(mem, start, tie, n);
      Walk(mem, start, tie, n + 1) ==
      Walked(Onward(mem, w, t, tie), r.data + DataAt(mem, a, t.qwc), r.intact && Whole(mem, a, t.qwc))
  {
  }

  /** How much one transfer offers: in intermittent mode, less. */
  function Slice(imt: bool, qwc: nat): (n: nat)
    ensures n <= qwc && (qwc > 0 ==> n > 0)
    ensures imt ==> if 8 <= qwc <= 128 then n == 8 else if qwc >= 1024 then n == 1024 else n == qwc
  {
    if !imt then qwc
    else if qwc > 128 then if qwc < 1024 then qwc else 1024
    else if qwc < 8 then qwc else 8
  }

  class Channel {
    const mem: Memory
    const tie: bool
    var madr: u32
    var tadr: u32
    var qwc: nat
    var asr0: u32
    var asr1: u32
    var asp: nat
    var tagId: Id // from chcr.TAG, the last tag read
    var done: bool // gspath3done
    ghost const start: Walker
    ghost const first: seq<Quad> // what was left of a transfer before the first tag
    ghost var tags: nat
    ghost var intact: bool // the data of each tag so far was wholly mapped, or dropped whole
    ghost var delivered: seq<Quad>

    ghost function Stack(): seq<u32>
      reads `asp, `asr0, `asr1
    {
      if asp == 0 then [] else if asp == 1 then [asr0] else if asp == 2 then [asr0, asr1] else [asr0, asr1, 0]
    }

    /** Behind the data of a CNT tag, tadr follows madr, if that is not dropped. */
    ghost function NextTag(): u32
      reads `tagId, `madr, `tadr, `qwc
    {
      if tagId.Cnt? && qwc > 0 && mem(madr).Word? then Plus(madr, qwc) else tadr
    }

    ghost function Rest(): seq<Quad>
      reads `madr, `qwc
    {
      DataAt(mem, madr, qwc)
    }

    /** The channel is where the walk is after so many tags, and has delivered all but the rest of the data. */
    ghost predicate Follows()
      reads `madr, `tadr, `qwc, `asr0, `asr1, `asp, `tagId, `done, `tags, `delivered
    {
      var r := Walk(mem, start, tie, tags);
      Walker(NextTag(), Stack(), done) == r.walker && delivered + Rest() == first + r.data && r.intact &&
      Whole(mem, madr, qwc)
    }

    ghost predicate Valid()
      reads this
    {
      asp <= 3 && qwc < 0x1_0000 && (intact ==> Follows())
    }

    /** dmaGIF in chain mode, with the registers as the program left them. */
    constructor (mem: Memory, tie: bool, madr: u32, tadr: u32, qwc: nat, asr0: u32, asr1: u32, asp: nat, last: Tag)
      requires asp <= 3 && qwc < 0x1_0000
      ensures Valid() && delivered == [] && tags == 0 && this.mem == mem && this.tie == tie
      ensures first == DataAt(mem, madr, qwc) && intact == Whole(mem, madr, qwc)
      ensures done <==> qwc > 0 && (last.id.Refe? || last.id.End? || (last.irq && tie))
    {
      this.mem, this.tie := mem, tie;
      this.madr, this.tadr, this.qwc := madr, tadr, qwc;
      this.asr0, this.asr1, this.asp := asr0, asr1, asp;
      tagId := last.id;
      var over := qwc > 0 && (last.id.Refe? || last.id.End? || (last.irq && tie));
      done := over;
      var stack := if asp == 0 then [] else if asp == 1 then [asr0] else [asr0, asr1];
      if asp > 2 { stack := [asr0, asr1, 0]; }
      start := Walker(if last.id.Cnt? && qwc > 0 && mem(madr).Word? then Plus(madr, qwc) else tadr, stack, over);
      first := DataAt(mem, madr, qwc);
      tags := 0;
      intact := Whole(mem, madr, qwc);
      delivered := [];
    }

    /** Sets the data's address and the next tag's by the tag's kind; true if the transfer ends with this tag. */
    method hwDmacSrcChainWithStack(id: Id) returns (end: bool)
      requires asp <= 3 && tagId == id
      modifies `tadr, `madr, `asr0, `asr1, `asp
      ensures var (w, t) := (Walker(old(tadr), old(Stack()), false), Tag(qwc, id, false, old(madr)));
        Walker(NextTag(), Stack(), end) == Onward(mem, w, t, false) && madr == DataStart(w, t) && asp <= 3
      ensures id.Ret? && old(asp) == 1 ==> asr0 == 0 // the register is read as zero once it is popped
      ensures id.Ret? && old(asp) == 2 ==> asr1 == 0
    {
      PlusPlus(Plus(tadr, 1), 0, 0);
      match id {
        case Refe =>
          tadr := Plus(tadr, 1);
          return true;
        case Cnt =>
          tadr := Plus(tadr, 1);
          madr := tadr;
          return false;
        case Next =>
          var temp := madr;
          madr := Plus(tadr, 1);
          tadr := temp;
          return false;
        case Ref =>
          tadr := Plus(tadr, 1);
          return false;
        case Refs =>
          tadr := Plus(tadr, 1);
          return false;
        case Call =>
          var temp := madr;
          madr := Plus(tadr, 1);
          if asp == 0 {
            asr0 := Plus(madr, qwc);
            asp := asp + 1;
          } else if asp == 1 {
            asr1 := Plus(madr, qwc);
            asp := asp + 1;
          } else {
            return true; // the stack is full
          }
          tadr := temp;
          return false;
        case Ret =>
          madr := Plus(tadr, 1);
          if asp == 2 {
            tadr := asr1;
            asr1 := 0;
            asp := asp - 1;
          } else if asp == 1 {
            tadr := asr0;
            asr0 := 0;
            asp := asp - 1;
          } else {
            return true; // nothing to return to
          }
          return false;
        case End =>
          madr := Plus(tadr, 1);
          return true;
      }
    }

    /** Reads the next tag; false if there is no memory at its address. */
    method ReadTag() returns (ok: bool)
      requires Valid() && qwc == 0 && !done
      modifies `madr, `tadr, `qwc, `asr0, `asr1, `asp, `tagId, `done, `tags, `intact
      ensures Valid() && ok == mem(old(tadr)).Word?
      ensures tags == (if ok then old(tags) + 1 else old(tags)) && (!ok ==> qwc == 0 && tadr == old(tadr))
      ensures delivered == old(delivered)
    {
      match mem(tadr) {
        case Unmapped =>
          return false;
        case Word(quad) =>
          TakeTag(TagOf(quad));
          return true;
      }
    }

    /** The tag's fields go into the registers. */
    method TakeTag(tag: Tag)
      requires Valid() && qwc == 0 && !done && mem(tadr).Word? && tag == TagOf(mem(tadr).quad)
      modifies `madr, `tadr, `qwc, `asr0, `asr1, `asp, `tagId, `done, `tags, `intact
      ensures Valid() && tags == old(tags) + 1
    {
      hide After, Onward, DataStart, TagOf, Whole, Plus, Walk, WalkOne, DataAt;
      ghost var w := Walker(tadr, Stack(), false);
      assert intact ==> Walk(mem, start, tie, tags).walker == w;
      assert intact ==> delivered == first + Walk(mem, start, tie, tags).data by {
        NoData(mem, madr);
        assert Rest() == [];
      }
      SetRegisters(tag);
      hide NextTag, Stack;
      if intact {
        WalkFurther(mem, start, tie, tags, w);
        Associate(first, Walk(mem, start, tie, tags).data, Rest());
      }
      tags := tags + 1;
      intact := intact && Whole(mem, madr, qwc);
      assert intact ==> Follows();
    }

    method SetRegisters(tag: Tag)
      requires asp <= 3
      modifies `madr, `tadr, `qwc, `asr0, `asr1, `asp, `tagId, `done
      ensures qwc == tag.qwc && asp <= 3
      ensures var w := Walker(old(tadr), old(Stack()), false);
        Walker(NextTag(), Stack(), done) == Onward(mem, w, tag, tie) && madr == DataStart(w, tag)
    {
      TakesTag(mem, Walker(tadr, Stack(), false), tag, tie);
      hide After, Onward, DataStart;
      qwc, tagId := tag.qwc, tag.id;
      madr := tag.addr;
      done := hwDmacSrcChainWithStack(tag.id);
      if tie && tag.irq { done := true; }
    }

    method hwDmacSrcTadrInc()
      modifies `tadr
      ensures tadr == if tagId.Cnt? then madr else old(tadr)
    {
      if tagId.Cnt? { tadr := madr; }
    }

    method incGifChAddr(n: nat)
      requires n <= qwc
      modifies `madr, `qwc, `tadr
      ensures madr == Plus(old(madr), n) && qwc == old(qwc) - n
      ensures tadr == if tagId.Cnt? then madr else old(tadr)
    {
      madr := Plus(madr, n);
      qwc := qwc - n;
      hwDmacSrcTadrInc();
    }

    /** Offers the GIF some of the data, of which it takes up to `accepts` words. Unmapped data is dropped. */
    method GIFchain(imt: bool, accepts: nat) returns (moved: nat)
      requires Valid() && qwc > 0
      modifies `madr, `qwc, `tadr, `intact, `delivered
      ensures Valid() && tags == old(tags) && intact == old(intact)
      ensures mem(old(madr)).Word? ==>
        moved == Min(accepts, Slice(imt, old(qwc))) && qwc == old(qwc) - moved && madr == Plus(old(madr), moved)
      ensures mem(old(madr)).Word? ==> delivered == old(delivered) + old(Rest())[..moved]
      ensures mem(old(madr)).Unmapped? ==> moved == qwc == 0 && delivered == old(delivered)
    {
      hide Walk, After, Readable, WordsAt, Plus, DataAt, Whole;
      NoData(mem, Plus(madr, qwc));
      if mem(madr).Unmapped? {
        DataDropped(mem, madr, qwc);
        madr := Plus(madr, qwc);
        qwc := 0;
        return 0;
      }
      moved := Min(accepts, Slice(imt, qwc));
      ghost var (before, was, next) := (Rest(), delivered, NextTag());
      DataSplit(mem, madr, moved, qwc);
      PlusPlus(madr, moved, qwc - moved);
      delivered := delivered + WordsAt(mem, madr, moved);
      incGifChAddr(moved);
      if intact {
        Associate(was, before[..moved], Rest());
        assert delivered + Rest() == was + before;
        assert NextTag() == next;
        hide NextTag, Stack;
        assert Follows();
      }
    }

    /** One round: at most one tag is read and at most one transfer made. */
    method GIFdma(canDoPath3: bool, imt: bool, accepts: nat) returns (status: Status)
      requires Valid()
      modifies this
      ensures Valid() && old(delivered) <= delivered
      ensures status == BusError <==> old(!done && qwc == 0) && mem(old(tadr)).Unmapped?
      ensures tags == old(tags) + if old(!done && qwc == 0) && status != BusError then 1 else 0
      ensures status == Finished ==> done && qwc == 0
      ensures status == Again ==> !done && qwc == 0 && tags > old(tags)
      ensures status == Stalled ==> !canDoPath3 && qwc > 0 && delivered == old(delivered)
      ensures status == Moved && old(qwc) > 0 && mem(old(madr)).Word? ==>
        old(qwc) - qwc == |delivered| - |old(delivered)| == Min(accepts, Slice(imt, old(qwc)))
    {
      if !done && qwc == 0 {
        var ok := ReadTag();
        if !ok { return BusError; }
      }
      if qwc > 0 {
        if !canDoPath3 { return Stalled; }
        var moved := GIFchain(imt, accepts);
        return Moved;
      }
      return if done then Finished else Again;
    }
  }

  /**
    However the GIF splits the data: two channels started alike have delivered the same words once
    they have delivered equally many, and once both are through.
   */
  lemma SplitsAgree(a: Channel, b: Channel)
    requires a.Valid() && b.Valid() && a.intact && b.intact
    requires a.mem == b.mem && a.tie == b.tie && a.start == b.start && a.first == b.first
    ensures |a.delivered| == |b.delivered| ==> a.delivered == b.delivered
    ensures a.done && b.done && a.qwc == b.qwc == 0 ==> a.delivered == b.delivered && a.tadr == b.tadr
  {
    hide Walk;
    var (m, n) := (a.tags, b.tags);
    if m <= n {
      WalkPrefix(a.mem, a.start, a.tie, m, n);
    } else {
      WalkPrefix(a.mem, a.start, a.tie, n, m);
    }
    var (x, y) := (a.first + Walk(a.mem, a.start, a.tie, m).data, a.first + Walk(a.mem, a.start, a.tie, n).data);
    assert a.delivered + a.Rest() == x && b.delivered + b.Rest() == y;
    SamePrefix(a.delivered, b.delivered, x, y);
    if a.qwc == b.qwc == 0 {
      assert a.delivered == x && b.delivered == y;
    }
  }

  /** How many of n words at `a` are delivered if the GIF takes up to ks[0] of them, then up to ks[1], and so on. */
  function Deliver(mem: Memory, a: u32, n: nat, ks: seq<nat>): nat
    decreases |ks|
  {
    if ks == [] || n == 0 || mem(a).Unmapped? then 0
    else
      var m := Min(ks[0], n);
      m + Deliver(mem, Plus(a, m), n - m, ks[1..])
  }

  /** The data is used up: delivered or dropped. */
  predicate UsesUp(mem: Memory, a: u32, n: nat, ks: seq<nat>)
    decreases |ks|
  {
    n == 0 || (ks != [] && (mem(a).Unmapped? || var m := Min(ks[0], n); UsesUp(mem, Plus(a, m), n - m, ks[1..])))
  }

  /** Exactly the data of a tag that is wholly mapped or begins in unmapped memory is the same for every split. */
  lemma SplitsAgreeExactly(mem: Memory, a: u32, n: nat)
    ensures (forall ks, ls :: UsesUp(mem, a, n, ks) && UsesUp(mem, a, n, ls) ==>
        Deliver(mem, a, n, ks) == Deliver(mem, a, n, ls)) <==>
      Whole(mem, a, n)
  {
    if Whole(mem, a, n) {
      forall ks | UsesUp(mem, a, n, ks)
        ensures Deliver(mem, a, n, ks) == if Dropped(mem, a, n) then 0 else n
      {
        if !Dropped(mem, a, n) { DeliverAll(mem, a, n, ks); }
      }
    } else {
      var k :| 0 <= k < n && mem(Plus(a, k)).Unmapped?;
      PlusPlus(a, 0, 0);
      DeliverPart(mem, a, n, k);
      assert UsesUp(mem, a, n, [n]) && UsesUp(mem, a, n, [k, 1]);
    }
  }

  lemma {:induction false} DeliverAll(mem: Memory, a: u32, n: nat, ks: seq<nat>)
    requires Readable(mem, a, n) && UsesUp(mem, a, n, ks)
    ensures Deliver(mem, a, n, ks) == n
    decreases |ks|
  {
    if n > 0 {
      PlusPlus(a, 0, 0);
      assert mem(Plus(a, 0)).Word?;
      var m := Min(ks[0], n);
      WordsSplit(mem, a, m, n);
      DeliverAll(mem, Plus(a, m), n - m, ks[1..]);
    }
  }

  /** Taken whole, and split before the k-th word, which is not mapped. */
  lemma DeliverPart(mem: Memory, a: u32, n: nat, k: nat)
    requires 0 < k < n && mem(a).Word? && mem(Plus(a, k)).Unmapped?
    ensures UsesUp(mem, a, n, [n]) && Deliver(mem, a, n, [n]) == n
    ensures UsesUp(mem, a, n, [k, 1]) && Deliver(mem, a, n, [k, 1]) == k
  {
    assert [n][1..] == [] && [k, 1][1..] == [1];
    assert Deliver(mem, Plus(a, n), 0, []) == 0 && UsesUp(mem, Plus(a, n), 0, []);
    assert Deliver(mem, Plus(a, k), n - k, [1]) == 0 && UsesUp(mem, Plus(a, k), n - k, [1]);
  }

  /**
    For unmapped data they do differ: if the k-th word is not mapped but the first is, a transfer
    that the GIF takes whole delivers all words, and one that it splits there delivers only k.
   */
  method SplitMatters(a: Channel, b: Channel, k: nat)
    requires a != b && a.Valid() && b.Valid() && a.mem == b.mem && a.madr == b.madr && a.qwc == b.qwc
    requires 0 < k < a.qwc && a.mem(a.madr).Word? && a.mem(Plus(a.madr, k)).Unmapped?
    modifies a, b
    ensures a.qwc == b.qwc == 0
    ensures |a.delivered| == old(|a.delivered| + a.qwc) && |b.delivered| == old(|b.delivered|) + k
  {
    hide Channel.Follows, Plus;
    var moved := a.GIFchain(false, a.qwc);
    moved := b.GIFchain(false, k);
    moved := b.GIFchain(false, b.qwc);
  }
}
