/**
  The GIF unit: three paths, the arbitration between them, and the SIGNAL stall.
 */
module GifUnit {
  import opened GifParser
  import opened GifPath

  /** A packet has begun. */
  predicate InPacket(p: Phase) {
    p.InPacked? || p.InReglist? || p.InImage?
  }

  datatype Transfer = Xgkick | Direct | DirectHl | Dma | Fifo

  class Unit {
    const path1: Path
    const path2: Path
    const path3: Path
    // The GIF_STAT bits that arbitration reads or writes; apath is 0 or the number of the active path.
    var apath: nat
    var m3r: bool
    var m3p: bool
    var imt: bool
    var pse: bool
    var dir: bool
    var oph: bool
    var ip3: bool
    var p1q: bool
    var p2q: bool
    var p3q: bool
    // CSR, SIGLBLID and the queued SIGNAL.
    var sig: Signals

    ghost predicate Separate()
    {
      path1 != path2 && path1 != path3 && path2 != path3 &&
      path1.buffer != path2.buffer && path1.buffer != path3.buffer && path2.buffer != path3.buffer
    }

    ghost predicate Valid()
      reads this, path1, path1.buffer, path2, path2.buffer, path3, path3.buffer
    {
      Separate() && path1.Valid() && path2.Valid() && path3.Valid() && apath <= 3 && Delivered(sig)
    }

    constructor (buffSize: nat, safeZone: nat)
      requires safeZone <= buffSize
      ensures Valid() && sig == NO_SIGNALS && apath == 0
      ensures !(m3r || m3p || imt || pse || dir || oph || ip3 || p1q || p2q || p3q)
      ensures path1.copied == [] && path2.copied == [] && path3.copied == []
    {
      hide Path.Inv;
      path1 := new Path(buffSize, safeZone);
      path2 := new Path(buffSize, safeZone);
      path3 := new Path(buffSize, safeZone);
      apath := 0;
      m3r, m3p, imt, pse, dir := false, false, false, false, false;
      oph, ip3, p1q, p2q, p3q := false, false, false, false, false;
      sig := NO_SIGNALS;
    }

    // -------------------------------------------------------------------------------------
    // What may run
    // -------------------------------------------------------------------------------------

    predicate CanDoGif()
      reads `pse, `dir, `sig
    {
      !pse && !dir && !sig.queued
    }

    /** Masking stops the next packet of path 3, not one that has started. */
    predicate Path3Masked()
      reads `m3r, `m3p, path3`phase
    {
      (m3r || m3p) && (path3.phase.Idle? || path3.phase.Waiting?)
    }

    predicate CanDoP3Slice()
      reads `imt, path3`phase
    {
      imt && path3.phase.InImage?
    }

    predicate CanDoPath1()
      reads `pse, `dir, `sig, `apath, `imt, path3`phase
    {
      (apath == 0 || apath == 1 || (apath == 3 && CanDoP3Slice())) && CanDoGif()
    }

    predicate CanDoPath2()
      reads `pse, `dir, `sig, `apath, `imt, path3`phase
    {
      (apath == 0 || apath == 2 || (apath == 3 && CanDoP3Slice())) && CanDoGif()
    }

    predicate CanDoPath2HL()
      reads `pse, `dir, `sig, `apath
    {
      (apath == 0 || apath == 2) && CanDoGif()
    }

    predicate CanDoPath3()
      reads `pse, `dir, `sig, `apath, `m3r, `m3p, path3`phase
    {
      ((apath == 0 && !Path3Masked()) || apath == 3) && CanDoGif()
    }

    /** A path that has something to do and may do it. */
    predicate Runnable(i: nat)
      reads this, path1, path2, path3
    {
      !sig.queued &&
      ((i == 1 && !path1.IsDone()) || (i == 2 && !path2.IsDone()) || (i == 3 && !path3.IsDone() && !Path3Masked()))
    }

    /** The runnable path with the smallest number, or 0. */
    function NextPath(): (i: nat)
      reads this, path1, path2, path3
      ensures i == 0 <==> !Runnable(1) && !Runnable(2) && !Runnable(3)
      ensures i != 0 ==> Runnable(i) && forall j :: 1 <= j < i ==> !Runnable(j)
    {
      if !sig.queued && !path1.IsDone() then 1
      else if !sig.queued && !path2.IsDone() then 2
      else if !sig.queued && !path3.IsDone() && !Path3Masked() then 3
      else 0
    }

    /** The path that is transferring. */
    function Active(): Path
      requires 1 <= apath <= 3
      reads `apath
    {
      if apath == 1 then path1 else if apath == 2 then path2 else path3
    }

    ghost function ToDo(): int
      reads path1, path2, path3
    {
      path1.ToDo() + path2.ToDo() + path3.ToDo()
    }

    /** A path is active and needs data. */
    ghost predicate Hungry()
      requires Valid()
      reads this, path1, path1.buffer, path2, path2.buffer, path3, path3.buffer
    {
      apath != 0 && Active().Starved(sig, apath == 3)
    }

    lemma SomeToDo()
      requires Valid()
      ensures ToDo() >= 0
    {
    }

    // -------------------------------------------------------------------------------------
    // Arbitration
    // -------------------------------------------------------------------------------------

    /** Packets are only ever added to what each path has handed over, and nothing copied is lost but the cut. */
    twostate predicate Conserved(cut: seq<byte>)
      reads path1, path2, path3
    {
      old(path1.handed) <= path1.handed && path1.copied == old(path1.copied) &&
      old(path2.handed) <= path2.handed && path2.copied == old(path2.copied) &&
      old(path3.handed) <= path3.handed && path3.copied + cut == old(path3.copied)
    }

    /** One call of the active path's parser; a completed packet goes to the GS thread. */
    method RunActive() returns (done: bool, ghost cut: seq<byte>)
      requires Valid() && 1 <= apath <= 3 && !sig.queued
      modifies `sig, Active(), Active().buffer
      ensures Valid() && Conserved(cut) && old(sig.log) <= sig.log
      ensures if done then ToDo() < old(ToDo()) && Active().phase == Rested(apath == 3)
        else sig.queued || Hungry()
      ensures cut != [] ==> done && apath == 3 && path3.IsDone()
      ensures if apath == 3 && (m3r || m3p) then done ==> path3.IsDone() else cut == []
      ensures path3.dmaRewind == if done && apath == 3 then |cut| else old(path3.dmaRewind)
    {
      hide Path.Inv, Path.Valid, Delivered, Exec, Step;
      var path := Active();
      var sig';
      done, sig', cut := path.ExecuteAndAdd(sig, apath == 3, m3r || m3p);
      sig := sig';
    }

    /** The same, if a path is active; otherwise there is nothing to parse. */
    method RunIfActive() returns (done: bool, ghost cut: seq<byte>)
      requires Valid() && (apath != 0 ==> !sig.queued)
      modifies `sig, path1, path1.buffer, path2, path2.buffer, path3, path3.buffer
      ensures Valid() && Conserved(cut) && old(sig.log) <= sig.log
      ensures done && apath == 0 ==> ToDo() == old(ToDo())
      ensures done && apath != 0 ==> ToDo() < old(ToDo()) && Active().phase == Rested(apath == 3)
      ensures !done ==> apath != 0 && (sig.queued || Hungry())
      ensures cut != [] ==> done && apath == 3 && path3.IsDone()
      ensures if apath == 3 && (m3r || m3p) then done ==> path3.IsDone() else cut == []
      ensures path3.dmaRewind == if done && apath == 3 then |cut| else old(path3.dmaRewind)
      ensures apath != 1 ==> path1.IsDone() == old(path1.IsDone())
      ensures apath != 2 ==> path2.IsDone() == old(path2.IsDone())
      ensures apath != 3 ==> path3.IsDone() == old(path3.IsDone())
      ensures apath == 0 ==> NextPath() == old(NextPath())
      ensures old(InOrder()) ==> InOrder()
      ensures forall c: nat :: old(BehindPath1(c)) ==> BehindPath1(c)
    {
      hide Path.Inv, Delivered, Exec, Path.Starved;
      done, cut := true, [];
      if apath != 0 {
        done, cut := RunActive();
      }
    }

    /** What Execute leaves nothing of: a SIGNAL is queued, no path may run, or the active one needs data. */
    ghost predicate Exhausted()
      requires Valid()
      reads this, path1, path1.buffer, path2, path2.buffer, path3, path3.buffer
    {
      sig.queued || NextPath() == 0 || Hungry()
    }

    /** Path 1 is done, and another path has been the last one or is the next. */
    predicate BehindPath1(curPath: nat)
      reads this, path1, path2, path3
    {
      path1.IsDone() && apath != 1 && (curPath != 0 || (apath == 0 && NextPath() != 0))
    }

    /** A path that was chosen goes behind those with smaller numbers. */
    predicate InOrder()
      reads this, path1, path2
    {
      (apath >= 2 ==> path1.IsDone()) && (apath >= 3 ==> path2.IsDone())
    }

    /** The active path needs data, and is none that is interrupted. */
    ghost predicate Holds()
      requires Valid()
      reads this, path1, path1.buffer, path2, path2.buffer, path3, path3.buffer
    {
      Hungry() && !(apath == 3 && CanDoP3Slice())
    }

    /** No path with something left waits, but for one that comes before it or that held the bus already. */
    twostate predicate Served()
      requires Valid()
      reads this, path1, path1.buffer, path2, path2.buffer, path3, path3.buffer
    {
      sig.queued || InOrder() || (Unmoved() && Holds())
    }

    /** The bits of GIF_STAT that say who transfers and who waits are as they were. */
    twostate predicate Unmoved()
      reads this
    {
      apath == old(apath) && ip3 == old(ip3) && p1q == old(p1q) && p2q == old(p2q) && p3q == old(p3q)
    }

    /** With nothing left to choose, every byte but those of a masked path 3 is with the GS thread. */
    lemma NothingLeft()
      requires Valid() && NextPath() == 0 && !sig.queued
      ensures path1.handed == path1.copied && path2.handed == path2.copied
      ensures !Path3Masked() ==> path3.handed == path3.copied
    {
      hide Path.Inv;
      path1.DoneIsHanded();
      path2.DoneIsHanded();
      if !Path3Masked() { path3.DoneIsHanded(); }
    }

    /** The next path to transfer, if any; a resume, or path 1 running out, ends the transfer. */
    method Select(isResume: bool, curPath: nat) returns (go: bool, curPath': nat)
      requires Valid()
      modifies `apath, `oph, `ip3, `p1q, `p2q, `p3q
      ensures Valid() && go == (NextPath() != 0)
      ensures go ==> apath == NextPath() && curPath' == apath - 1 && InOrder()
      ensures oph == (old(oph) && (go || !(isResume || curPath == 0)))
      ensures go && apath == 1 ==> !p1q
      ensures go && apath == 2 ==> !p2q
      ensures go && apath == 3 ==> !p3q && !ip3
      ensures !go ==> curPath' == curPath && apath == (if isResume || curPath == 0 then 0 else old(apath))
      ensures !go ==> Exhausted() && (sig.queued || InOrder())
      ensures old(BehindPath1(curPath)) ==> BehindPath1(curPath') && (!go ==> curPath' != 0)
      ensures (p1q ==> old(p1q)) && (p2q ==> old(p2q)) && (p3q ==> old(p3q))
    {
      hide Path.Inv, Delivered;
      go, curPath' := true, curPath;
      var next := NextPath();
      if next == 1 {
        apath, p1q, curPath' := 1, false, 0;
      } else if next == 2 {
        apath, p2q, curPath' := 2, false, 1;
      } else if next == 3 {
        apath, p3q, ip3, curPath' := 3, false, false, 2;
      } else {
        if isResume || curPath == 0 {
          apath, oph := 0, false;
        }
        go := false;
      }
    }

    /** Lets the other paths go before the rest of path 3's image. */
    method InterruptPath3()
      requires Valid() && path3.phase.InImage?
      modifies `apath, `ip3, path3
      ensures InOrder() && forall c: nat :: c != 0 && old(BehindPath1(c)) ==> BehindPath1(c)
      ensures !sig.queued && !(path1.IsDone() && path2.IsDone()) ==> NextPath() != 0
      ensures Valid() && Conserved([]) && apath == 0 && ip3 && !path3.IsDone()
      ensures path3.dmaRewind == old(path3.dmaRewind) && path3.phase == old(path3.phase) && path3.gsPack.size <= 16
    {
      hide Path.Inv, Delivered, Exec;
      apath, ip3 := 0, true;
      path3.SlicePacket();
    }

    /** All of the active path's data is parsed: the packet has not ended, but its tags are all there. */
    predicate Parsed()
      requires apath <= 3
      reads this, path1, path2, path3
    {
      apath != 0 && Active().curOffset == Active().curSize && !Active().gifTag.isValid
    }

    method FlushToMTGS()
      requires Valid()
      modifies path1, path2, path3
      ensures Valid() && Conserved([]) && Exhausted() == old(Exhausted())
      ensures path3.dmaRewind == old(path3.dmaRewind)
      ensures InOrder() == old(InOrder()) && Holds() == old(Holds())
      ensures Hungry() == old(Hungry())
      ensures Parsed() == old(Parsed()) && (Parsed() ==> Active().gsPack.size == 0)
      ensures apath == 0 ==> unchanged(path1, path2, path3)
    {
      hide Path.Inv, Delivered, Exec, Path.Starved;
      if apath != 0 {
        Active().FlushToMTGS();
      }
    }

    /** Hands over what is complete of the path that was last, if all of its data is parsed. */
    method FlushLast(curPath: nat)
      requires Valid() && (apath != 0 ==> curPath == apath - 1)
      modifies path1, path2, path3
      ensures Valid() && Conserved([]) && Exhausted() == old(Exhausted())
      ensures path3.dmaRewind == old(path3.dmaRewind)
      ensures InOrder() == old(InOrder()) && Holds() == old(Holds())
      ensures Hungry() == old(Hungry())
      ensures Parsed() == old(Parsed())
      ensures if old(Parsed()) then Active().gsPack.size == 0
        else (apath != 0 && old(Active().curOffset == Active().curSize)) || unchanged(path1, path2, path3)
    {
      hide Path.Inv, Delivered, Exec, Hungry, InOrder, Holds, Exhausted;
      var path := if curPath == 0 then path1 else if curPath == 1 then path2 else path3;
      if path.curOffset == path.curSize {
        FlushToMTGS();
      }
    }

    /**
      One round of Execute's loop: parse, hand over, arbitrate. Another round follows only after a
      first interruption of path 3, or after parsing something, or after choosing a path.
     */
    method Round(isResume: bool, didPath3: bool, curPath: nat, ghost chosen: bool)
      returns (go: bool, didPath3': bool, curPath': nat, ghost cut: seq<byte>, ghost chosen': bool)
      requires Valid() && (apath != 0 ==> curPath == apath - 1 && !sig.queued)
      requires (didPath3 ==> chosen) && (chosen ==> InOrder())
      requires oph && (apath == 0 ==> curPath == 0 || NextPath() != 0)
      modifies `apath, `oph, `ip3, `p1q, `p2q, `p3q, `sig, path1, path1.buffer, path2, path2.buffer, path3, path3.buffer
      ensures Valid() && Conserved(cut) && old(sig.log) <= sig.log
      ensures apath != 0 ==> curPath' == apath - 1
      ensures if go then apath != 0 ==> !sig.queued else Exhausted()
      ensures go ==> (
        (didPath3' && !didPath3) ||
        (didPath3' == didPath3 && (ToDo() < old(ToDo()) || (ToDo() == old(ToDo()) && old(apath) == 0 && apath != 0))))
      ensures (didPath3' ==> chosen') && (go && chosen' ==> InOrder()) && (!chosen' ==> !chosen && Unmoved())
      ensures oph == (go || apath != 0) && (go && apath == 0 ==> curPath' == 0 || NextPath() != 0)
      ensures !go ==> sig.queued || InOrder() || (!chosen' && Holds())
      ensures old(BehindPath1(curPath)) ==> BehindPath1(curPath') && (!go ==> curPath' != 0)
      ensures !go && apath == 0 ==> isResume || curPath' == 0
      ensures !go && isResume ==> sig.queued || apath == 0 || Hungry()
      ensures (p1q ==> old(p1q)) && (p2q ==> old(p2q)) && (p3q ==> old(p3q))
      ensures didPath3' != didPath3 ==>
        old(apath) == 3 && apath == 0 && ip3 && imt && path3.phase.InImage? && path3.gsPack.size <= 16 &&
        !sig.queued && !(path1.IsDone() && path2.IsDone())
      ensures cut != [] ==> old(apath) == 3 && (m3r || m3p) && path3.IsDone() && path3.dmaRewind == |cut|
      ensures cut == [] ==> path3.dmaRewind == old(path3.dmaRewind) || (old(apath) == 3 && path3.dmaRewind == 0)
      ensures old(apath) != 3 ==> path3.IsDone() == old(path3.IsDone())
      ensures go && path3.IsDone() ==> apath != 3
    {
      hide Path.Inv, Path.Valid, Delivered, Exec, Hungry, InOrder, BehindPath1, Holds, Exhausted, NextPath, Path.ToDo;
      go, didPath3', curPath', chosen' := true, didPath3, curPath, chosen;
      var done;
      done, cut := RunIfActive();
      if done {
        // The packet was complete, so the path at curPath rests and its packet was added.
        assert apath != 0 ==> curPath == apath - 1 && Active().phase == Rested(apath == 3);
        go, curPath' := Select(isResume, curPath);
        chosen' := true;
      } else if apath == 3 && CanDoP3Slice() && !sig.queued && !didPath3 && !(path1.IsDone() && path2.IsDone()) {
        didPath3', chosen' := true, true;
        InterruptPath3();
      } else {
        StaysPut(didPath3);
        go := false;
      }
    }

    /** A path that needs data and is not interrupted ends the loop. */
    lemma StaysPut(didPath3: bool)
      requires Valid() && apath != 0 && (sig.queued || Hungry()) && (didPath3 ==> InOrder())
      requires !(apath == 3 && CanDoP3Slice() && !sig.queued && !didPath3 && !(path1.IsDone() && path2.IsDone()))
      ensures Exhausted() && (sig.queued || InOrder() || Holds())
      ensures forall c: nat :: BehindPath1(c) ==> apath != 1
    {
      hide Path.Inv, Delivered, Path.Starved;
    }

    /** Rounds until none is to follow. */
    method Arbitrate(isResume: bool, from: nat) returns (curPath: nat, ghost cut: seq<byte>)
      requires Valid() && !sig.queued && path3.dmaRewind == 0 && oph && from == (if apath == 0 then 0 else apath - 1)
      modifies `apath, `oph, `ip3, `p1q, `p2q, `p3q, `sig, path1, path1.buffer, path2, path2.buffer, path3, path3.buffer
      ensures Valid() && Conserved(cut) && old(sig.log) <= sig.log && Exhausted() && path3.dmaRewind == |cut|
      ensures Served() && oph == (apath != 0) && (!old(m3r || m3p) ==> cut == [])
      ensures if isResume then sig.queued || apath == 0 || Hungry()
        else old(BehindPath1(from)) ==> apath != 0
      ensures (p1q ==> old(p1q)) && (p2q ==> old(p2q)) && (p3q ==> old(p3q)) && (apath != 0 ==> curPath == apath - 1)
    {
      hide Path.Inv, Path.Valid, Delivered, Exec, InOrder, Holds, Exhausted, Hungry, BehindPath1, NextPath, ToDo;
      cut, curPath := [], from;
      var didPath3, go := false, true;
      ghost var chosen := false;
      SomeToDo();
      while go
        invariant Valid() && Conserved(cut) && old(sig.log) <= sig.log && ToDo() >= 0
        invariant apath != 0 ==> curPath == apath - 1
        invariant |cut| == path3.dmaRewind && (cut != [] && go ==> path3.IsDone() && apath != 3)
        invariant if go then apath != 0 ==> !sig.queued else Exhausted() && Served()
        invariant (didPath3 ==> chosen) && (go && chosen ==> InOrder()) && (!chosen ==> Unmoved())
        invariant oph == (go || apath != 0) && (go && apath == 0 ==> curPath == 0 || NextPath() != 0)
        invariant !(m3r || m3p) ==> cut == []
        invariant old(BehindPath1(from)) ==> BehindPath1(curPath) && (!go ==> curPath != 0)
        invariant !go && apath == 0 ==> isResume || curPath == 0
        invariant !go && isResume ==> sig.queued || apath == 0 || Hungry()
        invariant (p1q ==> old(p1q)) && (p2q ==> old(p2q)) && (p3q ==> old(p3q))
        decreases go, !didPath3, ToDo(), apath == 0
      {
        ghost var c;
        go, didPath3, curPath, c, chosen := Round(isResume, didPath3, curPath, chosen);
        if c != [] { cut := c; }
        SomeToDo();
      }
    }

    /**
      Runs the paths' parsers and arbitrates between them, on ends of packets and once on an
      interrupted image of path 3. Returns how many bytes of a DMA transfer are given back.
     */
    method Execute(isPath3: bool, isResume: bool) returns (rewind: nat, ghost cut: seq<byte>)
      requires Valid()
      modifies `apath, `oph, `ip3, `p1q, `p2q, `p3q, `sig, path1, path1.buffer, path2, path2.buffer, path3, path3.buffer
      ensures Valid() && Conserved(cut) && old(sig.log) <= sig.log
      ensures !old(CanDoGif()) ==> cut == [] && sig == old(sig) && rewind == 0 && Unmoved() && oph == old(oph)
      ensures old(CanDoGif()) ==> Exhausted() && rewind == (if isPath3 then |cut| else 0)
      ensures old(CanDoGif()) ==> Served() && oph == (apath != 0) && (!(m3r || m3p) ==> cut == [])
      ensures old(CanDoGif()) && isResume ==> sig.queued || apath == 0 || Hungry()
      ensures old(CanDoGif() && path1.IsDone() && apath != 1 && (apath != 0 || NextPath() != 0)) && !isResume ==>
        apath != 0
      ensures old(CanDoGif()) && Parsed() ==> Active().gsPack.size == 0
      ensures (p1q ==> old(p1q)) && (p2q ==> old(p2q)) && (p3q ==> old(p3q))
    {
      hide Path.Inv, Path.Valid, Delivered, Exec, InOrder, Holds, Exhausted, Hungry;
      if !CanDoGif() { return 0, []; }
      path3.dmaRewind := 0;
      oph := true;
      var curPath;
      curPath, cut := Arbitrate(isResume, if apath > 0 then apath - 1 else 0);
      FlushLast(curPath);
      rewind := if isPath3 then path3.dmaRewind else 0;
    }

    // -------------------------------------------------------------------------------------
    // Requests
    // -------------------------------------------------------------------------------------

    /** Path 1 data and path 3 FIFO data are always buffered; the others wait for the arbiter. */
    predicate Accepts(tran: Transfer)
      reads this, path3
    {
      match tran
      case Xgkick | Fifo => true
      case Dma => CanDoPath3()
      case Direct => CanDoPath2()
      case DirectHl => CanDoPath2HL()
    }

    function Target(tran: Transfer): Path {
      match tran
      case Xgkick => path1
      case Direct | DirectHl => path2
      case Dma | Fifo => path3
    }

    /**
      Who may go while a path transfers: an image of path 3 in intermittent mode lets DIRECT data in,
      but not DIRECTHL data; anything else lets in only its own path. Path 3's DMA may go on with
      what it has begun, and begin only if it is not masked.
     */
    lemma WhoMayGo()
      requires apath <= 3
      ensures Accepts(Direct) <==>
        !pse && !dir && !sig.queued && (apath % 2 == 0 || (apath == 3 && imt && path3.phase.InImage?))
      ensures Accepts(DirectHl) <==> !pse && !dir && !sig.queued && apath % 2 == 0
      ensures Accepts(Dma) <==>
        !pse && !dir && !sig.queued && (apath == 3 || (apath == 0 && (!(m3r || m3p) || InPacket(path3.phase))))
      ensures CanDoPath1() <==>
        !pse && !dir && !sig.queued && (apath <= 1 || (apath == 3 && imt && path3.phase.InImage?))
      ensures Accepts(Xgkick) && Accepts(Fifo)
    {
    }

    /** Starts a transfer; returns how many of the bytes it took. */
    method TransferGSPacketData(tran: Transfer, data: seq<byte>) returns (taken: int, ghost cut: seq<byte>)
      requires Valid()
      requires Target(tran).curSize - Target(tran).gsPack.offset + |data| <= Target(tran).buffer.Length
      modifies `apath, `oph, `ip3, `p1q, `p2q, `p3q, `sig, path1, path1.buffer, path2, path2.buffer, path3, path3.buffer
      ensures Valid() && old(sig.log) <= sig.log
      ensures data == [] || !old(Accepts(tran)) ==> taken == 0 && unchanged(path1, path2, path3, `sig, `apath)
      ensures data != [] && old(Accepts(tran)) ==>
        taken == |data| - (if tran.Dma? then |cut| else 0) &&
        path1.copied == old(path1.copied) + (if tran.Xgkick? then data else []) &&
        path2.copied == old(path2.copied) + (if tran.Direct? || tran.DirectHl? then data else []) &&
        path3.copied + cut == old(path3.copied) + (if tran.Dma? || tran.Fifo? then data else [])
      ensures old(path1.handed) <= path1.handed && old(path2.handed) <= path2.handed &&
        old(path3.handed) <= path3.handed
      ensures data != [] && !old(Accepts(tran)) ==> if tran.Dma? then p3q == old(p3q || !Path3Masked()) else p2q
      ensures data != [] && old(Accepts(tran) && CanDoGif()) ==> Exhausted() && (sig.queued || InOrder() || Holds())
      ensures data != [] && old(Accepts(tran) && CanDoGif() && path1.IsDone() && apath != 1) &&
              (tran.Direct? || tran.DirectHl? || tran.Dma?) ==>
        apath != 0
      ensures (p1q ==> tran.Xgkick? || old(p1q)) && (p3q ==> tran.Dma? || old(p3q))
      ensures p2q ==> tran.Direct? || tran.DirectHl? || old(p2q)
      ensures data != [] && tran.Xgkick? && !old(CanDoPath1()) ==> p1q || (old(CanDoGif()) && (sig.queued || InOrder()))
    {
      hide Path.Inv, Path.Valid, Delivered, Exec, InOrder, Holds, Exhausted, Hungry;
      if data == [] { return 0, []; }
      if !Accepts(tran) {
        if tran.Dma? {
          if !Path3Masked() { p3q := true; }
        } else {
          p2q := true;
        }
        return 0, [];
      }
      if tran.Xgkick? && !CanDoPath1() { p1q := true; }
      ghost var could := CanDoGif();
      Target(tran).CopyGSPacketData(data);
      var rewind;
      rewind, cut := Execute(tran.Dma?, false);
      assert tran.Dma? ==> could;
      taken := |data| - rewind;
    }

    /** A write of the SIGNAL bit to CSR: the queued SIGNAL, if any, takes effect and transfers resume. */
    method AcknowledgeSignal() returns (ghost cut: seq<byte>)
      requires Valid()
      modifies `apath, `oph, `ip3, `p1q, `p2q, `p3q, `sig, path1, path1.buffer, path2, path2.buffer, path3, path3.buffer
      ensures Valid() && Conserved(cut) && old(sig.log) <= sig.log
      ensures pse || dir ==> !sig.queued && sig.log == old(sig.log) && sig.sigid == Fold(sig.log)
      ensures !pse && !dir ==> Exhausted() && (sig.queued || apath == 0 || Hungry())
    {
      hide Path.Inv, Path.Valid, Delivered, Exec, InOrder, Holds, Exhausted, Hungry, Acknowledge, Fold, Served;
      AcknowledgeDelivers(sig);
      sig := Acknowledge(sig);
      var rewind;
      rewind, cut := Execute(false, true);
    }
  }
}
