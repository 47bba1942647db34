/**
  One GIF path (the mode without MTVU): a buffer that packet data is copied into, parsed in
  place, and handed to the GS thread as (offset, size) commands. `received` is what the GS
  thread has passed on, read from the buffer when it ran each command; `handed` is what the
  commands' bytes were when they were sent; `copied` is everything copied in.
 */
module GifPath {
  import opened GifParser
  import opened GsCommands
  import opened Sequences

  datatype GsPacket = GsPacket(offset: nat, size: nat, cycles: nat)

  /** Bytes written at `at` lie behind those that were there before. */
  lemma Spliced(a: seq<byte>, b: seq<byte>, at: nat, data: seq<byte>, lo: nat)
    requires |a| == |b| && lo <= at && at + |data| <= |b|
    requires forall i :: 0 <= i < |b| ==> b[i] == if at <= i < at + |data| then data[i - at] else a[i]
    ensures b[lo..at + |data|] == a[lo..at] + data
  {
  }

  /** A call that completes a packet leaves less to do; one that waits would wait again. */
  lemma Progress(p: Parse, sig: Signals, d: seq<byte>, path3: bool)
    requires Sound(p)
    ensures var r := Exec(p, sig, d, path3);
      (r.verdict.Completes? ==> r.p.phase == Rested(path3) && !r.p.tag.isValid && (r.used > 0 || p.tag.isValid)) &&
      (r.verdict.Waits? ==> Exec(r.p, r.sig, d[r.used..], path3).verdict.Waits?)
  {
    hide Exec, Sound;
    if Exec(p, sig, d, path3).verdict.Waits? {
      WaitsAgain(p, sig, d, path3);
    }
  }

  class Path {
    const buffer: array<byte>
    const buffLimit: nat
    var readAmount: int
    var curSize: nat
    var curOffset: nat
    var dmaRewind: nat
    var gifTag: GifTag
    var gsPack: GsPacket
    var phase: Phase
    // The commands sent for this path that the GS thread has not run yet.
    var queued: seq<GsCommand>

    ghost var received: seq<byte>
    ghost var handed: seq<byte>
    ghost var copied: seq<byte>
    ghost var lap: Lap

    ghost function Parser(): Parse
      reads `gifTag, `gsPack, `phase
    {
      Parse(gifTag, gsPack.size, gsPack.cycles, phase)
    }

    /** The bytes not parsed yet. */
    ghost function Pending(): (d: seq<byte>)
      requires curOffset <= curSize <= buffer.Length
      reads `curOffset, `curSize, buffer
      ensures |d| == curSize - curOffset
    {
      buffer[curOffset..curSize]
    }

    ghost predicate Shape(base: nat)
      reads `readAmount, `curSize, `curOffset, `gifTag, `gsPack, `phase, `queued
    {
      buffLimit <= buffer.Length && base <= gsPack.offset &&
      gsPack.offset + gsPack.size == curOffset <= curSize <= buffer.Length &&
      Sound(Parser()) && readAmount == Sum(queued)
    }

    /** The invariant while the bytes before base have been handed over. */
    ghost predicate Inv(base: nat)
      reads `readAmount, `curSize, `curOffset, `gifTag, `gsPack, `phase, `queued, `received, `handed, `copied, `lap,
        buffer
      ensures Inv(base) ==>
        base <= gsPack.offset && gsPack.offset + gsPack.size == curOffset <= curSize <= buffer.Length
      ensures Inv(base) ==> Sound(Parser())
    {
      Shape(base) && Lies(queued, lap, buffLimit, base, curSize) &&
      received + Bytes(buffer[..], queued) == handed &&
      handed + buffer[base..curSize] == copied
    }

    ghost predicate Valid()
      reads `readAmount, `curSize, `curOffset, `gifTag, `gsPack, `phase, `queued, `received, `handed, `copied, `lap,
        buffer
    {
      Inv(gsPack.offset)
    }

    constructor (buffSize: nat, safeZone: nat)
      requires safeZone <= buffSize
      ensures Valid() && fresh(buffer) && buffer.Length == buffSize && buffLimit == buffSize - safeZone
      ensures curSize == dmaRewind == 0 && queued == [] && received == handed == copied == [] && Parser() == FRESH
    {
      buffer := new byte[buffSize];
      buffLimit := buffSize - safeZone;
      readAmount, curSize, curOffset, dmaRewind := 0, 0, 0, 0;
      gifTag, gsPack, phase := NO_TAG, GsPacket(0, 0, 0), Idle;
      queued, received, handed, copied := [], [], [], [];
      lap := Straight(0);
    }

    // -------------------------------------------------------------------------------------
    // The GS thread
    // -------------------------------------------------------------------------------------

    /** What the GS thread relies on, also while the current packet is being moved. */
    ghost predicate Sendable(base: nat, used: nat)
      reads `readAmount, `queued, `received, `handed, `lap, buffer
    {
      readAmount == Sum(queued) && Lies(queued, lap, buffLimit, base, used) &&
      received + Bytes(buffer[..], queued) == handed
    }

    /** The GS thread runs the oldest command: it reads the packet's bytes out of the buffer. */
    method GsReadOne(ghost base: nat, ghost used: nat)
      requires Sendable(base, used) && queued != []
      modifies `readAmount, `queued, `received, `lap
      ensures Sendable(base, used)
      ensures queued == old(queued)[1..]
      ensures received == old(received) + Taken(buffer[..], old(queued)[0]) <= handed
      ensures lap.Wrapped? ==> old(lap).Wrapped? && old(lap).lo <= lap.lo
    {
      var c := queued[0];
      PopLies(queued, lap, buffLimit, base, used);
      hide Lies, Taken;
      Associate(received, Taken(buffer[..], c), Bytes(buffer[..], queued[1..]));
      received := received + Taken(buffer[..], c);
      readAmount := readAmount - c.size;
      lap := Popped(lap, c, buffLimit);
      queued := queued[1..];
    }

    /** The GS thread may run any number of commands at any time. */
    method GsRun(ghost base: nat, ghost used: nat)
      requires Sendable(base, used)
      modifies `readAmount, `queued, `received, `lap
      ensures Sendable(base, used)
      ensures |queued| <= |old(queued)| && queued == old(queued)[|old(queued)| - |queued|..]
      ensures |old(received)| <= |received|
      ensures lap.Wrapped? ==> old(lap).Wrapped? && old(lap).lo <= lap.lo
    {
      hide Sendable, Taken;
      var n: nat :| n <= |queued|;
      while n > 0
        invariant n <= |queued| <= |old(queued)| && Sendable(base, used)
        invariant queued == old(queued)[|old(queued)| - |queued|..]
        invariant |old(received)| <= |received|
        invariant lap.Wrapped? ==> old(lap).Wrapped? && old(lap).lo <= lap.lo
      {
        GsReadOne(base, used);
        n := n - 1;
      }
    }

    /** Meanwhile the EE thread's own fields stay as they are. */
    method GsRunMeanwhile()
      requires Valid()
      modifies `readAmount, `queued, `received, `lap
      ensures Valid() && |old(received)| <= |received|
      ensures lap.Wrapped? ==> old(lap).Wrapped? && old(lap).lo <= lap.lo
    {
      GsRun(gsPack.offset, curSize);
    }

    /**
      Waits for the GS thread: on return it has run at least one of the commands that were queued.
      That stands for as many waits of the source's as it takes: one of them may return with no
      command run, and then changes nothing.
     */
    method MtgsReadWait(ghost base: nat)
      requires Inv(base) && queued != []
      modifies `readAmount, `queued, `received, `lap
      ensures Inv(base) && |queued| < |old(queued)| && |old(received)| <= |received|
      ensures queued == old(queued)[|old(queued)| - |queued|..]
      ensures lap.Wrapped? ==> old(lap).Wrapped? && old(lap).lo <= lap.lo
    {
      hide Taken;
      GsReadOne(base, curSize);
      GsRun(base, curSize);
    }

    // -------------------------------------------------------------------------------------
    // The buffer
    // -------------------------------------------------------------------------------------

    /** Adds a packet at base to the commands for the GS thread. */
    method AddCompleted(pack: GsPacket)
      requires Inv(pack.offset) && pack.size > 0 && pack.offset + pack.size <= gsPack.offset
      modifies `readAmount, `queued, `handed
      ensures Inv(pack.offset + pack.size)
      ensures queued == old(queued) + [Packet(pack.offset, pack.size)]
      ensures handed == old(handed) + buffer[pack.offset..pack.offset + pack.size]
    {
      hide Sound, Lies, Bytes, Sum;
      AppendLies(queued, lap, buffLimit, pack.offset, curSize, pack.size);
      AddBytes(buffer[..], queued, pack.offset, pack.size, received, handed);
      ghost var bytes := buffer[pack.offset..pack.offset + pack.size];
      assert buffer[pack.offset..curSize] == bytes + buffer[pack.offset + pack.size..curSize];
      readAmount := readAmount + pack.size;
      queued := queued + [Packet(pack.offset, pack.size)];
      handed := handed + bytes;
    }

    /** memmove to the front; the ranges may overlap, but what the GS thread still has to read is kept. */
    method MoveToFront(from: nat, n: nat)
      requires from + n <= buffer.Length && Lies(queued, lap, buffLimit, 0, n)
      modifies buffer
      ensures buffer[..n] == old(buffer[from..from + n])
      ensures Bytes(buffer[..], queued) == old(Bytes(buffer[..], queued))
    {
      forall i | 0 <= i < n {
        buffer[i] := buffer[from + i];
      }
      LiesKeep(old(buffer[..]), buffer[..], queued, lap, buffLimit, 0, n);
    }

    /** The skipped end of the lap is sent as a blank command, so that readAmount stays right. */
    method AddBlank(end: nat, ghost used: nat)
      requires readAmount == Sum(queued) && Tiles(queued, lap.lo, end) && (lap.lo < end ==> used <= lap.lo)
      modifies `readAmount, `queued, `lap
      ensures readAmount == Sum(queued) && Lies(queued, lap, buffLimit, 0, used)
      ensures Bytes(buffer[..], queued) == old(Bytes(buffer[..], queued))
    {
      GapBytes(buffer[..], queued, end, buffLimit);
      TurnLies(queued, lap.lo, end, buffLimit, used);
      if end < buffLimit {
        readAmount := readAmount + (buffLimit - end);
        queued := queued + [Blank(buffLimit - end)];
      } else {
        assert queued + [] == queued;
      }
      lap := Turned(lap.lo, end, buffLimit);
    }

    /** memcpy behind the bytes in use. */
    method Append(data: seq<byte>)
      requires Valid() && curSize + |data| <= buffer.Length
      requires lap.Wrapped? && lap.lo < lap.end ==> curSize + |data| <= lap.lo
      modifies buffer, `curSize, `copied
      ensures Valid()
      ensures curSize == old(curSize) + |data| && Pending() == old(Pending()) + data && copied == old(copied) + data
    {
      hide Sound, Tiles, WrapTiles, Bytes, Sum;
      ghost var (unsent, pending) := (buffer[gsPack.offset..curSize], Pending());
      CopyBytes(data);
      Spliced(old(buffer[..]), buffer[..], curSize, data, gsPack.offset);
      Spliced(old(buffer[..]), buffer[..], curSize, data, curOffset);
      LiesKeep(old(buffer[..]), buffer[..], queued, lap, buffLimit, gsPack.offset, curSize);
      Associate(handed, unsent, data);
      hide Untouched, Parser;
      copied := copied + data;
      curSize := curSize + |data|;
      assert buffer[gsPack.offset..curSize] == unsent + data;
      assert Pending() == pending + data;
    }

    method CopyBytes(data: seq<byte>)
      requires curSize + |data| <= buffer.Length
      modifies buffer
      ensures forall i :: 0 <= i < buffer.Length ==>
        buffer[i] == if curSize <= i < curSize + |data| then data[i - curSize] else old(buffer[i])
    {
      forall i | 0 <= i < |data| {
        buffer[curSize + i] := data[i];
      }
    }

    /** Waits until the GS thread has read the front of the buffer, as far as the packet will reach. */
    method WaitForFront(offset: nat, sizeToAdd: nat, intersect: nat)
      requires Valid() && offset == gsPack.offset && sizeToAdd == curSize - offset
      requires intersect == if sizeToAdd > offset then sizeToAdd - offset else 0
      modifies `readAmount, `queued, `received, `lap
      ensures Valid() && |old(received)| <= |received|
      ensures lap.Straight? && Tiles(queued, lap.lo, offset) && lap.lo <= offset
      ensures lap.lo < offset ==> sizeToAdd <= lap.lo
    {
      LiesSum(queued, lap, buffLimit, offset, curSize);
      while offset - readAmount < sizeToAdd - intersect
        invariant Valid() && |old(received)| <= |received|
        invariant lap.Straight? ==> readAmount == offset - lap.lo
        invariant lap.Wrapped? ==> readAmount > offset
        decreases |queued|
      {
        MtgsReadWait(offset);
        LiesSum(queued, lap, buffLimit, offset, curSize);
      }
    }

    /** Waits until the GS thread reads behind the current packet, or far enough in front of it. */
    method WaitForRoom(offset: nat, size: nat)
      requires Valid() && offset == gsPack.offset
      modifies `readAmount, `queued, `received, `lap
      ensures Valid() && |old(received)| <= |received|
      ensures lap.Wrapped? && lap.lo < lap.end ==> curSize + size <= lap.lo
    {
      LiesSum(queued, lap, buffLimit, offset, curSize);
      while !(offset - readAmount >= 0 || buffLimit + (offset - readAmount) > curSize + size)
        invariant Valid() && |old(received)| <= |received|
        invariant lap.Straight? ==> readAmount <= offset
        invariant lap.Wrapped? ==>
          readAmount == offset + (if lap.end < buffLimit then buffLimit else lap.end) - lap.lo > offset
        decreases |queued|
      {
        MtgsReadWait(offset);
        LiesSum(queued, lap, buffLimit, offset, curSize);
      }
      GsRunMeanwhile();
    }

    /** Moves the current packet to the front of the buffer once the GS thread has left enough room there. */
    method RealignPacket()
      requires Valid()
      modifies this, buffer
      ensures Valid() && gsPack == old(gsPack).(offset := 0)
      ensures curOffset == gsPack.size && curSize == old(curSize) - old(gsPack.offset)
      ensures Parser() == old(Parser()) && Pending() == old(Pending()) && dmaRewind == old(dmaRewind)
      ensures copied == old(copied) && handed == old(handed) && |old(received)| <= |received|
    {
      hide Lies, Tiles, Bytes, Sum, Sound, Parser;
      var offset := curOffset - gsPack.size;
      var sizeToAdd := curSize - offset;
      var intersect := sizeToAdd - offset;
      if intersect < 0 { intersect := 0; }
      WaitForFront(offset, sizeToAdd, intersect);
      ghost var unsent := buffer[offset..curSize];
      assert unsent[gsPack.size..] == Pending();
      assert handed + unsent == copied;
      hide Inv, Pending;
      MoveUnsent(offset, sizeToAdd);
      MovedTo(offset, unsent);
    }

    /** The move, with the blank before it; the GS thread goes on reading all the while. */
    method MoveUnsent(offset: nat, sizeToAdd: nat)
      requires Inv(offset) && offset + sizeToAdd <= buffer.Length && Tiles(queued, lap.lo, offset)
      requires lap.lo < offset ==> sizeToAdd <= lap.lo
      modifies `readAmount, `queued, `received, `lap, buffer
      ensures Sendable(0, sizeToAdd) && buffer[..sizeToAdd] == old(buffer[offset..offset + sizeToAdd])
      ensures |old(received)| <= |received|
    {
      hide Lies, Tiles, Bytes, Sum, Sound;
      assert received + Bytes(buffer[..], queued) == handed && readAmount == Sum(queued);
      hide Inv;
      AddBlank(offset, sizeToAdd);
      GsRun(0, sizeToAdd);
      MoveToFront(offset, sizeToAdd);
      GsRun(0, sizeToAdd);
    }

    /** The fields of a path whose current packet was moved to the front. */
    method MovedTo(offset: nat, ghost unsent: seq<byte>)
      requires buffLimit <= buffer.Length && Sound(Parser()) && readAmount == Sum(queued)
      requires offset == gsPack.offset && offset + gsPack.size == curOffset <= curSize <= buffer.Length
      requires Lies(queued, lap, buffLimit, 0, curSize - offset) && received + Bytes(buffer[..], queued) == handed
      requires buffer[..curSize - offset] == unsent && handed + unsent == copied
      modifies `curSize, `curOffset, `gsPack
      ensures Valid() && gsPack == old(gsPack).(offset := 0)
      ensures curOffset == gsPack.size && curSize == old(curSize) - offset
      ensures Parser() == old(Parser()) && Pending() == unsent[gsPack.size..]
    {
      hide Lies, Tiles, Bytes, Sum, Sound;
      curSize := curSize - offset;
      curOffset := gsPack.size;
      gsPack := gsPack.(offset := 0);
      assert buffer[0..curSize] == unsent;
    }

    /** Appends packet data, after the GS thread has read whatever it would overwrite. */
    method CopyGSPacketData(data: seq<byte>)
      requires Valid() && curSize - gsPack.offset + |data| <= buffer.Length
      modifies this, buffer
      ensures Valid()
      ensures Parser() == old(Parser()) && Pending() == old(Pending()) + data
      ensures copied == old(copied) + data && handed == old(handed) && |old(received)| <= |received|
      ensures dmaRewind == old(dmaRewind)
      ensures gsPack == if old(curSize) + |data| > buffer.Length then old(gsPack).(offset := 0) else old(gsPack)
    {
      hide Inv, Pending, Parser, Sound;
      if curSize + |data| > buffer.Length {
        RealignPacket();
      }
      WaitForRoom(curOffset - gsPack.size, |data|);
      Append(data);
    }

    // -------------------------------------------------------------------------------------
    // Parsing
    // -------------------------------------------------------------------------------------

    /** Counts n parsed bytes as part of the current packet. */
    method IncTag(n: nat)
      requires curOffset + n <= curSize <= buffer.Length
      modifies `curOffset, `gsPack
      ensures curOffset == old(curOffset) + n && gsPack == old(gsPack).(size := old(gsPack.size) + n)
      ensures Pending() == old(Pending())[n..]
    {
      gsPack := gsPack.(size := gsPack.size + n);
      curOffset := curOffset + n;
    }

    /** The next quadword of the buffer. */
    method NextQuad() returns (q: seq<byte>)
      requires curOffset + 16 <= curSize <= buffer.Length
      ensures |q| == 16 && q == Pending()[..16]
    {
      q := buffer[curOffset..curOffset + 16];
    }

    /** The effect of one turn of the parser; t is the packet so far, or the completed one. */
    twostate predicate Took(v: Verdict, t: GsPacket, sig': Signals, s: Result)
      requires old(curOffset <= curSize <= buffer.Length) && s.used <= |old(Pending())|
      reads this, buffer
    {
      v == s.verdict && sig' == s.sig && Parser() == s.p &&
      curOffset <= curSize <= buffer.Length && Pending() == old(Pending())[s.used..] &&
      t.offset == old(gsPack.offset) &&
      if v.Completes? then t == GsPacket(t.offset, s.packet.size, s.packet.cycles) && t.offset + t.size == gsPack.offset
      else t == gsPack
    }

    /** The end of a tag. */
    method CloseTag(sig: Signals, path3: bool) returns (v: Verdict, t: GsPacket)
      requires gsPack.offset + gsPack.size == curOffset <= curSize <= buffer.Length
      modifies `gsPack, `gifTag, `phase
      ensures Took(v, t, sig, Close(old(Parser()), sig, 0, path3))
      ensures gsPack.offset + gsPack.size == curOffset
    {
      gifTag := gifTag.(isValid := false);
      v, t := GoesOn, gsPack;
      if gifTag.eop {
        v := Completes;
        gsPack := GsPacket(curOffset, 0, 0);
        phase := Rested(path3);
      }
    }

    /** Passes over a tag, and over its data unless that has A+D registers to look at. */
    method TakeTag(sig: Signals, path3: bool) returns (v: Verdict, t: GsPacket)
      requires curOffset + 16 + (if gifTag.hasAD then 0 else gifTag.len) <= curSize <= buffer.Length
      requires gsPack.offset + gsPack.size == curOffset
      modifies `curOffset, `gsPack, `gifTag, `phase
      ensures Took(v, t, sig, TagTaken(old(Parser()), sig, path3))
      ensures gsPack.offset + gsPack.size == curOffset
    {
      IncTag(16);
      v, t := GoesOn, gsPack;
      if !gifTag.hasAD {
        IncTag(gifTag.len);
        assert Pending() == old(Pending())[16 + gifTag.len..];
        v, t := CloseTag(sig, path3);
      }
    }

    /** A new tag, with its data unless that has A+D registers to look at. */
    method ReadTag(sig: Signals, path3: bool) returns (v: Verdict, t: GsPacket)
      requires Shape(gsPack.offset) && !gifTag.isValid
      modifies `curOffset, `gsPack, `gifTag, `phase
      ensures Took(v, t, sig, Step(old(Parser()), sig, old(Pending()), path3))
      ensures gsPack.offset + gsPack.size == curOffset
    {
      hide Lies, Bytes, Sum, HandleAD, DecodeTag, PackedLeft, WellFormed, Inv;
      v, t := Waits, gsPack;
      if curOffset + 16 <= curSize {
        var q := NextQuad();
        gifTag := DecodeTag(q);
        phase := PhaseOf(gifTag.format);
        if !gifTag.hasAD && curOffset + 16 + gifTag.len > curSize {
          gifTag := gifTag.(isValid := false); // read again with more data
        } else {
          gsPack := gsPack.(cycles := gsPack.cycles + 2 + gifTag.cycles);
          v, t := TakeTag(sig, path3);
        }
      }
    }

    /** One register of an A+D tag. */
    method StepRegister(sig: Signals, path3: bool) returns (v: Verdict, t: GsPacket, sig': Signals)
      requires Shape(gsPack.offset) && gifTag.isValid && gifTag.nLoop > 0
      modifies `curOffset, `gsPack, `gifTag
      ensures Took(v, t, sig', Step(old(Parser()), sig, old(Pending()), path3))
      ensures gsPack.offset + gsPack.size == curOffset
    {
      hide Lies, Bytes, Sum, HandleAD, PackedLeft;
      v, t, sig' := Waits, gsPack, sig;
      if curOffset + 16 <= curSize {
        var stall := false;
        var q := NextQuad();
        if gifTag.regs[gifTag.nRegIdx] == REG_AD {
          var h := HandleAD(sig, q);
          sig', stall := h.0, h.1;
        }
        IncTag(16);
        gifTag := PackedStep(gifTag);
        v, t := if stall && !(gifTag.eop && gifTag.nLoop == 0) then Stalls else GoesOn, gsPack;
      }
    }

    /** One turn of the parser, as its tag demands. */
    method Dispatch(sig: Signals, path3: bool) returns (v: Verdict, t: GsPacket, sig': Signals)
      requires Shape(gsPack.offset)
      modifies `curOffset, `gsPack, `gifTag, `phase
      ensures Took(v, t, sig', Step(old(Parser()), sig, old(Pending()), path3))
      ensures gsPack.offset + gsPack.size == curOffset
    {
      hide HandleAD, PackedLeft, DecodeTag, Sum, WellFormed;
      sig' := sig;
      if !gifTag.isValid {
        v, t := ReadTag(sig, path3);
      } else if gifTag.nLoop > 0 {
        v, t, sig' := StepRegister(sig, path3);
      } else {
        v, t := CloseTag(sig, path3);
      }
    }

    /** One turn of the parser. A completed packet t is still to be added to the GS thread's commands. */
    method Turn(sig: Signals, path3: bool) returns (v: Verdict, t: GsPacket, sig': Signals)
      requires Valid()
      modifies `curOffset, `gsPack, `gifTag, `phase
      ensures Inv(old(gsPack.offset)) && Took(v, t, sig', Step(old(Parser()), sig, old(Pending()), path3))
    {
      hide Lies, Bytes, Sum, Step, Sound;
      v, t, sig' := Dispatch(sig, path3);
    }

    /** Moves a packet whose next tag lies behind the buffer's limit to the front. */
    method RealignForTag()
      requires Valid()
      modifies this, buffer
      ensures Valid() && Parser() == old(Parser()) && Pending() == old(Pending()) && dmaRewind == old(dmaRewind)
      ensures copied == old(copied) && handed == old(handed) && |old(received)| <= |received|
      ensures gsPack ==
        if old(!gifTag.isValid && |Pending()| >= 16 && curOffset > buffLimit) then old(gsPack).(offset := 0)
        else old(gsPack)
    {
      if !gifTag.isValid && curOffset + 16 <= curSize && curOffset > buffLimit {
        RealignPacket();
      }
    }

    /** The completed packet, or the packet so far. */
    ghost predicate PacketOf(t: GsPacket, v: Verdict, packet: Finished)
      reads `gsPack
    {
      if v.Completes? then t == GsPacket(t.offset, packet.size, packet.cycles) && t.offset + t.size == gsPack.offset
      else t == gsPack
    }

    /** One turn of the parser's loop, with the move that may precede it. */
    method AlignedTurn(sig: Signals, path3: bool) returns (v: Verdict, t: GsPacket, sig': Signals, ghost s: Result)
      requires Valid()
      modifies this, buffer
      ensures s == Step(old(Parser()), sig, old(Pending()), path3)
      ensures Inv(t.offset) && v == s.verdict && sig' == s.sig && Parser() == s.p &&
        Pending() == old(Pending())[s.used..]
      ensures PacketOf(t, s.verdict, s.packet)
      ensures copied == old(copied) && handed == old(handed) && |old(received)| <= |received| &&
        dmaRewind == old(dmaRewind)
      ensures t.offset ==
        if old(!gifTag.isValid && |Pending()| >= 16 && curOffset > buffLimit) then 0 else old(gsPack.offset)
    {
      hide Inv, Pending, Parser, Step, Sound;
      RealignForTag();
      s := Step(Parser(), sig, Pending(), path3);
      v, t, sig' := Turn(sig, path3);
    }

    /** Gives the bytes behind a completed packet back to the DMA channel. */
    method Rewind(ghost base: nat)
      requires Inv(base)
      modifies `curSize, `dmaRewind, `copied
      ensures Inv(base)
      ensures dmaRewind == |old(Pending())| && curSize == curOffset
      ensures copied + old(Pending()) == old(copied)
    {
      hide Sound, Bytes, Sum, Tiles, WrapTiles;
      assert buffer[base..curSize] == buffer[base..curOffset] + buffer[curOffset..curSize];
      Associate(handed, buffer[base..curOffset], buffer[curOffset..curSize]);
      dmaRewind := curSize - curOffset;
      curSize := curOffset;
      copied := handed + buffer[base..curOffset];
    }

    /** Turns of the parser until one does not go on; r is what the specification says of the run. */
    method RunParser(sig: Signals, path3: bool) returns (t: GsPacket, sig': Signals, ghost r: Result, done: bool)
      requires Valid()
      modifies this, buffer
      ensures r == Exec(old(Parser()), sig, old(Pending()), path3)
      ensures Inv(t.offset) && sig' == r.sig && Parser() == r.p && Pending() == old(Pending())[r.used..]
      ensures done == r.verdict.Completes?
      ensures
        if done then t == GsPacket(t.offset, r.packet.size, r.packet.cycles) && t.offset + t.size == gsPack.offset
        else t == gsPack
      ensures copied == old(copied) && handed == old(handed) && |old(received)| <= |received| &&
        dmaRewind == old(dmaRewind)
    {
      hide Inv, Pending, Parser, Step, Exec, Sound;
      ghost var d := Pending();
      ghost var whole := Exec(Parser(), sig, d, path3);
      var v := GoesOn;
      t, sig', r := gsPack, sig, Result(GoesOn, Parser(), sig, 0, NO_PACKET);
      assert PacketOf(t, v, r.packet);
      while v.GoesOn?
        invariant Inv(t.offset) && sig' == r.sig && Parser() == r.p && v == r.verdict
        invariant r.used <= |d| && Pending() == d[r.used..]
        invariant PacketOf(t, v, r.packet)
        invariant whole == if v.GoesOn? then Later(Exec(r.p, r.sig, d[r.used..], path3), r.used) else r
        invariant copied == old(copied) && handed == old(handed) && |old(received)| <= |received| &&
          dmaRewind == old(dmaRewind)
        decreases v.GoesOn?, |d| - r.used, r.p.tag.isValid
      {
        ExecTurn(r.p, r.sig, d[r.used..], path3, r.used);
        ghost var s;
        v, t, sig', s := AlignedTurn(sig', path3);
        assert d[r.used..][s.used..] == d[r.used + s.used..];
        r := Later(s, r.used);
      }
      done := v.Completes?;
    }

    /**
      Runs the parser over the bytes in the buffer until a packet is complete, a SIGNAL stalls
      or data runs out. Behind a packet completed on a masked path 3, the rest is cut off.
     */
    method ExecuteGSPacket(sig: Signals, path3: bool, masked: bool) returns (done: bool, t: GsPacket, sig': Signals)
      requires Valid()
      modifies this, buffer
      ensures Inv(t.offset) && (if done then t.offset + t.size == gsPack.offset else t == gsPack)
      ensures var r := Exec(old(Parser()), sig, old(Pending()), path3);
        done == r.verdict.Completes? && sig' == r.sig && Parser() == r.p &&
        (done ==> t.size == r.packet.size && t.cycles == r.packet.cycles) &&
        var rest := old(Pending())[r.used..];
        if done && path3 && masked && rest != [] then
          Pending() == [] && dmaRewind == |rest| && copied + rest == old(copied)
        else
          Pending() == rest && dmaRewind == (if done then 0 else old(dmaRewind)) && copied == old(copied)
      ensures handed == old(handed) && |old(received)| <= |received|
    {
      hide Inv, Pending, Parser, Exec, Sound;
      ghost var r;
      t, sig', r, done := RunParser(sig, path3);
      if done {
        dmaRewind := 0;
        if path3 && masked && curSize - curOffset > 0 {
          Rewind(t.offset);
        }
      }
    }

    // -------------------------------------------------------------------------------------
    // Handing packets over
    // -------------------------------------------------------------------------------------

    /** More bytes are needed before the parser can go on. */
    ghost predicate Starved(sig: Signals, path3: bool)
      requires Valid()
      reads `readAmount, `curSize, `curOffset, `gifTag, `gsPack, `phase, `queued, `received, `handed, `copied, `lap,
        buffer
    {
      Exec(Parser(), sig, Pending(), path3).verdict.Waits?
    }

    /** What parsing leaves to do: every turn makes it smaller. */
    ghost function ToDo(): int
      reads `curSize, `curOffset, `gifTag
    {
      2 * (curSize - curOffset) + if gifTag.isValid then 1 else 0
    }

    predicate IsDone()
      reads `curOffset, `curSize, `phase
    {
      curOffset >= curSize && (phase.Idle? || phase.Waiting?)
    }

    /** A path that is done has handed over all its bytes. */
    lemma DoneIsHanded()
      requires Valid() && IsDone()
      ensures handed == copied
    {
      assert buffer[gsPack.offset..curSize] == [];
    }

    /** Hands over the complete tags of an unfinished packet; the packet goes on behind them. */
    method HandOver(cycles: nat)
      requires Valid() && gsPack.size > 0 && !gifTag.isValid
      modifies `gsPack, `readAmount, `queued, `handed
      ensures Valid() && gsPack == GsPacket(curOffset, 0, cycles)
      ensures queued == old(queued) + [Packet(old(gsPack.offset), old(gsPack.size))]
      ensures handed == old(handed) + buffer[old(gsPack.offset)..curOffset]
    {
      hide Lies, Bytes, Sum;
      var pack := gsPack;
      gsPack := GsPacket(curOffset, 0, cycles);
      AddCompleted(pack);
    }

    method FlushToMTGS()
      requires Valid()
      modifies `gsPack, `readAmount, `queued, `handed, `received, `lap
      ensures Valid() && old(handed) <= handed
      ensures
        if old(gsPack.size) > 0 && !gifTag.isValid then handed + Pending() == copied && gsPack.size == 0
        else gsPack == old(gsPack) && handed == old(handed)
      ensures forall sig, path3 :: Starved(sig, path3) == old(Starved(sig, path3))
    {
      if gsPack.size > 0 && !gifTag.isValid {
        HandOver(gsPack.cycles);
        assert buffer[curOffset..curSize] == Pending();
        GsRunMeanwhile();
        forall sig, path3
          ensures Starved(sig, path3) == old(Starved(sig, path3))
        {
          ExecIgnoresSize(Parser(), old(Parser()), sig, Pending(), path3);
        }
      }
    }

    /** Path 3 slicing: the tags parsed so far become a packet of their own. */
    method SlicePacket()
      requires Valid() && phase.InImage?
      modifies `gsPack, `readAmount, `queued, `handed, `curOffset, `gifTag, `received, `lap
      ensures Valid() && old(handed) <= handed && ToDo() == old(ToDo()) && curOffset == old(curOffset)
      ensures gsPack.size == (if old(gsPack.size) > 16 then 0 else old(gsPack.size)) && !gifTag.isValid
    {
      assert !gifTag.isValid; // an A+D tag is never an IMAGE tag
      hide Lies, Bytes, Sum, Tiles, Sound;
      if gsPack.size > 16 {
        var subOffset := if gifTag.isValid then 16 else 0;
        assert subOffset == 0;
        HandOver(0);
        curOffset := curOffset - subOffset;
        gifTag := gifTag.(isValid := false);
        GsRunMeanwhile();
      }
    }

    /** Runs the parser and, if it completes a packet, hands that over. */
    method ExecuteAndAdd(sig: Signals, path3: bool, masked: bool)
      returns (done: bool, sig': Signals, ghost cut: seq<byte>)
      requires Valid() && Delivered(sig) && !sig.queued
      modifies this, buffer
      ensures Valid() && old(handed) <= handed && |old(received)| <= |received|
      ensures Delivered(sig') && sig.log <= sig'.log
      ensures if done then ToDo() < old(ToDo()) && phase == Rested(path3) else sig'.queued || Starved(sig', path3)
      ensures copied + cut == old(copied) && dmaRewind == if done then |cut| else old(dmaRewind)
      ensures if path3 && masked then done ==> curOffset == curSize else cut == []
      ensures cut != [] ==> done && path3 && masked && curOffset == curSize
    {
      hide Inv, Pending, Exec, Sound, Delivered, Parser;
      ghost var (p, d) := (Parser(), Pending());
      ParserFields();
      ghost var r := Exec(p, sig, d, path3);
      ExecDelivers(p, sig, d, path3);
      Progress(p, sig, d, path3);
      cut := if r.verdict.Completes? && path3 && masked then d[r.used..] else [];
      var t;
      done, t, sig' := ExecuteGSPacket(sig, path3, masked);
      ParserFields();
      if done {
        AddCompleted(t);
        GsRunMeanwhile();
        ParserFields();
      }
    }

    /** The parser's state in the path's fields. */
    lemma ParserFields()
      ensures Parser().phase == phase && Parser().tag == gifTag
    {
    }
  }
}
