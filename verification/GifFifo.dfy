/**
  The GIF's own FIFO of sixteen 128-bit words. The GIF may at any time take only part of what it
  is offered.
 */
module GifFifo {
  import opened WrappedCopy
  import opened Sequences

  // ---------------------------------------------------------------------------------------
  // The FIFO
  // ---------------------------------------------------------------------------------------

  datatype Fullness = FifoEmpty | FifoNormal | FifoFull

  /** The position k 128-bit words further on. */
  function At(pos: nat, k: nat): nat {
    (pos + 4 * k) % 64
  }

  lemma Slot(pos: nat, k: nat)
    requires pos < 64 && pos % 4 == 0 && k < 16
    ensures At(pos, k) < 64 && At(pos, k) / 4 == Wrap(pos / 4 + k, 16) && At(pos, k) % 4 == 0
    ensures (At(pos, k) + 4) % 64 == At(pos, k + 1)
  {
  }

  lemma Around(pos: nat)
    requires pos < 64
    ensures At(pos, 0) == pos && At(pos, 16) == pos
  {
  }

  lemma Further(pos: nat, j: nat, k: nat)
    ensures At(At(pos, j), k) == At(pos, j + k)
  {
    Mod64(pos + 4 * j, 4 * k);
    assert pos + 4 * j + 4 * k == pos + 4 * (j + k);
  }

  lemma Mod64(x: nat, y: nat)
    ensures (x % 64 + y) % 64 == (x + y) % 64
  {
  }

  class Fifo {
    const data: array<Quad>
    const readdata: array<Quad>
    var readpos: nat   // in 32-bit words
    var writepos: nat
    var fqc: nat
    var csr: Fullness
    ghost var written: seq<Quad>   // all words ever taken in
    ghost var delivered: seq<Quad> // all words ever taken by the GIF

    ghost predicate Layout()
      reads `readpos, `writepos, `fqc
    {
      data.Length == readdata.Length == 16 && data != readdata && fqc <= 16 &&
      readpos < 64 && readpos % 4 == 0 && writepos == At(readpos, fqc)
    }

    ghost function Contents(): (s: seq<Quad>)
      reads `readpos, `writepos, `fqc, data
      requires Layout()
      ensures |s| == fqc
    {
      Window(data[..], readpos / 4, fqc)
    }

    /** Nothing is lost, doubled or out of order. */
    ghost predicate Valid()
      reads this, data
    {
      Layout() && written == delivered + Contents() &&
      (csr == FifoEmpty <==> fqc == 0) && (csr == FifoFull <==> fqc >= 15)
    }

    constructor ()
      ensures Valid() && Contents() == [] && written == [] && fresh(data) && fresh(readdata)
    {
      data := new Quad[16](i => Quad(0, 0, 0, 0));
      readdata := new Quad[16](i => Quad(0, 0, 0, 0));
      readpos, writepos, fqc := 0, 0, 0;
      csr := FifoEmpty;
      written, delivered := [], [];
    }

    method CalculateFIFOCSR()
      modifies `csr
      ensures (csr == FifoEmpty <==> fqc == 0) && (csr == FifoFull <==> fqc >= 15)
    {
      if fqc >= 15 {
        csr := FifoFull;
      } else if fqc == 0 {
        csr := FifoEmpty;
      } else {
        csr := FifoNormal;
      }
    }

    /** Takes in as many words as there is room for. */
    method write(mem: seq<Quad>) returns (taken: nat)
      requires Valid()
      modifies this, data
      ensures Valid() && delivered == old(delivered)
      ensures taken == (if |mem| <= 16 - old(fqc) then |mem| else 16 - old(fqc))
      ensures Contents() == old(Contents()) + mem[..taken]
    {
      if fqc == 16 {
        return 0;
      }
      taken := if |mem| <= 16 - fqc then |mem| else 16 - fqc;
      ghost var before := Contents();
      CopyFrom(mem, taken);
      fqc := fqc + taken;
      written := written + mem[..taken];
      CalculateFIFOCSR();
      assert Contents() == before + mem[..taken];
    }

    /** The loop of a write, behind the words already there. */
    method CopyFrom(mem: seq<Quad>, taken: nat)
      requires Layout() && taken <= |mem| && fqc + taken <= 16
      modifies `writepos, data
      ensures writepos == At(readpos, fqc + taken)
      ensures Window(data[..], readpos / 4, fqc + taken) == old(Contents()) + mem[..taken]
    {
      hide Window, At, Wrap;
      ghost var before := Contents();
      var i := 0;
      while i < taken
        invariant 0 <= i <= taken
        invariant writepos == At(readpos, fqc + i)
        invariant Window(data[..], readpos / 4, fqc + i) == before + mem[..i]
      {
        WindowGrows(data[..], readpos / 4, fqc + i, mem[i]);
        Slot(readpos, fqc + i);
        ghost var was := data[..];
        data[writepos / 4] := mem[i];
        assert data[..] == was[writepos / 4 := mem[i]];
        writepos := (writepos + 4) % 64;
        i := i + 1;
        assert mem[..i] == mem[..i - 1] + [mem[i - 1]];
      }
    }

    /** Offers the GIF all there is. What it does not accept is offered again next time. */
    method read(canDoPath3: bool, accepts: nat) returns (offered: seq<Quad>, left: nat)
      requires Valid()
      modifies this, readdata
      ensures Valid() && data[..] == old(data[..]) && written == old(written)
      ensures offered == if canDoPath3 then old(Contents()) else []
      ensures var n := if accepts <= |offered| then accepts else |offered|;
        delivered == old(delivered) + offered[..n] && Contents() == old(Contents())[n..]
      ensures left == if canDoPath3 then fqc else 0
    {
      if !canDoPath3 || fqc == 0 {
        return [], 0;
      }
      hide At, Window, Wrap;
      ghost var before := Contents();
      var fifoSize, oldReadPos := fqc, readpos;
      CopyOut();
      offered := readdata[..fifoSize];
      var sizeRead := if accepts <= fifoSize then accepts else fifoSize; // what the GIF took of it
      GiveBack(oldReadPos, fifoSize, sizeRead);
      InPieces(delivered, before, sizeRead);
      delivered := delivered + offered[..sizeRead];
      CalculateFIFOCSR();
      left := fqc;
    }

    /** Moves the read position back to the first word that was not accepted. */
    method GiveBack(oldReadPos: nat, fifoSize: nat, sizeRead: nat)
      requires Layout() && fqc == 0 && sizeRead <= fifoSize <= 16
      requires oldReadPos < 64 && oldReadPos % 4 == 0 && readpos == At(oldReadPos, fifoSize)
      modifies `readpos, `fqc
      ensures Layout() && fqc == fifoSize - sizeRead
      ensures Contents() == Window(data[..], oldReadPos / 4, fifoSize)[sizeRead..]
    {
      WindowTail(data[..], oldReadPos / 4, fifoSize, sizeRead);
      hide At, Wrap, Window;
      if sizeRead < fifoSize {
        Slot(oldReadPos, sizeRead);
        Further(oldReadPos, sizeRead, fifoSize - sizeRead);
        Around(readpos);
        readpos := At(oldReadPos, sizeRead);
        fqc := fifoSize - sizeRead;
        assert Layout();
        assert Contents() == Window(data[..], oldReadPos / 4, fifoSize)[sizeRead..];
      } else {
        assert Contents() == [];
        assert Window(data[..], oldReadPos / 4, fifoSize)[sizeRead..] == [];
      }
    }

    /** The loop of a read. */
    method CopyOut()
      requires Layout()
      modifies `readpos, `fqc, readdata
      ensures fqc == 0 && readpos == writepos && Layout() && readpos == At(old(readpos), old(fqc))
      ensures readdata[..old(fqc)] == old(Contents())
    {
      hide At;
      Around(readpos);
      Around(0);
      ghost var before := Contents();
      hide Window;
      var valueWritePos := 0;
      ghost var k := 0;
      while fqc > 0
        invariant k + fqc == old(fqc) && valueWritePos == At(0, k)
        invariant readpos == At(old(readpos), k)
        invariant readdata[..k] == before[..k]
      {
        Slot(old(readpos), k);
        Slot(0, k);
        assert before[k] == data[readpos / 4];
        ghost var was := readdata[..k];
        readdata[valueWritePos / 4] := data[readpos / 4];
        assert readdata[..k] == was;
        readpos := (readpos + 4) % 64;
        valueWritePos := (valueWritePos + 4) % 64;
        fqc := fqc - 1;
        k := k + 1;
      }
      if k == 16 { Around(old(readpos)); } else { Slot(old(readpos), k); }
      Around(readpos);
    }
  }
}
