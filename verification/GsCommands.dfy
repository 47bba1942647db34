/**
  How the commands that a path has sent to the GS thread, and that thread has not yet run, lie
  in the path's buffer: `Tiles` without a wrap and `WrapTiles` with one, and what they say about
  `readAmount`, the sum of the commands' sizes.
 */
module GsCommands {
  import opened GifParser
  import opened Sequences

  /** A GS packet command for a path: its place in the buffer, or a blank that only counts. */
  datatype GsCommand = Packet(offset: nat, size: nat) | Blank(size: nat)

  function Sum(q: seq<GsCommand>): nat {
    if q == [] then 0 else q[0].size + Sum(q[1..])
  }

  /** The commands occupy exactly the bytes from lo to hi, in order. */
  predicate Tiles(q: seq<GsCommand>, lo: int, hi: int) {
    if q == [] then lo == hi
    else q[0].Packet? && q[0].offset == lo && q[0].size > 0 && Tiles(q[1..], lo + q[0].size, hi)
  }

  /** The blank that makes up for the gap between the end of a lap and the buffer's limit. */
  function Gap(end: int, limit: int): (q: seq<GsCommand>)
    requires limit >= 0 && end >= 0
  {
    if end < limit then [Blank(limit - end)] else []
  }

  /** The commands occupy lo to end, then the gap up to limit, then 0 to hi. */
  predicate WrapTiles(q: seq<GsCommand>, lo: int, end: int, limit: int, hi: int) {
    if lo == end then
      if end < limit then q != [] && q[0] == Blank(limit - end) && Tiles(q[1..], 0, hi)
      else Tiles(q, 0, hi)
    else
      q != [] && q[0].Packet? && q[0].offset == lo && q[0].size > 0 && lo < end &&
      WrapTiles(q[1..], lo + q[0].size, end, limit, hi)
  }

  lemma {:induction false} TilesSum(q: seq<GsCommand>, lo: int, hi: int)
    requires Tiles(q, lo, hi)
    ensures Sum(q) == hi - lo
  {
    if q != [] { TilesSum(q[1..], lo + q[0].size, hi); }
  }

  /** With a wrap outstanding, readAmount exceeds the end of the last packet by what lies behind. */
  lemma {:induction false} WrapTilesSum(q: seq<GsCommand>, lo: int, end: int, limit: int, hi: int)
    requires WrapTiles(q, lo, end, limit, hi)
    ensures lo <= end && Sum(q) == hi + (if end < limit then limit else end) - lo
    decreases q
  {
    if lo == end {
      if end < limit { TilesSum(q[1..], 0, hi); } else { TilesSum(q, 0, hi); }
    } else {
      WrapTilesSum(q[1..], lo + q[0].size, end, limit, hi);
    }
  }

  lemma {:induction false} SumAppend(a: seq<GsCommand>, b: seq<GsCommand>)
    ensures Sum(a + b) == Sum(a) + Sum(b)
  {
    if a == [] {
      assert a + b == b;
    } else {
      assert (a + b)[1..] == a[1..] + b;
      SumAppend(a[1..], b);
    }
  }

  lemma {:induction false} TilesAppend(q: seq<GsCommand>, lo: int, hi: nat, size: nat)
    requires Tiles(q, lo, hi) && size > 0
    ensures Tiles(q + [Packet(hi, size)], lo, hi + size)
  {
    if q != [] {
      assert (q + [Packet(hi, size)])[1..] == q[1..] + [Packet(hi, size)];
      TilesAppend(q[1..], lo + q[0].size, hi, size);
    }
  }

  lemma {:induction false} WrapTilesAppend(q: seq<GsCommand>, lo: int, end: int, limit: int, hi: nat, size: nat)
    requires WrapTiles(q, lo, end, limit, hi) && size > 0
    ensures WrapTiles(q + [Packet(hi, size)], lo, end, limit, hi + size)
    decreases q
  {
    var more := [Packet(hi, size)];
    if lo == end && end >= limit {
      TilesAppend(q, 0, hi, size);
    } else {
      assert (q + more)[1..] == q[1..] + more;
      if lo == end { TilesAppend(q[1..], 0, hi, size); }
      else { WrapTilesAppend(q[1..], lo + q[0].size, end, limit, hi, size); }
    }
  }

  /** Moving the current packet to the front turns a plain tiling into a wrapped one. */
  lemma {:induction false} TilesWrap(q: seq<GsCommand>, lo: int, end: nat, limit: nat)
    requires Tiles(q, lo, end)
    ensures WrapTiles(q + Gap(end, limit), lo, end, limit, 0)
  {
    if q == [] {
      assert q + Gap(end, limit) == Gap(end, limit);
    } else {
      TilesSum(q[1..], lo + q[0].size, end);
      assert (q + Gap(end, limit))[1..] == q[1..] + Gap(end, limit);
      TilesWrap(q[1..], lo + q[0].size, end, limit);
    }
  }

  /** The bytes the GS thread is going to read for the commands, if the buffer stays as it is. */
  function Bytes(b: seq<byte>, q: seq<GsCommand>): seq<byte> {
    if q == [] then [] else Taken(b, q[0]) + Bytes(b, q[1..])
  }

  function Taken(b: seq<byte>, c: GsCommand): seq<byte> {
    if c.Packet? && c.offset + c.size <= |b| then b[c.offset..c.offset + c.size] else []
  }

  lemma {:induction false} BytesAppend(b: seq<byte>, p: seq<GsCommand>, q: seq<GsCommand>)
    ensures Bytes(b, p + q) == Bytes(b, p) + Bytes(b, q)
  {
    if p == [] {
      assert p + q == q;
    } else {
      assert (p + q)[1..] == p[1..] + q;
      BytesAppend(b, p[1..], q);
      Associate(Taken(b, p[0]), Bytes(b, p[1..]), Bytes(b, q));
    }
  }

  /** Two buffers that agree between lo and hi. */
  ghost predicate Agree(a: seq<byte>, b: seq<byte>, lo: int, hi: int) {
    |a| == |b| && forall i :: 0 <= i < |a| && lo <= i < hi ==> a[i] == b[i]
  }

  lemma {:induction false} TilesKeep(a: seq<byte>, b: seq<byte>, q: seq<GsCommand>, lo: int, hi: int)
    requires Tiles(q, lo, hi) && Agree(a, b, lo, hi)
    ensures Bytes(a, q) == Bytes(b, q)
  {
    if q != [] {
      TilesSum(q[1..], lo + q[0].size, hi);
      TilesKeep(a, b, q[1..], lo + q[0].size, hi);
      assert Taken(a, q[0]) == Taken(b, q[0]);
    }
  }

  /** A write that stays off the occupied bytes changes nothing the GS thread is going to read. */
  lemma {:induction false} WrapTilesKeep(
    a: seq<byte>, b: seq<byte>, q: seq<GsCommand>, lo: int, end: int, limit: int, hi: int)
    requires WrapTiles(q, lo, end, limit, hi) && Agree(a, b, lo, end) && Agree(a, b, 0, hi)
    ensures Bytes(a, q) == Bytes(b, q)
    decreases q
  {
    if lo == end {
      if end < limit { TilesKeep(a, b, q[1..], 0, hi); } else { TilesKeep(a, b, q, 0, hi); }
    } else {
      WrapTilesSum(q[1..], lo + q[0].size, end, limit, hi);
      WrapTilesKeep(a, b, q[1..], lo + q[0].size, end, limit, hi);
      assert Taken(a, q[0]) == Taken(b, q[0]);
    }
  }

  // ---------------------------------------------------------------------------------------
  // The whole layout
  // ---------------------------------------------------------------------------------------

  /** Where the oldest command starts and, if the current packet was moved to the front since, where that lap ended. */
  datatype Lap = Straight(lo: nat) | Wrapped(lo: nat, end: nat)

  /**
    The commands lie in front of base; what is left of the last lap is nonempty and starts at or
    behind `used`, the end of the bytes in use at the front.
   */
  ghost predicate Lies(q: seq<GsCommand>, lap: Lap, limit: nat, base: nat, used: nat) {
    match lap
    case Straight(lo) => Tiles(q, lo, base)
    case Wrapped(lo, end) =>
      WrapTiles(q, lo, end, limit, base) && (lo < end || end < limit) && (lo < end ==> used <= lo)
  }

  /** readAmount tells whether a wrap is outstanding, and how much room lies in front of it. */
  lemma LiesSum(q: seq<GsCommand>, lap: Lap, limit: nat, base: nat, used: nat)
    requires Lies(q, lap, limit, base, used)
    ensures lap.Straight? ==> Sum(q) == base - lap.lo
    ensures lap.Wrapped? ==>
      Sum(q) == base + (if lap.end < limit then limit else lap.end) - lap.lo > base && lap.lo <= lap.end
  {
    if lap.Wrapped? { WrapTilesSum(q, lap.lo, lap.end, limit, base); } else { TilesSum(q, lap.lo, base); }
  }

  function Popped(lap: Lap, c: GsCommand, limit: nat): Lap {
    match lap
    case Straight(lo) => Straight(lo + c.size)
    case Wrapped(lo, end) =>
      if lo == end || (lo + c.size == end && limit <= end) then Straight(0) else Wrapped(lo + c.size, end)
  }

  lemma PopLies(q: seq<GsCommand>, lap: Lap, limit: nat, base: nat, used: nat)
    requires Lies(q, lap, limit, base, used) && q != []
    ensures Lies(q[1..], Popped(lap, q[0], limit), limit, base, used)
    ensures Popped(lap, q[0], limit).Wrapped? ==> lap.Wrapped? && lap.lo <= Popped(lap, q[0], limit).lo
  {
    if lap.Wrapped? && lap.lo < lap.end {
      WrapTilesSum(q[1..], lap.lo + q[0].size, lap.end, limit, base);
    }
  }

  lemma AppendLies(q: seq<GsCommand>, lap: Lap, limit: nat, base: nat, used: nat, size: nat)
    requires Lies(q, lap, limit, base, used) && size > 0
    ensures Lies(q + [Packet(base, size)], lap, limit, base + size, used)
  {
    if lap.Wrapped? {
      WrapTilesAppend(q, lap.lo, lap.end, limit, base, size);
    } else {
      TilesAppend(q, lap.lo, base, size);
    }
  }

  /** The lap after the packet at `end` was moved to the front. */
  function Turned(lo: nat, end: nat, limit: nat): Lap {
    if lo < end || end < limit then Wrapped(lo, end) else Straight(0)
  }

  lemma TurnLies(q: seq<GsCommand>, lo: nat, end: nat, limit: nat, used: nat)
    requires Tiles(q, lo, end) && (lo < end ==> used <= lo)
    ensures Lies(q + Gap(end, limit), Turned(lo, end, limit), limit, 0, used)
  {
    TilesSum(q, lo, end);
    TilesWrap(q, lo, end, limit);
    if q != [] { TilesSum(q[1..], lo + q[0].size, end); }
  }

  /** The bytes that are still to be read: no write may touch them. */
  ghost predicate Untouched(a: seq<byte>, b: seq<byte>, lap: Lap, base: nat) {
    match lap
    case Straight(lo) => Agree(a, b, lo, base)
    case Wrapped(lo, end) => Agree(a, b, lo, end) && Agree(a, b, 0, base)
  }

  lemma LiesKeep(a: seq<byte>, b: seq<byte>, q: seq<GsCommand>, lap: Lap, limit: nat, base: nat, used: nat)
    requires Lies(q, lap, limit, base, used) && Untouched(a, b, lap, base)
    ensures Bytes(a, q) == Bytes(b, q)
  {
    if lap.Wrapped? { WrapTilesKeep(a, b, q, lap.lo, lap.end, limit, base); } else { TilesKeep(a, b, q, lap.lo, base); }
  }

  /** A gap is counted but not read. */
  lemma GapBytes(b: seq<byte>, q: seq<GsCommand>, end: nat, limit: nat)
    ensures Bytes(b, q + Gap(end, limit)) == Bytes(b, q)
    ensures Sum(q + Gap(end, limit)) == Sum(q) + if end < limit then limit - end else 0
  {
    BytesAppend(b, q, Gap(end, limit));
    SumAppend(q, Gap(end, limit));
    assert Bytes(b, Gap(end, limit)) == [];
  }

  /** What adding a packet at base does to the bytes that are sent but not read. */
  lemma AddBytes(b: seq<byte>, q: seq<GsCommand>, base: nat, size: nat, received: seq<byte>, handed: seq<byte>)
    requires received + Bytes(b, q) == handed && base + size <= |b|
    ensures Sum(q + [Packet(base, size)]) == Sum(q) + size
    ensures received + Bytes(b, q + [Packet(base, size)]) == handed + b[base..base + size]
  {
    var c := Packet(base, size);
    OneCommand(b, base, size);
    hide Sum, Bytes;
    SumAppend(q, [c]);
    BytesAppend(b, q, [c]);
    Associate(received, Bytes(b, q), b[base..base + size]);
  }

  lemma OneCommand(b: seq<byte>, base: nat, size: nat)
    requires base + size <= |b|
    ensures Sum([Packet(base, size)]) == size && Bytes(b, [Packet(base, size)]) == b[base..base + size]
  {
    var q := [Packet(base, size)];
    assert q[1..] == [] && q[0] == Packet(base, size);
    assert Sum([]) == 0 && Bytes(b, []) == [];
  }
}
