/**
  The ring in main memory (MFIFO) that the scratchpad DMA fills and the GIF DMA drains. Both
  sides know only their own address; addresses wrap by masking.
 */
module Mfifo {
  import opened WrappedCopy
  import opened Sequences

  // ---------------------------------------------------------------------------------------
  // Masks
  // ---------------------------------------------------------------------------------------

  function And(x: nat, y: nat): nat {
    if x == 0 || y == 0 then 0 else 2 * And(x / 2, y / 2) + (x % 2) * (y % 2)
  }

  function Pow2(k: nat): (p: nat)
    ensures p > 0
  {
    if k == 0 then 1 else 2 * Pow2(k - 1)
  }

  /** A mask of ones takes the remainder. */
  lemma {:induction false} MaskIsRemainder(x: nat, k: nat)
    ensures And(x, Pow2(k) - 1) == x % Pow2(k)
    decreases k
  {
    if k == 0 {
      ZeroMask(x);
    } else if x > 0 {
      var p := Pow2(k - 1);
      OddMask(x, p);
      MaskIsRemainder(x / 2, k - 1);
      HalfRemainder(x, p);
      hide And;
    } else {
      RemainderIs(0, 0, Pow2(k), 0);
    }
  }

  lemma OddMask(x: nat, p: nat)
    requires x > 0 && p > 0
    ensures And(x, 2 * p - 1) == 2 * And(x / 2, p - 1) + x % 2
  {
    var y: nat := 2 * p - 1;
    assert y / 2 == p - 1 && y % 2 == 1;
  }

  lemma ZeroMask(x: nat)
    ensures And(x, 0) == 0
  {
  }

  lemma HalfRemainder(x: nat, p: nat)
    requires p > 0
    ensures x % (2 * p) == 2 * (x / 2 % p) + x % 2
  {
    var (q, r) := (x / 2 / p, x / 2 % p);
    assert x / 2 == q * p + r;
    assert x == q * (2 * p) + (2 * r + x % 2);
    RemainderIs(x, q, 2 * p, 2 * r + x % 2);
  }

  lemma RemainderIs(x: nat, q: nat, n: nat, r: nat)
    requires n > 0 && x == q * n + r && r < n
    ensures x % n == r
  {
    var (d, m) := (x / n, x % n);
    Apart(d, q, n, m, r);
  }

  lemma Apart(d: int, q: int, n: nat, m: nat, r: nat)
    requires m < n && r < n && d * n + m == q * n + r
    ensures m == r
  {
    assert (q - d) * n == q * n - d * n && (d - q) * n == d * n - q * n;
    if d < q {
      AtLeast(q - d, n);
    } else if q < d {
      AtLeast(d - q, n);
    }
  }

  lemma AtLeast(e: nat, n: nat)
    requires e > 0
    ensures e * n >= n
  {
  }

  lemma AndOfTwice(x: nat, y: nat)
    ensures And(2 * x, 2 * y) == 2 * And(x, y)
  {
  }

  /** RMSK of a ring of Pow2(k) words of 16 bytes. */
  function Mask(k: nat): nat {
    16 * (Pow2(k) - 1)
  }

  /** The mask keeps the place within the ring, wherever a word's address lies. */
  lemma MaskWord(word: nat, k: nat)
    ensures And(16 * word, Mask(k)) == 16 * (word % Pow2(k))
  {
    var m := Pow2(k) - 1;
    AndOfTwice(word, m);
    AndOfTwice(2 * word, 2 * m);
    AndOfTwice(4 * word, 4 * m);
    AndOfTwice(8 * word, 8 * m);
    MaskIsRemainder(word, k);
  }

  lemma MaskPlace(base: nat, place: nat, k: nat)
    requires place < 2 * Pow2(k)
    ensures And(16 * (base * Pow2(k) + place), Mask(k)) == 16 * Wrap(place, Pow2(k))
  {
    var n := Pow2(k);
    MaskWord(base * n + place, k);
    if place < n {
      RemainderIs(base * n + place, base, n, place);
    } else {
      assert (base + 1) * n == base * n + n;
      RemainderIs(base * n + place, base + 1, n, place - n);
    }
    hide And, Pow2;
  }

  // ---------------------------------------------------------------------------------------
  // The ring
  // ---------------------------------------------------------------------------------------

  class Ring {
    const k: nat             // Pow2(k) words of 16 bytes
    const base: nat          // rbor is a multiple of the ring's size
    const memory: array<Quad> // from rbor on
    var sprMadr: nat         // spr0ch.madr: where the next word is written
    var madr: nat            // gifch.madr: where the next word is read
    var qwc: nat             // gifch.qwc: how many words are still asked for
    var empty: bool          // GIF_STATE_EMPTY
    ghost var written: seq<Quad>
    ghost var delivered: seq<Quad>

    function Size(): nat
      ensures Size() > 0
    {
      Pow2(k)
    }

    function Rbor(): nat {
      16 * (base * Size())
    }

    /** The byte address of a place in the ring. */
    function Address(place: nat): nat {
      16 * (base * Size() + place)
    }

    /** The place of a byte address. */
    function Place(address: nat): int {
      (address - Rbor()) / 16
    }

    predicate InRing(address: nat) {
      0 <= Place(address) < Size() && address == Address(Place(address))
    }

    lemma Addressed(place: nat)
      requires place < Size()
      ensures InRing(Address(place)) && Place(Address(place)) == place && Address(place) == Rbor() + 16 * place
    {
    }

    lemma AddressSum(place: nat, n: nat)
      ensures Address(place) + 16 * n == Address(place + n) == 16 * (base * Pow2(k) + (place + n))
    {
    }

    ghost predicate Layout()
      reads `sprMadr, `madr
    {
      memory.Length == Size() && InRing(sprMadr) && InRing(madr)
    }

    /** How many words are there to read. */
    ghost function Count(): nat
      reads `sprMadr, `madr
      requires Layout()
      ensures Count() < Size()
    {
      Dist(Place(madr), Place(sprMadr), Size())
    }

    ghost function Unread(): (s: seq<Quad>)
      reads `sprMadr, `madr, memory
      requires Layout()
      ensures |s| == Count()
    {
      Window(memory[..], Place(madr), Count())
    }

    /** What the GIF took is all that was written but for what is still there. */
    ghost predicate Valid()
      reads `sprMadr, `madr, `qwc, `written, `delivered, memory
    {
      Layout() && written == delivered + Unread() && qwc <= 0xffff
    }

    constructor (k: nat, base: nat)
      ensures Valid() && Unread() == [] && this.k == k && this.base == base && fresh(memory)
    {
      this.k, this.base := k, base;
      memory := new Quad[Pow2(k)](i => Quad(0, 0, 0, 0));
      sprMadr, madr := 16 * (base * Pow2(k)), 16 * (base * Pow2(k));
      qwc, empty := 0, false;
      written, delivered := [], [];
    }

    // -------------------------------------------------------------------------------------
    // Writing
    // -------------------------------------------------------------------------------------

    method hwMFIFOWrite(addr: nat, data: seq<Quad>)
      requires memory.Length == Size() && InRing(addr) && |data| <= Size()
      modifies memory
      ensures memory[..] == Written(old(memory[..]), Place(addr), data)
    {
      MaskPlace(base, Place(addr), k);
      var startpos := And(addr, Mask(k)) / 16;
      var end := MemCopyWrappedDest(data, memory, startpos);
    }

    /**
      The scratchpad DMA writes. Nothing is lost exactly if the ring is not filled; otherwise the
      reader finds a whole ring of words less than there should be.
     */
    method SprWrite(data: seq<Quad>)
      requires Valid() && |data| <= Size()
      modifies this`sprMadr, this`written, memory
      ensures Layout() && written == old(written) + data
      ensures Valid() <==> old(Count()) + |data| < Size()
      ensures Count() == old(Count()) + |data| - if old(Count()) + |data| < Size() then 0 else Size()
      ensures old(Count()) + |data| < Size() ==> Unread() == old(Unread()) + data
    {
      hide And, Window, Written, Wrap, Pow2, Dist, Size, InRing, Place;
      ghost var (before, m, r, c) := (Unread(), memory[..], Place(madr), Count());
      CountFits();
      WindowMoves(m, r, c, |data|);
      if c + |data| < Size() { WindowExtends(m, r, c, data); }
      hwMFIFOWrite(sprMadr, data);
      MoveSprMadr(|data|);
      assert c + |data| < Size() ==> Unread() == before + data;
      Associate(delivered, before, data);
      written := written + data;
    }

    lemma CountFits()
      requires Layout()
      ensures memory.Length == Size() > 0 && 0 <= Place(madr) < Size() && 0 <= Place(sprMadr) < Size()
      ensures Wrap(Place(madr) + Count(), Size()) == Place(sprMadr)
    {
    }

    method MoveSprMadr(n: nat)
      requires Layout() && n <= Size()
      modifies `sprMadr
      ensures Layout() && Place(sprMadr) == Wrap(old(Place(sprMadr)) + n, Size())
    {
      hide And, Wrap, Pow2;
      ghost var w := Place(sprMadr);
      MaskPlace(base, w + n, k);
      Addressed(Wrap(w + n, Size()));
      AddressSum(w, n);
      sprMadr := Rbor() + And(sprMadr + 16 * n, Mask(k));
    }

    // -------------------------------------------------------------------------------------
    // Reading
    // -------------------------------------------------------------------------------------

    method QWCinGIFMFIFO(drain: nat) returns (r: nat)
      requires Layout() && drain == madr
      modifies `empty
      ensures r == Count() % 0x1_0000
      ensures empty == (old(empty) || Count() == 0)
    {
      var ret;
      if drain <= sprMadr {
        ret := (sprMadr - drain) / 16;
      } else {
        var limit := Rbor() + Mask(k) + 16;
        ret := (sprMadr - Rbor() + (limit - drain)) / 16;
      }
      if ret == 0 {
        empty := true;
      }
      r := ret % 0x1_0000;
    }

    method incGifChAddr(n: nat)
      requires n <= qwc
      modifies `madr, `qwc
      ensures madr == old(madr) + 16 * n && qwc == old(qwc) - n
    {
      madr := madr + n * 16;
      qwc := qwc - n;
    }

    /** The GIF took the next n words, up to the end of the ring at most: then the address wraps. */
    method Advance(n: nat)
      requires Layout() && n <= Count() && n <= qwc && Place(madr) + n <= Size()
      modifies `madr, `qwc
      ensures Layout() && qwc == old(qwc) - n && Unread() == old(Unread())[n..]
      ensures Place(madr) == Wrap(old(Place(madr)) + n, Size()) && Count() == old(Count()) - n
    {
      hide And, Window, Wrap, Pow2, Dist;
      ghost var r := Place(madr);
      Skipped(memory[..], r, Place(sprMadr), n);
      MaskPlace(base, r + n, k);
      Addressed(Wrap(r + n, Size()));
      AddressSum(r, n);
      hide Size, Mask;
      incGifChAddr(n);
      madr := Rbor() + And(madr, Mask(k));
    }

    /** The same on the second way round, where the ring's end is out of reach. */
    method AdvanceWithin(n: nat)
      requires Layout() && n <= Count() && n <= qwc && Place(madr) + n < Size()
      modifies `madr, `qwc
      ensures Layout() && qwc == old(qwc) - n && Unread() == old(Unread())[n..]
    {
      ghost var r := Place(madr);
      Skipped(memory[..], r, Place(sprMadr), n);
      Addressed(r + n);
      AddressSum(r, n);
      hide And, Window, Pow2, Dist;
      incGifChAddr(n);
    }

    /**
      Drains up to qwc words, in two pieces if they run over the ring's end. The GIF takes at most
      accepts1 of the first piece and accepts2 of the second, which is only tried if the first is gone.
     */
    method mfifoGIFrbTransfer(accepts1: nat, accepts2: nat) returns (moved: nat)
      requires Valid()
      modifies this`madr, this`qwc, this`empty, this`delivered
      ensures Valid() && memory[..] == old(memory[..])
      ensures moved == Drained(old(Count()), old(qwc), Size() - old(Place(madr)), accepts1, accepts2)
      ensures qwc == old(qwc) - moved && moved <= old(Count())
      ensures delivered == old(delivered) + old(Unread())[..moved] && Unread() == old(Unread())[moved..]
    {
      hide Window, Wrap, Dist, And, Pow2, Drained;
      ToTheEnd(madr);
      hide Layout, InRing, Place, Size, Rbor, Mask;
      ghost var count := Count();
      var inRing := QWCinGIFMFIFO(madr);
      var n := Min(inRing, qwc);
      var untilEnd := (Rbor() + Mask(k) + 16 - madr) / 16;
      DrainedInPieces(count, qwc, untilEnd, accepts1, accepts2);
      moved := TransferPieces(n, untilEnd, accepts1, accepts2);
    }

    /** The one or two pieces of a transfer of n words. */
    method TransferPieces(n: nat, untilEnd: nat, accepts1: nat, accepts2: nat) returns (moved: nat)
      requires Layout() && n <= Count() && n <= qwc && Place(madr) + untilEnd == Size()
      modifies `madr, `qwc, `delivered
      ensures var first := Min(accepts1, if untilEnd < n then untilEnd else n);
        moved == if untilEnd < n && first == untilEnd then first + Min(accepts2, n - untilEnd) else first
      ensures Layout() && qwc == old(qwc) - moved && moved <= old(Count())
      ensures delivered == old(delivered) + old(Unread())[..moved] && Unread() == old(Unread())[moved..]
      ensures delivered + Unread() == old(delivered + Unread())
    {
      hide Window, Dist, And, Pow2, Layout, InRing, Place, Size, Rbor, Mask, Wrap;
      CountFits();
      ghost var (before, was) := (Unread(), delivered);
      WrapsToFront(Place(madr), untilEnd, Size());
      var needWrap := untilEnd < n;
      moved := FirstPiece(if needWrap then untilEnd else n, accepts1);
      if needWrap && moved == untilEnd {
        var more := SecondPiece(n - untilEnd, accepts2);
        InTwo(was, before, moved, more);
        moved := moved + more;
      }
      InPieces(was, before, moved);
    }

    method FirstPiece(n: nat, accepts: nat) returns (moved: nat)
      requires Layout() && n <= Count() && n <= qwc && Place(madr) + n <= Size()
      modifies `madr, `qwc, `delivered
      ensures moved == Min(accepts, n) && Layout() && qwc == old(qwc) - moved
      ensures delivered == old(delivered) + old(Unread())[..moved] && Unread() == old(Unread())[moved..]
      ensures Place(madr) == Wrap(old(Place(madr)) + moved, Size()) && Count() == old(Count()) - moved
    {
      hide Window, Wrap, Dist, And, Pow2, Size, Rbor, Mask;
      Offered(n);
      moved := Min(accepts, n);
      delivered := delivered + memory[Place(madr)..Place(madr) + n][..moved];
      Advance(moved);
    }

    method SecondPiece(n: nat, accepts: nat) returns (moved: nat)
      requires Layout() && n <= Count() && n <= qwc && Place(madr) == 0
      modifies `madr, `qwc, `delivered
      ensures moved == Min(accepts, n) && Layout() && qwc == old(qwc) - moved
      ensures delivered == old(delivered) + old(Unread())[..moved] && Unread() == old(Unread())[moved..]
    {
      hide Window, Wrap, Dist, And, Pow2, Size, Rbor, Mask;
      Offered(n);
      moved := Min(accepts, n);
      delivered := delivered + memory[..n][..moved];
      AdvanceWithin(moved);
    }

    lemma ToTheEnd(address: nat)
      requires InRing(address)
      ensures 0 <= Place(address) < Size() && (Rbor() + Mask(k) + 16 - address) / 16 == Size() - Place(address)
    {
      AddressSum(Place(address), 0);
    }

    /** The words the memory holds from the reader's address on are the next ones. */
    lemma Offered(n: nat)
      requires Layout() && n <= Count() && Place(madr) + n <= Size()
      ensures 0 <= Place(madr) && memory[Place(madr)..Place(madr) + n] == Unread()[..n]
    {
    }
  }

  lemma WrapsToFront(place: int, untilEnd: nat, size: nat)
    requires size > 0 && 0 <= place < size && place + untilEnd == size
    ensures Wrap(place + untilEnd, size) == 0
  {
  }

  lemma InTwo(was: seq<Quad>, s: seq<Quad>, n: nat, more: nat)
    requires n + more <= |s|
    ensures was + s[..n] + s[n..][..more] == was + s[..n + more] && s[n..][more..] == s[n + more..]
  {
    assert s[..n] + s[n..][..more] == s[..n + more];
  }

  /** How many words one transfer moves. The count of words in the ring is kept in 16 bits. */
  function Drained(count: nat, qwc: nat, untilEnd: nat, accepts1: nat, accepts2: nat): nat {
    var n := Min(count % 0x1_0000, qwc);
    if n <= untilEnd then Min(accepts1, n)
    else if accepts1 < untilEnd then accepts1
    else untilEnd + Min(accepts2, n - untilEnd)
  }

  /**
    If the GIF takes all it is offered, exactly when all that is asked for and there is drained:
    when there are less than 0x10000 words, which is all that fits into a ring of that size, or
    enough of them are seen; and exactly a multiple of 0x10000 looks like nothing.
   */
  lemma WillingDrain(count: nat, qwc: nat, untilEnd: nat, accepts: nat)
    requires 0 < qwc <= 0xffff && qwc <= accepts
    ensures Drained(count, qwc, untilEnd, accepts, accepts) == Min(count, qwc) <==>
      count < 0x1_0000 || count % 0x1_0000 >= qwc
    ensures Drained(count, qwc, untilEnd, accepts, accepts) == 0 <==> count % 0x1_0000 == 0
  {
  }

  lemma DrainedInPieces(count: nat, qwc: nat, untilEnd: nat, accepts1: nat, accepts2: nat)
    ensures var n := Min(count % 0x1_0000, qwc); var first := Min(accepts1, if untilEnd < n then untilEnd else n);
      Drained(count, qwc, untilEnd, accepts1, accepts2) ==
      if untilEnd < n && first == untilEnd then first + Min(accepts2, n - untilEnd) else first
  {
  }

  /** A reader that moves on by n words has the rest of the window before it. */
  lemma Skipped(ring: seq<Quad>, r: nat, w: nat, n: nat)
    requires r < |ring| && w < |ring| && n <= Dist(r, w, |ring|)
    ensures Dist(Wrap(r + n, |ring|), w, |ring|) == Dist(r, w, |ring|) - n
    ensures Window(ring, Wrap(r + n, |ring|), Dist(r, w, |ring|) - n) == Window(ring, r, Dist(r, w, |ring|))[n..]
  {
    WindowTail(ring, r, Dist(r, w, |ring|), n);
  }

  /** How far the end of a window is from its start as it moves on, perhaps past the start. */
  lemma WindowMoves(ring: seq<Quad>, pos: nat, len: nat, n: nat)
    requires pos < |ring| && len < |ring| && n <= |ring|
    ensures Dist(pos, Wrap(pos + len, |ring|), |ring|) == len
    ensures Dist(pos, Wrap(Wrap(pos + len, |ring|) + n, |ring|), |ring|) ==
      len + n - if len + n < |ring| then 0 else |ring|
  {
  }

  /** Data written behind a window makes it longer. */
  lemma WindowExtends(ring: seq<Quad>, pos: nat, len: nat, data: seq<Quad>)
    requires pos < |ring| && len + |data| < |ring|
    ensures Window(Written(ring, Wrap(pos + len, |ring|), data), pos, len + |data|) == Window(ring, pos, len) + data
    ensures Dist(pos, Wrap(Wrap(pos + len, |ring|) + |data|, |ring|), |ring|) == len + |data|
  {
    hide Window, Written, Wrap, Dist;
    WindowMoves(ring, pos, len, |data|);
    var at := Wrap(pos + len, |ring|);
    ReadBack(ring, at, data);
    ReadPast(ring, at, data, pos, len);
    WindowJoins(Written(ring, at, data), pos, len, |data|);
  }

  lemma WindowJoins(ring: seq<Quad>, pos: nat, m: nat, n: nat)
    requires pos < |ring| && m < |ring| && m + n <= |ring|
    ensures Window(ring, pos, m + n) == Window(ring, pos, m) + Window(ring, Wrap(pos + m, |ring|), n)
  {
    WindowTail(ring, pos, m + n, m);
    hide Window, Wrap;
    var w := Window(ring, pos, m + n);
    assert w == w[..m] + w[m..];
  }
}
