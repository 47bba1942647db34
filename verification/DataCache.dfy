/**
  The EE data cache: 64 sets of two 64-byte lines, written back when replaced, tagged with
  physical addresses, and replaced in turn. `Flat` is the memory that a program sees.
 */
module DataCache {

  type byte = x: int | 0 <= x < 256

  /** 64 bytes, as one cache line holds them. */
  type Block = b: seq<byte> | |b| == 64 witness seq(64, _ => 0)

  const ZEROS: Block := seq(64, _ => 0)
  const SETS: nat := 64
  const KSEG0: nat := 0x80000 // the page of host address 0, as tags name it

  /** A tag's page number and flags. */
  datatype Line = Line(page: nat, valid: bool, dirty: bool, lrf: bool, data: Block)

  // ---------------------------------------------------------------------------------------
  // What the cache stands for
  // ---------------------------------------------------------------------------------------

  /** The set that host line n falls into, and the page its tag names. */
  function SetOf(n: nat): (i: nat)
    ensures i < SETS
  {
    n % SETS
  }

  function PageOf(n: nat): nat {
    n / SETS + KSEG0
  }

  predicate Holds(l: Line, n: nat) {
    l.valid && l.page == PageOf(n)
  }

  /** Host line n as a program sees it: from the cache if it is there, else from memory. */
  function Seen(lines: seq<Line>, memory: seq<Block>, n: nat): Block
    requires |lines| == 2 * SETS && n < |memory|
  {
    var i := SetOf(n);
    if Holds(lines[2 * i], n) then lines[2 * i].data
    else if Holds(lines[2 * i + 1], n) then lines[2 * i + 1].data
    else memory[n]
  }

  function FlatOf(lines: seq<Line>, memory: seq<Block>): (f: seq<Block>)
    requires |lines| == 2 * SETS
    ensures |f| == |memory| && forall n :: 0 <= n < |f| ==> f[n] == Seen(lines, memory, n)
  {
    seq(|memory|, n requires 0 <= n < |memory| => Seen(lines, memory, n))
  }

  /** The host line that a valid line in set i holds. */
  function HostLine(l: Line, i: nat): int {
    (l.page - KSEG0) * SETS + i
  }

  /** A line is clean only while memory agrees with it. */
  ghost predicate LineOk(l: Line, memory: seq<Block>, i: nat) {
    (l.dirty ==> l.valid) &&
    (l.valid ==> l.page >= KSEG0 && HostLine(l, i) < |memory| && (!l.dirty ==> memory[HostLine(l, i)] == l.data))
  }

  ghost predicate Coherent(lines: seq<Line>, memory: seq<Block>) {
    |lines| == 2 * SETS &&
    (forall k :: 0 <= k < 2 * SETS ==> LineOk(lines[k], memory, k / 2)) &&
    (forall i :: 0 <= i < SETS && lines[2 * i].valid && lines[2 * i + 1].valid ==>
      lines[2 * i].page != lines[2 * i + 1].page)
  }

  lemma HostLineHeld(l: Line, i: nat, n: nat)
    requires i < SETS && l.page >= KSEG0
    ensures SetOf(n) == i && l.page == PageOf(n) <==> n == HostLine(l, i)
  {
  }

  /** Two lines of the cache never hold the same line of memory. */
  lemma OnlyOne(lines: seq<Line>, memory: seq<Block>, j: nat, k: nat)
    requires Coherent(lines, memory) && j < 2 * SETS && k < 2 * SETS && lines[j].valid && lines[k].valid
    requires HostLine(lines[j], j / 2) == HostLine(lines[k], k / 2)
    ensures j == k
  {
    var h := HostLine(lines[k], k / 2);
    HostLineHeld(lines[j], j / 2, h);
    HostLineHeld(lines[k], k / 2, h);
    var i := k / 2;
    assert lines[2 * i].valid && lines[2 * i + 1].valid ==> lines[2 * i].page != lines[2 * i + 1].page;
    assert (j == 2 * i || j == 2 * i + 1) && (k == 2 * i || k == 2 * i + 1);
  }

  /** A line is seen in the cache line that holds it. */
  lemma SeenHeld(lines: seq<Line>, memory: seq<Block>, k: nat)
    requires Coherent(lines, memory) && k < 2 * SETS && lines[k].valid
    ensures var h := HostLine(lines[k], k / 2); 0 <= h < |memory| && Seen(lines, memory, h) == lines[k].data
  {
    var h := HostLine(lines[k], k / 2);
    HostLineHeld(lines[k], k / 2, h);
  }

  /** Writing a line back changes nothing a program can see. */
  lemma WriteBack(lines: seq<Line>, memory: seq<Block>, k: nat)
    requires Coherent(lines, memory) && k < 2 * SETS && lines[k].valid
    ensures 0 <= HostLine(lines[k], k / 2) < |memory|
    ensures
      var h := HostLine(lines[k], k / 2);
      var lines' := lines[k := lines[k].(dirty := false)];
      var memory' := memory[h := lines[k].data];
      Coherent(lines', memory') && FlatOf(lines', memory') == FlatOf(lines, memory)
  {
    var l := lines[k];
    var h := HostLine(l, k / 2);
    HostLineHeld(l, k / 2, h);
    SeenHeld(lines, memory, k);
    WrittenBackCoherent(lines, memory, k);
    var memory' := memory[h := l.data];
    var lines' := lines[k := l.(dirty := false)];
    SeenHeld(lines', memory', k);
    hide Coherent, LineOk;
    forall m | 0 <= m < |memory| && m != h
      ensures Seen(lines', memory', m) == Seen(lines, memory, m)
    {
      assert SetOf(m) != k / 2 || !Holds(l, m);
    }
  }

  lemma WrittenBackCoherent(lines: seq<Line>, memory: seq<Block>, k: nat)
    requires Coherent(lines, memory) && k < 2 * SETS && lines[k].valid && 0 <= HostLine(lines[k], k / 2) < |memory|
    ensures Coherent(lines[k := lines[k].(dirty := false)], memory[HostLine(lines[k], k / 2) := lines[k].data])
  {
    var h := HostLine(lines[k], k / 2);
    var memory' := memory[h := lines[k].data];
    var lines' := lines[k := lines[k].(dirty := false)];
    forall j | 0 <= j < 2 * SETS
      ensures LineOk(lines'[j], memory', j / 2)
    {
      if lines[j].valid && HostLine(lines[j], j / 2) == h {
        OnlyOne(lines, memory, j, k);
      }
    }
  }

  /** Replacing a clean line by one from memory changes nothing a program can see. */
  lemma Replace(lines: seq<Line>, memory: seq<Block>, k: nat, n: nat, lrf: bool)
    requires Coherent(lines, memory) && k < 2 * SETS && !lines[k].dirty
    requires n < |memory| && SetOf(n) == k / 2
    requires !Holds(lines[2 * (k / 2)], n) && !Holds(lines[2 * (k / 2) + 1], n)
    ensures var lines' := lines[k := Line(PageOf(n), true, false, lrf, memory[n])];
      Coherent(lines', memory) && FlatOf(lines', memory) == FlatOf(lines, memory)
  {
    var i := k / 2;
    var lines' := lines[k := Line(PageOf(n), true, false, lrf, memory[n])];
    HostLineHeld(lines'[k], i, n);
    assert Coherent(lines', memory);
    forall m | 0 <= m < |memory|
      ensures Seen(lines', memory, m) == Seen(lines, memory, m)
    {
      if SetOf(m) == i {
        if lines[k].valid { HostLineHeld(lines[k], i, m); }
        HostLineHeld(lines'[k], i, m);
      }
    }
  }

  /** Writing into a line that the cache holds writes into what a program sees, there and nowhere else. */
  lemma WriteHit(lines: seq<Line>, memory: seq<Block>, k: nat, data: Block)
    requires Coherent(lines, memory) && k < 2 * SETS && lines[k].valid
    ensures 0 <= HostLine(lines[k], k / 2) < |memory|
    ensures
      var h := HostLine(lines[k], k / 2);
      var lines' := lines[k := lines[k].(dirty := true, data := data)];
      Coherent(lines', memory) && FlatOf(lines', memory) == FlatOf(lines, memory)[h := data]
  {
    var h := HostLine(lines[k], k / 2);
    var lines' := lines[k := lines[k].(dirty := true, data := data)];
    SeenHeld(lines, memory, k);
    SeenHeld(lines', memory, k);
    forall m | 0 <= m < |memory| && m != h
      ensures Seen(lines', memory, m) == Seen(lines, memory, m)
    {
      HostLineHeld(lines[k], k / 2, m);
    }
  }

  /** Dropping a line shows memory again, there and nowhere else. */
  lemma Drop(lines: seq<Line>, memory: seq<Block>, k: nat)
    requires Coherent(lines, memory) && k < 2 * SETS && lines[k].valid
    ensures 0 <= HostLine(lines[k], k / 2) < |memory|
    ensures
      var h := HostLine(lines[k], k / 2);
      var lines' := lines[k := Line(0, false, false, lines[k].lrf, ZEROS)];
      Coherent(lines', memory) && FlatOf(lines', memory) == FlatOf(lines, memory)[h := memory[h]] &&
      !Holds(lines'[2 * (k / 2)], h) && !Holds(lines'[2 * (k / 2) + 1], h)
  {
    var i := k / 2;
    var h := HostLine(lines[k], i);
    var lines' := lines[k := Line(0, false, false, lines[k].lrf, ZEROS)];
    SeenHeld(lines, memory, k);
    HostLineHeld(lines[k], i, h);
    forall m | 0 <= m < |memory| && m != h
      ensures Seen(lines', memory, m) == Seen(lines, memory, m)
    {
      HostLineHeld(lines[k], i, m);
    }
  }

  // ---------------------------------------------------------------------------------------
  // The cache
  // ---------------------------------------------------------------------------------------

  const ADDRESSES: nat := 0x1_0000_0000

  class Cache {
    const memory: array<Block>
    const lines: array<Line>
    // What a page's entry adds to a virtual address to make the host address.
    const vmap: seq<nat>

    ghost predicate Valid()
      reads memory, lines
    {
      lines.Length == 2 * SETS && |vmap| == 0x10_0000 && memory.Length <= 0x8000_0000 / 64 &&
      Coherent(lines[..], memory[..])
    }

    /** Memory as a program sees it. */
    ghost function Flat(): seq<Block>
      requires lines.Length == 2 * SETS
      reads memory, lines
    {
      FlatOf(lines[..], memory[..])
    }

    constructor (memory: array<Block>, vmap: seq<nat>)
      requires |vmap| == 0x10_0000 && memory.Length <= 0x8000_0000 / 64
      ensures Valid() && Flat() == memory[..] && this.memory == memory && this.vmap == vmap && fresh(lines)
      ensures forall i :: 0 <= i < SETS ==> Victim(i) == 2 * i
    {
      this.memory := memory;
      this.vmap := vmap;
      lines := new Line[2 * SETS](_ => Line(0, false, false, false, ZEROS));
    }

    /** The host address of a virtual one: its page's entry is added, in 32 bits. */
    function HostAddress(mem: nat): nat
      requires mem < ADDRESSES && |vmap| == 0x10_0000
    {
      (mem + vmap[mem / 4096]) % ADDRESSES
    }

    /** A page that maps memory: the entry keeps the offset in the page and points below 0x80000000. */
    predicate Mapped(mem: nat)
      requires |vmap| == 0x10_0000
    {
      mem < ADDRESSES && vmap[mem / 4096] % 4096 == 0 && HostAddress(mem) / 64 < memory.Length
    }

    /** The entry that maps a page of addresses to a page of memory gives each its place there. */
    lemma MapsTo(mem: nat, page: nat)
      requires |vmap| == 0x10_0000 && mem < ADDRESSES && page < 0x8_0000 && 64 * page + 64 <= memory.Length
      requires vmap[mem / 4096] == (page * 4096 - mem / 4096 * 4096) % ADDRESSES
      ensures Mapped(mem) && HostAddress(mem) == page * 4096 + mem % 4096
      ensures Target(mem) == 64 * page + mem % 4096 / 64
    {
    }

    /** The host line of a mapped address. */
    function Target(mem: nat): (n: nat)
      requires |vmap| == 0x10_0000 && Mapped(mem)
      ensures n < memory.Length && SetOf(n) == mem / 64 % 64 // the same set for all aliases
    {
      SameOffset(mem, vmap[mem / 4096]);
      HostAddress(mem) / 64
    }

    // -------------------------------------------------------------------------------------

    /** The next line to be replaced in set i. */
    function Victim(i: nat): (k: nat)
      requires lines.Length == 2 * SETS && i < SETS
      reads lines
      ensures k == 2 * i || k == 2 * i + 1
    {
      2 * i + if lines[2 * i].lrf != lines[2 * i + 1].lrf then 1 else 0
    }

    /** Finds host line n = Target(mem) in its set, or replaces a line of the set by it. */
    method GetFreeCache(mem: nat) returns (k: nat)
      requires Valid() && Mapped(mem)
      modifies lines, memory
      ensures Valid() && Flat() == old(Flat())
      ensures k / 2 == SetOf(Target(mem)) && Holds(lines[k], Target(mem)) && HostLine(lines[k], k / 2) == Target(mem)
      ensures old(Holds(lines[2 * (k / 2)], Target(mem)) || Holds(lines[2 * (k / 2) + 1], Target(mem))) ==>
        lines[..] == old(lines[..]) && memory[..] == old(memory[..])
      ensures old(!Holds(lines[2 * (k / 2)], Target(mem)) && !Holds(lines[2 * (k / 2) + 1], Target(mem))) ==>
        k == old(Victim(SetOf(Target(mem)))) && Victim(k / 2) != k
    {
      hide Seen, FlatOf;
      var i := mem / 64 % 64;
      var n := Target(mem);
      if Holds(lines[2 * i], n) {
        k := 2 * i;
        HostLineHeld(lines[k], i, n);
        return;
      }
      if Holds(lines[2 * i + 1], n) {
        k := 2 * i + 1;
        HostLineHeld(lines[k], i, n);
        return;
      }
      k := Victim(i);
      Evict(k);
      Fill(k, n);
    }

    /** Writes a line that is dirty back. */
    method Evict(k: nat)
      requires Valid() && k < 2 * SETS
      modifies lines, memory
      ensures Valid() && Flat() == old(Flat()) && !lines[k].dirty && lines[k] == old(lines[k]).(dirty := false)
      ensures forall j :: 0 <= j < 2 * SETS && j != k ==> lines[j] == old(lines[j])
    {
      hide Seen, FlatOf;
      assert lines[..][k] == lines[k];
      if lines[k].dirty && lines[k].valid {
        WriteBack(lines[..], memory[..], k);
        hide Coherent, LineOk;
        memory[HostLine(lines[k], k / 2)] := lines[k].data;
        lines[k] := lines[k].(dirty := false);
      }
    }

    /** Puts host line n into a clean line of its set. */
    method Fill(k: nat, n: nat)
      requires Valid() && k < 2 * SETS && !lines[k].dirty && n < memory.Length && SetOf(n) == k / 2
      requires !Holds(lines[2 * (k / 2)], n) && !Holds(lines[2 * (k / 2) + 1], n)
      modifies lines
      ensures Valid() && Flat() == old(Flat())
      ensures Holds(lines[k], n) && HostLine(lines[k], k / 2) == n && lines[k].lrf == !old(lines[k].lrf)
      ensures forall j :: 0 <= j < 2 * SETS && j != k ==> lines[j] == old(lines[j])
    {
      hide Seen, FlatOf;
      assert lines[..][k] == lines[k];
      Replace(lines[..], memory[..], k, n, !lines[k].lrf);
      hide Coherent, LineOk;
      lines[k] := Line(PageOf(n), true, lines[k].dirty, !lines[k].lrf, memory[n]);
      HostLineHeld(lines[k], k / 2, n);
    }

    /** readCache8 to readCache64: n bytes. */
    method ReadCache(mem: nat, n: nat) returns (v: seq<byte>)
      requires Valid() && Mapped(mem) && IsWidth(n) && n <= 8
      modifies lines, memory
      ensures Valid() && Flat() == old(Flat())
      ensures v == Slice(Flat()[Target(mem)], mem, n)
    {
      var k := GetFreeCache(mem);
      SeenHeld(lines[..], memory[..], k);
      hide Seen, FlatOf, Coherent;
      v := Slice(lines[k].data, mem, n);
    }

    /** writeCache8 to writeCache128. */
    method WriteCache(mem: nat, value: seq<byte>)
      requires Valid() && Mapped(mem) && IsWidth(|value|)
      modifies lines, memory
      ensures Valid()
      ensures Flat() == old(Flat())[Target(mem) := Patch(old(Flat())[Target(mem)], mem, value)]
    {
      var k := GetFreeCache(mem);
      SeenHeld(lines[..], memory[..], k);
      var data := Patch(lines[k].data, mem, value);
      WriteHit(lines[..], memory[..], k, data);
      hide Seen, FlatOf, Coherent;
      lines[k] := lines[k].(dirty := true, data := data);
    }

    /** The line of the cache that holds a mapped address, if any. */
    method Find(mem: nat) returns (found: bool, k: nat)
      requires Valid() && Mapped(mem)
      ensures found ==>
        k < 2 * SETS && k / 2 == SetOf(Target(mem)) &&
        Holds(lines[k], Target(mem)) && HostLine(lines[k], k / 2) == Target(mem)
      ensures !found ==>
        !Holds(lines[2 * SetOf(Target(mem))], Target(mem)) && !Holds(lines[2 * SetOf(Target(mem)) + 1], Target(mem))
    {
      var i := mem / 64 % 64;
      found, k := true, 2 * i;
      if !Holds(lines[k], Target(mem)) {
        k := 2 * i + 1;
        found := Holds(lines[k], Target(mem));
      }
      if found { HostLineHeld(lines[k], i, Target(mem)); }
    }

    /** Whether the cache holds a mapped address. */
    predicate Cached(mem: nat)
      requires lines.Length == 2 * SETS && |vmap| == 0x10_0000 && Mapped(mem)
      reads lines
    {
      Holds(lines[2 * SetOf(Target(mem))], Target(mem)) || Holds(lines[2 * SetOf(Target(mem)) + 1], Target(mem))
    }

    /** CACHE DHWBIN: writes the address's line back, if it is dirty, and drops it. */
    method WriteBackInvalidate(mem: nat)
      requires Valid() && Mapped(mem)
      modifies lines, memory
      ensures Valid() && Flat() == old(Flat()) && !Cached(mem)
      ensures memory[Target(mem)] == Flat()[Target(mem)]
    {
      var found, k := Find(mem);
      if found {
        assert lines[..][k] == lines[k];
        SeenHeld(lines[..], memory[..], k);
        if lines[k].dirty && lines[k].valid {
          WriteBack(lines[..], memory[..], k);
          memory[Target(mem)] := lines[k].data;
          lines[k] := lines[k].(dirty := false);
        }
        Drop(lines[..], memory[..], k);
        hide Seen, Coherent;
        lines[k] := Line(0, false, false, lines[k].lrf, ZEROS);
      }
    }

    /** CACHE DHIN: drops the address's line, so that memory shows again there and nowhere else. */
    method Invalidate(mem: nat)
      requires Valid() && Mapped(mem)
      modifies lines
      ensures Valid() && !Cached(mem)
      ensures Flat() == old(Flat())[Target(mem) := memory[Target(mem)]]
    {
      var found, k := Find(mem);
      if found {
        Drop(lines[..], memory[..], k);
        lines[k] := Line(0, false, false, lines[k].lrf, ZEROS);
      }
    }

    /** Any sequence of reads, writes and write-backs reads what flat memory would. */
    method Run(ops: seq<Op>) returns (out: seq<seq<byte>>)
      requires Valid() && forall j :: 0 <= j < |ops| ==> Mapped(ops[j].mem) && Proper(ops[j])
      modifies lines, memory
      ensures Valid()
      ensures FlatRun(old(Flat()), ops, HostLines(ops)) == (Flat(), out)
    {
      out := [];
      ghost var start := Flat();
      for j := 0 to |ops|
        invariant Valid()
        invariant FlatRun(start, ops[..j], HostLines(ops[..j])) == (Flat(), out)
      {
        assert ops[..j + 1][..j] == ops[..j] && HostLines(ops[..j + 1])[..j] == HostLines(ops[..j]);
        match ops[j]
        case Read(mem, n) =>
          var v := ReadCache(mem, n);
          out := out + [v];
        case Write(mem, value) => WriteCache(mem, value);
        case Flush(mem) => WriteBackInvalidate(mem);
      }
      assert ops[..|ops|] == ops;
    }

    ghost function HostLines(ops: seq<Op>): (ns: seq<nat>)
      requires |vmap| == 0x10_0000 && forall j :: 0 <= j < |ops| ==> Mapped(ops[j].mem)
      ensures |ns| == |ops| && forall j :: 0 <= j < |ops| ==> ns[j] == Target(ops[j].mem)
    {
      seq(|ops|, j requires 0 <= j < |ops| => Target(ops[j].mem))
    }
  }

  // ---------------------------------------------------------------------------------------
  // Flat memory
  // ---------------------------------------------------------------------------------------

  /** The widths of an access in bytes. */
  predicate IsWidth(n: nat) {
    n == 1 || n == 2 || n == 4 || n == 8 || n == 16
  }

  /** Where an access of n bytes falls in its line: within a quadword, at a multiple of n. */
  function Offset(mem: nat, n: nat): (o: nat)
    requires IsWidth(n)
    ensures o + n <= 64
  {
    mem / 16 % 4 * 16 +
    if n == 1 then mem % 16
    else if n == 2 then mem % 16 / 2 * 2
    else if n == 4 then mem % 16 / 4 * 4
    else if n == 8 then mem % 16 / 8 * 8
    else 0
  }

  predicate Aligned(mem: nat, n: nat) {
    match n
    case 1 => true
    case 2 => mem % 2 == 0
    case 4 => mem % 4 == 0
    case 8 => mem % 8 == 0
    case _ => mem % 16 == 0
  }

  /** For an aligned access that is simply the address within the line. */
  lemma AlignedOffset(mem: nat, n: nat)
    requires IsWidth(n) && Aligned(mem, n)
    ensures Offset(mem, n) == mem % 64
  {
    Quarter(mem);
    if n == 1 {
    } else if n == 2 {
      Rounded(mem, 2);
    } else if n == 4 {
      Rounded(mem, 4);
    } else if n == 8 {
      Rounded(mem, 8);
    } else {
    }
  }

  lemma Quarter(mem: nat)
    ensures mem / 16 % 4 * 16 + mem % 16 == mem % 64
  {
  }

  lemma Rounded(mem: nat, n: nat)
    requires (n == 2 || n == 4 || n == 8) && mem % n == 0
    ensures mem % 16 / n * n == mem % 16
  {
    if n == 2 {
      Rounded2(mem);
    } else if n == 4 {
      Rounded4(mem);
    } else {
      Rounded8(mem);
    }
  }

  lemma Rounded2(mem: nat)
    requires mem % 2 == 0
    ensures mem % 16 / 2 * 2 == mem % 16
  {
    var k := mem / 2 - 8 * (mem / 16);
    assert mem % 16 == 2 * k;
    assert 2 * k / 2 == k;
  }

  lemma Rounded4(mem: nat)
    requires mem % 4 == 0
    ensures mem % 16 / 4 * 4 == mem % 16
  {
    var k := mem / 4 - 4 * (mem / 16);
    assert mem % 16 == 4 * k;
    assert 4 * k / 4 == k;
  }

  lemma Rounded8(mem: nat)
    requires mem % 8 == 0
    ensures mem % 16 / 8 * 8 == mem % 16
  {
    var k := mem / 8 - 2 * (mem / 16);
    assert mem % 16 == 8 * k;
    assert 8 * k / 8 == k;
  }

  function Slice(b: Block, mem: nat, n: nat): (v: seq<byte>)
    requires IsWidth(n)
    ensures |v| == n
  {
    b[Offset(mem, n)..Offset(mem, n) + n]
  }

  function Patch(b: Block, mem: nat, value: seq<byte>): Block
    requires IsWidth(|value|)
  {
    b[..Offset(mem, |value|)] + value + b[Offset(mem, |value|) + |value|..]
  }

  datatype Op = Read(mem: nat, n: nat) | Write(mem: nat, value: seq<byte>) | Flush(mem: nat)

  predicate Proper(op: Op) {
    match op
    case Read(_, n) => IsWidth(n) && n <= 8
    case Write(_, value) => IsWidth(|value|)
    case Flush(_) => true
  }

  /** The same operations on memory without a cache; `at` gives each operation's host line. */
  function FlatRun(f: seq<Block>, ops: seq<Op>, at: seq<nat>): (r: (seq<Block>, seq<seq<byte>>))
    requires |at| == |ops| && (forall j :: 0 <= j < |ops| ==> at[j] < |f|) &&
      (forall j :: 0 <= j < |ops| ==> Proper(ops[j]))
    ensures |r.0| == |f|
    decreases |ops|
  {
    if ops == [] then (f, [])
    else
      var m := |ops| - 1;
      var (g, out) := FlatRun(f, ops[..m], at[..m]);
      assert Proper(ops[m]);
      match ops[m]
      case Read(mem, n) => (g, out + [Slice(g[at[m]], mem, n)])
      case Write(mem, value) => (g[at[m] := Patch(g[at[m]], mem, value)], out)
      case Flush(_) => (g, out)
  }

  /** What is written is read back, by any later read of it. */
  lemma ReadWritten(b: Block, mem: nat, value: seq<byte>)
    requires IsWidth(|value|)
    ensures Slice(Patch(b, mem, value), mem, |value|) == value
  {
  }

  /** Adding multiples of 4096, in 32 bits, does not change bits 6 to 11 of an address. */
  lemma SameOffset(mem: nat, v: nat)
    requires mem < ADDRESSES && v % 4096 == 0
    ensures (mem + v) % ADDRESSES / 64 % 64 == mem / 64 % 64
  {
    var q, c := v / 4096, (mem + v) / ADDRESSES;
    assert (mem + v) % ADDRESSES == mem + 64 * (64 * q - 0x400_0000 * c);
    assert (mem + v) % ADDRESSES / 64 == mem / 64 + 64 * (q - 0x10_0000 * c);
  }
}
