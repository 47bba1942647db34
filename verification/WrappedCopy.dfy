/**
  Copies into and out of a ring of 128-bit words that may run over its end.
 */
module WrappedCopy {

  /** A 128-bit word of the ring as four 32-bit words; in a packet's first word they are the command and its data. */
  datatype Quad = Quad(command: nat, data0: nat, data1: nat, data2: nat)

  /** A position that ran at most once over the end of a ring of size n. */
  function Wrap(i: nat, n: nat): (j: nat)
    requires i < 2 * n
    ensures j < n && (j == i || j == i - n)
  {
    if i < n then i else i - n
  }

  /** How far j lies behind pos. */
  function Dist(pos: nat, j: nat, n: nat): (d: nat)
    requires pos < n && j < n
    ensures d < n && Wrap(pos + d, n) == j
  {
    if pos <= j then j - pos else j - pos + n
  }

  /** The len words from pos on. */
  function Window(ring: seq<Quad>, pos: nat, len: nat): (w: seq<Quad>)
    requires pos < |ring| && len <= |ring|
    ensures |w| == len && forall k :: 0 <= k < len ==> w[k] == ring[Wrap(pos + k, |ring|)]
  {
    seq(len, k requires 0 <= k < len => ring[Wrap(pos + k, |ring|)])
  }

  /** The ring with `src` written from pos on. */
  function Written(ring: seq<Quad>, pos: nat, src: seq<Quad>): (r: seq<Quad>)
    requires pos < |ring| && |src| <= |ring|
    ensures |r| == |ring|
    ensures forall j :: 0 <= j < |ring| ==>
      r[j] == if Dist(pos, j, |ring|) < |src| then src[Dist(pos, j, |ring|)] else ring[j]
  {
    seq(|ring|, j requires 0 <= j < |ring| =>
      if Dist(pos, j, |ring|) < |src| then src[Dist(pos, j, |ring|)] else ring[j])
  }

  /** What was written is read back from any position, also over the end. */
  lemma ReadBack(ring: seq<Quad>, pos: nat, src: seq<Quad>)
    requires pos < |ring| && |src| <= |ring|
    ensures Window(Written(ring, pos, src), pos, |src|) == src
  {
    forall k | 0 <= k < |src|
      ensures Window(Written(ring, pos, src), pos, |src|)[k] == src[k]
    {
      assert Dist(pos, Wrap(pos + k, |ring|), |ring|) == k;
    }
  }

  /** Writing one more word behind the others is a copy that is one word longer. */
  lemma OneMoreWord(ring: seq<Quad>, pos: nat, src: seq<Quad>, q: Quad)
    requires pos < |ring| && |src| < |ring|
    ensures Written(ring, pos, src)[Wrap(pos + |src|, |ring|) := q] == Written(ring, pos, src + [q])
  {
    forall j | 0 <= j < |ring|
      ensures Written(ring, pos, src)[Wrap(pos + |src|, |ring|) := q][j] == Written(ring, pos, src + [q])[j]
    {
      assert Dist(pos, Wrap(pos + |src|, |ring|), |ring|) == |src|;
    }
  }

  /** A write leaves every window alone that it does not reach. */
  lemma ReadPast(ring: seq<Quad>, pos: nat, src: seq<Quad>, at: nat, len: nat)
    requires pos < |ring| && at < |ring| && len + |src| <= |ring|
    requires Dist(at, pos, |ring|) >= len && Dist(at, pos, |ring|) + |src| <= |ring|
    ensures Window(Written(ring, pos, src), at, len) == Window(ring, at, len)
  {
    var w := Window(Written(ring, pos, src), at, len);
    forall k | 0 <= k < len
      ensures w[k] == Window(ring, at, len)[k]
    {
      assert Dist(pos, Wrap(at + k, |ring|), |ring|) >= |src|;
    }
  }

  /** The words from a window's start on are the window's. */
  lemma WindowTail(ring: seq<Quad>, pos: nat, len: nat, n: nat)
    requires pos < |ring| && n <= len <= |ring|
    ensures n == |ring| ==> Window(ring, pos, len)[n..] == []
    ensures n < |ring| ==> Window(ring, pos, len)[n..] == Window(ring, Wrap(pos + n, |ring|), len - n)
    ensures Window(ring, pos, len)[..n] == Window(ring, pos, n)
  {
  }

  /** A word written just after a window makes it longer. */
  lemma WindowGrows(ring: seq<Quad>, pos: nat, len: nat, q: Quad)
    requires pos < |ring| && len < |ring|
    ensures Window(ring[Wrap(pos + len, |ring|) := q], pos, len + 1) == Window(ring, pos, len) + [q]
  {
    var i := Wrap(pos + len, |ring|);
    forall k | 0 <= k < len
      ensures Window(ring[i := q], pos, len + 1)[k] == Window(ring, pos, len)[k]
    {
      assert Wrap(pos + k, |ring|) != i;
    }
  }

  lemma ModOnce(i: nat, n: nat)
    requires 0 < n <= i < 2 * n
    ensures i % n == i - n
  {
    assert i / n == 1;
  }

  /** memcpy within the array. */
  method CopyIn(src: seq<Quad>, dest: array<Quad>, start: nat)
    requires start + |src| <= dest.Length
    modifies dest
    ensures forall j :: 0 <= j < dest.Length ==>
      dest[j] == if start <= j < start + |src| then src[j - start] else old(dest[j])
  {
    forall j | 0 <= j < |src| {
      dest[start + j] := src[j];
    }
  }

  /** Writes `src` into the ring from destStart on; returns where it ended. */
  method MemCopyWrappedDest(src: seq<Quad>, dest: array<Quad>, destStart: nat) returns (end: nat)
    requires destStart < dest.Length && |src| <= dest.Length
    modifies dest
    ensures dest[..] == Written(old(dest[..]), destStart, src)
    ensures end == Wrap(destStart + |src|, dest.Length)
  {
    var endpos := destStart + |src|;
    if endpos < dest.Length {
      CopyIn(src, dest, destStart);
      end := endpos;
    } else {
      var first := dest.Length - destStart;
      ModOnce(endpos, dest.Length);
      CopyIn(src[..first], dest, destStart);
      end := endpos % dest.Length;
      CopyIn(src[first..], dest, 0);
    }
  }

  /** Reads len words out of the ring from srcStart on; returns where it ended. */
  method MemCopyWrappedSrc(src: array<Quad>, srcStart: nat, len: nat) returns (dest: seq<Quad>, end: nat)
    requires srcStart < src.Length && len <= src.Length
    ensures dest == Window(src[..], srcStart, len)
    ensures end == Wrap(srcStart + len, src.Length)
  {
    var endpos := srcStart + len;
    if endpos < src.Length {
      dest := src[srcStart..endpos];
      end := endpos;
    } else {
      ModOnce(endpos, src.Length);
      end := endpos % src.Length;
      dest := src[srcStart..] + src[..end];
    }
  }
}
