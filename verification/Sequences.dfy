/** What the other modules share: an optional value, and a few facts about sequences and numbers. */
module Sequences {

  datatype Option<+T> = None | Some(value: T)

  function Min(a: int, b: int): int {
    if a < b then a else b
  }

  lemma Associate<T>(a: seq<T>, b: seq<T>, c: seq<T>)
    ensures a + (b + c) == (a + b) + c
  {
  }

  /** A sequence in two pieces behind another one. */
  lemma InPieces<T>(was: seq<T>, s: seq<T>, n: nat)
    requires n <= |s|
    ensures was + s == was + s[..n] + s[n..]
  {
    assert s == s[..n] + s[n..];
  }

  /** Two beginnings of sequences of which one begins the other. */
  lemma SamePrefix<T>(x: seq<T>, y: seq<T>, s: seq<T>, t: seq<T>)
    requires x <= s && y <= t && (s <= t || t <= s)
    ensures |x| == |y| ==> x == y
  {
  }

  /** Quotient and remainder are the only ones. */
  lemma DivisionIs(x: nat, n: nat, q: nat, r: nat)
    requires n > 0 && x == n * q + r && r < n
    ensures x / n == q && x % n == r
  {
    OneMoreTime(n, x / n, q);
    OneMoreTime(n, q, x / n);
  }

  lemma OneMoreTime(n: nat, a: nat, b: nat)
    ensures a < b ==> n * a + n <= n * b
  {
    if a < b {
      var d := b - a - 1;
      assert n * (a + 1 + d) == n * a + n + n * d;
    }
  }
}
