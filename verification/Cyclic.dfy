/** Positions counted around a ring of n, and what is read from and written to consecutive ones. */
module Cyclic {
  import opened Bits

  /** x reduced modulo n, for x below 2n. */
  function Wrap(x: nat, n: nat): (r: nat)
    requires x < 2 * n
    ensures r < n
  {
    if x < n then x else x - n
  }

  /** How far j lies behind start, going forward around n positions. */
  function Offset(j: nat, start: nat, n: nat): (r: nat)
    requires j < n && start < n
    ensures r < n
    ensures Wrap(start + r, n) == j
  {
    if j >= start then j - start else j + n - start
  }

  lemma WrapIsMod(x: nat, n: nat)
    requires x < 2 * n
    ensures x % n == Wrap(x, n)
  {
    DivModUnique(x, n, if x < n then 0 else 1, Wrap(x, n));
  }

  /** The n elements from `start` on, going around the end. */
  function Window<T>(s: seq<T>, start: nat, n: nat): (r: seq<T>)
    requires start < |s| && n <= |s|
    ensures |r| == n
  {
    seq(n, i requires 0 <= i < n => s[Wrap(start + i, |s|)])
  }

  lemma WindowAt<T>(s: seq<T>, start: nat, n: nat, i: nat)
    requires start < |s| && i < n <= |s|
    ensures Window(s, start, n)[i] == s[Wrap(start + i, |s|)]
  {
  }

  /** `s` after writing `d` at consecutive positions from `start`, going around the end. */
  function WriteAt<T>(s: seq<T>, start: nat, d: seq<T>): (r: seq<T>)
    requires start < |s| && |d| <= |s|
    ensures |r| == |s|
  {
    seq(|s|, j requires 0 <= j < |s| =>
      var k := Offset(j, start, |s|);
      if k < |d| then d[k] else s[j])
  }

  lemma WriteAtNone<T>(s: seq<T>, start: nat)
    requires start < |s|
    ensures WriteAt(s, start, []) == s
  {
  }

  lemma WriteAtAppend<T>(s: seq<T>, start: nat, d: seq<T>, e: T)
    requires start < |s| && |d| < |s|
    ensures WriteAt(s, start, d + [e]) == WriteAt(s, start, d)[Wrap(start + |d|, |s|) := e]
  {
  }

  /** Two writes, the second starting where the first stopped, are one write. */
  lemma WriteAtConcat<T>(s: seq<T>, start: nat, a: seq<T>, b: seq<T>)
    requires start < |s| && |a| + |b| <= |s|
    ensures WriteAt(WriteAt(s, start, a), Wrap(start + |a|, |s|), b) == WriteAt(s, start, a + b)
  {
    var n := |s|;
    var mid := Wrap(start + |a|, n);
    var two, one := WriteAt(WriteAt(s, start, a), mid, b), WriteAt(s, start, a + b);
    forall j | 0 <= j < n ensures two[j] == one[j] {
      var k := Offset(j, start, n);
      assert Offset(j, mid, n) == if k >= |a| then k - |a| else k + n - |a|;
    }
  }
}
