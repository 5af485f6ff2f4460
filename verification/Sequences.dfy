/** Sequences and sets, for the modules that keep lists. */
module Sequences {
  /** s without its element i. */
  function Dropped<T>(s: seq<T>, i: nat): (r: seq<T>)
    requires i < |s|
    ensures |r| == |s| - 1
    ensures forall k :: 0 <= k < |r| ==> r[k] == if k < i then s[k] else s[k + 1]
  {
    s[..i] + s[i + 1..]
  }

  function Members<T>(s: seq<T>): set<T> {
    set x | x in s
  }

  ghost function Position<T>(s: seq<T>, x: T): (i: nat)
    requires x in s
    ensures i < |s| && s[i] == x
  {
    var i :| 0 <= i < |s| && s[i] == x; i
  }

  lemma {:induction false} SubsetSize<T>(a: set<T>, b: set<T>)
    requires a <= b
    ensures |a| <= |b|
  {
    assert b == a + (b - a);
  }

  /** The numbers from a up to b. */
  function Interval(a: nat, b: nat): (s: set<nat>)
    requires a <= b
    ensures |s| == b - a && forall x: nat :: x in s <==> a <= x < b
    decreases b
  {
    if a == b then {} else Interval(a, b - 1) + {b - 1}
  }

  lemma {:induction false} DistinctSize<T>(s: seq<T>)
    requires forall i, j :: 0 <= i < j < |s| ==> s[i] != s[j]
    ensures |Members(s)| == |s|
    decreases |s|
  {
    if s != [] {
      var n := |s| - 1;
      DistinctSize(s[..n]);
      assert Members(s) == Members(s[..n]) + {s[n]};
    }
  }
}
