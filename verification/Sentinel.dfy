/** Running minima that use 0 for "not set yet". The batcher's channel timeout and proxyd's lowest block
    tags are both computed this way. */
module Sentinel {

  /** The minimum kept while d is gone through: a value replaces the one kept if that is 0 or larger. */
  function Earliest(d: seq<nat>): nat {
    if d == [] then 0
    else
      var t, last := Earliest(d[..|d| - 1]), d[|d| - 1];
      if t == 0 || t > last then last else t
  }

  lemma EarliestStep(d: seq<nat>, x: nat)
    ensures Earliest(d + [x]) == if Earliest(d) == 0 || Earliest(d) > x then x else Earliest(d)
  {
    assert (d + [x])[..|d|] == d;
  }

  /** The start of the values that count: after the last zero one. */
  function SinceZero(d: seq<nat>): (i: nat)
    ensures i <= |d|
    ensures i > 0 ==> d[i - 1] == 0
    ensures forall k :: i <= k < |d| ==> d[k] != 0
  {
    if d == [] then 0 else if d[|d| - 1] == 0 then |d| else SinceZero(d[..|d| - 1])
  }

  /** What is kept is the minimum of the values since the last zero one, and 0 if there are none; so
      without zero values it is the minimum of all. */
  lemma {:induction false} EarliestMeaning(d: seq<nat>)
    ensures SinceZero(d) == |d| <==> Earliest(d) == 0
    ensures SinceZero(d) < |d| ==> Earliest(d) in d[SinceZero(d)..]
    ensures forall k :: SinceZero(d) <= k < |d| ==> Earliest(d) <= d[k]
    ensures 0 !in d ==> SinceZero(d) == 0
  {
    if d != [] {
      var n := |d| - 1;
      EarliestMeaning(d[..n]);
      assert d == d[..n] + [d[n]];
      var i := SinceZero(d);
      if d[n] != 0 {
        assert d[i..] == d[..n][i..] + [d[n]];
      }
    }
  }

  /** With both zero and other values the result depends on the order: some order keeps 0, another not. */
  lemma OrderMatters(d: seq<nat>, i: nat, j: nat) returns (p: seq<nat>, q: seq<nat>)
    requires i < |d| && j < |d| && d[i] == 0 && d[j] != 0
    ensures multiset(p) == multiset(d) == multiset(q)
    ensures Earliest(p) == 0 && Earliest(q) != 0
  {
    p, q := d[..i] + d[i + 1..] + [d[i]], d[..j] + d[j + 1..] + [d[j]];
    assert d == d[..i] + [d[i]] + d[i + 1..];
    assert d == d[..j] + [d[j]] + d[j + 1..];
    EarliestStep(d[..i] + d[i + 1..], d[i]);
    EarliestStep(d[..j] + d[j + 1..], d[j]);
  }

  /** With no zero value, or nothing else, every order gives the same result. */
  lemma OrderDoesNotMatter(p: seq<nat>, q: seq<nat>)
    requires multiset(p) == multiset(q) && (0 !in p || forall x :: x in p ==> x == 0)
    ensures Earliest(p) == Earliest(q)
  {
    EarliestMeaning(p);
    EarliestMeaning(q);
    assert forall x :: x in p <==> x in multiset(p);
    assert forall x :: x in q <==> x in multiset(q);
    if p != [] && 0 !in p {
      assert q != [] by { assert p[0] in q; }
      assert p[0..] == p && q[0..] == q;
      var k :| 0 <= k < |q| && q[k] == Earliest(p);
      var l :| 0 <= l < |p| && p[l] == Earliest(q);
    } else if p != [] {
      assert Earliest(p) == 0 by {
        assert p[|p| - 1] in p && p[|p| - 1] == 0;
      }
      assert q != [] by { assert p[0] in q; }
      assert q[|q| - 1] in q && q[|q| - 1] == 0;
    } else {
      assert |q| == |multiset(q)| == |multiset(p)| == 0;
    }
  }
}
