/**
 * The pivot order: a sequence holding each of 0..n-1 exactly once, started as
 * the identity and changed only by exchanging two positions.
 */
module Permutations {

  /** `p` is a bijection from positions 0..n-1 onto indices 0..n-1. */
  ghost predicate IsPermutation(p: seq<nat>, n: nat)
  {
    && |p| == n
    && (forall i :: 0 <= i < n ==> p[i] < n)
    && (forall i, j :: 0 <= i < j < n ==> p[i] != p[j])
    && (forall v :: 0 <= v < n ==> v in p)
  }

  /** The identity order 0, 1, ..., n-1. */
  function Iota(n: nat): (r: seq<nat>)
    ensures IsPermutation(r, n)
    ensures forall i :: 0 <= i < n ==> r[i] == i
  {
    var r := seq(n, i requires 0 <= i < n => i as nat);
    forall v | 0 <= v < n
      ensures v in r
    {
      assert r[v] == v;
    }
    r
  }

  /** The first position holding v in p, or |p| when v does not occur. */
  function PositionOf(p: seq<nat>, v: nat): nat
  {
    if |p| == 0 then 0 else if p[0] == v then 0 else 1 + PositionOf(p[1..], v)
  }

  /** In a sequence without repeated entries, the entry at position q is found at q. */
  lemma {:induction false} PositionOfEntry(p: seq<nat>, q: nat)
    requires forall i, j :: 0 <= i < j < |p| ==> p[i] != p[j]
    requires q < |p|
    ensures PositionOf(p, p[q]) == q
  {
    if q > 0 {
      assert p[0] != p[q];
      assert p[1..][q - 1] == p[q];
      PositionOfEntry(p[1..], q - 1);
    }
  }

  /** `p` with the entries at positions `a` and `b` exchanged. */
  function Swap(p: seq<nat>, a: nat, b: nat): seq<nat>
    requires a < |p| && b < |p|
  {
    p[a := p[b]][b := p[a]]
  }

  /** Swap exchanges the entries at `a` and `b` and leaves every other position as it was. */
  lemma SwapExchanges(p: seq<nat>, a: nat, b: nat)
    requires a < |p| && b < |p|
    ensures |Swap(p, a, b)| == |p|
    ensures Swap(p, a, b)[a] == p[b] && Swap(p, a, b)[b] == p[a]
    ensures forall k :: 0 <= k < |p| && k != a && k != b ==> Swap(p, a, b)[k] == p[k]
  {
  }

  /** Exchanging two positions of a permutation gives a permutation. */
  lemma SwapIsPermutation(p: seq<nat>, n: nat, a: nat, b: nat)
    requires IsPermutation(p, n)
    requires a < n && b < n
    ensures IsPermutation(Swap(p, a, b), n)
  {
    var q := Swap(p, a, b);
    forall v | 0 <= v < n
      ensures v in q
    {
      assert v in p;
      var k :| 0 <= k < |p| && p[k] == v;
      if k == a {
        assert q[b] == v;
      } else if k == b {
        assert q[a] == v;
      } else {
        assert q[k] == v;
      }
    }
  }
}
