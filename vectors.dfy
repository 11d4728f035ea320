/**
 * Exact-arithmetic stand-ins for the vector operations the factorisation
 * uses: sums, absolute sums, inner products, the residuals gathered in pivot
 * order, and the first-occurrence argmax. Each is a small recursive function
 * over sequences of reals, with the facts about it that the loop needs.
 */
module Vectors {

  /** The sum of a vector. */
  function Sum(s: seq<real>): real
  {
    if |s| == 0 then 0.0 else s[0] + Sum(s[1..])
  }

  function Abs(x: real): (r: real)
    ensures 0.0 <= r && (r == x || r == -x)
  {
    if x < 0.0 then -x else x
  }

  /** The sum of the absolute values of a vector; never negative. */
  function SumAbs(s: seq<real>): (r: real)
    ensures 0.0 <= r
  {
    if |s| == 0 then 0.0 else Abs(s[0]) + SumAbs(s[1..])
  }

  /** The square of a real; never negative. */
  function Sq(x: real): (r: real)
    ensures 0.0 <= r
  {
    x * x
  }

  /** The inner product of two vectors of equal length. */
  function Dot(u: seq<real>, v: seq<real>): real
    requires |u| == |v|
  {
    if |u| == 0 then 0.0
    else Dot(u[..|u| - 1], v[..|v| - 1]) + u[|u| - 1] * v[|v| - 1]
  }

  /** Every row of `rows` has exactly `n` entries. */
  ghost predicate Shaped(rows: seq<seq<real>>, n: nat)
  {
    forall k :: 0 <= k < |rows| ==> |rows[k]| == n
  }

  /** Appending a row of the right length keeps the rows shaped. */
  lemma ShapedAppend(rows: seq<seq<real>>, r: seq<real>, n: nat)
    requires Shaped(rows, n) && |r| == n
    ensures Shaped(rows + [r], n)
  {
  }

  /** Column `j` of a matrix given by its rows. */
  function Col(rows: seq<seq<real>>, j: nat): seq<real>
    requires forall k :: 0 <= k < |rows| ==> j < |rows[k]|
  {
    seq(|rows|, k requires 0 <= k < |rows| => rows[k][j])
  }

  /**
   * Entry (a, b) of the Gram matrix of the rows: the sum over every row of
   * row[a] * row[b], that is, entry (a, b) of R^T R.
   */
  function Gram(rows: seq<seq<real>>, a: nat, b: nat): real
    requires forall k :: 0 <= k < |rows| ==> a < |rows[k]| && b < |rows[k]|
  {
    if |rows| == 0 then 0.0
    else Gram(rows[..|rows| - 1], a, b) + rows[|rows| - 1][a] * rows[|rows| - 1][b]
  }

  /** The values d[pi[lo]], ..., d[pi[|pi| - 1]], in that order. */
  function Gather(d: seq<real>, pi: seq<nat>, lo: nat): seq<real>
    requires lo <= |pi|
    requires forall p :: lo <= p < |pi| ==> pi[p] < |d|
  {
    seq(|pi| - lo, t requires 0 <= t < |pi| - lo => d[pi[lo + t]])
  }

  /**
   * The values gathered from position lo on are d[pi[lo]] followed by those
   * gathered from position lo + 1 on, so their sum splits the same way.
   */
  lemma GatherDrop(d: seq<real>, pi: seq<nat>, lo: nat)
    requires lo < |pi|
    requires forall p :: lo <= p < |pi| ==> pi[p] < |d|
    ensures Gather(d, pi, lo) == [d[pi[lo]]] + Gather(d, pi, lo + 1)
    ensures Sum(Gather(d, pi, lo)) == d[pi[lo]] + Sum(Gather(d, pi, lo + 1))
  {
    assert Gather(d, pi, lo) == [d[pi[lo]]] + Gather(d, pi, lo + 1);
  }

  /**
   * The position of the first maximum of a non-empty vector: every entry is at
   * most the one at `i`, and every entry before `i` is strictly smaller.
   */
  function FirstArgMax(s: seq<real>): (i: nat)
    requires |s| > 0
    ensures i < |s|
    ensures forall j :: 0 <= j < |s| ==> s[j] <= s[i]
    ensures forall j :: 0 <= j < i ==> s[j] < s[i]
  {
    if |s| == 1 then 0
    else
      var k := FirstArgMax(s[..|s| - 1]);
      if s[k] < s[|s| - 1] then |s| - 1 else k
  }

  /** Overwriting one entry changes the sum by the difference. */
  lemma {:induction false} SumUpdate(s: seq<real>, k: nat, v: real)
    requires k < |s|
    ensures Sum(s[k := v]) == Sum(s) - s[k] + v
  {
    if k > 0 {
      assert s[k := v][1..] == s[1..][k - 1 := v];
      SumUpdate(s[1..], k - 1, v);
    } else {
      assert s[k := v][1..] == s[1..];
    }
  }

  /** Exchanging two entries leaves the sum unchanged. */
  lemma SumSwap(s: seq<real>, a: nat, b: nat)
    requires a < |s| && b < |s|
    ensures Sum(s[a := s[b]][b := s[a]]) == Sum(s)
  {
    SumUpdate(s, a, s[b]);
    SumUpdate(s[a := s[b]], b, s[a]);
  }

  /** The sum is monotone in every entry. */
  lemma {:induction false} SumMono(u: seq<real>, v: seq<real>)
    requires |u| == |v|
    requires forall j :: 0 <= j < |u| ==> u[j] <= v[j]
    ensures Sum(u) <= Sum(v)
  {
    if |u| > 0 {
      SumMono(u[1..], v[1..]);
    }
  }

  /** A vector with no positive entry has no positive sum. */
  lemma {:induction false} SumNonPositive(s: seq<real>)
    requires forall j :: 0 <= j < |s| ==> s[j] <= 0.0
    ensures Sum(s) <= 0.0
  {
    if |s| > 0 {
      SumNonPositive(s[1..]);
    }
  }

  /** If a vector has a positive sum, its largest entry is positive. */
  lemma MaxOfPositiveSum(s: seq<real>, k: nat)
    requires k < |s|
    requires forall j :: 0 <= j < |s| ==> s[j] <= s[k]
    requires 0.0 < Sum(s)
    ensures 0.0 < s[k]
  {
    if s[k] <= 0.0 {
      SumNonPositive(s);
    }
  }

  /** On a non-negative vector the absolute sum is the plain sum. */
  lemma {:induction false} SumAbsOfNonNegative(s: seq<real>)
    requires forall j :: 0 <= j < |s| ==> 0.0 <= s[j]
    ensures SumAbs(s) == Sum(s)
  {
    if |s| > 0 {
      SumAbsOfNonNegative(s[1..]);
    }
  }

  /** The absolute sum of a zero vector is zero. */
  lemma {:induction false} SumAbsOfZero(s: seq<real>)
    requires forall j :: 0 <= j < |s| ==> s[j] == 0.0
    ensures SumAbs(s) == 0.0
  {
    if |s| > 0 {
      SumAbsOfZero(s[1..]);
    }
  }

  /** Appending a row adds its product term to every Gram entry. */
  lemma GramAppend(rows: seq<seq<real>>, r: seq<real>, a: nat, b: nat)
    requires forall k :: 0 <= k < |rows| ==> a < |rows[k]| && b < |rows[k]|
    requires a < |r| && b < |r|
    ensures Gram(rows + [r], a, b) == Gram(rows, a, b) + r[a] * r[b]
  {
    assert (rows + [r])[..|rows|] == rows;
  }

  /** The Gram entry through row p adds row p's product term to the entry before it. */
  lemma GramThrough(rows: seq<seq<real>>, p: nat, a: nat, b: nat)
    requires forall k :: 0 <= k < |rows| ==> a < |rows[k]| && b < |rows[k]|
    requires p < |rows|
    ensures Gram(rows[..p + 1], a, b) == Gram(rows[..p], a, b) + rows[p][a] * rows[p][b]
  {
    assert rows[..p + 1][..p] == rows[..p];
  }

  /** Rows from `t` on that are zero in column `a` add nothing to Gram entry (a, b). */
  lemma {:induction false} GramZeroTail(rows: seq<seq<real>>, a: nat, b: nat, t: nat)
    requires forall k :: 0 <= k < |rows| ==> a < |rows[k]| && b < |rows[k]|
    requires t <= |rows|
    requires forall k :: t <= k < |rows| ==> rows[k][a] == 0.0
    ensures Gram(rows, a, b) == Gram(rows[..t], a, b)
  {
    if |rows| == t {
      assert rows[..t] == rows;
    } else {
      var init := rows[..|rows| - 1];
      assert init[..t] == rows[..t];
      GramZeroTail(init, a, b, t);
    }
  }

  /** Gram entries are symmetric. */
  lemma {:induction false} GramSymmetric(rows: seq<seq<real>>, a: nat, b: nat)
    requires forall k :: 0 <= k < |rows| ==> a < |rows[k]| && b < |rows[k]|
    ensures Gram(rows, a, b) == Gram(rows, b, a)
  {
    if |rows| > 0 {
      GramSymmetric(rows[..|rows| - 1], a, b);
    }
  }

  /** Diagonal Gram entries are sums of squares, hence non-negative. */
  lemma {:induction false} GramDiagonalNonNegative(rows: seq<seq<real>>, j: nat)
    requires forall k :: 0 <= k < |rows| ==> j < |rows[k]|
    ensures 0.0 <= Gram(rows, j, j)
  {
    if |rows| > 0 {
      GramDiagonalNonNegative(rows[..|rows| - 1], j);
      assert rows[|rows| - 1][j] * rows[|rows| - 1][j] == Sq(rows[|rows| - 1][j]);
    }
  }

  /** The inner product of two columns is the corresponding Gram entry. */
  lemma {:induction false} DotOfColumns(rows: seq<seq<real>>, a: nat, b: nat)
    requires forall k :: 0 <= k < |rows| ==> a < |rows[k]| && b < |rows[k]|
    ensures Dot(Col(rows, a), Col(rows, b)) == Gram(rows, a, b)
  {
    if |rows| > 0 {
      var init := rows[..|rows| - 1];
      assert Col(rows, a)[..|rows| - 1] == Col(init, a);
      assert Col(rows, b)[..|rows| - 1] == Col(init, b);
      DotOfColumns(init, a, b);
    }
  }
}
