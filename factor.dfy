/**
 * What the pivoted Cholesky loop keeps true, stated on values: the factor rows
 * built so far, the pivot order and the residual diagonal. One loop iteration
 * (pivot selection, swap, pivot entry, Schur coefficients, residual update) is
 * described by the predicate Step, and StepPreserves shows that an iteration
 * keeps every invariant. The reconstruction lemmas state what the finished
 * factor gives: exact entries of R^T R in every pivoted row and column.
 */
module Factor {
  import opened Vectors
  import opened Permutations

  /** `rows` has `n` columns and at most `n` rows; `pi` orders 0..n-1. */
  ghost predicate Frame(n: nat, rows: seq<seq<real>>, pi: seq<nat>)
  {
    Shaped(rows, n) && |rows| <= n && IsPermutation(pi, n)
  }

  /** Every entry of `pi` is an index below `n`. */
  ghost predicate IndicesBelow(pi: seq<nat>, n: nat)
  {
    |pi| == n && forall p :: 0 <= p < n ==> pi[p] < n
  }

  /** `A` is an n-by-n matrix given by its rows. */
  ghost predicate Square(A: seq<seq<real>>, n: nat)
  {
    |A| == n && Shaped(A, n)
  }

  /**
   * The residual of column j after the given rows: the initial diagonal entry
   * minus the squared norm of the column of the factor so far.
   */
  ghost function Residual(d0: seq<real>, rows: seq<seq<real>>, j: nat): real
    requires j < |d0| && Shaped(rows, |d0|)
  {
    d0[j] - Gram(rows, j, j)
  }

  /** Row k is zero in the columns pivoted before it: R[k, pi[p]] == 0 for p < k. */
  ghost predicate UpperTriangular(n: nat, rows: seq<seq<real>>, pi: seq<nat>)
    requires Frame(n, rows, pi)
  {
    forall k, p {:trigger rows[k][pi[p]]} :: 0 <= p < k < |rows| ==> rows[k][pi[p]] == 0.0
  }

  /**
   * The pivot entry of row k is the positive square root of the residual that
   * column pi[k] had when it was chosen.
   */
  ghost predicate PivotsExact(d0: seq<real>, rows: seq<seq<real>>, pi: seq<nat>)
    requires Frame(|d0|, rows, pi)
  {
    forall k {:trigger rows[k][pi[k]]} :: 0 <= k < |rows| ==>
      0.0 < rows[k][pi[k]] && Sq(rows[k][pi[k]]) == Residual(d0, rows[..k], pi[k])
  }

  /**
   * Greedy choice: when row k was built, no column still unpivoted (pi[p] with
   * p >= k) had a larger residual than the chosen one.
   */
  ghost predicate GreedyPivots(d0: seq<real>, rows: seq<seq<real>>, pi: seq<nat>)
    requires Frame(|d0|, rows, pi)
  {
    forall k, p {:trigger Residual(d0, rows[..k], pi[p])} :: 0 <= k <= p < |d0| && k < |rows| ==>
      Residual(d0, rows[..k], pi[p]) <= Sq(rows[k][pi[k]])
  }

  /**
   * Schur coefficients: through row k, the factor reproduces row pi[k] of the
   * operator in every column pivoted later.
   */
  ghost predicate SchurRows(d0: seq<real>, A: seq<seq<real>>, rows: seq<seq<real>>, pi: seq<nat>)
    requires Frame(|d0|, rows, pi) && Square(A, |d0|)
  {
    forall k, q {:trigger A[pi[k]][pi[q]]} :: 0 <= k < q < |d0| && k < |rows| ==>
      Gram(rows[..k + 1], pi[k], pi[q]) == A[pi[k]][pi[q]]
  }

  /** Everything the factor built so far satisfies, in pivot order. */
  ghost predicate PivotedFactor(d0: seq<real>, A: seq<seq<real>>, rows: seq<seq<real>>, pi: seq<nat>)
  {
    && Square(A, |d0|)
    && Frame(|d0|, rows, pi)
    && UpperTriangular(|d0|, rows, pi)
    && PivotsExact(d0, rows, pi)
    && GreedyPivots(d0, rows, pi)
    && SchurRows(d0, A, rows, pi)
  }

  /**
   * Residual bookkeeping: an unpivoted column holds its residual, and a
   * pivoted column still holds the residual it had when it was chosen.
   */
  ghost predicate Bookkeeping(d0: seq<real>, d: seq<real>, rows: seq<seq<real>>, pi: seq<nat>)
    requires Frame(|d0|, rows, pi)
  {
    && |d| == |d0|
    && (forall p {:trigger d[pi[p]]} :: |rows| <= p < |d0| ==> d[pi[p]] == Residual(d0, rows, pi[p]))
    && (forall p {:trigger d[pi[p]]} :: 0 <= p < |rows| ==> d[pi[p]] == Sq(rows[p][pi[p]]))
  }

  /** Position i holds a largest residual among positions m..n-1. */
  ghost predicate SelectsMax(d: seq<real>, pi: seq<nat>, m: nat, i: nat)
    requires IsPermutation(pi, |d|)
  {
    m <= i < |d| && forall p :: m <= p < |d| ==> d[pi[p]] <= d[pi[i]]
  }

  /**
   * Row m of the factor, for the order pi (already swapped) and the fetched
   * operator row `row` of column pi[m]: zero in the columns pivoted before m,
   * the pivot value s in column pi[m], and in every later column the Schur
   * coefficient (row[j] - sum_k R[k, pi[m]] R[k, j]) / s.
   */
  ghost predicate NewRow(row: seq<real>, rows: seq<seq<real>>, pi: seq<nat>, s: real, cur: seq<real>)
    requires Shaped(rows, |row|) && |rows| < |row| && IndicesBelow(pi, |row|)
  {
    var n, m := |row|, |rows|;
    && s != 0.0
    && |cur| == n
    && cur[pi[m]] == s
    && (forall p {:trigger cur[pi[p]]} :: 0 <= p < m ==> cur[pi[p]] == 0.0)
    && (forall q {:trigger cur[pi[q]]} :: m < q < n ==> cur[pi[q]] == (row[pi[q]] - Gram(rows, pi[m], pi[q])) / s)
  }

  /**
   * The residual update of one iteration, for the order pi (already swapped):
   * positions up to m keep their residual, every later one drops by the
   * square of its new coefficient.
   */
  ghost predicate NewResiduals(d: seq<real>, pi: seq<nat>, m: nat, cur: seq<real>, d': seq<real>)
    requires IndicesBelow(pi, |d|) && m < |d| && |cur| == |d|
  {
    && |d'| == |d|
    && (forall p {:trigger d'[pi[p]]} :: 0 <= p <= m ==> d'[pi[p]] == d[pi[p]])
    && (forall q {:trigger d'[pi[q]]} :: m < q < |d| ==> d'[pi[q]] == d[pi[q]] - Sq(cur[pi[q]]))
  }

  /**
   * Row m of the factor indexed by column, m == |rows|: for the column j at
   * position q of the order, the pivot value s when q == m, zero when q < m
   * (the buffer starts as zeros) and the Schur coefficient when q > m.
   */
  function SchurRow(row: seq<real>, rows: seq<seq<real>>, pi: seq<nat>, s: real): seq<real>
    requires Shaped(rows, |row|) && |rows| < |row| && IndicesBelow(pi, |row|) && s != 0.0
  {
    var m := |rows|;
    seq(|row|, j requires 0 <= j < |row| =>
      var q := PositionOf(pi, j);
      if q == m then s
      else if q < m then 0.0
      else (row[j] - Gram(rows, pi[m], j)) / s)
  }

  /**
   * The residuals after one iteration, indexed by column: the columns at
   * positions 0..m of the order keep theirs, every other one drops by the
   * square of its entry in the new row.
   */
  function Lowered(d: seq<real>, pi: seq<nat>, m: nat, cur: seq<real>): seq<real>
    requires |cur| == |d|
  {
    seq(|d|, j requires 0 <= j < |d| => if PositionOf(pi, j) <= m then d[j] else d[j] - Sq(cur[j]))
  }

  /** For a permutation, the column-indexed row is the row NewRow describes by position. */
  lemma SchurRowIsNewRow(row: seq<real>, rows: seq<seq<real>>, pi: seq<nat>, s: real)
    requires Shaped(rows, |row|) && |rows| < |row| && IsPermutation(pi, |row|) && s != 0.0
    ensures NewRow(row, rows, pi, s, SchurRow(row, rows, pi, s))
  {
    var m, cur := |rows|, SchurRow(row, rows, pi, s);
    PositionOfEntry(pi, m);
    forall p | 0 <= p < m
      ensures cur[pi[p]] == 0.0
    {
      PositionOfEntry(pi, p);
    }
    forall q | m < q < |row|
      ensures cur[pi[q]] == (row[pi[q]] - Gram(rows, pi[m], pi[q])) / s
    {
      PositionOfEntry(pi, q);
    }
  }

  /** For a permutation, the column-indexed residuals are the ones NewResiduals describes by position. */
  lemma LoweredIsNewResiduals(d: seq<real>, pi: seq<nat>, m: nat, cur: seq<real>)
    requires IsPermutation(pi, |d|) && m < |d| && |cur| == |d|
    ensures NewResiduals(d, pi, m, cur, Lowered(d, pi, m, cur))
  {
    var d' := Lowered(d, pi, m, cur);
    forall p | 0 <= p <= m
      ensures d'[pi[p]] == d[pi[p]]
    {
      PositionOfEntry(pi, p);
    }
    forall q | m < q < |d|
      ensures d'[pi[q]] == d[pi[q]] - Sq(cur[pi[q]])
    {
      PositionOfEntry(pi, q);
    }
  }

  /**
   * One iteration, from residuals `d`, order `pi` and factor `rows` to
   * residuals `d'`, order Swap(pi, m, i) and factor rows + [cur], where m is
   * the number of rows so far: i holds a largest remaining residual (SelectPivot
   * picks the first such), s is its positive square root, and
   * the new row and residuals are NewRow and NewResiduals for the swapped order.
   */
  ghost predicate Step(d0: seq<real>, A: seq<seq<real>>, d: seq<real>, pi: seq<nat>,
                       rows: seq<seq<real>>, i: nat, s: real, cur: seq<real>, d': seq<real>)
    requires Square(A, |d0|) && Frame(|d0|, rows, pi) && |d| == |d0|
  {
    var m := |rows|;
    && SelectsMax(d, pi, m, i)
    && 0.0 < s && Sq(s) == d[pi[i]]
    && NewRow(A[pi[i]], rows, Swap(pi, m, i), s, cur)
    && NewResiduals(d, Swap(pi, m, i), m, cur, d')
  }

  /** After the swap, every position from m on holds what some position from m on held. */
  lemma SwapTail(pi: seq<nat>, m: nat, i: nat, p: nat) returns (p0: nat)
    requires m <= i < |pi| && m <= p < |pi|
    ensures m <= p0 < |pi| && Swap(pi, m, i)[p] == pi[p0]
    ensures p0 == if p == m then i else if p == i then m else p
  {
    p0 := if p == m then i else if p == i then m else p;
  }

  lemma StepTriangular(n: nat, rows: seq<seq<real>>, pi: seq<nat>, i: nat, cur: seq<real>)
    requires Frame(n, rows, pi) && UpperTriangular(n, rows, pi)
    requires |rows| <= i < n && |cur| == n
    requires Frame(n, rows + [cur], Swap(pi, |rows|, i))
    requires forall p :: 0 <= p < |rows| ==> cur[Swap(pi, |rows|, i)[p]] == 0.0
    ensures UpperTriangular(n, rows + [cur], Swap(pi, |rows|, i))
  {
    var m, pi', rows' := |rows|, Swap(pi, |rows|, i), rows + [cur];
    forall k, p | 0 <= p < k < |rows'|
      ensures rows'[k][pi'[p]] == 0.0
    {
      if k < m {
        assert pi'[p] == pi[p] && rows'[k] == rows[k];
      }
    }
  }

  lemma StepPivots(d0: seq<real>, d: seq<real>, rows: seq<seq<real>>, pi: seq<nat>, i: nat, s: real, cur: seq<real>)
    requires Frame(|d0|, rows, pi) && PivotsExact(d0, rows, pi)
    requires |d| == |d0| && forall p :: |rows| <= p < |d0| ==> d[pi[p]] == Residual(d0, rows, pi[p])
    requires |rows| <= i < |d0| && |cur| == |d0|
    requires Frame(|d0|, rows + [cur], Swap(pi, |rows|, i))
    requires 0.0 < s && Sq(s) == d[pi[i]] && cur[pi[i]] == s
    ensures PivotsExact(d0, rows + [cur], Swap(pi, |rows|, i))
  {
    var m, pi', rows' := |rows|, Swap(pi, |rows|, i), rows + [cur];
    forall k | 0 <= k < |rows'|
      ensures 0.0 < rows'[k][pi'[k]] && Sq(rows'[k][pi'[k]]) == Residual(d0, rows'[..k], pi'[k])
    {
      if k < m {
        assert rows'[..k] == rows[..k] && rows'[k] == rows[k] && pi'[k] == pi[k];
      } else {
        assert rows'[..k] == rows && pi'[k] == pi[i];
      }
    }
  }

  lemma StepGreedy(d0: seq<real>, d: seq<real>, rows: seq<seq<real>>, pi: seq<nat>, i: nat, s: real, cur: seq<real>)
    requires Frame(|d0|, rows, pi) && GreedyPivots(d0, rows, pi)
    requires |d| == |d0| && forall p :: |rows| <= p < |d0| ==> d[pi[p]] == Residual(d0, rows, pi[p])
    requires SelectsMax(d, pi, |rows|, i) && |cur| == |d0|
    requires Frame(|d0|, rows + [cur], Swap(pi, |rows|, i))
    requires Sq(s) == d[pi[i]] && cur[pi[i]] == s
    ensures GreedyPivots(d0, rows + [cur], Swap(pi, |rows|, i))
  {
    var m, pi', rows' := |rows|, Swap(pi, |rows|, i), rows + [cur];
    forall k, p | 0 <= k <= p < |d0| && k < |rows'|
      ensures Residual(d0, rows'[..k], pi'[p]) <= Sq(rows'[k][pi'[k]])
    {
      if k < m {
        assert rows'[..k] == rows[..k] && rows'[k] == rows[k] && pi'[k] == pi[k];
        if p >= m {
          var p0 := SwapTail(pi, m, i, p);
        } else {
          assert pi'[p] == pi[p];
        }
      } else {
        assert rows'[..k] == rows && pi'[k] == pi[i];
        var p0 := SwapTail(pi, m, i, p);
      }
    }
  }

  lemma StepSchur(d0: seq<real>, A: seq<seq<real>>, rows: seq<seq<real>>, pi: seq<nat>, i: nat, s: real, cur: seq<real>)
    requires Square(A, |d0|) && Frame(|d0|, rows, pi) && SchurRows(d0, A, rows, pi)
    requires |rows| <= i < |d0|
    requires Frame(|d0|, rows + [cur], Swap(pi, |rows|, i))
    requires NewRow(A[pi[i]], rows, Swap(pi, |rows|, i), s, cur)
    ensures SchurRows(d0, A, rows + [cur], Swap(pi, |rows|, i))
  {
    var m, pi', rows' := |rows|, Swap(pi, |rows|, i), rows + [cur];
    forall k, q | 0 <= k < q < |d0| && k < |rows'|
      ensures Gram(rows'[..k + 1], pi'[k], pi'[q]) == A[pi'[k]][pi'[q]]
    {
      if k < m {
        assert rows'[..k + 1] == rows[..k + 1] && pi'[k] == pi[k];
        if q >= m {
          var q0 := SwapTail(pi, m, i, q);
        } else {
          assert pi'[q] == pi[q];
        }
      } else {
        var a, b := pi'[m], pi'[q];
        assert rows'[..k + 1] == rows';
        GramAppend(rows, cur, a, b);
        assert cur[a] * cur[b] == s * ((A[a][b] - Gram(rows, a, b)) / s);
      }
    }
  }

  lemma StepBookkeeping(d0: seq<real>, d: seq<real>, rows: seq<seq<real>>, pi: seq<nat>, i: nat, cur: seq<real>, d': seq<real>)
    requires Frame(|d0|, rows, pi) && Bookkeeping(d0, d, rows, pi)
    requires |rows| <= i < |d0| && |cur| == |d0|
    requires Frame(|d0|, rows + [cur], Swap(pi, |rows|, i))
    requires cur[pi[i]] * cur[pi[i]] == d[pi[i]]
    requires NewResiduals(d, Swap(pi, |rows|, i), |rows|, cur, d')
    ensures Bookkeeping(d0, d', rows + [cur], Swap(pi, |rows|, i))
  {
    var m, pi', rows' := |rows|, Swap(pi, |rows|, i), rows + [cur];
    forall p | |rows'| <= p < |d0|
      ensures d'[pi'[p]] == Residual(d0, rows', pi'[p])
    {
      var p0 := SwapTail(pi, m, i, p);
      GramAppend(rows, cur, pi'[p], pi'[p]);
    }
    forall p | 0 <= p < |rows'|
      ensures d'[pi'[p]] == Sq(rows'[p][pi'[p]])
    {
      if p < m {
        assert pi'[p] == pi[p] && rows'[p] == rows[p];
      }
    }
  }

  /** One iteration keeps the factor invariants and the residual bookkeeping. */
  lemma StepPreserves(d0: seq<real>, A: seq<seq<real>>, d: seq<real>, pi: seq<nat>,
                      rows: seq<seq<real>>, i: nat, s: real, cur: seq<real>, d': seq<real>)
    requires PivotedFactor(d0, A, rows, pi) && Bookkeeping(d0, d, rows, pi)
    requires Step(d0, A, d, pi, rows, i, s, cur, d')
    ensures PivotedFactor(d0, A, rows + [cur], Swap(pi, |rows|, i))
    ensures Bookkeeping(d0, d', rows + [cur], Swap(pi, |rows|, i))
  {
    var n, m, pi' := |d0|, |rows|, Swap(pi, |rows|, i);
    SwapIsPermutation(pi, n, m, i);
    assert pi'[m] == pi[i];
    StepTriangular(n, rows, pi, i, cur);
    StepPivots(d0, d, rows, pi, i, s, cur);
    StepGreedy(d0, d, rows, pi, i, s, cur);
    StepSchur(d0, A, rows, pi, i, s, cur);
    StepBookkeeping(d0, d, rows, pi, i, cur, d');
  }

  /**
   * The trace-norm error drops by at least the chosen residual: the new sum
   * over positions after m, with every residual there lowered or kept, is at
   * most the old sum over positions from m on minus the pivot's residual.
   */
  lemma ErrorDecreases(d: seq<real>, pi: seq<nat>, d': seq<real>, m: nat, i: nat)
    requires IsPermutation(pi, |d|) && |d'| == |d|
    requires m <= i < |d|
    requires forall q :: m < q < |d| ==> d'[Swap(pi, m, i)[q]] <= d[Swap(pi, m, i)[q]]
    ensures Sum(Gather(d', Swap(pi, m, i), m + 1)) <= Sum(Gather(d, pi, m)) - d[pi[i]]
  {
    var pi' := Swap(pi, m, i);
    var g, g' := Gather(d, pi, m), Gather(d, pi', m);
    assert g' == g[0 := g[i - m]][i - m := g[0]];
    SumSwap(g, 0, i - m);
    assert g'[1..] == Gather(d, pi', m + 1);
    SumMono(Gather(d', pi', m + 1), Gather(d, pi', m + 1));
  }

  /**
   * With the error still above a non-negative tolerance, the first maximum of
   * the remaining residuals is positive: its square root is defined and the
   * Schur coefficients never divide by zero.
   */
  lemma PivotPositive(d: seq<real>, pi: seq<nat>, m: nat, i: nat)
    requires IsPermutation(pi, |d|) && m <= i < |d|
    requires forall p :: m <= p < |d| ==> d[pi[p]] <= d[pi[i]]
    requires 0.0 < Sum(Gather(d, pi, m))
    ensures 0.0 < d[pi[i]]
  {
    MaxOfPositiveSum(Gather(d, pi, m), i - m);
  }

  /** A pivoted column is reproduced exactly on the diagonal: sum_k R[k, pi[p]]^2 == d0[pi[p]]. */
  lemma PivotColumnExact(d0: seq<real>, rows: seq<seq<real>>, pi: seq<nat>, p: nat)
    requires Frame(|d0|, rows, pi) && UpperTriangular(|d0|, rows, pi) && PivotsExact(d0, rows, pi)
    requires p < |rows|
    ensures Gram(rows[..p + 1], pi[p], pi[p]) == d0[pi[p]]
    ensures Gram(rows, pi[p], pi[p]) == d0[pi[p]]
  {
    var a := pi[p];
    assert Sq(rows[p][a]) == d0[a] - Gram(rows[..p], a, a);
    ColumnExact(d0, rows, p, a);
  }

  lemma ColumnExact(d0: seq<real>, rows: seq<seq<real>>, p: nat, a: nat)
    requires Shaped(rows, |d0|) && a < |d0| && p < |rows|
    requires Sq(rows[p][a]) == d0[a] - Gram(rows[..p], a, a)
    requires forall k :: p < k < |rows| ==> rows[k][a] == 0.0
    ensures Gram(rows[..p + 1], a, a) == d0[a]
    ensures Gram(rows, a, a) == d0[a]
  {
    GramThrough(rows, p, a, a);
    GramZeroTail(rows, a, a, p + 1);
  }

  /** Row pi[p] of R^T R agrees with the operator in every column pivoted later. */
  lemma PivotRowExact(d0: seq<real>, A: seq<seq<real>>, rows: seq<seq<real>>, pi: seq<nat>, p: nat, q: nat)
    requires PivotedFactor(d0, A, rows, pi)
    requires p < |rows| && p < q < |d0|
    ensures Gram(rows, pi[p], pi[q]) == A[pi[p]][pi[q]]
  {
    GramZeroTail(rows, pi[p], pi[q], p + 1);
  }

  /** The operator is symmetric and its diagonal is the one the run started from. */
  ghost predicate ConsistentOperator(d0: seq<real>, A: seq<seq<real>>)
    requires Square(A, |d0|)
  {
    && (forall a, b :: 0 <= a < |d0| && 0 <= b < |d0| ==> A[a][b] == A[b][a])
    && (forall j :: 0 <= j < |d0| ==> A[j][j] == d0[j])
  }

  /**
   * For a symmetric operator with a consistent diagonal, every pivoted row of
   * R^T R equals the same row of the operator, in every column.
   */
  lemma PivotedRowsReconstructed(d0: seq<real>, A: seq<seq<real>>, rows: seq<seq<real>>, pi: seq<nat>)
    requires PivotedFactor(d0, A, rows, pi) && ConsistentOperator(d0, A)
    ensures forall p, j :: 0 <= p < |rows| && 0 <= j < |d0| ==> Gram(rows, pi[p], j) == A[pi[p]][j]
  {
    forall p, j | 0 <= p < |rows| && 0 <= j < |d0|
      ensures Gram(rows, pi[p], j) == A[pi[p]][j]
    {
      assert j in pi;
      var q :| 0 <= q < |pi| && pi[q] == j;
      if p < q {
        PivotRowExact(d0, A, rows, pi, p, q);
      } else if p == q {
        PivotColumnExact(d0, rows, pi, p);
      } else {
        PivotRowExact(d0, A, rows, pi, q, p);
        GramSymmetric(rows, pi[p], j);
      }
    }
  }

  /**
   * A full-rank run reconstructs the operator exactly: when every column has
   * been pivoted, R^T R == A entry by entry.
   */
  lemma FullReconstruction(d0: seq<real>, A: seq<seq<real>>, rows: seq<seq<real>>, pi: seq<nat>)
    requires PivotedFactor(d0, A, rows, pi) && ConsistentOperator(d0, A)
    requires |rows| == |d0|
    ensures forall a, b :: 0 <= a < |d0| && 0 <= b < |d0| ==> Gram(rows, a, b) == A[a][b]
  {
    PivotedRowsReconstructed(d0, A, rows, pi);
    forall a, b | 0 <= a < |d0| && 0 <= b < |d0|
      ensures Gram(rows, a, b) == A[a][b]
    {
      assert a in pi;
      var p :| 0 <= p < |pi| && pi[p] == a;
    }
  }

  /**
   * Residuals never increase: every entry of the residual diagonal is at most
   * the initial diagonal entry of its column.
   */
  lemma ResidualNeverIncreases(d0: seq<real>, A: seq<seq<real>>, d: seq<real>, rows: seq<seq<real>>, pi: seq<nat>)
    requires PivotedFactor(d0, A, rows, pi) && Bookkeeping(d0, d, rows, pi)
    ensures forall j :: 0 <= j < |d0| ==> d[j] <= d0[j]
  {
    forall j | 0 <= j < |d0|
      ensures d[j] <= d0[j]
    {
      assert j in pi;
      var p :| 0 <= p < |pi| && pi[p] == j;
      if p < |rows| {
        GramDiagonalNonNegative(rows[..p], j);
      } else {
        GramDiagonalNonNegative(rows, j);
      }
    }
  }
}
