/**
 * The pivoted Cholesky routine on arrays: the residual diagonal `d`, the
 * pivot order `pi` and the factor buffer `R` are changed in place, as in the
 * source. The routine is proved to return exactly the rows of the value-level
 * run Algorithm.Run from Algorithm.Start, and with them everything
 * Algorithm.RunCorrect states about that run.
 */
module Cholesky {
  import opened Vectors
  import opened Permutations
  import opened Factor
  import opened Algorithm

  /** A buffer holding `rows` gives back `rows` when trimmed to |rows| rows. */
  lemma TrimHolds(R: array2<real>, rows: seq<seq<real>>)
    requires Holds(R, rows)
    ensures Trim(R, |rows|) == rows
  {
    var T := Trim(R, |rows|);
    forall k | 0 <= k < |rows|
      ensures T[k] == rows[k]
    {
    }
  }

  /** Column j of R restricted to rows 0..m-1. */
  function Column(R: array2<real>, m: nat, j: nat): seq<real>
    reads R
    requires m <= R.Length0 && j < R.Length1
  {
    seq(m, k requires 0 <= k < m reads R => R[k, j])
  }

  /** Row k of R. */
  function RowOf(R: array2<real>, k: nat): seq<real>
    reads R
    requires k < R.Length0
  {
    seq(R.Length1, j requires 0 <= j < R.Length1 reads R => R[k, j])
  }

  /** Rows 0..m-1 of R. */
  function Trim(R: array2<real>, m: nat): seq<seq<real>>
    reads R
    requires m <= R.Length0
  {
    seq(m, k requires 0 <= k < m reads R => RowOf(R, k))
  }

  /** The buffer R holds `rows` in its first |rows| rows and zeros below them. */
  ghost predicate Holds(R: array2<real>, rows: seq<seq<real>>)
    reads R
  {
    && |rows| <= R.Length0
    && Shaped(rows, R.Length1)
    && forall k, j :: 0 <= k < R.Length0 && 0 <= j < R.Length1 ==>
         R[k, j] == if k < |rows| then rows[k][j] else 0.0
  }

  /**
   * Every row of R other than row m holds what Holds(R, rows) says: `rows`
   * above row m and zeros below it.
   */
  ghost predicate Above(R: array2<real>, rows: seq<seq<real>>, m: nat)
    reads R
  {
    && |rows| == m < R.Length0
    && Shaped(rows, R.Length1)
    && forall k, j :: 0 <= k < R.Length0 && 0 <= j < R.Length1 && k != m ==>
         R[k, j] == if k < m then rows[k][j] else 0.0
  }

  /** Above row m, column j of R is column j of `rows`. */
  lemma HeldColumn(R: array2<real>, rows: seq<seq<real>>, m: nat, j: nat)
    requires Above(R, rows, m) && j < R.Length1
    ensures Column(R, m, j) == Col(rows, j)
  {
  }

  /**
   * The inner product of columns a and b of R above row m is entry (a, b) of
   * the Gram matrix of the rows held there.
   */
  lemma HeldProduct(R: array2<real>, rows: seq<seq<real>>, m: nat, a: nat, b: nat)
    requires Above(R, rows, m) && a < R.Length1 && b < R.Length1
    ensures Dot(Column(R, m, a), Column(R, m, b)) == Gram(rows, a, b)
  {
    HeldColumn(R, rows, m, a);
    HeldColumn(R, rows, m, b);
    DotOfColumns(rows, a, b);
  }

  /**
   * The state AddRow leaves: row m holds the pivot and the Schur coefficients
   * of every later position, and the residuals of those positions dropped by
   * the coefficients' squares; read by column, these are SchurRow and Lowered.
   */
  lemma RowFacts(d: array<real>, pi: seq<nat>, R: array2<real>, m: nat, s: real, row: seq<real>,
                 rows: seq<seq<real>>, d0: seq<real>)
    requires d.Length == |pi| == R.Length1 == |row| == |d0|
    requires m < |pi| && IsPermutation(pi, |pi|)
    requires Above(R, rows, m) && s != 0.0
    requires forall q :: 0 <= q < |pi| ==>
      R[m, pi[q]] == if m < q then (row[pi[q]] - Gram(rows, pi[m], pi[q])) / s else if q == m then s else 0.0
    requires forall q :: 0 <= q < |pi| ==>
      d[pi[q]] == if m < q then d0[pi[q]] - Sq(R[m, pi[q]]) else d0[pi[q]]
    ensures Holds(R, rows + [RowOf(R, m)])
    ensures RowOf(R, m) == SchurRow(row, rows, pi, s)
    ensures d[..] == Lowered(d0, pi, m, RowOf(R, m))
  {
    var cur := RowOf(R, m);
    forall k, j | 0 <= k < R.Length0 && 0 <= j < R.Length1
      ensures R[k, j] == if k < m + 1 then (rows + [cur])[k][j] else 0.0
    {
      if k == m {
        assert (rows + [cur])[k] == cur;
      } else if k < m {
        assert (rows + [cur])[k] == rows[k];
      }
    }
    var sr, lo := SchurRow(row, rows, pi, s), Lowered(d0, pi, m, cur);
    forall j | 0 <= j < |pi|
      ensures cur[j] == sr[j] && d[j] == lo[j]
    {
      assert j in pi;
      var q :| 0 <= q < |pi| && pi[q] == j;
      PositionOfEntry(pi, q);
    }
  }

  /**
   * The inner loop over the positions after m: for each q in order, the Schur
   * coefficient c := (row[pi[q]] - <R[:m, pi[m]], R[:m, pi[q]]>) / R[m, pi[m]]
   * goes to R[m, pi[q]] and d[pi[q]] drops by c^2. The inner product is taken
   * only when m > 0; for m == 0 it is zero. Nothing else changes.
   */
  method FillRow(d: array<real>, pi: seq<nat>, R: array2<real>, m: nat, s: real, row: seq<real>, ghost rows: seq<seq<real>>)
    requires d.Length == |pi| == R.Length1 == |row|
    requires m < |pi| && IsPermutation(pi, |pi|)
    requires Above(R, rows, m) && s != 0.0
    requires forall q :: 0 <= q < |pi| ==> R[m, pi[q]] == if q == m then s else 0.0
    modifies d, R
    ensures Above(R, rows, m)
    ensures forall q :: 0 <= q < |pi| ==>
      R[m, pi[q]] == if m < q then (row[pi[q]] - Gram(rows, pi[m], pi[q])) / s else if q == m then s else 0.0
    ensures forall q :: 0 <= q < |pi| ==>
      d[pi[q]] == if m < q then old(d[pi[q]]) - Sq(R[m, pi[q]]) else old(d[pi[q]])
  {
    var n := |pi|;
    var i := m + 1;
    while i < n
      invariant m + 1 <= i <= n
      invariant Above(R, rows, m)
      invariant forall q :: 0 <= q < n ==>
        R[m, pi[q]] == if m < q < i then (row[pi[q]] - Gram(rows, pi[m], pi[q])) / s else if q == m then s else 0.0
      invariant forall q :: 0 <= q < n ==>
        d[pi[q]] == if m < q < i then old(d[pi[q]]) - Sq(R[m, pi[q]]) else old(d[pi[q]])
    {
      var ip: real;
      if m > 0 {
        ip := Dot(Column(R, m, pi[m]), Column(R, m, pi[i]));
        HeldProduct(R, rows, m, pi[m], pi[i]);
      } else {
        ip := 0.0;
      }
      var c := (row[pi[i]] - ip) / R[m, pi[m]];
      R[m, pi[i]] := c;
      d[pi[i]] := d[pi[i]] - Sq(c);
      i := i + 1;
    }
  }

  /**
   * Row m of the factor, m == |rows|: the pivot entry R[m, pi[m]] := s, then
   * the Schur coefficients of every later position (FillRow). `row` is the
   * operator row of column pi[m]; R holds `rows` above row m and zeros from
   * row m on. Read by column, the new row is SchurRow and the new residuals
   * are Lowered.
   */
  method AddRow(d: array<real>, pi: seq<nat>, R: array2<real>, m: nat, s: real, row: seq<real>, ghost rows: seq<seq<real>>)
    requires d.Length == |pi| == R.Length1 == |row|
    requires |rows| == m && m < R.Length0 && m < |pi|
    requires IsPermutation(pi, |pi|)
    requires Holds(R, rows)
    requires s != 0.0
    modifies d, R
    ensures Holds(R, rows + [RowOf(R, m)])
    ensures RowOf(R, m) == SchurRow(row, rows, pi, s)
    ensures d[..] == Lowered(old(d[..]), pi, m, RowOf(R, m))
  {
    ghost var d0 := d[..];
    R[m, pi[m]] := s;
    FillRow(d, pi, R, m, s, row, rows);
    RowFacts(d, pi, R, m, s, row, rows, d0);
  }

  /**
   * One iteration of the main loop on the buffers: pick the first largest
   * remaining residual, swap it into position m of the order, take the pivot
   * entry as its root, fetch the operator row of the pivot column (recording
   * its index in the ghost `fetched`), fill row m
   * of R and lower the residuals (AddRow), and recompute the error over the
   * positions after m. The buffers, the new order and the new error are
   * those of Iterate from the state `st` they held before.
   */
  method Iteration(A: seq<seq<real>>, sqrt: real -> real, d: array<real>, R: array2<real>,
                   pi: seq<nat>, m: nat, err: real, ghost fetched: seq<nat>, ghost st: State)
    returns (pi': seq<nat>, err': real, ghost fetched': seq<nat>, ghost st': State)
    requires Square(A, d.Length) && IsSqrt(sqrt) && Wf(st) && 0.0 < err
    requires st.d == d[..] && st.pi == pi && st.err == err && st.fetched == fetched && |st.rows| == m
    requires R.Length1 == d.Length && m < R.Length0 && Holds(R, st.rows)
    modifies d, R
    ensures st' == Iterate(A, sqrt, st)
    ensures d[..] == st'.d && pi' == st'.pi && err' == st'.err && fetched' == st'.fetched
    ensures Holds(R, st'.rows)
  {
    NotExhausted(st.d, pi, m);
    var i := SelectPivot(d[..], pi, m);
    pi' := Swap(pi, m, i);
    SwapIsPermutation(pi, d.Length, m, i);
    PivotPositive(st.d, pi, m, i);
    RootOfPositive(sqrt, st.d[pi[i]]);
    var s := sqrt(d[pi'[m]]);
    var row := A[pi'[m]];
    fetched' := fetched + [pi'[m]];
    AddRow(d, pi', R, m, s, row, st.rows);
    err' := Sum(Gather(d[..], pi', m + 1));
    st' := Iterate(A, sqrt, st);
    assert st'.rows == st.rows + [RowOf(R, m)];
  }

  /**
   * Pivoted Cholesky of the operator with diagonal `diag` and rows `A`, with
   * rank cap M and trace-norm tolerance errTol (by default 10^-6). Returns
   * the factor R (one row per accepted pivot) and the final pivot order and,
   * as ghost outputs, the indices whose rows were fetched, the error after
   * each iteration and the final residual diagonal: exactly those of Run from
   * Start, so that everything RunCorrect proves about that run holds of them.
   */
  method PivotedCholesky(sqrt: real -> real, diag: seq<real>, A: seq<seq<real>>, M: nat, errTol: real := 0.000001)
    returns (R: seq<seq<real>>, pi: seq<nat>, ghost fetched: seq<nat>, ghost errs: seq<real>, ghost d: seq<real>)
    requires Square(A, |diag|)
    requires forall j :: 0 <= j < |diag| ==> 0.0 <= diag[j]
    requires 0.0 <= errTol
    requires IsSqrt(sqrt)
    ensures R == Run(A, M, errTol, sqrt, Start(diag)).rows
    ensures pi == Run(A, M, errTol, sqrt, Start(diag)).pi
    ensures var r := Run(A, M, errTol, sqrt, Start(diag));
      fetched == r.fetched && errs == r.errs && d == r.d
  {
    var N := |diag|;
    var dA := new real[N](j requires 0 <= j < N => diag[j]);
    var RA := new real[M, N]((k, j) => 0.0);
    pi := Iota(N);
    var err := SumAbs(diag);
    var m := 0;
    fetched := [];
    ghost var st := Start(diag);
    assert dA[..] == st.d;
    while m < M && errTol < err
      invariant m == |st.rows| <= M
      invariant dA.Length == N && RA.Length0 == M && RA.Length1 == N
      invariant Wf(st) && st.d == dA[..] && st.pi == pi && st.err == err && st.fetched == fetched
      invariant Run(A, M, errTol, sqrt, st) == Run(A, M, errTol, sqrt, Start(diag))
      invariant Holds(RA, st.rows)
      decreases M - m
    {
      pi, err, fetched, st := Iteration(A, sqrt, dA, RA, pi, m, err, fetched, st);
      m := m + 1;
    }
    TrimHolds(RA, st.rows);
    R := Trim(RA, m);
    errs, d := st.errs, dA[..];
  }
}
