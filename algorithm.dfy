/**
 * The pivoted Cholesky loop on values: the state the loop carries, one
 * iteration (Iterate), the whole loop (Run) and its starting state (Start).
 * The array-level routine in module Cholesky is proved to compute exactly
 * Run(Start(diag)); the lemmas here state what that run guarantees.
 */
module Algorithm {
  import opened Vectors
  import opened Permutations
  import opened Factor

  /**
   * The loop state: the factor rows so far (row k belongs to pivot pi[k]),
   * the residual diagonal, the pivot order, the current error, the error
   * after each iteration (starting with the initial one) and the indices
   * whose operator rows were fetched, in order.
   */
  datatype State = State(rows: seq<seq<real>>, d: seq<real>, pi: seq<nat>, err: real,
                         errs: seq<real>, fetched: seq<nat>)

  /** `sqrt` returns the non-negative square root of every non-negative real. */
  ghost predicate IsSqrt(sqrt: real -> real)
  {
    forall x :: 0.0 <= x ==> 0.0 <= sqrt(x) && sqrt(x) * sqrt(x) == x
  }

  /**
   * What every state of the loop has, and what an iteration needs to be
   * defined: pi orders the columns, the rows have one entry per column, and
   * err is the sum of the residuals not yet pivoted.
   */
  ghost predicate Wf(st: State)
  {
    && IsPermutation(st.pi, |st.d|)
    && Shaped(st.rows, |st.d|) && |st.rows| <= |st.d|
    && st.err == Sum(Gather(st.d, st.pi, |st.rows|))
  }

  /**
   * Pivot selection: among positions m..|pi|-1, the first one whose residual
   * d[pi[p]] is largest.
   */
  function SelectPivot(d: seq<real>, pi: seq<nat>, m: nat): (i: nat)
    requires m < |pi|
    requires forall p :: 0 <= p < |pi| ==> pi[p] < |d|
    ensures m <= i < |pi|
    ensures forall p {:trigger d[pi[p]]} :: m <= p < |pi| ==> d[pi[p]] <= d[pi[i]]
    ensures forall p {:trigger d[pi[p]]} :: m <= p < i ==> d[pi[p]] < d[pi[i]]
  {
    var g := Gather(d, pi, m);
    var k := FirstArgMax(g);
    assert forall p :: m <= p < |pi| ==> g[p - m] == d[pi[p]];
    m + k
  }

  /** A positive argument has a positive root whose square is the argument. */
  lemma RootOfPositive(sqrt: real -> real, x: real)
    requires IsSqrt(sqrt) && 0.0 < x
    ensures 0.0 < sqrt(x) && Sq(sqrt(x)) == x
  {
  }

  /** While the error is positive, some position is still unpivoted. */
  lemma NotExhausted(d: seq<real>, pi: seq<nat>, m: nat)
    requires m <= |pi| && forall p :: m <= p < |pi| ==> pi[p] < |d|
    requires 0.0 < Sum(Gather(d, pi, m))
    ensures m < |pi|
  {
  }

  /**
   * The state before the first iteration: no rows, the residuals are the
   * diagonal, the order is the identity and the error is the absolute sum of
   * the diagonal, which for a non-negative diagonal is its plain sum.
   */
  function Start(diag: seq<real>): (st: State)
    requires forall j :: 0 <= j < |diag| ==> 0.0 <= diag[j]
    ensures Wf(st) && st.rows == [] && st.d == diag
    ensures st.pi == Iota(|diag|) && st.err == SumAbs(diag) == Sum(diag)
    ensures st.errs == [st.err] && st.fetched == []
  {
    SumAbsOfNonNegative(diag);
    var pi := Iota(|diag|);
    assert Gather(diag, pi, 0) == diag;
    State([], diag, pi, SumAbs(diag), [SumAbs(diag)], [])
  }

  /**
   * The elimination part of an iteration, for pivot position i and pivot
   * entry s: swap i into position m, add the Schur row of the pivot column,
   * lower the residuals of the later positions and recompute the error over
   * them. The new row and residuals are those NewRow and NewResiduals
   * describe for the swapped order, the error drops by at least the pivot's
   * residual, and the pivot's index is recorded as fetched.
   */
  function Eliminate(A: seq<seq<real>>, st: State, i: nat, s: real): (r: State)
    requires Square(A, |st.d|) && Wf(st) && |st.rows| <= i < |st.d| && 0.0 < s
    ensures Wf(r) && r.pi == Swap(st.pi, |st.rows|, i)
    ensures |r.rows| == |st.rows| + 1 && r.rows == st.rows + [r.rows[|st.rows|]]
    ensures NewRow(A[st.pi[i]], st.rows, r.pi, s, r.rows[|st.rows|])
    ensures NewResiduals(st.d, r.pi, |st.rows|, r.rows[|st.rows|], r.d)
    ensures r.err <= st.err - st.d[st.pi[i]]
    ensures r.errs == st.errs + [r.err] && r.fetched == st.fetched + [st.pi[i]]
  {
    var m := |st.rows|;
    var pi := Swap(st.pi, m, i);
    SwapIsPermutation(st.pi, |st.d|, m, i);
    assert pi[m] == st.pi[i];
    var cur := SchurRow(A[pi[m]], st.rows, pi, s);
    SchurRowIsNewRow(A[pi[m]], st.rows, pi, s);
    ShapedAppend(st.rows, cur, |st.d|);
    var d := Lowered(st.d, pi, m, cur);
    LoweredIsNewResiduals(st.d, pi, m, cur);
    ErrorDecreases(st.d, st.pi, d, m, i);
    var err := Sum(Gather(d, pi, m + 1));
    State(st.rows + [cur], d, pi, err, st.errs + [err], st.fetched + [pi[m]])
  }

  /**
   * One iteration of the main loop: choose the first largest remaining
   * residual, take its root as the pivot entry and eliminate (Eliminate).
   * The error strictly decreases.
   */
  function Iterate(A: seq<seq<real>>, sqrt: real -> real, st: State): (r: State)
    requires Square(A, |st.d|) && Wf(st) && IsSqrt(sqrt) && 0.0 < st.err
    ensures Wf(r) && |r.rows| == |st.rows| + 1 && r.err < st.err
  {
    var m := |st.rows|;
    NotExhausted(st.d, st.pi, m);
    var i := SelectPivot(st.d, st.pi, m);
    PivotPositive(st.d, st.pi, m, i);
    RootOfPositive(sqrt, st.d[st.pi[i]]);
    Eliminate(A, st, i, sqrt(st.d[st.pi[i]]))
  }

  /**
   * The main loop: iterate while fewer than M rows have been built and the
   * error exceeds the tolerance. The result has at most M rows, and when it
   * has fewer the error is within the tolerance.
   */
  function Run(A: seq<seq<real>>, M: nat, errTol: real, sqrt: real -> real, st: State): (r: State)
    requires Square(A, |st.d|) && Wf(st) && IsSqrt(sqrt) && 0.0 <= errTol && |st.rows| <= M
    ensures Wf(r) && |st.rows| <= |r.rows| <= M && r.err <= st.err
    ensures |r.rows| < M ==> r.err <= errTol
    decreases M - |st.rows|
  {
    if |st.rows| < M && errTol < st.err then Run(A, M, errTol, sqrt, Iterate(A, sqrt, st)) else st
  }

  /**
   * What holds in every state of the loop: the factor invariants for the
   * initial diagonal and the operator, the residual bookkeeping, err as the
   * sum of the unpivoted residuals, an error history that starts at the
   * initial error, stayed above the tolerance at every accepted pivot and
   * dropped each time by at least the square of the pivot entry, and the
   * fetched rows being those of the pivots so far.
   */
  ghost predicate Invariant(diag: seq<real>, A: seq<seq<real>>, errTol: real, st: State)
  {
    LoopInv(diag, A, errTol, st.rows, st.d, st.pi, st.err, st.errs, st.fetched)
  }

  /** Invariant, on the components of the state. */
  ghost predicate LoopInv(diag: seq<real>, A: seq<seq<real>>, errTol: real, rows: seq<seq<real>>,
                          d: seq<real>, pi: seq<nat>, err: real, errs: seq<real>, fetched: seq<nat>)
  {
    && PivotedFactor(diag, A, rows, pi)
    && Bookkeeping(diag, d, rows, pi)
    && err == Sum(Gather(d, pi, |rows|))
    && History(diag, errTol, rows, pi, err, errs, fetched)
  }

  /**
   * The record of the run so far: one error per iteration after the initial
   * absolute sum of the diagonal, ending at the current error; every accepted
   * pivot was taken with the error above the tolerance, and the error then
   * dropped by at least the square of its pivot entry; the fetched rows are
   * those of the pivots, in order.
   */
  ghost predicate History(diag: seq<real>, errTol: real, rows: seq<seq<real>>, pi: seq<nat>,
                          err: real, errs: seq<real>, fetched: seq<nat>)
  {
    && |rows| <= |pi|
    && |errs| == |rows| + 1 && errs[0] == SumAbs(diag) && errs[|rows|] == err
    && (forall k :: 0 <= k < |rows| ==> errTol < errs[k])
    && (forall k {:trigger rows[k]} :: 0 <= k < |rows| ==>
          pi[k] < |rows[k]| && errs[k + 1] <= errs[k] - Sq(rows[k][pi[k]]))
    && fetched == pi[..|rows|]
  }

  /**
   * An accepted pivot extends the record: the error exceeded the tolerance,
   * the new error is at most the old one minus the square of the new pivot
   * entry, and the pivot's row is the next one fetched.
   */
  lemma HistoryExtends(diag: seq<real>, errTol: real, rows: seq<seq<real>>, pi: seq<nat>, err: real,
                       errs: seq<real>, fetched: seq<nat>, i: nat, cur: seq<real>, err': real)
    requires History(diag, errTol, rows, pi, err, errs, fetched)
    requires |rows| <= i < |pi| && IsPermutation(pi, |cur|)
    requires errTol < err && err' <= err - Sq(cur[pi[i]])
    ensures History(diag, errTol, rows + [cur], Swap(pi, |rows|, i), err', errs + [err'], fetched + [pi[i]])
  {
    var m, errs', rows', pi' := |rows|, errs + [err'], rows + [cur], Swap(pi, |rows|, i);
    forall k | 0 <= k < m + 1
      ensures errTol < errs'[k] && pi'[k] < |rows'[k]| && errs'[k + 1] <= errs'[k] - Sq(rows'[k][pi'[k]])
    {
      if k < m {
        assert rows'[k] == rows[k] && errs'[k] == errs[k] && errs'[k + 1] == errs[k + 1] && pi'[k] == pi[k];
      }
    }
    assert pi'[..m] == pi[..m];
    assert pi'[..m + 1] == fetched + [pi[i]];
  }

  /** The initial state satisfies the invariant. */
  lemma StartKeeps(diag: seq<real>, A: seq<seq<real>>, errTol: real)
    requires Square(A, |diag|) && forall j :: 0 <= j < |diag| ==> 0.0 <= diag[j]
    ensures Invariant(diag, A, errTol, Start(diag))
  {
  }

  /**
   * One iteration on the components of the state keeps the invariant: Step
   * relates the old and new factor, order and residuals, and the new error
   * is the sum of the residuals after position m, at most the old error
   * minus the pivot's residual.
   */
  lemma Advance(diag: seq<real>, A: seq<seq<real>>, errTol: real, rows: seq<seq<real>>, d: seq<real>,
                pi: seq<nat>, err: real, errs: seq<real>, fetched: seq<nat>,
                i: nat, s: real, cur: seq<real>, d': seq<real>, err': real)
    requires LoopInv(diag, A, errTol, rows, d, pi, err, errs, fetched) && errTol < err
    requires Step(diag, A, d, pi, rows, i, s, cur, d')
    requires err' == Sum(Gather(d', Swap(pi, |rows|, i), |rows| + 1)) && err' <= err - d[pi[i]]
    ensures LoopInv(diag, A, errTol, rows + [cur], d', Swap(pi, |rows|, i), err', errs + [err'], fetched + [pi[i]])
  {
    var m, pi' := |rows|, Swap(pi, |rows|, i);
    StepPreserves(diag, A, d, pi, rows, i, s, cur, d');
    assert cur[pi'[m]] == s;
    HistoryExtends(diag, errTol, rows, pi, err, errs, fetched, i, cur, err');
  }

  /** One iteration, taken while the error exceeds a non-negative tolerance, keeps the invariant. */
  lemma IterateKeeps(diag: seq<real>, A: seq<seq<real>>, errTol: real, sqrt: real -> real, st: State)
    requires Invariant(diag, A, errTol, st) && 0.0 <= errTol < st.err && IsSqrt(sqrt)
    ensures Square(A, |st.d|) && Wf(st)
    ensures Invariant(diag, A, errTol, Iterate(A, sqrt, st))
  {
    var m := |st.rows|;
    NotExhausted(st.d, st.pi, m);
    var i := SelectPivot(st.d, st.pi, m);
    PivotPositive(st.d, st.pi, m, i);
    RootOfPositive(sqrt, st.d[st.pi[i]]);
    var s := sqrt(st.d[st.pi[i]]);
    var r := Eliminate(A, st, i, s);
    assert Step(diag, A, st.d, st.pi, st.rows, i, s, r.rows[m], r.d);
    Advance(diag, A, errTol, st.rows, st.d, st.pi, st.err, st.errs, st.fetched, i, s, r.rows[m], r.d, r.err);
  }

  /** An iteration leaves the order at positions before m as it was. */
  lemma IterateKeepsPrefix(A: seq<seq<real>>, sqrt: real -> real, st: State)
    requires Square(A, |st.d|) && Wf(st) && IsSqrt(sqrt) && 0.0 < st.err
    ensures Iterate(A, sqrt, st).pi[..|st.rows|] == st.pi[..|st.rows|]
  {
    var m := |st.rows|;
    NotExhausted(st.d, st.pi, m);
    var i := SelectPivot(st.d, st.pi, m);
    PivotPositive(st.d, st.pi, m, i);
    RootOfPositive(sqrt, st.d[st.pi[i]]);
    var r := Eliminate(A, st, i, sqrt(st.d[st.pi[i]]));
    assert r.pi[..m] == st.pi[..m];
  }

  /** Once chosen, a pivot keeps its position for the rest of the run. */
  lemma {:induction false} RunKeepsPrefix(A: seq<seq<real>>, M: nat, errTol: real, sqrt: real -> real, st: State, k: nat)
    requires Square(A, |st.d|) && Wf(st) && IsSqrt(sqrt) && 0.0 <= errTol && |st.rows| <= M
    requires k <= |st.rows|
    ensures Run(A, M, errTol, sqrt, st).pi[..k] == st.pi[..k]
    decreases M - |st.rows|
  {
    if |st.rows| < M && errTol < st.err {
      var nx := Iterate(A, sqrt, st);
      IterateKeepsPrefix(A, sqrt, st);
      RunKeepsPrefix(A, M, errTol, sqrt, nx, k);
      assert nx.pi[..k] == nx.pi[..|st.rows|][..k];
      assert st.pi[..k] == st.pi[..|st.rows|][..k];
    }
  }

  /** The whole loop keeps the invariant. */
  lemma {:induction false} RunKeeps(diag: seq<real>, A: seq<seq<real>>, M: nat, errTol: real, sqrt: real -> real, st: State)
    requires Invariant(diag, A, errTol, st) && 0.0 <= errTol && IsSqrt(sqrt) && |st.rows| <= M
    ensures Square(A, |st.d|) && Wf(st)
    ensures Invariant(diag, A, errTol, Run(A, M, errTol, sqrt, st))
    decreases M - |st.rows|
  {
    if |st.rows| < M && errTol < st.err {
      IterateKeeps(diag, A, errTol, sqrt, st);
      RunKeeps(diag, A, M, errTol, sqrt, Iterate(A, sqrt, st));
    }
  }

  /**
   * What a run from the start guarantees: at most M rows and at most one per
   * column; the factor invariants and the residual bookkeeping; the order a
   * permutation; one row fetched per iteration, for the pivots in order and
   * never the same index twice; an error history that starts at the
   * absolute sum of the diagonal, ends at the sum of the unpivoted residuals,
   * exceeded the tolerance at every accepted pivot and dropped by at least
   * the pivot's square each time; and a run that stops short of M rows
   * leaves the error within the tolerance.
   */
  lemma RunCorrect(diag: seq<real>, A: seq<seq<real>>, M: nat, errTol: real, sqrt: real -> real)
    requires Square(A, |diag|) && forall j :: 0 <= j < |diag| ==> 0.0 <= diag[j]
    requires 0.0 <= errTol && IsSqrt(sqrt)
    ensures var r := Run(A, M, errTol, sqrt, Start(diag));
      && |r.rows| <= M && |r.rows| <= |diag|
      && PivotedFactor(diag, A, r.rows, r.pi)
      && Bookkeeping(diag, r.d, r.rows, r.pi)
      && IsPermutation(r.pi, |diag|)
      && r.fetched == r.pi[..|r.rows|] && |r.fetched| == |r.rows|
      && (forall a, b :: 0 <= a < b < |r.fetched| ==> r.fetched[a] != r.fetched[b])
      && |r.errs| == |r.rows| + 1 && r.errs[0] == SumAbs(diag)
      && r.errs[|r.rows|] == r.err == Sum(Gather(r.d, r.pi, |r.rows|))
      && (forall k :: 0 <= k < |r.rows| ==> errTol < r.errs[k])
      && (forall k {:trigger r.rows[k]} :: 0 <= k < |r.rows| ==> r.errs[k + 1] <= r.errs[k] - Sq(r.rows[k][r.pi[k]]))
      && (|r.rows| < M ==> r.err <= errTol)
  {
    StartKeeps(diag, A, errTol);
    RunKeeps(diag, A, M, errTol, sqrt, Start(diag));
  }

  /** An all-zero diagonal starts with zero error, so the loop never runs and no rows are built. */
  lemma ZeroDiagonal(diag: seq<real>, A: seq<seq<real>>, M: nat, errTol: real, sqrt: real -> real)
    requires Square(A, |diag|) && forall j :: 0 <= j < |diag| ==> diag[j] == 0.0
    requires 0.0 <= errTol && IsSqrt(sqrt)
    ensures Run(A, M, errTol, sqrt, Start(diag)).rows == []
  {
    SumAbsOfZero(diag);
  }
}
