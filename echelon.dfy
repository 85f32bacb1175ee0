/** Row echelon forms, elementary row operations and the facts about them that
    the elimination routines of both engine snapshots rely on. */
module Echelon {
  import opened MatrixValues

  /** The first nonzero column of row i at or after column j (cols when none). */
  function FirstNonzero(m: Mat, i: nat, j: nat): (c: nat)
    requires Wf(m) && i < m.rows && j <= m.cols
    decreases m.cols - j
    ensures j <= c <= m.cols
    ensures forall k: nat :: j <= k < c ==> At(m, i, k) == 0.0
    ensures c < m.cols ==> At(m, i, c) != 0.0
  {
    if j == m.cols then m.cols
    else if At(m, i, j) != 0.0 then j
    else FirstNonzero(m, i, j + 1)
  }

  /** The leading (first nonzero) column of row i; cols for an all-zero row. */
  function Lead(m: Mat, i: nat): (c: nat)
    requires Wf(m) && i < m.rows
    ensures c <= m.cols
    ensures forall k: nat :: k < c ==> At(m, i, k) == 0.0
    ensures c < m.cols ==> At(m, i, c) != 0.0
  {
    FirstNonzero(m, i, 0)
  }

  /** A column that has only zeros before it and a nonzero at it (or is the
      column count of an all-zero row) is the leading column. */
  lemma LeadIs(m: Mat, i: nat, c: nat)
    requires Wf(m) && i < m.rows && c <= m.cols
    requires forall k: nat :: k < c ==> At(m, i, k) == 0.0
    requires c < m.cols ==> At(m, i, c) != 0.0
    ensures Lead(m, i) == c
  {
    var l := Lead(m, i);
    assert !(l < c);
    assert !(c < l);
  }

  /** Rows with the same entries have the same leading column. */
  lemma LeadSameRow(m: Mat, i: nat, m': Mat, i': nat)
    requires Wf(m) && Wf(m') && i < m.rows && i' < m'.rows && m.cols == m'.cols
    requires forall j: nat :: j < m.cols ==> At(m', i', j) == At(m, i, j)
    ensures Lead(m', i') == Lead(m, i)
  {
    LeadIs(m', i', Lead(m, i));
  }

  predicate ZeroRow(m: Mat, i: nat)
    requires Wf(m) && i < m.rows
  {
    Lead(m, i) == m.cols
  }

  /** Every nonzero row's leading entry is 1, and the leading columns of the
      nonzero rows strictly increase from top to bottom (all-zero rows may
      sit anywhere). */
  predicate LeadsOrdered(m: Mat)
    requires Wf(m)
  {
    (forall i: nat :: i < m.rows && Lead(m, i) < m.cols ==> At(m, i, Lead(m, i)) == 1.0) &&
    (forall i: nat, k: nat :: i < k < m.rows && Lead(m, i) < m.cols && Lead(m, k) < m.cols ==>
       Lead(m, i) < Lead(m, k))
  }

  /** What the engines' `isRowEchelonForm` accepts: ordered leading ones, the
      first of them strictly right of column 0 (its `prevCol` starts at 0). */
  predicate AcceptedEchelon(m: Mat)
    requires Wf(m)
  {
    LeadsOrdered(m) && forall i: nat :: i < m.rows && Lead(m, i) < m.cols ==> 0 < Lead(m, i)
  }

  /** The first n rows pass the engines' test: each nonzero row leads with a
      1 strictly right of column 0, and the leading columns increase. */
  predicate AcceptedRows(m: Mat, n: nat)
    requires Wf(m) && n <= m.rows
  {
    (forall i: nat :: i < n && Lead(m, i) < m.cols ==> At(m, i, Lead(m, i)) == 1.0 && 0 < Lead(m, i)) &&
    (forall i: nat, k: nat :: i < k < n && Lead(m, i) < m.cols && Lead(m, k) < m.cols ==>
       Lead(m, i) < Lead(m, k))
  }

  /** The scan's loop invariant over all the rows is the predicate its
      result is specified by: the step that ends `isRowEchelonForm`'s proof,
      stated once for both engines. */
  lemma AcceptedAllRows(m: Mat)
    requires Wf(m)
    ensures AcceptedRows(m, m.rows) <==> AcceptedEchelon(m)
  {
  }

  /** The scan's `prevCol` after the first n rows: the leading column of the
      last nonzero row `last` among them, or 0 when there is none (last = -1). */
  predicate PrevColAfter(m: Mat, n: nat, last: int, prevCol: nat)
    requires Wf(m) && n <= m.rows
  {
    -1 <= last < n &&
    (last == -1 ==> prevCol == 0) &&
    (last >= 0 ==> Lead(m, last) == prevCol < m.cols) &&
    forall r: nat :: last < r < n ==> Lead(m, r) == m.cols
  }

  /** Every nonzero row among the first n leads at or before prevCol. */
  lemma LeadsUpToPrevCol(m: Mat, n: nat, last: int, prevCol: nat, r: nat)
    requires Wf(m) && n <= m.rows && AcceptedRows(m, n) && PrevColAfter(m, n, last, prevCol)
    requires r < n && Lead(m, r) < m.cols
    ensures last >= 0 && Lead(m, r) <= prevCol
  {
    assert r as int <= last;
    var l: nat := last as nat;
    if r < l {
      assert Lead(m, r) < Lead(m, l);
    }
  }

  /** A row whose lead is a 1 right of prevCol extends the accepted prefix. */
  lemma ScanAccepts(m: Mat, n: nat, last: int, prevCol: nat)
    requires Wf(m) && n < m.rows && AcceptedRows(m, n) && PrevColAfter(m, n, last, prevCol)
    requires Lead(m, n) < m.cols && At(m, n, Lead(m, n)) == 1.0 && Lead(m, n) > prevCol
    ensures AcceptedRows(m, n + 1) && PrevColAfter(m, n + 1, n, Lead(m, n))
  {
    forall r: nat | r < n && Lead(m, r) < m.cols
      ensures Lead(m, r) < Lead(m, n)
    {
      LeadsUpToPrevCol(m, n, last, prevCol, r);
    }
  }

  /** An all-zero row extends the accepted prefix and leaves prevCol alone. */
  lemma ScanSkips(m: Mat, n: nat, last: int, prevCol: nat)
    requires Wf(m) && n < m.rows && AcceptedRows(m, n) && PrevColAfter(m, n, last, prevCol)
    requires ZeroRow(m, n)
    ensures AcceptedRows(m, n + 1) && PrevColAfter(m, n + 1, last, prevCol)
  {
  }

  /** A row whose lead is not 1, or not right of prevCol, is refused. */
  lemma ScanRejects(m: Mat, n: nat, last: int, prevCol: nat)
    requires Wf(m) && n < m.rows && AcceptedRows(m, n) && PrevColAfter(m, n, last, prevCol)
    requires Lead(m, n) < m.cols && (At(m, n, Lead(m, n)) != 1.0 || Lead(m, n) <= prevCol)
    ensures !AcceptedEchelon(m)
  {
    if At(m, n, Lead(m, n)) == 1.0 && last >= 0 {
      assert Lead(m, last) >= Lead(m, n);
    }
  }

  /** Row echelon form in the textbook sense: ordered leading ones and the
      all-zero rows below every nonzero row. */
  predicate EchelonForm(m: Mat)
    requires Wf(m)
  {
    LeadsOrdered(m) &&
    forall i: nat, k: nat :: i < k < m.rows && Lead(m, k) < m.cols ==> Lead(m, i) < m.cols
  }

  /** Every leading column is zero in all other rows. */
  predicate PivotColumnsCleared(m: Mat)
    requires Wf(m)
  {
    forall i: nat, k: nat :: i < m.rows && k < m.rows && i != k && Lead(m, k) < m.cols ==>
      At(m, i, Lead(m, k)) == 0.0
  }

  /** In an ordered matrix every entry below a leading one is 0. */
  lemma BelowLeadIsZero(m: Mat, k: nat, i: nat)
    requires Wf(m) && LeadsOrdered(m) && k < i < m.rows && Lead(m, k) < m.cols
    ensures At(m, i, Lead(m, k)) == 0.0
  {
    if Lead(m, i) < m.cols {
      assert Lead(m, k) < Lead(m, i);
    }
  }

  /** An all-zero matrix passes the engines' echelon test. */
  lemma ZeroMatrixAccepted(m: Mat)
    requires Wf(m)
    requires forall k :: 0 <= k < |m.elems| ==> m.elems[k] == 0.0
    ensures AcceptedEchelon(m)
  {
    forall i: nat | i < m.rows
      ensures Lead(m, i) == m.cols
    {
      forall j: nat | j < m.cols
        ensures At(m, i, j) == 0.0
      {
        OffsetInRange(m.rows, m.cols, i, j);
      }
      LeadIs(m, i, m.cols);
    }
  }

  /** A leading 1 in column 0 is refused: no nonempty identity passes. */
  lemma IdentityRefused(n: nat)
    requires n > 0
    ensures !AcceptedEchelon(Identity(n))
  {
    var id := Identity(n);
    LeadIs(id, 0, 0);
  }

  /** The engines' test accepts a zero row above a nonzero row: in
      [[0, 0], [0, 1]] the top row is skipped and the bottom row leads with
      a 1 in column 1, right of column 0, yet the matrix is not in row
      echelon form. */
  lemma ZeroRowAboveAccepted()
    ensures AcceptedEchelon(Mat(2, 2, [0.0, 0.0, 0.0, 1.0]))
    ensures !EchelonForm(Mat(2, 2, [0.0, 0.0, 0.0, 1.0]))
  {
    var m := Mat(2, 2, [0.0, 0.0, 0.0, 1.0]);
    assert At(m, 0, 0) == 0.0 && At(m, 0, 1) == 0.0;
    assert At(m, 1, 0) == 0.0 && At(m, 1, 1) == 1.0;
    LeadIs(m, 0, 2);
    LeadIs(m, 1, 1);
  }

  // ---------------------------------------------------------------------
  // Elementary row operations

  datatype RowOp = Swap(r1: nat, r2: nat) | Scale(r: nat, s: real) | Add(src: nat, dst: nat, s: real)

  function ApplyOp(m: Mat, op: RowOp): (r: Mat)
    requires Wf(m)
    ensures Wf(r) && r.rows == m.rows && r.cols == m.cols
  {
    match op
    case Swap(r1, r2) => SwapRows(m, r1, r2)
    case Scale(r, s) => if r < m.rows then MultiplyRow(m, r, s) else m
    case Add(src, dst, s) => AddRows(m, src, dst, s)
  }

  /** The operations applied in order, first to last. */
  function ApplyOps(m: Mat, ops: seq<RowOp>): (r: Mat)
    requires Wf(m)
    ensures Wf(r) && r.rows == m.rows && r.cols == m.cols
    decreases |ops|
  {
    if ops == [] then m else ApplyOp(ApplyOps(m, ops[..|ops| - 1]), ops[|ops| - 1])
  }

  lemma ApplyOpsSnoc(m: Mat, ops: seq<RowOp>, op: RowOp)
    requires Wf(m)
    ensures ApplyOps(m, ops + [op]) == ApplyOp(ApplyOps(m, ops), op)
  {
    assert (ops + [op])[..|ops|] == ops;
  }

  lemma {:induction false} ApplyOpsConcat(m: Mat, ops: seq<RowOp>, more: seq<RowOp>)
    requires Wf(m)
    ensures ApplyOps(m, ops + more) == ApplyOps(ApplyOps(m, ops), more)
    decreases |more|
  {
    if more == [] {
      assert ops + more == ops;
    } else {
      var init := more[..|more| - 1];
      assert (ops + more)[..|ops + more| - 1] == ops + init;
      assert (ops + more)[|ops + more| - 1] == more[|more| - 1];
      ApplyOpsConcat(m, ops, init);
    }
  }

  /** An elementary row operation: a swap, a scaling by a nonzero factor, or
      adding a multiple of one row to a different row. Each can be undone,
      so a matrix reached by elementary operations is row-equivalent to the
      one they started from. */
  predicate Elementary(op: RowOp)
  {
    match op
    case Swap(_, _) => true
    case Scale(_, s) => s != 0.0
    case Add(src, dst, _) => src != dst
  }

  predicate AllElementary(ops: seq<RowOp>)
  {
    forall k :: 0 <= k < |ops| ==> Elementary(ops[k])
  }

  /** The operation that undoes an elementary one. */
  function Undo(op: RowOp): (u: RowOp)
    requires Elementary(op)
    ensures Elementary(u)
  {
    match op
    case Swap(r1, r2) => Swap(r1, r2)
    case Scale(r, s) => InverseNonzero(s); Scale(r, 1.0 / s)
    case Add(src, dst, s) => Add(src, dst, -s)
  }

  lemma InverseNonzero(s: real)
    requires s != 0.0
    ensures 1.0 / s != 0.0 && s * (1.0 / s) == 1.0
  {
  }

  /** The operations that undo a sequence of elementary ones, last first. */
  function UndoAll(ops: seq<RowOp>): (u: seq<RowOp>)
    requires AllElementary(ops)
    ensures |u| == |ops| && AllElementary(u)
    decreases |ops|
  {
    if ops == [] then [] else [Undo(ops[|ops| - 1])] + UndoAll(ops[..|ops| - 1])
  }

  lemma UndoOp(m: Mat, op: RowOp)
    requires Wf(m) && Elementary(op)
    ensures ApplyOp(ApplyOp(m, op), Undo(op)) == m
  {
    match op
    case Swap(r1, r2) => SwapRowsTwice(m, r1, r2);
    case Scale(r, s) => if r < m.rows { ScaleUndone(m, r, s); }
    case Add(src, dst, s) => AddUndone(m, src, dst, s);
  }

  lemma ScaleUndone(m: Mat, r: nat, s: real)
    requires Wf(m) && r < m.rows && s != 0.0
    ensures MultiplyRow(MultiplyRow(m, r, s), r, 1.0 / s) == m
  {
    var m' := MultiplyRow(m, r, s);
    var back := MultiplyRow(m', r, 1.0 / s);
    forall i: nat, j: nat | i < m.rows && j < m.cols
      ensures At(back, i, j) == At(m, i, j)
    {
      if i == r {
        ScaleBack(At(m, i, j), s);
      }
    }
    Ext(back, m);
  }

  lemma AddUndone(m: Mat, src: nat, dst: nat, s: real)
    requires Wf(m) && src != dst
    ensures AddRows(AddRows(m, src, dst, s), src, dst, -s) == m
  {
    if src < m.rows && dst < m.rows {
      var m' := AddRows(m, src, dst, s);
      var back := AddRows(m', src, dst, -s);
      forall i: nat, j: nat | i < m.rows && j < m.cols
        ensures At(back, i, j) == At(m, i, j)
      {
        if i == dst {
          assert At(m', src, j) == At(m, src, j);
        }
      }
      Ext(back, m);
    }
  }

  lemma ScaleBack(x: real, s: real)
    requires s != 0.0
    ensures x * s * (1.0 / s) == x
  {
    InverseNonzero(s);
    assert x * s * (1.0 / s) == x * (s * (1.0 / s));
  }

  /** Elementary operations lose nothing: undoing them restores the matrix. */
  lemma {:induction false} UndoOps(m: Mat, ops: seq<RowOp>)
    requires Wf(m) && AllElementary(ops)
    ensures ApplyOps(ApplyOps(m, ops), UndoAll(ops)) == m
    decreases |ops|
  {
    if ops != [] {
      var init, last := ops[..|ops| - 1], ops[|ops| - 1];
      assert AllElementary(init) by {
        assert forall k :: 0 <= k < |init| ==> init[k] == ops[k];
      }
      var x := ApplyOps(m, init);
      var m' := ApplyOp(x, last);
      assert ApplyOps(m, ops) == m';
      var u := Undo(last);
      ApplyOpsConcat(m', [u], UndoAll(init));
      assert ApplyOps(m', [u]) == ApplyOp(m', u) by {
        assert [u][..0] == [];
      }
      UndoOp(x, last);
      UndoOps(m, init);
    }
  }

  predicate IsZero(m: Mat)
  {
    forall k :: 0 <= k < |m.elems| ==> m.elems[k] == 0.0
  }

  lemma ZeroAt(m: Mat)
    requires Wf(m) && IsZero(m)
    ensures forall i: nat, j: nat :: i < m.rows && j < m.cols ==> At(m, i, j) == 0.0
  {
    forall i: nat, j: nat | i < m.rows && j < m.cols
      ensures At(m, i, j) == 0.0
    {
      OffsetInRange(m.rows, m.cols, i, j);
    }
  }

  /** A single operation maps the zero matrix to itself. */
  lemma OpKeepsZero(m: Mat, op: RowOp)
    requires Wf(m) && IsZero(m)
    ensures ApplyOp(m, op) == m
  {
    var r := ApplyOp(m, op);
    ZeroAt(m);
    if op.Scale? && op.r >= m.rows {
    } else {
      forall i: nat, j: nat | i < m.rows && j < m.cols
        ensures At(r, i, j) == 0.0
      {
      }
      ZeroAt(m);
      Ext(r, m);
    }
  }

  /** Every sequence of operations maps the zero matrix to itself. */
  lemma {:induction false} OpsKeepZero(m: Mat, ops: seq<RowOp>)
    requires Wf(m) && IsZero(m)
    ensures ApplyOps(m, ops) == m
    decreases |ops|
  {
    if ops != [] {
      OpsKeepZero(m, ops[..|ops| - 1]);
      OpKeepsZero(m, ops[|ops| - 1]);
    }
  }

  /** Elementary operations reach the zero matrix only from the zero matrix,
      so a result built from them is row-equivalent to its input. */
  lemma ZeroOnlyFromZero(m: Mat, ops: seq<RowOp>)
    requires Wf(m) && AllElementary(ops) && IsZero(ApplyOps(m, ops))
    ensures IsZero(m)
  {
    UndoOps(m, ops);
    OpsKeepZero(ApplyOps(m, ops), UndoAll(ops));
  }

  // ---------------------------------------------------------------------
  // Gaussian elimination: the state after each pivot step

  /** Rows 0 .. |piv| - 1 lead with a 1 in columns piv[0] < piv[1] < ... */
  ghost predicate Pivoted(m: Mat, piv: seq<nat>)
    requires Wf(m)
  {
    |piv| <= m.rows &&
    (forall k :: 0 <= k < |piv| ==> piv[k] < m.cols && Lead(m, k) == piv[k] && At(m, k, piv[k]) == 1.0) &&
    (forall k, k' :: 0 <= k < k' < |piv| ==> piv[k] < piv[k'])
  }

  /** Rows t and below are zero in the columns before c. */
  ghost predicate ZeroBelow(m: Mat, t: nat, c: nat)
    requires Wf(m) && c <= m.cols
  {
    forall i: nat, j: nat :: t <= i < m.rows && j < c ==> At(m, i, j) == 0.0
  }

  /** The first column right of every pivot so far. */
  function Bound(piv: seq<nat>): nat
  {
    if |piv| == 0 then 0 else piv[|piv| - 1] + 1
  }

  /** Pivot rows on top of all-zero rows form a row echelon form. */
  lemma PivotedEchelon(m: Mat, piv: seq<nat>)
    requires Wf(m) && Pivoted(m, piv) && ZeroBelow(m, |piv|, m.cols)
    ensures EchelonForm(m)
  {
    forall i: nat | |piv| <= i < m.rows
      ensures Lead(m, i) == m.cols
    {
      LeadIs(m, i, m.cols);
    }
  }

  /** On a matrix already in row echelon form, the pivot search from row t
      (the leftmost column with a nonzero entry at or below t) stops at row
      t itself, on a leading 1 with zeros below it: the elimination then has
      nothing to do. */
  lemma EchelonPivotIsTop(m: Mat, t: nat, pr: nat, pc: nat)
    requires Wf(m) && EchelonForm(m) && t <= pr < m.rows && pc < m.cols
    requires At(m, pr, pc) != 0.0 && ZeroBelow(m, t, pc)
    ensures pr == t && At(m, t, pc) == 1.0
    ensures forall i: nat :: t < i < m.rows ==> At(m, i, pc) == 0.0
  {
    LeadIs(m, pr, pc);
    assert Lead(m, t) >= pc;
    assert pr == t;
    forall i: nat | t < i < m.rows
      ensures At(m, i, pc) == 0.0
    {
      BelowLeadIsZero(m, t, i);
    }
  }

  /** A nonzero entry at or below row |piv| lies right of every pivot. */
  lemma NonzeroPastBound(m: Mat, piv: seq<nat>, pr: nat, pc: nat)
    requires Wf(m) && Bound(piv) <= m.cols && ZeroBelow(m, |piv|, Bound(piv))
    requires |piv| <= pr < m.rows && pc < m.cols && At(m, pr, pc) != 0.0
    ensures Bound(piv) <= pc
  {
  }

  /** Bringing the pivot row up to row t keeps the rows above and the zero
      block below. */
  lemma SwapPivot(m: Mat, piv: seq<nat>, pr: nat, pc: nat)
    requires Wf(m) && Pivoted(m, piv) && |piv| <= pr < m.rows && pc < m.cols
    requires ZeroBelow(m, |piv|, pc) && At(m, pr, pc) != 0.0
    ensures Pivoted(SwapRows(m, pr, |piv|), piv)
    ensures ZeroBelow(SwapRows(m, pr, |piv|), |piv|, pc)
    ensures At(SwapRows(m, pr, |piv|), |piv|, pc) != 0.0
  {
    var t := |piv|;
    var m' := SwapRows(m, pr, t);
    forall k | 0 <= k < t
      ensures Lead(m', k) == Lead(m, k) && At(m', k, piv[k]) == 1.0
    {
      LeadSameRow(m, k, m', k);
    }
  }

  /** A row whose entries before pc are 0 and whose entry at pc is 1 becomes
      pivot row |piv| when the rows above are those of a pivoted matrix. */
  lemma PivotExtends(m: Mat, m': Mat, piv: seq<nat>, pc: nat)
    requires Wf(m) && Wf(m') && m'.rows == m.rows && m'.cols == m.cols
    requires Pivoted(m, piv) && |piv| < m.rows && Bound(piv) <= pc < m.cols
    requires forall k: nat :: k < |piv| ==> Row(m', k) == Row(m, k)
    requires At(m', |piv|, pc) == 1.0 && forall j: nat :: j < pc ==> At(m', |piv|, j) == 0.0
    ensures Pivoted(m', piv + [pc])
  {
    var t := |piv|;
    forall k | 0 <= k < t
      ensures Lead(m', k) == Lead(m, k) && At(m', k, piv[k]) == 1.0
    {
      assert Row(m', k) == Row(m, k);
      forall j: nat | j < m.cols
        ensures At(m', k, j) == At(m, k, j)
      {
        assert Row(m', k)[j] == Row(m, k)[j];
      }
      LeadSameRow(m, k, m', k);
    }
    LeadIs(m', t, pc);
  }

  /** The pivot is already 1: nothing is scaled. */
  lemma PivotIsOne(m: Mat, piv: seq<nat>, pc: nat)
    requires Wf(m) && Pivoted(m, piv) && |piv| < m.rows && Bound(piv) <= pc < m.cols
    requires ZeroBelow(m, |piv|, pc) && At(m, |piv|, pc) == 1.0
    ensures Pivoted(m, piv + [pc]) && ZeroBelow(m, |piv| + 1, pc)
  {
    PivotExtends(m, m, piv, pc);
  }

  /** Row t scaled by s: the entries before pc stay 0 and the pivot becomes
      lead * s. */
  lemma ScaledPivotRow(m: Mat, t: nat, pc: nat, s: real, j: nat)
    requires Wf(m) && t < m.rows && pc < m.cols && j <= pc
    requires j < pc ==> At(m, t, j) == 0.0
    ensures j < pc ==> At(MultiplyRow(m, t, s), t, j) == 0.0
    ensures At(MultiplyRow(m, t, s), t, j) == At(m, t, j) * s
  {
  }

  lemma MulCongruence(x: real, y: real, s: real)
    requires x == y
    ensures x * s == y * s
  {
  }

  lemma InverseTimes(x: real, s: real)
    requires x != 0.0 && s == 1.0 / x
    ensures x * s == 1.0
  {
  }

  /** Scaling row t by the inverse of its pivot makes the pivot 1. */
  lemma ScalePivot(m: Mat, piv: seq<nat>, pc: nat, lead: real, s: real)
    requires Wf(m) && Pivoted(m, piv) && |piv| < m.rows && Bound(piv) <= pc < m.cols
    requires ZeroBelow(m, |piv|, pc) && lead == At(m, |piv|, pc) && lead * s == 1.0
    ensures Pivoted(MultiplyRow(m, |piv|, s), piv + [pc]) && ZeroBelow(MultiplyRow(m, |piv|, s), |piv| + 1, pc)
  {
    var t := |piv|;
    var m' := MultiplyRow(m, t, s);
    ScaledPivotRow(m, t, pc, s, pc);
    MulCongruence(At(m, t, pc), lead, s);
    forall k: nat | k < t
      ensures Row(m', k) == Row(m, k)
    {
      MultiplyRowOthers(m, t, s, k);
    }
    forall j: nat | j < pc
      ensures At(m', t, j) == 0.0
    {
      ScaledPivotRow(m, t, pc, s, j);
    }
    PivotExtends(m, m', piv, pc);
    forall r: nat, j: nat | t < r < m.rows && j < pc
      ensures At(m', r, j) == 0.0
    {
      MultiplyRowOthers(m, t, s, r);
      assert Row(m', r)[j] == Row(m, r)[j];
    }
  }

  /** Row i below the pivot row t is cleared in the pivot column pc; the
      pivot row has zeros before its pivot, so the columns before it stay 0. */
  lemma EliminateStep(m: Mat, piv: seq<nat>, pc: nat, i: nat, elem: real)
    requires Wf(m) && Pivoted(m, piv) && |piv| > 0 && |piv| <= i < m.rows && pc == piv[|piv| - 1]
    requires ZeroBelow(m, |piv|, pc)
    requires forall r: nat :: |piv| <= r < i ==> At(m, r, pc) == 0.0
    requires elem == At(m, i, pc)
    ensures var m' := if elem != 0.0 then AddRows(m, |piv| - 1, i, -elem) else m;
            Pivoted(m', piv) && ZeroBelow(m', |piv|, pc) &&
            forall r: nat :: |piv| <= r <= i ==> At(m', r, pc) == 0.0
  {
    var t := |piv| - 1;
    if elem != 0.0 {
      var m' := AddRows(m, t, i, -elem);
      assert Lead(m, t) == pc;
      forall k | 0 <= k < |piv|
        ensures Lead(m', k) == Lead(m, k) && At(m', k, piv[k]) == 1.0
      {
        LeadSameRow(m, k, m', k);
      }
      forall r: nat, j: nat | |piv| <= r < m.rows && j <= pc
        ensures (j < pc ==> At(m', r, j) == 0.0) && (r <= i && j == pc ==> At(m', r, j) == 0.0)
      {
        if r == i {
          var x, y := At(m, i, j), At(m, t, j);
          assert At(m', i, j) == x + -elem * y;
          if j < pc {
            assert x == 0.0 && y == 0.0;
          } else {
            assert x == elem && y == 1.0;
          }
        }
      }
    }
  }

  /** The same leading column in every row. */
  ghost predicate SameLeads(m: Mat, m0: Mat)
    requires Wf(m) && Wf(m0)
  {
    m.rows == m0.rows && m.cols == m0.cols &&
    forall k: nat :: k < m.rows ==> Lead(m, k) == Lead(m0, k)
  }

  /** Same leading columns: echelon form carries over from m0 to an ordered m. */
  lemma SameLeadsEchelon(m: Mat, m0: Mat)
    requires Wf(m) && Wf(m0) && SameLeads(m, m0) && LeadsOrdered(m) && EchelonForm(m0)
    ensures EchelonForm(m)
  {
    forall i: nat, k: nat | i < k < m.rows && Lead(m, k) < m.cols
      ensures Lead(m, i) < m.cols
    {
      assert Lead(m0, k) < m0.cols;
    }
  }

  // ---------------------------------------------------------------------
  // Gauss-Jordan elimination: clearing the pivot columns from the bottom up

  /** Every nonzero row below row b has its leading column cleared in all the
      rows above it. */
  ghost predicate ClearedFrom(m: Mat, b: nat)
    requires Wf(m)
  {
    forall k: nat, i: nat :: b < k < m.rows && i < k && Lead(m, k) < m.cols ==> At(m, i, Lead(m, k)) == 0.0
  }

  /** An entry after z = a + s * y, over plain reals. */
  lemma ClearedEntry(z: real, a: real, s: real, y: real)
    requires z == a + s * y
    ensures a == 0.0 && y == 0.0 ==> z == 0.0
    ensures a == 1.0 && y == 0.0 ==> z == 1.0
    ensures s == -a && y == 1.0 ==> z == 0.0
  {
  }

  /** Entry j of row i after row i += s * row b. */
  lemma ClearedAt(m: Mat, b: nat, i: nat, s: real, j: nat)
    requires Wf(m) && b < m.rows && i < m.rows && i != b && j < m.cols
    ensures var z, a, y := At(AddRows(m, b, i, s), i, j), At(m, i, j), At(m, b, j);
            (a == 0.0 && y == 0.0 ==> z == 0.0) &&
            (a == 1.0 && y == 0.0 ==> z == 1.0) &&
            (s == -a && y == 1.0 ==> z == 0.0)
  {
    ClearedEntry(At(AddRows(m, b, i, s), i, j), At(m, i, j), s, At(m, b, j));
  }

  /** Subtracting x times row b (leading 1 in column l) from row i above it,
      where x is row i's entry in column l: the entries of row i. */
  lemma ClearAboveRow(m: Mat, b: nat, l: nat, i: nat, x: real)
    requires Wf(m) && LeadsOrdered(m) && b < m.rows && Lead(m, b) == l < m.cols && i < b
    requires ClearedFrom(m, b) && x == At(m, i, l)
    ensures var m' := AddRows(m, b, i, -x);
            (forall j: nat :: j < Lead(m, i) ==> At(m', i, j) == 0.0) &&
            (Lead(m, i) < m.cols ==> At(m', i, Lead(m, i)) == 1.0) &&
            At(m', i, l) == 0.0 &&
            forall k: nat :: b < k < m.rows && Lead(m, k) < m.cols ==> At(m', i, Lead(m, k)) == 0.0
  {
    var m' := AddRows(m, b, i, -x);
    var li := Lead(m, i);
    if li < m.cols {
      assert li < l;
      ClearedAt(m, b, i, -x, li);
    }
    forall j: nat | j < li
      ensures At(m', i, j) == 0.0
    {
      ClearedAt(m, b, i, -x, j);
    }
    ClearedAt(m, b, i, -x, l);
    forall k: nat | b < k < m.rows && Lead(m, k) < m.cols
      ensures At(m', i, Lead(m, k)) == 0.0
    {
      var lk := Lead(m, k);
      assert At(m, b, lk) == 0.0 && At(m, i, lk) == 0.0;
      ClearedAt(m, b, i, -x, lk);
    }
  }

  /** One `addRows(b, i, -A(i, lead))` step of Gauss-Jordan elimination keeps
      every leading column and the cleared columns, and clears column l in
      row i. */
  lemma ClearAboveStep(m: Mat, b: nat, l: nat, i: nat, x: real)
    requires Wf(m) && LeadsOrdered(m) && b < m.rows && Lead(m, b) == l < m.cols && i < b
    requires ClearedFrom(m, b) && x == At(m, i, l)
    ensures var m' := AddRows(m, b, i, -x);
            SameLeads(m', m) && LeadsOrdered(m') && ClearedFrom(m', b) && At(m', i, l) == 0.0
  {
    var m' := AddRows(m, b, i, -x);
    ClearAboveRow(m, b, l, i, x);
    LeadIs(m', i, Lead(m, i));
    forall k: nat | k < m.rows && k != i
      ensures Lead(m', k) == Lead(m, k)
    {
      LeadSameRow(m, k, m', k);
    }
  }

  /** The state of the clearing loop for row b after rows 0 .. i - 1: the
      leads of o kept, and column l zero in those rows. */
  ghost predicate ClearingAbove(m: Mat, o: Mat, b: nat, l: nat, i: nat)
    requires Wf(m) && Wf(o)
  {
    SameLeads(m, o) && LeadsOrdered(m) && ClearedFrom(m, b) && l < m.cols && i <= m.rows &&
    forall r: nat :: r < i ==> At(m, r, l) == 0.0
  }

  /** The clearing loop's step keeps its invariant. */
  lemma ClearingStep(m: Mat, o: Mat, b: nat, l: nat, i: nat, x: real)
    requires Wf(m) && Wf(o) && ClearingAbove(m, o, b, l, i) && b < m.rows && Lead(o, b) == l && i < b
    requires x == At(m, i, l)
    ensures ClearingAbove(AddRows(m, b, i, -x), o, b, l, i + 1)
  {
    var m' := AddRows(m, b, i, -x);
    ClearAboveStep(m, b, l, i, x);
    forall r: nat | r < i
      ensures At(m', r, l) == 0.0
    {
      assert At(m', r, l) == At(m, r, l);
    }
  }

  /** The state of `reducedRowEchelon`'s loop before row b: the leading
      columns of r0 kept, and the rows below b cleared above. */
  ghost predicate Reducing(m: Mat, r0: Mat, b: nat)
    requires Wf(m) && Wf(r0)
  {
    SameLeads(m, r0) && LeadsOrdered(m) && b < m.rows && ClearedFrom(m, b)
  }

  /** Clearing above a nonzero row b moves the loop on to row b - 1. */
  lemma ReducingCleared(m: Mat, o: Mat, r0: Mat, b: nat, l: nat)
    requires Wf(m) && Wf(o) && Wf(r0) && 0 < b && Reducing(o, r0, b) && Lead(o, b) == l
    requires ClearingAbove(m, o, b, l, b)
    ensures Reducing(m, r0, b - 1)
  {
    assert Lead(m, b) == l;
    ClearedGrows(m, b);
  }

  /** An all-zero row b has nothing to clear. */
  lemma ReducingZeroRow(m: Mat, r0: Mat, b: nat)
    requires Wf(m) && Wf(r0) && 0 < b && Reducing(m, r0, b) && Lead(m, b) == m.cols
    ensures Reducing(m, r0, b - 1)
  {
    ClearedGrows(m, b);
  }

  /** Once row b's column is clear above it, the cleared region grows by one. */
  lemma ClearedGrows(m: Mat, b: nat)
    requires Wf(m) && 0 < b < m.rows && ClearedFrom(m, b)
    requires Lead(m, b) < m.cols ==> forall i: nat :: i < b ==> At(m, i, Lead(m, b)) == 0.0
    ensures ClearedFrom(m, b - 1)
  {
  }

  /** Ordered leading ones cleared from above are cleared everywhere. */
  lemma ClearedAll(m: Mat)
    requires Wf(m) && LeadsOrdered(m) && ClearedFrom(m, 0)
    ensures PivotColumnsCleared(m)
  {
    forall i: nat, k: nat | i < m.rows && k < m.rows && i != k && Lead(m, k) < m.cols
      ensures At(m, i, Lead(m, k)) == 0.0
    {
      if k < i {
        BelowLeadIsZero(m, k, i);
      }
    }
  }

  /** With only the top row left, nothing is cleared yet and nothing needs to be. */
  lemma ClearedFromBottom(m: Mat)
    requires Wf(m) && m.rows > 0
    ensures ClearedFrom(m, m.rows - 1)
  {
  }

  /** The state of `rowEchelon`'s outer loop before pivot row t: rows above
      t are pivot rows, and rows t and below are zero left of the last pivot. */
  ghost predicate Echeloning(m: Mat, piv: seq<nat>, t: nat)
    requires Wf(m)
  {
    |piv| == t && Bound(piv) <= m.cols && Pivoted(m, piv) && ZeroBelow(m, t, Bound(piv))
  }

  /** The state of the elimination loop below pivot row |piv| - 1 (pivot
      column pc) after rows |piv| .. i - 1. */
  ghost predicate Eliminating(m: Mat, piv: seq<nat>, pc: nat, i: nat)
    requires Wf(m)
  {
    Pivoted(m, piv) && |piv| > 0 && pc == piv[|piv| - 1] && ZeroBelow(m, |piv|, pc) &&
    |piv| <= i <= m.rows && forall r: nat :: |piv| <= r < i ==> At(m, r, pc) == 0.0
  }

  /** The elimination loop's step keeps its invariant. */
  lemma EliminatingStep(m: Mat, piv: seq<nat>, pc: nat, i: nat, elem: real)
    requires Wf(m) && Eliminating(m, piv, pc, i) && i < m.rows && elem == At(m, i, pc)
    ensures Eliminating(if elem != 0.0 then AddRows(m, |piv| - 1, i, -elem) else m, piv, pc, i + 1)
  {
    EliminateStep(m, piv, pc, i, elem);
  }

  /** After the last row the pivot column is zero below the pivot row too. */
  lemma EliminatingDone(m: Mat, piv: seq<nat>, pc: nat)
    requires Wf(m) && Eliminating(m, piv, pc, m.rows)
    ensures Pivoted(m, piv) && ZeroBelow(m, |piv|, pc + 1)
  {
  }

  // ---------------------------------------------------------------------
  // Row operations on [A | I] keep "right half * A == left half"

  /** Row i of m as a vector. */
  function Row(m: Mat, i: nat): (v: seq<real>)
    requires Wf(m) && i < m.rows
    ensures |v| == m.cols && forall c: nat :: c < m.cols ==> v[c] == At(m, i, c)
  {
    seq(m.cols, c requires 0 <= c < m.cols => At(m, i, c))
  }

  /** Column j of m as a vector. */
  function Col(m: Mat, j: nat): (w: seq<real>)
    requires Wf(m) && j < m.cols
    ensures |w| == m.rows && forall t: nat :: t < m.rows ==> w[t] == At(m, t, j)
  {
    seq(m.rows, t requires 0 <= t < m.rows => At(m, t, j))
  }

  /** v with every entry multiplied by s. */
  function VecScale(v: seq<real>, s: real): (r: seq<real>)
    ensures |r| == |v| && forall c: nat :: c < |v| ==> r[c] == v[c] * s
  {
    seq(|v|, c requires 0 <= c < |v| => v[c] * s)
  }

  /** v plus s times q. */
  function VecAdd(v: seq<real>, s: real, q: seq<real>): (r: seq<real>)
    requires |q| == |v|
    ensures |r| == |v| && forall c: nat :: c < |v| ==> r[c] == v[c] + s * q[c]
  {
    seq(|v|, c requires 0 <= c < |v| => v[c] + s * q[c])
  }

  /** Sum over t < k of v[off + t] * w[t]. */
  function SumTimes(v: seq<real>, w: seq<real>, off: nat, k: nat): real
    requires off + k <= |v| && k <= |w|
  {
    if k == 0 then 0.0 else SumTimes(v, w, off, k - 1) + v[off + k - 1] * w[k - 1]
  }

  /** For square A of size n: the row v has width 2n and its right half
      times A is its left half. */
  ghost predicate VecRelated(v: seq<real>, a: Mat)
    requires Wf(a)
  {
    a.rows == a.cols && |v| == a.rows + a.rows &&
    forall j: nat :: j < a.cols ==> SumTimes(v, Col(a, j), a.rows, a.rows) == v[j]
  }

  /** For square A: M has twice A's width and its right half times A is its left half. */
  ghost predicate RightTimesIsLeft(m: Mat, a: Mat)
    requires Wf(m) && Wf(a)
  {
    a.rows == a.cols && m.cols == a.rows + a.rows &&
    forall i: nat :: i < m.rows ==> VecRelated(Row(m, i), a)
  }

  /** One step of the scaled sum, over plain reals. */
  lemma ScaleStep(alpha: real, prev: real, x': real, z: real, r: real, x: real)
    requires prev == alpha * r && x' == x * alpha
    ensures prev + x' * z == alpha * (r + x * z)
  {
  }

  /** One step of the added sum, over plain reals. */
  lemma AddStep(beta: real, prev: real, x': real, z: real, r: real, x: real, q: real, y: real)
    requires prev == r + beta * q && x' == x + beta * y
    ensures prev + x' * z == (r + x * z) + beta * (q + y * z)
  {
  }

  /** Scaling the vector scales the sum. */
  lemma {:induction false} SumTimesScaled(v: seq<real>, w: seq<real>, off: nat, alpha: real, k: nat)
    requires off + k <= |v| && k <= |w|
    ensures SumTimes(VecScale(v, alpha), w, off, k) == alpha * SumTimes(v, w, off, k)
  {
    if k > 0 {
      var v' := VecScale(v, alpha);
      SumTimesScaled(v, w, off, alpha, k - 1);
      ScaleStep(alpha, SumTimes(v', w, off, k - 1), v'[off + k - 1], w[k - 1],
                SumTimes(v, w, off, k - 1), v[off + k - 1]);
    }
  }

  /** Adding beta times another vector adds beta times its sum. */
  lemma {:induction false} SumTimesAdded(v: seq<real>, q: seq<real>, w: seq<real>, off: nat, beta: real, k: nat)
    requires |q| == |v| && off + k <= |v| && k <= |w|
    ensures SumTimes(VecAdd(v, beta, q), w, off, k) == SumTimes(v, w, off, k) + beta * SumTimes(q, w, off, k)
  {
    if k > 0 {
      var v' := VecAdd(v, beta, q);
      SumTimesAdded(v, q, w, off, beta, k - 1);
      AddStep(beta, SumTimes(v', w, off, k - 1), v'[off + k - 1], w[k - 1],
              SumTimes(v, w, off, k - 1), v[off + k - 1], SumTimes(q, w, off, k - 1), q[off + k - 1]);
    }
  }

  /** Equal parts give equal combinations, over plain reals. */
  lemma Combine(lhs: real, r: real, q: real, rhs: real, x: real, y: real, s: real)
    requires lhs == r + s * q && rhs == x + s * y && r == x && q == y
    ensures lhs == rhs
  {
  }

  /** Equal parts give equal multiples, over plain reals. */
  lemma CombineScaled(lhs: real, r: real, rhs: real, x: real, s: real)
    requires lhs == s * r && rhs == x * s && r == x
    ensures lhs == rhs
  {
  }

  /** Column j of a scaled related row keeps the relation. */
  lemma ScaledVecEntry(v: seq<real>, w: seq<real>, n: nat, s: real, j: nat)
    requires |v| == n + n && |w| == n && j < n && SumTimes(v, w, n, n) == v[j]
    ensures SumTimes(VecScale(v, s), w, n, n) == VecScale(v, s)[j]
  {
    SumTimesScaled(v, w, n, s, n);
    CombineScaled(SumTimes(VecScale(v, s), w, n, n), SumTimes(v, w, n, n), VecScale(v, s)[j], v[j], s);
  }

  /** A scaled related row is related. */
  lemma ScaledVecRelated(v: seq<real>, a: Mat, s: real)
    requires Wf(a) && VecRelated(v, a)
    ensures VecRelated(VecScale(v, s), a)
  {
    forall j: nat | j < a.cols
      ensures SumTimes(VecScale(v, s), Col(a, j), a.rows, a.rows) == VecScale(v, s)[j]
    {
      ScaledVecEntry(v, Col(a, j), a.rows, s, j);
    }
  }

  /** Column j of a related row plus a multiple of another keeps the relation. */
  lemma AddedVecEntry(v: seq<real>, q: seq<real>, w: seq<real>, n: nat, s: real, j: nat)
    requires |v| == n + n && |q| == n + n && |w| == n && j < n
    requires SumTimes(v, w, n, n) == v[j] && SumTimes(q, w, n, n) == q[j]
    ensures SumTimes(VecAdd(v, s, q), w, n, n) == VecAdd(v, s, q)[j]
  {
    SumTimesAdded(v, q, w, n, s, n);
    Combine(SumTimes(VecAdd(v, s, q), w, n, n), SumTimes(v, w, n, n), SumTimes(q, w, n, n),
            VecAdd(v, s, q)[j], v[j], q[j], s);
  }

  /** A related row plus a multiple of another related row is related. */
  lemma AddedVecRelated(v: seq<real>, q: seq<real>, a: Mat, s: real)
    requires Wf(a) && VecRelated(v, a) && VecRelated(q, a)
    ensures VecRelated(VecAdd(v, s, q), a)
  {
    forall j: nat | j < a.cols
      ensures SumTimes(VecAdd(v, s, q), Col(a, j), a.rows, a.rows) == VecAdd(v, s, q)[j]
    {
      AddedVecEntry(v, q, Col(a, j), a.rows, s, j);
    }
  }

  /** The rows of a row swap. */
  lemma SwapRowsRows(m: Mat, r1: nat, r2: nat, i: nat)
    requires Wf(m) && r1 < m.rows && r2 < m.rows && i < m.rows
    ensures Row(SwapRows(m, r1, r2), i) == Row(m, if i == r1 then r2 else if i == r2 then r1 else i)
  {
  }

  /** Entry c of a scaled row, over plain reals. */
  lemma ScaleEntry(v': real, a': real, x: real, s: real, vc: real, uc: real)
    requires v' == a' && a' == x * s && vc == x && uc == vc * s
    ensures v' == uc
  {
  }

  /** The scaled row of a row scaling. */
  lemma MultiplyRowTarget(m: Mat, r: nat, s: real)
    requires Wf(m) && r < m.rows
    ensures Row(MultiplyRow(m, r, s), r) == VecScale(Row(m, r), s)
  {
    var m' := MultiplyRow(m, r, s);
    var v, v' := Row(m, r), Row(m', r);
    var u := VecScale(v, s);
    forall c: nat | c < m.cols
      ensures v'[c] == u[c]
    {
      ScaleEntry(v'[c], At(m', r, c), At(m, r, c), s, v[c], u[c]);
    }
    assert |v'| == |u|;
  }

  /** The other rows of a row scaling. */
  lemma MultiplyRowOthers(m: Mat, r: nat, s: real, i: nat)
    requires Wf(m) && r < m.rows && i < m.rows && i != r
    ensures Row(MultiplyRow(m, r, s), i) == Row(m, i)
  {
    var m' := MultiplyRow(m, r, s);
    var v, v' := Row(m, i), Row(m', i);
    forall c: nat | c < m.cols
      ensures v'[c] == v[c]
    {
      assert v'[c] == At(m', i, c);
      assert At(m', i, c) == At(m, i, c);
    }
    assert |v'| == |v|;
  }

  lemma AddRowsTargetEntry(m: Mat, src: nat, dst: nat, s: real, c: nat)
    requires Wf(m) && src < m.rows && dst < m.rows && c < m.cols
    ensures Row(AddRows(m, src, dst, s), dst)[c] == At(m, dst, c) + s * At(m, src, c)
  {
  }

  lemma VecAddRowsEntry(m: Mat, src: nat, dst: nat, s: real, c: nat)
    requires Wf(m) && src < m.rows && dst < m.rows && c < m.cols
    ensures VecAdd(Row(m, dst), s, Row(m, src))[c] == At(m, dst, c) + s * At(m, src, c)
  {
  }

  /** The target row of a row addition. */
  lemma AddRowsTarget(m: Mat, src: nat, dst: nat, s: real)
    requires Wf(m) && src < m.rows && dst < m.rows
    ensures Row(AddRows(m, src, dst, s), dst) == VecAdd(Row(m, dst), s, Row(m, src))
  {
    var v', u := Row(AddRows(m, src, dst, s), dst), VecAdd(Row(m, dst), s, Row(m, src));
    forall c: nat | c < m.cols
      ensures v'[c] == u[c]
    {
      AddRowsTargetEntry(m, src, dst, s, c);
      VecAddRowsEntry(m, src, dst, s, c);
    }
    assert |v'| == |u|;
  }

  /** The other rows of a row addition. */
  lemma AddRowsOthers(m: Mat, src: nat, dst: nat, s: real, i: nat)
    requires Wf(m) && src < m.rows && dst < m.rows && i < m.rows && i != dst
    ensures Row(AddRows(m, src, dst, s), i) == Row(m, i)
  {
    var m' := AddRows(m, src, dst, s);
    var v, v' := Row(m, i), Row(m', i);
    forall c: nat | c < m.cols
      ensures v'[c] == v[c]
    {
      assert v'[c] == At(m', i, c);
      assert At(m', i, c) == At(m, i, c);
    }
    assert |v'| == |v|;
  }

  lemma SwapKeepsRelation(m: Mat, a: Mat, r1: nat, r2: nat)
    requires Wf(m) && Wf(a) && RightTimesIsLeft(m, a) && r1 < m.rows && r2 < m.rows
    ensures RightTimesIsLeft(SwapRows(m, r1, r2), a)
  {
    var m' := SwapRows(m, r1, r2);
    forall i': nat | i' < m'.rows
      ensures VecRelated(Row(m', i'), a)
    {
      var i := if i' == r1 then r2 else if i' == r2 then r1 else i';
      assert VecRelated(Row(m, i), a);
      SwapRowsRows(m, r1, r2, i');
    }
  }

  lemma ScaleKeepsRelation(m: Mat, a: Mat, r: nat, s: real)
    requires Wf(m) && Wf(a) && RightTimesIsLeft(m, a) && r < m.rows
    ensures RightTimesIsLeft(MultiplyRow(m, r, s), a)
  {
    var m' := MultiplyRow(m, r, s);
    forall i': nat | i' < m'.rows
      ensures VecRelated(Row(m', i'), a)
    {
      assert VecRelated(Row(m, i'), a);
      if i' == r {
        MultiplyRowTarget(m, r, s);
        ScaledVecRelated(Row(m, r), a, s);
      } else {
        MultiplyRowOthers(m, r, s, i');
      }
    }
  }

  lemma AddKeepsRelation(m: Mat, a: Mat, src: nat, dst: nat, s: real)
    requires Wf(m) && Wf(a) && RightTimesIsLeft(m, a) && src < m.rows && dst < m.rows
    ensures RightTimesIsLeft(AddRows(m, src, dst, s), a)
  {
    var m' := AddRows(m, src, dst, s);
    forall i': nat | i' < m'.rows
      ensures VecRelated(Row(m', i'), a)
    {
      assert VecRelated(Row(m, i'), a);
      if i' == dst {
        assert VecRelated(Row(m, src), a);
        AddRowsTarget(m, src, dst, s);
        AddedVecRelated(Row(m, dst), Row(m, src), a, s);
      } else {
        AddRowsOthers(m, src, dst, s, i');
      }
    }
  }

  /** Every elementary row operation keeps the relation. */
  lemma OpKeepsRelation(m: Mat, a: Mat, op: RowOp)
    requires Wf(m) && Wf(a) && RightTimesIsLeft(m, a)
    ensures RightTimesIsLeft(ApplyOp(m, op), a)
  {
    match op
    case Swap(r1, r2) =>
      if r1 < m.rows && r2 < m.rows { SwapKeepsRelation(m, a, r1, r2); }
    case Scale(r, s) =>
      if r < m.rows { ScaleKeepsRelation(m, a, r, s); }
    case Add(src, dst, s) =>
      if src < m.rows && dst < m.rows { AddKeepsRelation(m, a, src, dst, s); }
  }

  lemma {:induction false} OpsKeepRelation(m: Mat, a: Mat, ops: seq<RowOp>)
    requires Wf(m) && Wf(a) && RightTimesIsLeft(m, a)
    ensures RightTimesIsLeft(ApplyOps(m, ops), a)
    decreases |ops|
  {
    if ops != [] {
      OpsKeepRelation(m, a, ops[..|ops| - 1]);
      OpKeepsRelation(ApplyOps(m, ops[..|ops| - 1]), a, ops[|ops| - 1]);
    }
  }

  /** Summing against a unit vector at position i picks out w[i]. */
  lemma {:induction false} SumTimesUnit(v: seq<real>, w: seq<real>, off: nat, i: nat, k: nat)
    requires off + k <= |v| && k <= |w|
    requires forall t: nat :: off <= t < off + k ==> v[t] == if t == off + i then 1.0 else 0.0
    ensures SumTimes(v, w, off, k) == if i < k then w[i] else 0.0
  {
    if k > 0 {
      SumTimesUnit(v, w, off, i, k - 1);
      assert v[off + k - 1] == if k - 1 == i then 1.0 else 0.0;
    }
  }

  /** [A | I] starts out related: I * A == A. */
  lemma AugmentedIdentityRelated(a: Mat)
    requires Wf(a) && a.rows == a.cols
    ensures RightTimesIsLeft(Augment(a, Identity(a.rows)), a)
  {
    var m := Augment(a, Identity(a.rows));
    forall i: nat | i < m.rows
      ensures VecRelated(Row(m, i), a)
    {
      var v := Row(m, i);
      forall t: nat | a.rows <= t < a.rows + a.rows
        ensures v[t] == if t == a.rows + i then 1.0 else 0.0
      {
        assert v[t] == At(Identity(a.rows), i, t - a.rows);
      }
      forall j: nat | j < a.cols
        ensures SumTimes(v, Col(a, j), a.rows, a.rows) == v[j]
      {
        SumTimesUnit(v, Col(a, j), a.rows, i, a.rows);
      }
    }
  }

  /** A dot product whose row entries and column entries match v and w. */
  lemma {:induction false} DotIsSumTimes(r: Mat, a: Mat, i: nat, j: nat, v: seq<real>, w: seq<real>, off: nat, k: nat)
    requires Wf(r) && Wf(a) && i < r.rows && j < a.cols && k <= r.cols && k <= a.rows
    requires off + k <= |v| && k <= |w|
    requires forall t: nat :: t < k ==> At(r, i, t) == v[off + t] && At(a, t, j) == w[t]
    ensures Dot(r, a, i, j, k) == SumTimes(v, w, off, k)
  {
    if k > 0 {
      DotIsSumTimes(r, a, i, j, v, w, off, k - 1);
      assert At(r, i, k - 1) == v[off + k - 1] && At(a, k - 1, j) == w[k - 1];
    }
  }

  /** When the relation holds, the right half times A is exactly the left half. */
  lemma RightHalfTimesA(m: Mat, a: Mat)
    requires Wf(m) && Wf(a) && RightTimesIsLeft(m, a)
    ensures Product(Columns(m, a.rows, a.rows), a) == Columns(m, 0, a.rows)
  {
    var r := Columns(m, a.rows, a.rows);
    var p := Product(r, a);
    var l := Columns(m, 0, a.rows);
    forall i: nat, j: nat | i < m.rows && j < a.cols
      ensures At(p, i, j) == At(l, i, j)
    {
      assert VecRelated(Row(m, i), a);
      DotIsSumTimes(r, a, i, j, Row(m, i), Col(a, j), a.rows, a.rows);
    }
    Ext(p, l);
  }

  /** Whatever row operations turn [A | I] into M, M's right half times A is
      M's left half; so when the left half is the identity, the right half is
      a left inverse of A. */
  lemma RowOpsOnAugmentedIdentity(a: Mat, ops: seq<RowOp>)
    requires Wf(a) && a.rows == a.cols
    ensures Product(Columns(ApplyOps(Augment(a, Identity(a.rows)), ops), a.rows, a.rows), a)
            == Columns(ApplyOps(Augment(a, Identity(a.rows)), ops), 0, a.rows)
  {
    AugmentedIdentityRelated(a);
    OpsKeepRelation(Augment(a, Identity(a.rows)), a, ops);
    RightHalfTimesA(ApplyOps(Augment(a, Identity(a.rows)), ops), a);
  }
}
