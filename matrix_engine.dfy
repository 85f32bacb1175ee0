/** The dense matrix engine `mat::matrix` (matrix.hpp): a class over a
    row-major buffer whose row operations and arithmetic update the buffer in
    place, and the free functions built on it (equality, negation, Gaussian
    and Gauss-Jordan elimination, transpose, inverse, augment, identity). */
module MatrixEngine {
  import opened MatrixValues
  import opened Echelon

  class Matrix {
    var rows: nat
    var cols: nat
    var size: nat
    /** `m_matrix`: element (i, j) at offset cols * i + j. */
    var buf: array<real>

    ghost predicate Valid()
      reads this
    {
      size == rows * cols && buf.Length == size
    }

    /** The matrix value the object currently holds. */
    ghost function Value(): (m: Mat)
      reads this, buf
      requires Valid()
      ensures Wf(m) && m.rows == rows && m.cols == cols
    {
      Mat(rows, cols, buf[..])
    }

    /** The default constructor: a 0 x 0 matrix. */
    constructor Default()
      ensures Valid() && Value() == Empty && fresh(buf)
    {
      rows, cols, size := 0, 0, 0;
      buf := new real[0];
      new;
      assert buf[..] == [];
    }

    /** The size constructor: the buffer is allocated and left uninitialised,
        so nothing is known of its elements. */
    constructor OfSize(rows: nat, cols: nat)
      ensures Valid() && this.rows == rows && this.cols == cols && fresh(buf)
    {
      this.rows, this.cols, size := rows, cols, rows * cols;
      buf := new real[rows * cols];
    }

    /** The size constructor with an initial value for every element. */
    constructor OfSizeFilled(rows: nat, cols: nat, init: real)
      ensures Valid() && Value() == Filled(rows, cols, init) && fresh(buf)
    {
      this.rows, this.cols, size := rows, cols, rows * cols;
      buf := new real[rows * cols];
      new;
      var p := 0;
      while p < size
        modifies buf
        invariant 0 <= p <= size
        invariant forall k :: 0 <= k < p ==> buf[k] == init
      {
        buf[p] := init;
        p := p + 1;
      }
      assert buf[..] == Filled(rows, cols, init).elems;
    }

    /** The copy constructor. */
    constructor CopyOf(m: Matrix)
      requires m.Valid()
      ensures Valid() && Value() == m.Value() && fresh(buf)
    {
      rows, cols, size := m.rows, m.cols, m.size;
      buf := new real[m.size];
      new;
      var p := 0;
      while p < size
        modifies buf
        invariant 0 <= p <= size
        invariant forall k :: 0 <= k < p ==> buf[k] == m.buf[k]
      {
        buf[p] := m.buf[p];
        p := p + 1;
      }
      assert buf[..] == m.buf[..];
    }

    /** `operator()` read: the element at offset cols * i + j. */
    function Elem(i: nat, j: nat): (e: real)
      reads this, buf
      requires Valid() && i < rows && j < cols
      ensures e == At(Value(), i, j)
    {
      OffsetInRange(rows, cols, i, j);
      buf[cols * i + j]
    }

    /** `operator()` write: element (i, j) becomes v, every other element is kept. */
    method Set(i: nat, j: nat, v: real)
      requires Valid() && i < rows && j < cols
      modifies buf
      ensures Valid()
      ensures Value() == Update(old(Value()), i, j, v)
    {
      OffsetInRange(rows, cols, i, j);
      buf[cols * i + j] := v;
    }

    /** `swapRows`: a no-op when either index is out of range, otherwise the
        two rows trade places column by column. */
    method SwapRows(r1: nat, r2: nat)
      requires Valid()
      modifies buf
      ensures Valid()
      ensures Value() == MatrixValues.SwapRows(old(Value()), r1, r2)
    {
      if r1 >= rows || r2 >= rows {
        return;
      }
      ghost var o := Value();
      ghost var s := MatrixValues.SwapRows(o, r1, r2);
      var j := 0;
      while j < cols
        modifies buf
        invariant 0 <= j <= cols && Valid()
        invariant forall i: nat, c: nat :: i < rows && c < cols ==>
                    At(Value(), i, c) == if c < j then At(s, i, c) else At(o, i, c)
      {
        var x, y := Elem(r1, j), Elem(r2, j);
        Set(r1, j, y);
        Set(r2, j, x);
        j := j + 1;
      }
      Ext(Value(), s);
    }

    /** `addRows`: a no-op when either index is out of range, otherwise row r2
        becomes r2 + scalar * r1; an entry whose sum is zero is written as 0. */
    method AddRows(r1: nat, r2: nat, scalar: real)
      requires Valid()
      modifies buf
      ensures Valid()
      ensures Value() == MatrixValues.AddRows(old(Value()), r1, r2, scalar)
    {
      if r1 >= rows || r2 >= rows {
        return;
      }
      ghost var o := Value();
      ghost var s := MatrixValues.AddRows(o, r1, r2, scalar);
      var j := 0;
      while j < cols
        modifies buf
        invariant 0 <= j <= cols && Valid()
        invariant SweptTo(Value(), s, o, j)
      {
        var a, b := Elem(r2, j), Elem(r1, j);
        AddRowsStep(Value(), o, r1, r2, scalar, j, a, b);
        if a == -scalar * b {
          Set(r2, j, 0.0);
        } else {
          Set(r2, j, a + scalar * b);
        }
        j := j + 1;
      }
      Ext(Value(), s);
    }

    /** `multiplyRow`: nonzero entries of row r are multiplied by scalar. There
        is no range check, so r must be a row whenever there are columns. */
    method MultiplyRow(r: nat, scalar: real)
      requires Valid() && (r < rows || cols == 0)
      modifies buf
      ensures Valid()
      ensures Value() == MatrixValues.MultiplyRow(old(Value()), r, scalar)
    {
      ghost var o := Value();
      ghost var s := MatrixValues.MultiplyRow(o, r, scalar);
      var j := 0;
      while j < cols
        modifies buf
        invariant 0 <= j <= cols && Valid()
        invariant SweptTo(Value(), s, o, j)
      {
        var x := Elem(r, j);
        MultiplyRowStep(Value(), o, r, scalar, j, x);
        if x != 0.0 {
          Set(r, j, x * scalar);
        }
        j := j + 1;
      }
      Ext(Value(), s);
    }

    /** `operator+=`: elementwise sum when the shapes agree, otherwise no change. */
    method AddAssign(other: Matrix)
      requires Valid() && other.Valid() && (other.buf == buf ==> other == this)
      modifies buf
      ensures Valid()
      ensures Value() == Plus(old(Value()), old(other.Value()))
    {
      if rows == other.rows && cols == other.cols {
        ghost var o, b := Value(), other.Value();
        var i := 0;
        while i < other.rows
          modifies buf
          invariant 0 <= i <= rows && Valid()
          invariant other != this ==> other.buf[..] == b.elems
          invariant forall q :: 0 <= q < size ==>
                      buf[q] == if q < cols * i then o.elems[q] + b.elems[q] else o.elems[q]
        {
          AddAssignRow(other, i, o, b);
          i := i + 1;
        }
        assert buf[..] == Plus(o, b).elems by {
          assert cols * i == size;
          PlusMinusFlat(o, b);
        }
      }
    }

    /** The inner loop of `operator+=` over the columns of row i. */
    method AddAssignRow(other: Matrix, i: nat, ghost o: Mat, ghost b: Mat)
      requires Valid() && other.Valid() && (other.buf == buf ==> other == this)
      requires other.rows == rows && other.cols == cols
      requires Wf(o) && Wf(b) && o.rows == b.rows == rows && o.cols == b.cols == cols && i < rows
      requires other == this ==> o == b
      requires other != this ==> other.buf[..] == b.elems
      requires forall q :: 0 <= q < size ==>
                 buf[q] == if q < cols * i then o.elems[q] + b.elems[q] else o.elems[q]
      modifies buf
      ensures Valid()
      ensures other != this ==> other.buf[..] == b.elems
      ensures forall q :: 0 <= q < size ==>
                buf[q] == if q < cols * (i + 1) then o.elems[q] + b.elems[q] else o.elems[q]
    {
      var j := 0;
      while j < other.cols
        modifies buf
        invariant 0 <= j <= cols && Valid()
        invariant other != this ==> other.buf[..] == b.elems
        invariant forall q :: 0 <= q < size ==>
                    buf[q] == if q < cols * i + j then o.elems[q] + b.elems[q] else o.elems[q]
      {
        OffsetInRange(rows, cols, i, j);
        var p := cols * i + j;
        assert other.buf[p] == b.elems[p];
        buf[p] := buf[p] + other.buf[p];
        j := j + 1;
      }
      assert cols * i + cols == cols * (i + 1);
    }

    /** `operator-=`: elementwise difference when the shapes agree, otherwise no change. */
    method SubAssign(other: Matrix)
      requires Valid() && other.Valid() && (other.buf == buf ==> other == this)
      modifies buf
      ensures Valid()
      ensures Value() == Minus(old(Value()), old(other.Value()))
    {
      if rows == other.rows && cols == other.cols {
        ghost var o, b := Value(), other.Value();
        var i := 0;
        while i < other.rows
          modifies buf
          invariant 0 <= i <= rows && Valid()
          invariant other != this ==> other.buf[..] == b.elems
          invariant forall q :: 0 <= q < size ==>
                      buf[q] == if q < cols * i then o.elems[q] - b.elems[q] else o.elems[q]
        {
          SubAssignRow(other, i, o, b);
          i := i + 1;
        }
        assert buf[..] == Minus(o, b).elems by {
          assert cols * i == size;
          PlusMinusFlat(o, b);
        }
      }
    }

    /** The inner loop of `operator-=` over the columns of row i. */
    method SubAssignRow(other: Matrix, i: nat, ghost o: Mat, ghost b: Mat)
      requires Valid() && other.Valid() && (other.buf == buf ==> other == this)
      requires other.rows == rows && other.cols == cols
      requires Wf(o) && Wf(b) && o.rows == b.rows == rows && o.cols == b.cols == cols && i < rows
      requires other == this ==> o == b
      requires other != this ==> other.buf[..] == b.elems
      requires forall q :: 0 <= q < size ==>
                 buf[q] == if q < cols * i then o.elems[q] - b.elems[q] else o.elems[q]
      modifies buf
      ensures Valid()
      ensures other != this ==> other.buf[..] == b.elems
      ensures forall q :: 0 <= q < size ==>
                buf[q] == if q < cols * (i + 1) then o.elems[q] - b.elems[q] else o.elems[q]
    {
      var j := 0;
      while j < other.cols
        modifies buf
        invariant 0 <= j <= cols && Valid()
        invariant other != this ==> other.buf[..] == b.elems
        invariant forall q :: 0 <= q < size ==>
                    buf[q] == if q < cols * i + j then o.elems[q] - b.elems[q] else o.elems[q]
      {
        OffsetInRange(rows, cols, i, j);
        var p := cols * i + j;
        assert other.buf[p] == b.elems[p];
        buf[p] := buf[p] - other.buf[p];
        j := j + 1;
      }
      assert cols * i + cols == cols * (i + 1);
    }

    /** Matrix `operator*=`: when cols == other.rows the matrix becomes the
        rows x other.cols product, accumulated in a zero-filled result;
        otherwise it is left unchanged. */
    method MulAssign(other: Matrix)
      requires Valid() && other.Valid()
      modifies this
      ensures Valid() && (buf == old(buf) || fresh(buf))
      ensures Value() == Product(old(Value()), old(other.Value()))
    {
      if cols == other.rows {
        var result := new Matrix.OfSizeFilled(rows, other.cols, 0.0);
        ProductStart(Value(), other.Value());
        var i := 0;
        while i < result.rows
          modifies result.buf
          invariant 0 <= i <= result.rows && result.Valid()
          invariant ProductSoFar(result.Value(), Value(), other.Value(), i, 0, 0)
        {
          ProductRow(other, result, i);
          i := i + 1;
        }
        ProductDone(result.Value(), Value(), other.Value());
        rows, cols, size, buf := result.rows, result.cols, result.size, result.buf;
      }
    }

    /** The j loop of matrix `operator*=` for row i of the result. */
    method ProductRow(other: Matrix, result: Matrix, i: nat)
      requires Valid() && other.Valid() && result.Valid() && cols == other.rows
      requires result.rows == rows && result.cols == other.cols && i < rows
      requires result.buf != buf && result.buf != other.buf
      requires ProductSoFar(result.Value(), Value(), other.Value(), i, 0, 0)
      modifies result.buf
      ensures result.Valid()
      ensures ProductSoFar(result.Value(), Value(), other.Value(), i + 1, 0, 0)
    {
      var j := 0;
      while j < result.cols
        modifies result.buf
        invariant 0 <= j <= result.cols && result.Valid()
        invariant ProductSoFar(result.Value(), Value(), other.Value(), i, j, 0)
      {
        ProductEntry(other, result, i, j);
        ProductNextEntry(result.Value(), Value(), other.Value(), i, j);
        j := j + 1;
      }
      ProductNextRow(result.Value(), Value(), other.Value(), i);
    }

    /** The k loop of matrix `operator*=`: result(i, j) += this(i, k) * other(k, j). */
    method ProductEntry(other: Matrix, result: Matrix, i: nat, j: nat)
      requires Valid() && other.Valid() && result.Valid() && cols == other.rows
      requires result.rows == rows && result.cols == other.cols && i < rows && j < other.cols
      requires result.buf != buf && result.buf != other.buf
      requires ProductSoFar(result.Value(), Value(), other.Value(), i, j, 0)
      modifies result.buf
      ensures result.Valid()
      ensures ProductSoFar(result.Value(), Value(), other.Value(), i, j, cols)
    {
      var k := 0;
      while k < cols
        modifies result.buf
        invariant 0 <= k <= cols && result.Valid()
        invariant ProductSoFar(result.Value(), Value(), other.Value(), i, j, k)
      {
        var x := result.Elem(i, j) + Elem(i, k) * other.Elem(k, j);
        ProductStep(result.Value(), Value(), other.Value(), i, j, k, x);
        result.Set(i, j, x);
        k := k + 1;
      }
    }

    /** Scalar `operator*=`: every nonzero element is multiplied by k (a zero
        stays zero). */
    method ScaleAssign(k: real)
      requires Valid()
      modifies buf
      ensures Valid()
      ensures Value() == ScaleAll(old(Value()), k)
    {
      ghost var o := Value();
      var p := 0;
      while p < size
        modifies buf
        invariant 0 <= p <= size && Valid()
        invariant forall q :: 0 <= q < size ==> buf[q] == if q < p then o.elems[q] * k else o.elems[q]
      {
        if buf[p] != 0.0 {
          buf[p] := buf[p] * k;
        }
        p := p + 1;
      }
      assert buf[..] == ScaleAll(o, k).elems by {
        forall q | 0 <= q < size
          ensures buf[q] == ScaleAll(o, k).elems[q]
        {
        }
      }
    }

    /** `isZeroMatrix`: every element of the buffer is 0. */
    method IsZeroMatrix() returns (b: bool)
      requires Valid()
      ensures b <==> Value() == Filled(rows, cols, 0.0)
    {
      var p := 0;
      while p < size
        invariant 0 <= p <= size
        invariant forall q :: 0 <= q < p ==> buf[q] == 0.0
      {
        if buf[p] != 0.0 {
          assert Value().elems[p] != Filled(rows, cols, 0.0).elems[p];
          return false;
        }
        p := p + 1;
      }
      assert buf[..] == Filled(rows, cols, 0.0).elems;
      return true;
    }

    /** `isRowEchelonForm`: in every row the first nonzero entry must be a 1
        strictly right of the previous row's leading 1 (`prevCol`, which starts
        at 0); an all-zero row is passed over. */
    method IsRowEchelonForm() returns (b: bool)
      requires Valid()
      ensures b == AcceptedEchelon(Value())
    {
      ghost var m := Value();
      var prevCol := 0;
      ghost var last: int := -1;
      var i := 0;
      while i < rows
        invariant 0 <= i <= rows
        invariant AcceptedRows(m, i) && PrevColAfter(m, i, last, prevCol)
      {
        var j := 0;
        ghost var hit := false;
        while j < cols
          invariant 0 <= j <= cols
          invariant forall c: nat :: c < j ==> At(m, i, c) == 0.0
        {
          var elem := Elem(i, j);
          if elem == 1.0 && j > prevCol {
            LeadIs(m, i, j);
            ScanAccepts(m, i, last, prevCol);
            prevCol := j;
            last := i;
            hit := true;
            break;
          } else if elem != 0.0 {
            LeadIs(m, i, j);
            ScanRejects(m, i, last, prevCol);
            return false;
          }
          j := j + 1;
        }
        if !hit {
          LeadIs(m, i, cols);
          ScanSkips(m, i, last, prevCol);
        }
        i := i + 1;
      }
      AcceptedAllRows(m);
      return true;
    }

    /** The pivot search of `rowEchelon`: column by column from the left, the
        first row at or below top with a nonzero entry. */
    method FindPivot(top: nat) returns (found: bool, row: nat, col: nat)
      requires Valid() && top <= rows
      ensures found ==> top <= row < rows && col < cols && At(Value(), row, col) != 0.0
      ensures found ==> ZeroBelow(Value(), top, col) &&
                        forall i: nat :: top <= i < row ==> At(Value(), i, col) == 0.0
      ensures !found ==> ZeroBelow(Value(), top, cols)
    {
      var j := 0;
      while j < cols
        invariant 0 <= j <= cols && ZeroBelow(Value(), top, j)
      {
        var i := top;
        while i < rows
          invariant top <= i <= rows
          invariant forall r: nat :: top <= r < i ==> At(Value(), r, j) == 0.0
        {
          if Elem(i, j) != 0.0 {
            return true, i, j;
          }
          i := i + 1;
        }
        j := j + 1;
      }
      return false, top, 0;
    }

    /** The row swap of `rowEchelon`: the pivot row pr is brought up to row t. */
    method SwapUp(pr: nat, t: nat, pc: nat, ghost piv: seq<nat>, ghost o: Mat, ghost ops: seq<RowOp>)
      returns (ghost ops': seq<RowOp>)
      requires Valid() && Wf(o) && Value() == ApplyOps(o, ops)
      requires Pivoted(Value(), piv) && |piv| == t <= pr < rows && pc < cols
      requires ZeroBelow(Value(), t, pc) && At(Value(), pr, pc) != 0.0
      requires AllElementary(ops)
      modifies buf
      ensures Valid() && Value() == ApplyOps(o, ops') && AllElementary(ops')
      ensures Pivoted(Value(), piv) && ZeroBelow(Value(), t, pc) && At(Value(), t, pc) != 0.0
    {
      SwapPivot(Value(), piv, pr, pc);
      ApplyOpsSnoc(o, ops, Swap(pr, t));
      SwapRows(pr, t);
      ops' := ops + [Swap(pr, t)];
    }

    /** The scaling of `rowEchelon`: a pivot other than 1 is divided out of
        its row, making row t the next pivot row. */
    method Normalize(t: nat, pc: nat, ghost piv: seq<nat>, ghost o: Mat, ghost ops: seq<RowOp>)
      returns (ghost ops': seq<RowOp>)
      requires Valid() && Wf(o) && Value() == ApplyOps(o, ops)
      requires Pivoted(Value(), piv) && |piv| == t < rows && Bound(piv) <= pc < cols
      requires ZeroBelow(Value(), t, pc) && At(Value(), t, pc) != 0.0
      requires AllElementary(ops)
      modifies buf
      ensures Valid() && Value() == ApplyOps(o, ops') && AllElementary(ops')
      ensures Pivoted(Value(), piv + [pc]) && ZeroBelow(Value(), t + 1, pc)
      ensures At(old(Value()), t, pc) == 1.0 ==> ops' == ops
    {
      var lead := Elem(t, pc);
      if lead != 1.0 {
        var s := 1.0 / lead;
        InverseTimes(lead, s);
        InverseNonzero(lead);
        ScalePivot(Value(), piv, pc, lead, s);
        ApplyOpsSnoc(o, ops, Scale(t, s));
        MultiplyRow(t, s);
        ops' := ops + [Scale(t, s)];
      } else {
        PivotIsOne(Value(), piv, pc);
        ops' := ops;
      }
    }

    /** One pass of the elimination loop of `rowEchelon`: row i gets
        `addRows(t, i, -elem)` when its entry elem in the pivot column is nonzero. */
    method EliminateRow(t: nat, pc: nat, i: nat, ghost piv: seq<nat>) returns (elem: real)
      requires Valid() && Eliminating(Value(), piv, pc, i) && |piv| == t + 1 && i < rows
      modifies buf
      ensures Valid() && Eliminating(Value(), piv, pc, i + 1)
      ensures elem == At(old(Value()), i, pc)
      ensures Value() == if elem != 0.0 then MatrixValues.AddRows(old(Value()), t, i, -elem) else old(Value())
    {
      elem := Elem(i, pc);
      EliminatingStep(Value(), piv, pc, i, elem);
      if elem != 0.0 {
        AddRows(t, i, -elem);
      }
    }

    /** EliminateRow, recording the operation it performs. */
    method EliminateRowLogged(t: nat, pc: nat, i: nat, ghost piv: seq<nat>, ghost o: Mat, ghost ops: seq<RowOp>)
      returns (ghost ops': seq<RowOp>)
      requires Valid() && Wf(o) && Value() == ApplyOps(o, ops)
      requires Eliminating(Value(), piv, pc, i) && |piv| == t + 1 && i < rows
      requires AllElementary(ops)
      modifies buf
      ensures Valid() && Value() == ApplyOps(o, ops') && AllElementary(ops')
      ensures Eliminating(Value(), piv, pc, i + 1)
      ensures At(old(Value()), i, pc) == 0.0 ==> ops' == ops
    {
      var elem := EliminateRow(t, pc, i, piv);
      ops' := ops;
      if elem != 0.0 {
        ApplyOpsSnoc(o, ops, Add(t, i, -elem));
        ops' := ops + [Add(t, i, -elem)];
      }
    }

    /** The elimination loop of `rowEchelon`: every row below pivot row t
        is cleared in the pivot column pc. */
    method EliminateBelow(t: nat, pc: nat, ghost piv: seq<nat>, ghost o: Mat, ghost ops: seq<RowOp>)
      returns (ghost ops': seq<RowOp>)
      requires Valid() && Wf(o) && Value() == ApplyOps(o, ops)
      requires Eliminating(Value(), piv, pc, t + 1) && |piv| == t + 1
      requires AllElementary(ops)
      modifies buf
      ensures Valid() && Value() == ApplyOps(o, ops') && AllElementary(ops')
      ensures Eliminating(Value(), piv, pc, rows)
      ensures (forall r: nat :: t < r < rows ==> At(old(Value()), r, pc) == 0.0) ==> ops' == ops
    {
      ghost var v0 := Value();
      ops' := ops;
      var i := t + 1;
      while i < rows
        modifies buf
        invariant t + 1 <= i <= rows && Valid()
        invariant Eliminating(Value(), piv, pc, i)
        invariant Value() == ApplyOps(o, ops') && AllElementary(ops')
        invariant (forall r: nat :: t < r < rows ==> At(v0, r, pc) == 0.0) ==> ops' == ops
      {
        ops' := EliminateRowLogged(t, pc, i, piv, o, ops');
        i := i + 1;
      }
    }

    /** One pass of `rowEchelon`'s outer loop for pivot row t: find the
        pivot, swap it up, scale it to 1 and clear the column below it; with
        no pivot left the matrix is already in row echelon form. */
    method PivotStep(t: nat, ghost piv: seq<nat>, ghost o: Mat, ghost ops: seq<RowOp>)
      returns (found: bool, ghost piv': seq<nat>, ghost ops': seq<RowOp>)
      requires Valid() && Wf(o) && Value() == ApplyOps(o, ops)
      requires t < rows && Echeloning(Value(), piv, t) && AllElementary(ops)
      modifies buf
      ensures Valid() && Value() == ApplyOps(o, ops') && AllElementary(ops')
      ensures found ==> Echeloning(Value(), piv', t + 1)
      ensures !found ==> EchelonForm(Value())
      ensures EchelonForm(old(Value())) ==> ops' == ops
    {
      var pr, pc;
      found, pr, pc := FindPivot(t);
      if !found {
        PivotedEchelon(Value(), piv);
        return false, piv, ops;
      }
      NonzeroPastBound(Value(), piv, pr, pc);
      if EchelonForm(Value()) {
        EchelonPivotIsTop(Value(), t, pr, pc);
      }
      ops' := ops;
      if pr != t {
        ops' := SwapUp(pr, t, pc, piv, o, ops');
      }
      ops' := Normalize(t, pc, piv, o, ops');
      piv' := piv + [pc];
      ops' := EliminateBelow(t, pc, piv', o, ops');
      EliminatingDone(Value(), piv', pc);
    }

    /** The elimination loop of `rowEchelon`: one PivotStep per top row
        until no pivot is left. The steps are elementary row operations, and
        on a matrix already in row echelon form there are none. */
    method Eliminate() returns (ghost ops: seq<RowOp>)
      requires Valid()
      modifies buf
      ensures Valid() && Value() == ApplyOps(old(Value()), ops) && AllElementary(ops)
      ensures EchelonForm(Value())
      ensures EchelonForm(old(Value())) ==> ops == []
    {
      ghost var o := Value();
      ghost var piv: seq<nat> := [];
      ops := [];
      var t := 0;
      while t < rows
        modifies buf
        invariant 0 <= t <= rows && Valid()
        invariant Echeloning(Value(), piv, t)
        invariant Value() == ApplyOps(o, ops) && AllElementary(ops)
        invariant EchelonForm(o) ==> ops == []
      {
        var found;
        found, piv, ops := PivotStep(t, piv, o, ops);
        if !found {
          return;
        }
        t := t + 1;
      }
      PivotedEchelon(Value(), piv);
    }

    /** The leading-one search of `reducedRowEchelon`: the first nonzero
        column of row b, if any. */
    method LeadingColumn(b: nat) returns (allZeros: bool, lead: nat)
      requires Valid() && b < rows
      ensures allZeros <==> Lead(Value(), b) == cols
      ensures !allZeros ==> lead == Lead(Value(), b)
    {
      var j := 0;
      while j < cols
        invariant 0 <= j <= cols
        invariant forall c: nat :: c < j ==> At(Value(), b, c) == 0.0
      {
        if Elem(b, j) != 0.0 {
          LeadIs(Value(), b, j);
          return false, j;
        }
        j := j + 1;
      }
      LeadIs(Value(), b, cols);
      return true, 0;
    }

    /** One pass of the clearing loop of `reducedRowEchelon`:
        `addRows(b, i, -A(i, lead))`. */
    method ClearRow(b: nat, lead: nat, i: nat, ghost o: Mat) returns (x: real)
      requires Valid() && Wf(o) && ClearingAbove(Value(), o, b, lead, i) && b < rows && Lead(o, b) == lead && i < b
      modifies buf
      ensures Valid() && ClearingAbove(Value(), o, b, lead, i + 1)
      ensures Value() == MatrixValues.AddRows(old(Value()), b, i, -x)
    {
      x := Elem(i, lead);
      ClearingStep(Value(), o, b, lead, i, x);
      AddRows(b, i, -x);
    }

    /** ClearRow, recording the operation it performs. */
    method ClearRowLogged(b: nat, lead: nat, i: nat, ghost o: Mat, ghost a: Mat, ghost ops: seq<RowOp>)
      returns (ghost ops': seq<RowOp>)
      requires Valid() && Wf(a) && Value() == ApplyOps(a, ops)
      requires Wf(o) && ClearingAbove(Value(), o, b, lead, i) && b < rows && Lead(o, b) == lead && i < b
      requires AllElementary(ops)
      modifies buf
      ensures Valid() && Value() == ApplyOps(a, ops') && AllElementary(ops')
      ensures ClearingAbove(Value(), o, b, lead, i + 1)
    {
      var x := ClearRow(b, lead, i, o);
      ApplyOpsSnoc(a, ops, Add(b, i, -x));
      ops' := ops + [Add(b, i, -x)];
    }

    /** The clearing loop of `reducedRowEchelon`: `addRows(b, i, -A(i, lead))`
        for every row i above b, which zeroes column lead above row b and
        keeps every leading column. */
    method ClearAbove(b: nat, lead: nat, ghost a: Mat, ghost ops: seq<RowOp>) returns (ghost ops': seq<RowOp>)
      requires Valid() && Wf(a) && Value() == ApplyOps(a, ops)
      requires LeadsOrdered(Value()) && b < rows && Lead(Value(), b) == lead < cols && ClearedFrom(Value(), b)
      requires AllElementary(ops)
      modifies buf
      ensures Valid() && Value() == ApplyOps(a, ops') && AllElementary(ops')
      ensures ClearingAbove(Value(), old(Value()), b, lead, b)
    {
      ghost var o := Value();
      ops' := ops;
      var i := 0;
      while i < b
        modifies buf
        invariant 0 <= i <= b && Valid()
        invariant ClearingAbove(Value(), o, b, lead, i)
        invariant Value() == ApplyOps(a, ops') && AllElementary(ops')
      {
        ops' := ClearRowLogged(b, lead, i, o, a, ops');
        i := i + 1;
      }
    }

    /** One pass of `reducedRowEchelon`'s loop for row b: when the row is
        nonzero, its leading column is cleared in every row above it. */
    method ReduceRow(b: nat, ghost r0: Mat, ghost a: Mat, ghost ops: seq<RowOp>) returns (ghost ops': seq<RowOp>)
      requires Valid() && Wf(r0) && Wf(a) && Value() == ApplyOps(a, ops)
      requires 0 < b && Reducing(Value(), r0, b) && AllElementary(ops)
      modifies buf
      ensures Valid() && Value() == ApplyOps(a, ops') && AllElementary(ops')
      ensures Reducing(Value(), r0, b - 1)
    {
      var allZeros, lead := LeadingColumn(b);
      if !allZeros {
        ghost var o := Value();
        ops' := ClearAbove(b, lead, a, ops);
        ReducingCleared(Value(), o, r0, b, lead);
      } else {
        ReducingZeroRow(Value(), r0, b);
        ops' := ops;
      }
    }
  }

  // ---------------------------------------------------------------------
  // Free functions

  /** `operator+`: a copy of A, then `+= B`. */
  method Sum(a: Matrix, b: Matrix) returns (r: Matrix)
    requires a.Valid() && b.Valid()
    ensures fresh(r) && fresh(r.buf) && r.Valid()
    ensures r.Value() == Plus(a.Value(), b.Value())
  {
    r := new Matrix.CopyOf(a);
    r.AddAssign(b);
  }

  /** `operator-` (binary): a copy of A, then `-= B`. */
  method Difference(a: Matrix, b: Matrix) returns (r: Matrix)
    requires a.Valid() && b.Valid()
    ensures fresh(r) && fresh(r.buf) && r.Valid()
    ensures r.Value() == Minus(a.Value(), b.Value())
  {
    r := new Matrix.CopyOf(a);
    r.SubAssign(b);
  }

  /** `operator*` on two matrices: a copy of A, then `*= B`. */
  method Times(a: Matrix, b: Matrix) returns (r: Matrix)
    requires a.Valid() && b.Valid()
    ensures fresh(r) && r.Valid()
    ensures r.Value() == Product(a.Value(), b.Value())
  {
    r := new Matrix.CopyOf(a);
    r.MulAssign(b);
  }

  /** `operator*` with a scalar on either side: a copy of M, then `*= k`. */
  method ScalarTimes(k: real, m: Matrix) returns (r: Matrix)
    requires m.Valid()
    ensures fresh(r) && fresh(r.buf) && r.Valid()
    ensures r.Value() == ScaleAll(m.Value(), k)
  {
    r := new Matrix.CopyOf(m);
    r.ScaleAssign(k);
  }

  /** Unary `operator-`: a copy of A, then `*= -1`. */
  method Negation(a: Matrix) returns (r: Matrix)
    requires a.Valid()
    ensures fresh(r) && fresh(r.buf) && r.Valid()
    ensures r.Value() == Negate(a.Value())
  {
    r := new Matrix.CopyOf(a);
    r.ScaleAssign(-1.0);
  }

  /** `operator==`: equal shapes and equal elements, compared row by row. */
  method Equal(a: Matrix, b: Matrix) returns (eq: bool)
    requires a.Valid() && b.Valid()
    ensures eq <==> a.Value() == b.Value()
  {
    if a.rows != b.rows || a.cols != b.cols {
      return false;
    }
    var i := 0;
    while i < a.rows
      invariant 0 <= i <= a.rows
      invariant forall r: nat, c: nat :: r < i && c < a.cols ==> At(a.Value(), r, c) == At(b.Value(), r, c)
    {
      var j := 0;
      while j < a.cols
        invariant 0 <= j <= a.cols
        invariant forall r: nat, c: nat :: r < i && c < a.cols ==> At(a.Value(), r, c) == At(b.Value(), r, c)
        invariant forall c: nat :: c < j ==> At(a.Value(), i, c) == At(b.Value(), i, c)
      {
        if a.Elem(i, j) != b.Elem(i, j) {
          return false;
        }
        j := j + 1;
      }
      i := i + 1;
    }
    Ext(a.Value(), b.Value());
    return true;
  }

  /** `rowEchelon` (Gaussian elimination) on a copy of A: an input the
      echelon test accepts comes back unchanged; otherwise each pass finds
      the leftmost nonzero entry at or below the top row, swaps it up,
      scales it to 1 and clears the column below it, until no pivot is left.
      The result is A transformed by a sequence of elementary row operations,
      and it is in row echelon form. */
  method RowEchelon(a: Matrix) returns (r: Matrix, ghost ops: seq<RowOp>)
    requires a.Valid()
    ensures fresh(r) && fresh(r.buf) && r.Valid()
    ensures r.Value() == ApplyOps(a.Value(), ops) && AllElementary(ops)
    ensures AcceptedEchelon(a.Value()) ==> r.Value() == a.Value()
    ensures !AcceptedEchelon(a.Value()) ==> EchelonForm(r.Value())
    ensures EchelonForm(a.Value()) ==> r.Value() == a.Value()
  {
    r := new Matrix.CopyOf(a);
    ops := [];
    var accepted := r.IsRowEchelonForm();
    if accepted {
      return;
    }
    ops := r.Eliminate();
  }

  /** rowEchelon without the fast path: the elimination alone, which brings
      every input, including one with a zero row above a nonzero row, into
      row echelon form. */
  method RowEchelonCorrected(a: Matrix) returns (r: Matrix, ghost ops: seq<RowOp>)
    requires a.Valid()
    ensures fresh(r) && fresh(r.buf) && r.Valid()
    ensures r.Value() == ApplyOps(a.Value(), ops) && AllElementary(ops)
    ensures EchelonForm(r.Value())
    ensures EchelonForm(a.Value()) ==> r.Value() == a.Value()
  {
    r := new Matrix.CopyOf(a);
    ops := r.Eliminate();
  }

  /** rowEchelon is idempotent: applied to its own result it changes
      nothing, whether the first pass took the fast path or eliminated. */
  method RowEchelonTwice(a: Matrix) returns (once: Matrix, twice: Matrix)
    requires a.Valid()
    ensures once.Valid() && twice.Valid()
    ensures twice.Value() == once.Value()
  {
    ghost var ops;
    once, ops := RowEchelon(a);
    twice, ops := RowEchelon(once);
  }

  /** `reducedRowEchelon` (Gauss-Jordan elimination): rowEchelon, then from
      the bottom row up to row 1 every nonzero row's leading column is cleared
      in all the rows above it. The leading columns of rowEchelon's result
      are kept, so the result is in reduced row echelon form whenever
      rowEchelon's was in row echelon form. The source computes rows - 1 in
      unsigned arithmetic, so a matrix with no rows and some columns is read
      out of bounds; it is excluded. */
  method ReducedRowEchelon(a: Matrix) returns (r: Matrix, ghost ops: seq<RowOp>)
    requires a.Valid() && (a.rows > 0 || a.cols == 0)
    ensures fresh(r) && fresh(r.buf) && r.Valid()
    ensures r.Value() == ApplyOps(a.Value(), ops) && AllElementary(ops)
    ensures LeadsOrdered(r.Value()) && PivotColumnsCleared(r.Value())
    ensures !AcceptedEchelon(a.Value()) ==> EchelonForm(r.Value())
    ensures AcceptedEchelon(a.Value()) ==> SameLeads(r.Value(), a.Value())
  {
    r, ops := RowEchelon(a);
    ghost var r0 := r.Value();
    if r.rows == 0 {
      return;
    }
    ClearedFromBottom(r0);
    var b := r.rows - 1;
    while b > 0
      modifies r.buf
      invariant 0 <= b < r.rows && r.Valid()
      invariant Reducing(r.Value(), r0, b)
      invariant r.Value() == ApplyOps(a.Value(), ops) && AllElementary(ops)
    {
      ops := r.ReduceRow(b, r0, a.Value(), ops);
      b := b - 1;
    }
    ClearedAll(r.Value());
    if !AcceptedEchelon(a.Value()) {
      SameLeadsEchelon(r.Value(), r0);
    }
  }

  /** `transpose`: a fresh cols x rows matrix with T(j, i) = A(i, j), filled
      row by row of A. */
  method Transposed(a: Matrix) returns (t: Matrix)
    requires a.Valid()
    ensures fresh(t) && fresh(t.buf) && t.Valid()
    ensures t.Value() == Transpose(a.Value())
  {
    ghost var target := Transpose(a.Value());
    t := new Matrix.OfSize(a.cols, a.rows);
    var i := 0;
    while i < a.rows
      modifies t.buf
      invariant 0 <= i <= a.rows && t.Valid()
      invariant AgreesUpToByColumns(t.Value(), target, i, 0)
    {
      var j := 0;
      while j < a.cols
        modifies t.buf
        invariant 0 <= j <= a.cols && t.Valid()
        invariant AgreesUpToByColumns(t.Value(), target, i, j)
      {
        AgreesByColumnsStep(t.Value(), target, i, j);
        t.Set(j, i, a.Elem(i, j));
        j := j + 1;
      }
      AgreesByColumnsNext(t.Value(), target, i);
      i := i + 1;
    }
    AgreesByColumnsAll(t.Value(), target);
  }

  /** `augment`: a row-count mismatch returns (a copy of) A; otherwise a
      fresh rows x (ca + cb) matrix holding A on the left and B on the
      right, filled row by row. */
  method Augmented(a: Matrix, b: Matrix) returns (r: Matrix)
    requires a.Valid() && b.Valid()
    ensures fresh(r) && fresh(r.buf) && r.Valid()
    ensures r.Value() == Augment(a.Value(), b.Value())
  {
    if a.rows != b.rows {
      r := new Matrix.CopyOf(a);
      return;
    }
    ghost var target := Augment(a.Value(), b.Value());
    r := new Matrix.OfSize(a.rows, a.cols + b.cols);
    var i := 0;
    while i < a.rows
      modifies r.buf
      invariant 0 <= i <= a.rows && r.Valid()
      invariant AgreesUpTo(r.Value(), target, i, 0)
    {
      var j := 0;
      while j < a.cols
        modifies r.buf
        invariant 0 <= j <= a.cols && r.Valid()
        invariant AgreesUpTo(r.Value(), target, i, j)
      {
        AgreesStep(r.Value(), target, i, j);
        r.Set(i, j, a.Elem(i, j));
        j := j + 1;
      }
      while j < r.cols
        modifies r.buf
        invariant a.cols <= j <= r.cols && r.Valid()
        invariant AgreesUpTo(r.Value(), target, i, j)
      {
        AgreesStep(r.Value(), target, i, j);
        r.Set(i, j, b.Elem(i, j - a.cols));
        j := j + 1;
      }
      AgreesRow(r.Value(), target, i);
      i := i + 1;
    }
    AgreesAll(r.Value(), target);
  }

  /** `identity`: a fresh n x n matrix with `A(i, j) = (i == j)`. */
  method MakeIdentity(n: nat) returns (r: Matrix)
    ensures fresh(r) && fresh(r.buf) && r.Valid()
    ensures r.Value() == Identity(n)
  {
    ghost var target := Identity(n);
    r := new Matrix.OfSize(n, n);
    var i := 0;
    while i < n
      modifies r.buf
      invariant 0 <= i <= n && r.Valid()
      invariant AgreesUpTo(r.Value(), target, i, 0)
    {
      var j := 0;
      while j < n
        modifies r.buf
        invariant 0 <= j <= n && r.Valid()
        invariant AgreesUpTo(r.Value(), target, i, j)
      {
        AgreesStep(r.Value(), target, i, j);
        r.Set(i, j, if i == j then 1.0 else 0.0);
        j := j + 1;
      }
      AgreesRow(r.Value(), target, i);
      i := i + 1;
    }
    AgreesAll(r.Value(), target);
  }

  /** The `[A | I]` fill of `inverse`. */
  method AugmentIdentity(a: Matrix) returns (r: Matrix)
    requires a.Valid() && a.rows == a.cols
    ensures fresh(r) && fresh(r.buf) && r.Valid()
    ensures r.Value() == Augment(a.Value(), Identity(a.rows))
  {
    ghost var target := Augment(a.Value(), Identity(a.rows));
    r := new Matrix.OfSize(a.rows, 2 * a.cols);
    var i := 0;
    while i < a.rows
      modifies r.buf
      invariant 0 <= i <= a.rows && r.Valid()
      invariant AgreesUpTo(r.Value(), target, i, 0)
    {
      var j := 0;
      while j < a.cols
        modifies r.buf
        invariant 0 <= j <= a.cols && r.Valid()
        invariant AgreesUpTo(r.Value(), target, i, j)
      {
        AgreesStep(r.Value(), target, i, j);
        r.Set(i, j, a.Elem(i, j));
        j := j + 1;
      }
      while j < r.cols
        modifies r.buf
        invariant a.cols <= j <= r.cols && r.Valid()
        invariant AgreesUpTo(r.Value(), target, i, j)
      {
        AgreesStep(r.Value(), target, i, j);
        r.Set(i, j, if j - a.cols == i then 1.0 else 0.0);
        j := j + 1;
      }
      AgreesRow(r.Value(), target, i);
      i := i + 1;
    }
    AgreesAll(r.Value(), target);
  }

  /** The right-half copy of `inverse`: columns [n, 2n) of the reduced matrix. */
  method RightHalf(red: Matrix, n: nat) returns (inv: Matrix)
    requires red.Valid() && red.rows == n && red.cols == 2 * n
    ensures fresh(inv) && fresh(inv.buf) && inv.Valid()
    ensures inv.Value() == Columns(red.Value(), n, n)
  {
    ghost var target := Columns(red.Value(), n, n);
    inv := new Matrix.OfSize(n, n);
    var i := 0;
    while i < red.rows
      modifies inv.buf
      invariant 0 <= i <= n && inv.Valid()
      invariant AgreesUpTo(inv.Value(), target, i, 0)
    {
      var j := n;
      while j < red.cols
        modifies inv.buf
        invariant n <= j <= 2 * n && inv.Valid()
        invariant AgreesUpTo(inv.Value(), target, i, j - n)
      {
        AgreesStep(inv.Value(), target, i, j - n);
        inv.Set(i, j - n, red.Elem(i, j));
        j := j + 1;
      }
      AgreesRow(inv.Value(), target, i);
      i := i + 1;
    }
    AgreesAll(inv.Value(), target);
  }

  /** `inverse`: a non-square A comes back as a copy of itself; otherwise
      `[A | I]` is brought to reduced row echelon form and its right half is
      returned. Whatever the reduction does, that right half times A is the
      reduced left half; so when the left half comes out as the identity,
      the result is a left inverse of A. */
  method Inverse(a: Matrix) returns (inv: Matrix, ghost red: Mat, ghost ops: seq<RowOp>)
    requires a.Valid()
    ensures fresh(inv) && inv.Valid()
    ensures a.rows != a.cols ==> inv.Value() == a.Value()
    ensures a.rows == a.cols ==>
              red == ApplyOps(Augment(a.Value(), Identity(a.rows)), ops) && AllElementary(ops) &&
              red.rows == a.rows && red.cols == 2 * a.rows &&
              LeadsOrdered(red) && PivotColumnsCleared(red) &&
              inv.Value() == Columns(red, a.rows, a.rows) &&
              Product(inv.Value(), a.Value()) == Columns(red, 0, a.rows)
    ensures a.rows == a.cols && Columns(red, 0, a.rows) == Identity(a.rows) ==>
              Product(inv.Value(), a.Value()) == Identity(a.rows)
  {
    if a.rows != a.cols {
      inv := new Matrix.CopyOf(a);
      red := a.Value();
      ops := [];
      return;
    }
    var augmented := AugmentIdentity(a);
    var reduced;
    reduced, ops := ReducedRowEchelon(augmented);
    red := reduced.Value();
    RowOpsOnAugmentedIdentity(a.Value(), ops);
    inv := RightHalf(reduced, a.rows);
  }
}
