/** The earlier templated snapshot `mat::Matrix<T>` (Matrix.hpp), with T
    taken as real: the same row-major buffer, but row operations without
    range checks, an in-place transpose, scalar multiplication of every
    element, and a stub inverse. */
module MatrixTemplate {
  import opened MatrixValues
  import opened Echelon

  class Matrix {
    var rows: nat
    var cols: nat
    var size: nat
    /** `m_matrix`: element (i, j) at offset cols * i + j. */
    var buf: array<real>

    ghost predicate Valid()
      reads this
    {
      size == rows * cols && buf.Length == size
    }

    /** The matrix value the object currently holds. */
    ghost function Value(): (m: Mat)
      reads this, buf
      requires Valid()
      ensures Wf(m) && m.rows == rows && m.cols == cols
    {
      Mat(rows, cols, buf[..])
    }

    /** The default constructor: a 0 x 0 matrix. */
    constructor Default()
      ensures Valid() && Value() == Empty && fresh(buf)
    {
      rows, cols, size := 0, 0, 0;
      buf := new real[0];
      new;
      assert buf[..] == [];
    }

    /** The size constructor: the buffer is allocated and left uninitialised,
        so nothing is known of its elements. */
    constructor OfSize(rows: nat, cols: nat)
      ensures Valid() && this.rows == rows && this.cols == cols && fresh(buf)
    {
      this.rows, this.cols, size := rows, cols, rows * cols;
      buf := new real[rows * cols];
    }

    /** The accumulator of matrix `operator*=`: the source leaves it
        uninitialised, and it is taken here to start at zero. */
    constructor Zeroed(rows: nat, cols: nat)
      ensures Valid() && Value() == Filled(rows, cols, 0.0) && fresh(buf)
    {
      this.rows, this.cols, size := rows, cols, rows * cols;
      buf := new real[rows * cols];
      new;
      var p := 0;
      while p < size
        modifies buf
        invariant 0 <= p <= size
        invariant forall k :: 0 <= k < p ==> buf[k] == 0.0
      {
        buf[p] := 0.0;
        p := p + 1;
      }
      assert buf[..] == Filled(rows, cols, 0.0).elems;
    }

    /** The copy constructor. */
    constructor CopyOf(m: Matrix)
      requires m.Valid()
      ensures Valid() && Value() == m.Value() && fresh(buf)
    {
      rows, cols, size := m.rows, m.cols, m.size;
      buf := new real[m.size];
      new;
      var p := 0;
      while p < size
        modifies buf
        invariant 0 <= p <= size
        invariant forall k :: 0 <= k < p ==> buf[k] == m.buf[k]
      {
        buf[p] := m.buf[p];
        p := p + 1;
      }
      assert buf[..] == m.buf[..];
    }

    /** `operator()` read: the element at offset cols * i + j. */
    function Elem(i: nat, j: nat): (e: real)
      reads this, buf
      requires Valid() && i < rows && j < cols
      ensures e == At(Value(), i, j)
    {
      OffsetInRange(rows, cols, i, j);
      buf[cols * i + j]
    }

    /** `operator()` write: element (i, j) becomes v, every other element is kept. */
    method Set(i: nat, j: nat, v: real)
      requires Valid() && i < rows && j < cols
      modifies buf
      ensures Valid()
      ensures Value() == Update(old(Value()), i, j, v)
    {
      OffsetInRange(rows, cols, i, j);
      buf[cols * i + j] := v;
    }

    /** `swapRows`: the two rows trade places column by column. There is no
        range check, so both must be rows whenever there are columns. */
    method SwapRows(r1: nat, r2: nat)
      requires Valid() && ((r1 < rows && r2 < rows) || cols == 0)
      modifies buf
      ensures Valid()
      ensures Value() == MatrixValues.SwapRows(old(Value()), r1, r2)
    {
      ghost var o := Value();
      ghost var s := MatrixValues.SwapRows(o, r1, r2);
      var j := 0;
      while j < cols
        modifies buf
        invariant 0 <= j <= cols && Valid()
        invariant forall i: nat, c: nat :: i < rows && c < cols ==>
                    At(Value(), i, c) == if c < j then At(s, i, c) else At(o, i, c)
      {
        var x, y := Elem(r1, j), Elem(r2, j);
        Set(r1, j, y);
        Set(r2, j, x);
        j := j + 1;
      }
      Ext(Value(), s);
    }

    /** `addRows`: row r2 becomes r2 + factor * r1; an entry where r2's value
        meets -factor * r1's (the sum is zero) is written as 0. There is no
        range check, so both must be rows whenever there are columns. */
    method AddRows(r1: nat, r2: nat, scalar: real)
      requires Valid() && ((r1 < rows && r2 < rows) || cols == 0)
      modifies buf
      ensures Valid()
      ensures Value() == MatrixValues.AddRows(old(Value()), r1, r2, scalar)
    {
      ghost var o := Value();
      ghost var s := MatrixValues.AddRows(o, r1, r2, scalar);
      var j := 0;
      while j < cols
        modifies buf
        invariant 0 <= j <= cols && Valid()
        invariant SweptTo(Value(), s, o, j)
      {
        var a, b := Elem(r2, j), Elem(r1, j);
        AddRowsStep(Value(), o, r1, r2, scalar, j, a, b);
        if a == -scalar * b {
          Set(r2, j, 0.0);
        } else {
          Set(r2, j, a + scalar * b);
        }
        j := j + 1;
      }
      Ext(Value(), s);
    }

    /** `multiplyRow`: nonzero entries of row r are multiplied by scalar. There
        is no range check, so r must be a row whenever there are columns. */
    method MultiplyRow(r: nat, scalar: real)
      requires Valid() && (r < rows || cols == 0)
      modifies buf
      ensures Valid()
      ensures Value() == MatrixValues.MultiplyRow(old(Value()), r, scalar)
    {
      ghost var o := Value();
      ghost var s := MatrixValues.MultiplyRow(o, r, scalar);
      var j := 0;
      while j < cols
        modifies buf
        invariant 0 <= j <= cols && Valid()
        invariant SweptTo(Value(), s, o, j)
      {
        var x := Elem(r, j);
        MultiplyRowStep(Value(), o, r, scalar, j, x);
        if x != 0.0 {
          Set(r, j, x * scalar);
        }
        j := j + 1;
      }
      Ext(Value(), s);
    }

    /** `operator+=`: elementwise sum when the shapes agree, otherwise no change. */
    method AddAssign(other: Matrix)
      requires Valid() && other.Valid() && (other.buf == buf ==> other == this)
      modifies buf
      ensures Valid()
      ensures Value() == Plus(old(Value()), old(other.Value()))
    {
      if rows == other.rows && cols == other.cols {
        ghost var o, b := Value(), other.Value();
        var i := 0;
        while i < other.rows
          modifies buf
          invariant 0 <= i <= rows && Valid()
          invariant other != this ==> other.buf[..] == b.elems
          invariant forall q :: 0 <= q < size ==>
                      buf[q] == if q < cols * i then o.elems[q] + b.elems[q] else o.elems[q]
        {
          AddAssignRow(other, i, o, b);
          i := i + 1;
        }
        assert buf[..] == Plus(o, b).elems by {
          assert cols * i == size;
          PlusMinusFlat(o, b);
        }
      }
    }

    /** The inner loop of `operator+=` over the columns of row i. */
    method AddAssignRow(other: Matrix, i: nat, ghost o: Mat, ghost b: Mat)
      requires Valid() && other.Valid() && (other.buf == buf ==> other == this)
      requires other.rows == rows && other.cols == cols
      requires Wf(o) && Wf(b) && o.rows == b.rows == rows && o.cols == b.cols == cols && i < rows
      requires other == this ==> o == b
      requires other != this ==> other.buf[..] == b.elems
      requires forall q :: 0 <= q < size ==>
                 buf[q] == if q < cols * i then o.elems[q] + b.elems[q] else o.elems[q]
      modifies buf
      ensures Valid()
      ensures other != this ==> other.buf[..] == b.elems
      ensures forall q :: 0 <= q < size ==>
                buf[q] == if q < cols * (i + 1) then o.elems[q] + b.elems[q] else o.elems[q]
    {
      var j := 0;
      while j < other.cols
        modifies buf
        invariant 0 <= j <= cols && Valid()
        invariant other != this ==> other.buf[..] == b.elems
        invariant forall q :: 0 <= q < size ==>
                    buf[q] == if q < cols * i + j then o.elems[q] + b.elems[q] else o.elems[q]
      {
        OffsetInRange(rows, cols, i, j);
        var p := cols * i + j;
        assert other.buf[p] == b.elems[p];
        buf[p] := buf[p] + other.buf[p];
        j := j + 1;
      }
      assert cols * i + cols == cols * (i + 1);
    }

    /** `operator-=`: elementwise difference when the shapes agree, otherwise no change. */
    method SubAssign(other: Matrix)
      requires Valid() && other.Valid() && (other.buf == buf ==> other == this)
      modifies buf
      ensures Valid()
      ensures Value() == Minus(old(Value()), old(other.Value()))
    {
      if rows == other.rows && cols == other.cols {
        ghost var o, b := Value(), other.Value();
        var i := 0;
        while i < other.rows
          modifies buf
          invariant 0 <= i <= rows && Valid()
          invariant other != this ==> other.buf[..] == b.elems
          invariant forall q :: 0 <= q < size ==>
                      buf[q] == if q < cols * i then o.elems[q] - b.elems[q] else o.elems[q]
        {
          SubAssignRow(other, i, o, b);
          i := i + 1;
        }
        assert buf[..] == Minus(o, b).elems by {
          assert cols * i == size;
          PlusMinusFlat(o, b);
        }
      }
    }

    /** The inner loop of `operator-=` over the columns of row i. */
    method SubAssignRow(other: Matrix, i: nat, ghost o: Mat, ghost b: Mat)
      requires Valid() && other.Valid() && (other.buf == buf ==> other == this)
      requires other.rows == rows && other.cols == cols
      requires Wf(o) && Wf(b) && o.rows == b.rows == rows && o.cols == b.cols == cols && i < rows
      requires other == this ==> o == b
      requires other != this ==> other.buf[..] == b.elems
      requires forall q :: 0 <= q < size ==>
                 buf[q] == if q < cols * i then o.elems[q] - b.elems[q] else o.elems[q]
      modifies buf
      ensures Valid()
      ensures other != this ==> other.buf[..] == b.elems
      ensures forall q :: 0 <= q < size ==>
                buf[q] == if q < cols * (i + 1) then o.elems[q] - b.elems[q] else o.elems[q]
    {
      var j := 0;
      while j < other.cols
        modifies buf
        invariant 0 <= j <= cols && Valid()
        invariant other != this ==> other.buf[..] == b.elems
        invariant forall q :: 0 <= q < size ==>
                    buf[q] == if q < cols * i + j then o.elems[q] - b.elems[q] else o.elems[q]
      {
        OffsetInRange(rows, cols, i, j);
        var p := cols * i + j;
        assert other.buf[p] == b.elems[p];
        buf[p] := buf[p] - other.buf[p];
        j := j + 1;
      }
      assert cols * i + cols == cols * (i + 1);
    }

    /** Matrix `operator*=`: when cols == other.rows the matrix becomes the
        rows x other.cols product, accumulated in a zero-filled result;
        otherwise it is left unchanged. */
    method MulAssign(other: Matrix)
      requires Valid() && other.Valid()
      modifies this
      ensures Valid() && (buf == old(buf) || fresh(buf))
      ensures Value() == Product(old(Value()), old(other.Value()))
    {
      if cols == other.rows {
        var result := new Matrix.Zeroed(rows, other.cols);
        ProductStart(Value(), other.Value());
        var i := 0;
        while i < result.rows
          modifies result.buf
          invariant 0 <= i <= result.rows && result.Valid()
          invariant ProductSoFar(result.Value(), Value(), other.Value(), i, 0, 0)
        {
          ProductRow(other, result, i);
          i := i + 1;
        }
        ProductDone(result.Value(), Value(), other.Value());
        rows, cols, size, buf := result.rows, result.cols, result.size, result.buf;
      }
    }

    /** The j loop of matrix `operator*=` for row i of the result. */
    method ProductRow(other: Matrix, result: Matrix, i: nat)
      requires Valid() && other.Valid() && result.Valid() && cols == other.rows
      requires result.rows == rows && result.cols == other.cols && i < rows
      requires result.buf != buf && result.buf != other.buf
      requires ProductSoFar(result.Value(), Value(), other.Value(), i, 0, 0)
      modifies result.buf
      ensures result.Valid()
      ensures ProductSoFar(result.Value(), Value(), other.Value(), i + 1, 0, 0)
    {
      var j := 0;
      while j < result.cols
        modifies result.buf
        invariant 0 <= j <= result.cols && result.Valid()
        invariant ProductSoFar(result.Value(), Value(), other.Value(), i, j, 0)
      {
        ProductEntry(other, result, i, j);
        ProductNextEntry(result.Value(), Value(), other.Value(), i, j);
        j := j + 1;
      }
      ProductNextRow(result.Value(), Value(), other.Value(), i);
    }

    /** The k loop of matrix `operator*=`: result(i, j) += this(i, k) * other(k, j). */
    method ProductEntry(other: Matrix, result: Matrix, i: nat, j: nat)
      requires Valid() && other.Valid() && result.Valid() && cols == other.rows
      requires result.rows == rows && result.cols == other.cols && i < rows && j < other.cols
      requires result.buf != buf && result.buf != other.buf
      requires ProductSoFar(result.Value(), Value(), other.Value(), i, j, 0)
      modifies result.buf
      ensures result.Valid()
      ensures ProductSoFar(result.Value(), Value(), other.Value(), i, j, cols)
    {
      var k := 0;
      while k < cols
        modifies result.buf
        invariant 0 <= k <= cols && result.Valid()
        invariant ProductSoFar(result.Value(), Value(), other.Value(), i, j, k)
      {
        var x := result.Elem(i, j) + Elem(i, k) * other.Elem(k, j);
        ProductStep(result.Value(), Value(), other.Value(), i, j, k, x);
        result.Set(i, j, x);
        k := k + 1;
      }
    }

    /** Scalar `operator*=`: every element, zeros included, is multiplied by k. */
    method ScaleAssign(k: real)
      requires Valid()
      modifies buf
      ensures Valid()
      ensures Value() == ScaleAll(old(Value()), k)
    {
      ghost var o := Value();
      var p := 0;
      while p < size
        modifies buf
        invariant 0 <= p <= size && Valid()
        invariant forall q :: 0 <= q < size ==> buf[q] == if q < p then o.elems[q] * k else o.elems[q]
      {
        buf[p] := buf[p] * k;
        p := p + 1;
      }
      assert buf[..] == ScaleAll(o, k).elems by {
        forall q | 0 <= q < size
          ensures buf[q] == ScaleAll(o, k).elems[q]
        {
        }
      }
    }

    /** `operator+`: a copy of this matrix, then `+= other`. */
    method Sum(other: Matrix) returns (r: Matrix)
      requires Valid() && other.Valid()
      ensures fresh(r) && fresh(r.buf) && r.Valid()
      ensures r.Value() == Plus(Value(), other.Value())
    {
      r := new Matrix.CopyOf(this);
      r.AddAssign(other);
    }

    /** `operator-`: a copy of this matrix, then `-= other`. */
    method Difference(other: Matrix) returns (r: Matrix)
      requires Valid() && other.Valid()
      ensures fresh(r) && fresh(r.buf) && r.Valid()
      ensures r.Value() == Minus(Value(), other.Value())
    {
      r := new Matrix.CopyOf(this);
      r.SubAssign(other);
    }

    /** `operator*` on two matrices: a copy of this matrix, then `*= other`. */
    method Times(other: Matrix) returns (r: Matrix)
      requires Valid() && other.Valid()
      ensures fresh(r) && r.Valid()
      ensures r.Value() == Product(Value(), other.Value())
    {
      r := new Matrix.CopyOf(this);
      r.MulAssign(other);
    }

    /** `operator*` with a scalar on either side (the friend `k * M` is `M * k`):
        a copy of this matrix, then `*= k`. */
    method ScalarTimes(k: real) returns (r: Matrix)
      requires Valid()
      ensures fresh(r) && fresh(r.buf) && r.Valid()
      ensures r.Value() == ScaleAll(Value(), k)
    {
      r := new Matrix.CopyOf(this);
      r.ScaleAssign(k);
    }

    /** `transpose`: the matrix is replaced by a fresh cols x rows one with
        new(j, i) = old(i, j), filled row by row of the old one. */
    method Transpose()
      requires Valid()
      modifies this
      ensures Valid() && fresh(buf)
      ensures Value() == MatrixValues.Transpose(old(Value()))
    {
      ghost var target := MatrixValues.Transpose(Value());
      var t := new Matrix.OfSize(cols, rows);
      var i := 0;
      while i < rows
        modifies t.buf
        invariant 0 <= i <= rows && t.Valid()
        invariant AgreesUpToByColumns(t.Value(), target, i, 0)
      {
        var j := 0;
        while j < cols
          modifies t.buf
          invariant 0 <= j <= cols && t.Valid()
          invariant AgreesUpToByColumns(t.Value(), target, i, j)
        {
          AgreesByColumnsStep(t.Value(), target, i, j);
          t.Set(j, i, Elem(i, j));
          j := j + 1;
        }
        AgreesByColumnsNext(t.Value(), target, i);
        i := i + 1;
      }
      AgreesByColumnsAll(t.Value(), target);
      rows, cols, size, buf := t.rows, t.cols, t.size, t.buf;
    }

    /** The non-const `operator==`: equal shapes and equal elements, compared
        row by row. */
    method Equals(other: Matrix) returns (eq: bool)
      requires Valid() && other.Valid()
      ensures eq <==> Value() == other.Value()
    {
      if rows != other.rows || cols != other.cols {
        return false;
      }
      var i := 0;
      while i < rows
        invariant 0 <= i <= rows
        invariant forall r: nat, c: nat :: r < i && c < cols ==> At(Value(), r, c) == At(other.Value(), r, c)
      {
        var j := 0;
        while j < cols
          invariant 0 <= j <= cols
          invariant forall r: nat, c: nat :: r < i && c < cols ==> At(Value(), r, c) == At(other.Value(), r, c)
          invariant forall c: nat :: c < j ==> At(Value(), i, c) == At(other.Value(), i, c)
        {
          if Elem(i, j) != other.Elem(i, j) {
            return false;
          }
          j := j + 1;
        }
        i := i + 1;
      }
      Ext(Value(), other.Value());
      return true;
    }

    /** `isRowEchelonForm`: in every row the first nonzero entry must be a 1
        strictly right of the previous row's leading 1 (`prevCol`, which starts
        at 0); an all-zero row is passed over. */
    method IsRowEchelonForm() returns (b: bool)
      requires Valid()
      ensures b == AcceptedEchelon(Value())
    {
      ghost var m := Value();
      var prevCol := 0;
      ghost var last: int := -1;
      var i := 0;
      while i < rows
        invariant 0 <= i <= rows
        invariant AcceptedRows(m, i) && PrevColAfter(m, i, last, prevCol)
      {
        var j := 0;
        ghost var hit := false;
        while j < cols
          invariant 0 <= j <= cols
          invariant forall c: nat :: c < j ==> At(m, i, c) == 0.0
        {
          var elem := Elem(i, j);
          if elem == 1.0 && j > prevCol {
            LeadIs(m, i, j);
            ScanAccepts(m, i, last, prevCol);
            prevCol := j;
            last := i;
            hit := true;
            break;
          } else if elem != 0.0 {
            LeadIs(m, i, j);
            ScanRejects(m, i, last, prevCol);
            return false;
          }
          j := j + 1;
        }
        if !hit {
          LeadIs(m, i, cols);
          ScanSkips(m, i, last, prevCol);
        }
        i := i + 1;
      }
      AcceptedAllRows(m);
      return true;
    }

    /** The pivot search of `rowEchelon`: column by column from the left, the
        first row at or below top with a nonzero entry. */
    method FindPivot(top: nat) returns (found: bool, row: nat, col: nat)
      requires Valid() && top <= rows
      ensures found ==> top <= row < rows && col < cols && At(Value(), row, col) != 0.0
      ensures found ==> ZeroBelow(Value(), top, col) &&
                        forall i: nat :: top <= i < row ==> At(Value(), i, col) == 0.0
      ensures !found ==> ZeroBelow(Value(), top, cols)
    {
      var j := 0;
      while j < cols
        invariant 0 <= j <= cols && ZeroBelow(Value(), top, j)
      {
        var i := top;
        while i < rows
          invariant top <= i <= rows
          invariant forall r: nat :: top <= r < i ==> At(Value(), r, j) == 0.0
        {
          if Elem(i, j) != 0.0 {
            return true, i, j;
          }
          i := i + 1;
        }
        j := j + 1;
      }
      return false, top, 0;
    }

    /** The row swap of `rowEchelon`: the pivot row pr is brought up to row t. */
    method SwapUp(pr: nat, t: nat, pc: nat, ghost piv: seq<nat>, ghost o: Mat, ghost ops: seq<RowOp>)
      returns (ghost ops': seq<RowOp>)
      requires Valid() && Wf(o) && Value() == ApplyOps(o, ops)
      requires Pivoted(Value(), piv) && |piv| == t <= pr < rows && pc < cols
      requires ZeroBelow(Value(), t, pc) && At(Value(), pr, pc) != 0.0
      requires AllElementary(ops)
      modifies buf
      ensures Valid() && Value() == ApplyOps(o, ops') && AllElementary(ops')
      ensures Pivoted(Value(), piv) && ZeroBelow(Value(), t, pc) && At(Value(), t, pc) != 0.0
    {
      SwapPivot(Value(), piv, pr, pc);
      ApplyOpsSnoc(o, ops, Swap(pr, t));
      SwapRows(pr, t);
      ops' := ops + [Swap(pr, t)];
    }

    /** The scaling of `rowEchelon`: a pivot other than 1 is divided out of
        its row, making row t the next pivot row. */
    method Normalize(t: nat, pc: nat, ghost piv: seq<nat>, ghost o: Mat, ghost ops: seq<RowOp>)
      returns (ghost ops': seq<RowOp>)
      requires Valid() && Wf(o) && Value() == ApplyOps(o, ops)
      requires Pivoted(Value(), piv) && |piv| == t < rows && Bound(piv) <= pc < cols
      requires ZeroBelow(Value(), t, pc) && At(Value(), t, pc) != 0.0
      requires AllElementary(ops)
      modifies buf
      ensures Valid() && Value() == ApplyOps(o, ops') && AllElementary(ops')
      ensures Pivoted(Value(), piv + [pc]) && ZeroBelow(Value(), t + 1, pc)
      ensures At(old(Value()), t, pc) == 1.0 ==> ops' == ops
    {
      var lead := Elem(t, pc);
      if lead != 1.0 {
        var s := 1.0 / lead;
        InverseTimes(lead, s);
        InverseNonzero(lead);
        ScalePivot(Value(), piv, pc, lead, s);
        ApplyOpsSnoc(o, ops, Scale(t, s));
        MultiplyRow(t, s);
        ops' := ops + [Scale(t, s)];
      } else {
        PivotIsOne(Value(), piv, pc);
        ops' := ops;
      }
    }

    /** One pass of the elimination loop of `rowEchelon`: row i gets
        `addRows(t, i, -elem)` when its entry elem in the pivot column is nonzero. */
    method EliminateRow(t: nat, pc: nat, i: nat, ghost piv: seq<nat>) returns (elem: real)
      requires Valid() && Eliminating(Value(), piv, pc, i) && |piv| == t + 1 && i < rows
      modifies buf
      ensures Valid() && Eliminating(Value(), piv, pc, i + 1)
      ensures elem == At(old(Value()), i, pc)
      ensures Value() == if elem != 0.0 then MatrixValues.AddRows(old(Value()), t, i, -elem) else old(Value())
    {
      elem := Elem(i, pc);
      EliminatingStep(Value(), piv, pc, i, elem);
      if elem != 0.0 {
        AddRows(t, i, -elem);
      }
    }

    /** EliminateRow, recording the operation it performs. */
    method EliminateRowLogged(t: nat, pc: nat, i: nat, ghost piv: seq<nat>, ghost o: Mat, ghost ops: seq<RowOp>)
      returns (ghost ops': seq<RowOp>)
      requires Valid() && Wf(o) && Value() == ApplyOps(o, ops)
      requires Eliminating(Value(), piv, pc, i) && |piv| == t + 1 && i < rows
      requires AllElementary(ops)
      modifies buf
      ensures Valid() && Value() == ApplyOps(o, ops') && AllElementary(ops')
      ensures Eliminating(Value(), piv, pc, i + 1)
      ensures At(old(Value()), i, pc) == 0.0 ==> ops' == ops
    {
      var elem := EliminateRow(t, pc, i, piv);
      ops' := ops;
      if elem != 0.0 {
        ApplyOpsSnoc(o, ops, Add(t, i, -elem));
        ops' := ops + [Add(t, i, -elem)];
      }
    }

    /** The elimination loop of `rowEchelon`: every row below pivot row t
        is cleared in the pivot column pc. */
    method EliminateBelow(t: nat, pc: nat, ghost piv: seq<nat>, ghost o: Mat, ghost ops: seq<RowOp>)
      returns (ghost ops': seq<RowOp>)
      requires Valid() && Wf(o) && Value() == ApplyOps(o, ops)
      requires Eliminating(Value(), piv, pc, t + 1) && |piv| == t + 1
      requires AllElementary(ops)
      modifies buf
      ensures Valid() && Value() == ApplyOps(o, ops') && AllElementary(ops')
      ensures Eliminating(Value(), piv, pc, rows)
      ensures (forall r: nat :: t < r < rows ==> At(old(Value()), r, pc) == 0.0) ==> ops' == ops
    {
      ghost var v0 := Value();
      ops' := ops;
      var i := t + 1;
      while i < rows
        modifies buf
        invariant t + 1 <= i <= rows && Valid()
        invariant Eliminating(Value(), piv, pc, i)
        invariant Value() == ApplyOps(o, ops') && AllElementary(ops')
        invariant (forall r: nat :: t < r < rows ==> At(v0, r, pc) == 0.0) ==> ops' == ops
      {
        ops' := EliminateRowLogged(t, pc, i, piv, o, ops');
        i := i + 1;
      }
    }

    /** One pass of `rowEchelon`'s outer loop for pivot row t: find the
        pivot, swap it up, scale it to 1 and clear the column below it; with
        no pivot left the matrix is already in row echelon form. */
    method PivotStep(t: nat, ghost piv: seq<nat>, ghost o: Mat, ghost ops: seq<RowOp>)
      returns (found: bool, ghost piv': seq<nat>, ghost ops': seq<RowOp>)
      requires Valid() && Wf(o) && Value() == ApplyOps(o, ops)
      requires t < rows && Echeloning(Value(), piv, t) && AllElementary(ops)
      modifies buf
      ensures Valid() && Value() == ApplyOps(o, ops') && AllElementary(ops')
      ensures found ==> Echeloning(Value(), piv', t + 1)
      ensures !found ==> EchelonForm(Value())
      ensures EchelonForm(old(Value())) ==> ops' == ops
    {
      var pr, pc;
      found, pr, pc := FindPivot(t);
      if !found {
        PivotedEchelon(Value(), piv);
        return false, piv, ops;
      }
      NonzeroPastBound(Value(), piv, pr, pc);
      if EchelonForm(Value()) {
        EchelonPivotIsTop(Value(), t, pr, pc);
      }
      ops' := ops;
      if pr != t {
        ops' := SwapUp(pr, t, pc, piv, o, ops');
      }
      ops' := Normalize(t, pc, piv, o, ops');
      piv' := piv + [pc];
      ops' := EliminateBelow(t, pc, piv', o, ops');
      EliminatingDone(Value(), piv', pc);
    }

    /** The elimination loop of `rowEchelon`: one PivotStep per top row
        until no pivot is left. The steps are elementary row operations, and
        on a matrix already in row echelon form there are none. */
    method Eliminate() returns (ghost ops: seq<RowOp>)
      requires Valid()
      modifies buf
      ensures Valid() && Value() == ApplyOps(old(Value()), ops) && AllElementary(ops)
      ensures EchelonForm(Value())
      ensures EchelonForm(old(Value())) ==> ops == []
    {
      ghost var o := Value();
      ghost var piv: seq<nat> := [];
      ops := [];
      var t := 0;
      while t < rows
        modifies buf
        invariant 0 <= t <= rows && Valid()
        invariant Echeloning(Value(), piv, t)
        invariant Value() == ApplyOps(o, ops) && AllElementary(ops)
        invariant EchelonForm(o) ==> ops == []
      {
        var found;
        found, piv, ops := PivotStep(t, piv, o, ops);
        if !found {
          return;
        }
        t := t + 1;
      }
      PivotedEchelon(Value(), piv);
    }

    /** The leading-one search of `reducedRowEchelon`: the first nonzero
        column of row b, if any. */
    method LeadingColumn(b: nat) returns (allZeros: bool, lead: nat)
      requires Valid() && b < rows
      ensures allZeros <==> Lead(Value(), b) == cols
      ensures !allZeros ==> lead == Lead(Value(), b)
    {
      var j := 0;
      while j < cols
        invariant 0 <= j <= cols
        invariant forall c: nat :: c < j ==> At(Value(), b, c) == 0.0
      {
        if Elem(b, j) != 0.0 {
          LeadIs(Value(), b, j);
          return false, j;
        }
        j := j + 1;
      }
      LeadIs(Value(), b, cols);
      return true, 0;
    }

    /** One pass of the clearing loop of `reducedRowEchelon`:
        `addRows(b, i, -A(i, lead))`. */
    method ClearRow(b: nat, lead: nat, i: nat, ghost o: Mat) returns (x: real)
      requires Valid() && Wf(o) && ClearingAbove(Value(), o, b, lead, i) && b < rows && Lead(o, b) == lead && i < b
      modifies buf
      ensures Valid() && ClearingAbove(Value(), o, b, lead, i + 1)
      ensures Value() == MatrixValues.AddRows(old(Value()), b, i, -x)
    {
      x := Elem(i, lead);
      ClearingStep(Value(), o, b, lead, i, x);
      AddRows(b, i, -x);
    }

    /** ClearRow, recording the operation it performs. */
    method ClearRowLogged(b: nat, lead: nat, i: nat, ghost o: Mat, ghost a: Mat, ghost ops: seq<RowOp>)
      returns (ghost ops': seq<RowOp>)
      requires Valid() && Wf(a) && Value() == ApplyOps(a, ops)
      requires Wf(o) && ClearingAbove(Value(), o, b, lead, i) && b < rows && Lead(o, b) == lead && i < b
      requires AllElementary(ops)
      modifies buf
      ensures Valid() && Value() == ApplyOps(a, ops') && AllElementary(ops')
      ensures ClearingAbove(Value(), o, b, lead, i + 1)
    {
      var x := ClearRow(b, lead, i, o);
      ApplyOpsSnoc(a, ops, Add(b, i, -x));
      ops' := ops + [Add(b, i, -x)];
    }

    /** The clearing loop of `reducedRowEchelon`: `addRows(b, i, -A(i, lead))`
        for every row i above b, which zeroes column lead above row b and
        keeps every leading column. */
    method ClearAbove(b: nat, lead: nat, ghost a: Mat, ghost ops: seq<RowOp>) returns (ghost ops': seq<RowOp>)
      requires Valid() && Wf(a) && Value() == ApplyOps(a, ops)
      requires LeadsOrdered(Value()) && b < rows && Lead(Value(), b) == lead < cols && ClearedFrom(Value(), b)
      requires AllElementary(ops)
      modifies buf
      ensures Valid() && Value() == ApplyOps(a, ops') && AllElementary(ops')
      ensures ClearingAbove(Value(), old(Value()), b, lead, b)
    {
      ghost var o := Value();
      ops' := ops;
      var i := 0;
      while i < b
        modifies buf
        invariant 0 <= i <= b && Valid()
        invariant ClearingAbove(Value(), o, b, lead, i)
        invariant Value() == ApplyOps(a, ops') && AllElementary(ops')
      {
        ops' := ClearRowLogged(b, lead, i, o, a, ops');
        i := i + 1;
      }
    }

    /** One pass of `reducedRowEchelon`'s loop for row b: when the row is
        nonzero, its leading column is cleared in every row above it. */
    method ReduceRow(b: nat, ghost r0: Mat, ghost a: Mat, ghost ops: seq<RowOp>) returns (ghost ops': seq<RowOp>)
      requires Valid() && Wf(r0) && Wf(a) && Value() == ApplyOps(a, ops)
      requires 0 < b && Reducing(Value(), r0, b) && AllElementary(ops)
      modifies buf
      ensures Valid() && Value() == ApplyOps(a, ops') && AllElementary(ops')
      ensures Reducing(Value(), r0, b - 1)
    {
      var allZeros, lead := LeadingColumn(b);
      if !allZeros {
        ghost var o := Value();
        ops' := ClearAbove(b, lead, a, ops);
        ReducingCleared(Value(), o, r0, b, lead);
      } else {
        ReducingZeroRow(Value(), r0, b);
        ops' := ops;
      }
    }
  }

  // ---------------------------------------------------------------------
  // Free functions

  /** `rowEchelon` (Gaussian elimination) on a copy of A: an input the
      echelon test accepts comes back unchanged; otherwise each pass finds
      the leftmost nonzero entry at or below the top row, swaps it up,
      scales it to 1 and clears the column below it, until no pivot is left.
      The result is A transformed by a sequence of elementary row operations,
      and it is in row echelon form. */
  method RowEchelon(a: Matrix) returns (r: Matrix, ghost ops: seq<RowOp>)
    requires a.Valid()
    ensures fresh(r) && fresh(r.buf) && r.Valid()
    ensures r.Value() == ApplyOps(a.Value(), ops) && AllElementary(ops)
    ensures AcceptedEchelon(a.Value()) ==> r.Value() == a.Value()
    ensures !AcceptedEchelon(a.Value()) ==> EchelonForm(r.Value())
    ensures EchelonForm(a.Value()) ==> r.Value() == a.Value()
  {
    r := new Matrix.CopyOf(a);
    ops := [];
    var accepted := r.IsRowEchelonForm();
    if accepted {
      return;
    }
    ops := r.Eliminate();
  }

  /** `reducedRowEchelon` (Gauss-Jordan elimination): rowEchelon, then from
      the bottom row up to row 1 every nonzero row's leading column is cleared
      in all the rows above it. The leading columns of rowEchelon's result
      are kept, so the result is in reduced row echelon form whenever
      rowEchelon's was in row echelon form. The source computes rows - 1 in
      unsigned arithmetic, so a matrix with no rows and some columns is read
      out of bounds; it is excluded. */
  method ReducedRowEchelon(a: Matrix) returns (r: Matrix, ghost ops: seq<RowOp>)
    requires a.Valid() && (a.rows > 0 || a.cols == 0)
    ensures fresh(r) && fresh(r.buf) && r.Valid()
    ensures r.Value() == ApplyOps(a.Value(), ops) && AllElementary(ops)
    ensures LeadsOrdered(r.Value()) && PivotColumnsCleared(r.Value())
    ensures !AcceptedEchelon(a.Value()) ==> EchelonForm(r.Value())
    ensures AcceptedEchelon(a.Value()) ==> SameLeads(r.Value(), a.Value())
  {
    r, ops := RowEchelon(a);
    ghost var r0 := r.Value();
    if r.rows == 0 {
      return;
    }
    ClearedFromBottom(r0);
    var b := r.rows - 1;
    while b > 0
      modifies r.buf
      invariant 0 <= b < r.rows && r.Valid()
      invariant Reducing(r.Value(), r0, b)
      invariant r.Value() == ApplyOps(a.Value(), ops) && AllElementary(ops)
    {
      ops := r.ReduceRow(b, r0, a.Value(), ops);
      b := b - 1;
    }
    ClearedAll(r.Value());
    if !AcceptedEchelon(a.Value()) {
      SameLeadsEchelon(r.Value(), r0);
    }
  }

  /** `inverse`: a stub that returns (a copy of) its argument. */
  method Inverse(a: Matrix) returns (r: Matrix)
    requires a.Valid()
    ensures fresh(r) && fresh(r.buf) && r.Valid()
    ensures r.Value() == a.Value()
  {
    r := new Matrix.CopyOf(a);
  }
}
