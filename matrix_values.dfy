/** Value-level view of the calculator's dense matrices.

    A matrix is a row count, a column count and a row-major buffer of
    `rows * cols` elements; element (i, j) lives at offset `cols * i + j`.
    Elements are exact reals, so the engine's "snap to zero" tolerance tests
    coincide with an exact zero test.  Every operation of the engine classes
    and of the expression evaluator is specified by one of the functions below. */
module MatrixValues {

  datatype Mat = Mat(rows: nat, cols: nat, elems: seq<real>)

  /** The buffer length always equals rows * cols. */
  predicate Wf(m: Mat) {
    |m.elems| == m.rows * m.cols
  }

  /** The default-constructed matrix: no rows, no columns, no buffer. */
  const Empty: Mat := Mat(0, 0, [])

  lemma OffsetInRange(rows: nat, cols: nat, i: nat, j: nat)
    requires i < rows && j < cols
    ensures cols * i + j < rows * cols
  {
    assert cols * i + j < cols * i + cols == cols * (i + 1);
    assert cols * (i + 1) <= cols * rows;
  }

  lemma MulCancelLt(c: nat, a: nat, b: nat)
    requires c * a < c * b
    ensures a < b
  {
  }

  lemma MulMono(c: nat, a: nat, b: nat)
    requires a <= b
    ensures c * a <= c * b
  {
  }

  lemma MulSucc(c: nat, a: nat)
    ensures c * (a + 1) == c * a + c
  {
  }

  lemma OffsetSplit(cols: nat, i: nat, j: nat)
    requires j < cols
    ensures (cols * i + j) / cols == i && (cols * i + j) % cols == j
  {
    var k := cols * i + j;
    var q, r := k / cols, k % cols;
    assert k == cols * q + r && 0 <= r < cols;
    MulSucc(cols, i);
    MulSucc(cols, q);
    MulCancelLt(cols, q, i + 1);
    MulCancelLt(cols, i, q + 1);
  }

  lemma OffsetJoin(rows: nat, cols: nat, k: nat)
    requires k < rows * cols
    ensures cols > 0 && k / cols < rows && k % cols < cols
    ensures k == cols * (k / cols) + k % cols
  {
    assert cols != 0;
    var q := k / cols;
    assert cols * q <= k < cols * rows;
    MulCancelLt(cols, q, rows);
  }

  /** Element (i, j): `operator()` of both engine classes. */
  function At(m: Mat, i: nat, j: nat): real
    requires Wf(m) && i < m.rows && j < m.cols
  {
    OffsetInRange(m.rows, m.cols, i, j);
    m.elems[m.cols * i + j]
  }

  lemma OffsetInjective(cols: nat, i: nat, j: nat, i': nat, j': nat)
    requires j < cols && j' < cols && cols * i + j == cols * i' + j'
    ensures i == i' && j == j'
  {
    OffsetSplit(cols, i, j);
    OffsetSplit(cols, i', j');
  }

  /** The matrix with element (i, j) replaced by v: a write through `operator()`. */
  function Update(m: Mat, i: nat, j: nat, v: real): (r: Mat)
    requires Wf(m) && i < m.rows && j < m.cols
    ensures Wf(r) && r.rows == m.rows && r.cols == m.cols
    ensures forall i': nat, j': nat :: i' < m.rows && j' < m.cols ==>
              At(r, i', j') == if i' == i && j' == j then v else At(m, i', j')
  {
    OffsetInRange(m.rows, m.cols, i, j);
    var r := Mat(m.rows, m.cols, m.elems[m.cols * i + j := v]);
    forall i': nat, j': nat | i' < m.rows && j' < m.cols
      ensures At(r, i', j') == if i' == i && j' == j then v else At(m, i', j')
    {
      OffsetInRange(m.rows, m.cols, i', j');
      if m.cols * i' + j' == m.cols * i + j {
        OffsetInjective(m.cols, i, j, i', j');
      }
    }
    r
  }

  /** Writing back the value already there changes nothing. */
  lemma UpdateSame(m: Mat, i: nat, j: nat)
    requires Wf(m) && i < m.rows && j < m.cols
    ensures Update(m, i, j, At(m, i, j)) == m
  {
    OffsetInRange(m.rows, m.cols, i, j);
    assert m.elems[m.cols * i + j := At(m, i, j)] == m.elems;
  }

  /** A column sweep in progress: columns before j already hold the target
      t, the others still hold the original o. */
  ghost predicate SweptTo(cur: Mat, t: Mat, o: Mat, j: nat)
    requires Wf(cur) && Wf(t) && Wf(o)
  {
    cur.rows == t.rows == o.rows && cur.cols == t.cols == o.cols &&
    forall i: nat, c: nat :: i < cur.rows && c < cur.cols ==>
      At(cur, i, c) == if c < j then At(t, i, c) else At(o, i, c)
  }

  /** Writing the target's value into the one row where column j changes
      moves the sweep one column on. */
  lemma SweepStep(cur: Mat, t: Mat, o: Mat, j: nat, r: nat)
    requires Wf(cur) && Wf(t) && Wf(o) && SweptTo(cur, t, o, j) && j < cur.cols && r < cur.rows
    requires forall i: nat :: i < cur.rows && i != r ==> At(t, i, j) == At(o, i, j)
    ensures SweptTo(Update(cur, r, j, At(t, r, j)), t, o, j + 1)
  {
  }

  /** One column of the `multiplyRow` loop: a nonzero entry is scaled, a zero
      entry is skipped (it is zero after scaling too). */
  lemma MultiplyRowStep(cur: Mat, o: Mat, r: nat, s: real, j: nat, x: real)
    requires Wf(cur) && Wf(o) && r < o.rows && j < o.cols
    requires SweptTo(cur, MultiplyRow(o, r, s), o, j)
    requires x == At(cur, r, j)
    ensures x != 0.0 ==> SweptTo(Update(cur, r, j, x * s), MultiplyRow(o, r, s), o, j + 1)
    ensures x == 0.0 ==> SweptTo(cur, MultiplyRow(o, r, s), o, j + 1)
  {
    var t := MultiplyRow(o, r, s);
    assert At(t, r, j) == x * s;
    SweepStep(cur, t, o, j, r);
    if x == 0.0 {
      UpdateSame(cur, r, j);
    }
  }

  /** One column of the `addRows` loop: the snap to 0 fires exactly when the
      sum is 0, so both branches write the sum. */
  lemma AddRowsStep(cur: Mat, o: Mat, r1: nat, r2: nat, s: real, j: nat, x: real, y: real)
    requires Wf(cur) && Wf(o) && r1 < o.rows && r2 < o.rows && j < o.cols
    requires SweptTo(cur, AddRows(o, r1, r2, s), o, j)
    requires x == At(cur, r2, j) && y == At(cur, r1, j)
    ensures x == -s * y ==> SweptTo(Update(cur, r2, j, 0.0), AddRows(o, r1, r2, s), o, j + 1)
    ensures x != -s * y ==> SweptTo(Update(cur, r2, j, x + s * y), AddRows(o, r1, r2, s), o, j + 1)
  {
    var t := AddRows(o, r1, r2, s);
    assert At(t, r2, j) == x + s * y;
    if x == -s * y {
      assert x + s * y == 0.0;
    }
    SweepStep(cur, t, o, j, r2);
  }

  /** A row-major fill in progress: offsets before n already hold the target
      t, the others still hold the original o. */
  ghost predicate FilledTo(cur: Mat, t: Mat, o: Mat, n: nat)
    requires Wf(cur) && Wf(t) && Wf(o)
  {
    cur.rows == t.rows == o.rows && cur.cols == t.cols == o.cols &&
    forall k :: 0 <= k < |cur.elems| ==> cur.elems[k] == if k < n then t.elems[k] else o.elems[k]
  }

  lemma FillStepAt(cur: Mat, t: Mat, o: Mat, p: nat)
    requires Wf(cur) && Wf(t) && Wf(o) && p < |cur.elems| && FilledTo(cur, t, o, p)
    ensures cur.elems[p] == o.elems[p]
    ensures FilledTo(Mat(cur.rows, cur.cols, cur.elems[p := t.elems[p]]), t, o, p + 1)
  {
  }

  /** Writing the target's element (i, j) at offset p = cols * i + j moves
      the fill one offset on; until then that element is the original's. */
  lemma FillStep(cur: Mat, t: Mat, o: Mat, i: nat, j: nat, p: nat)
    requires Wf(cur) && Wf(t) && Wf(o) && i < cur.rows && j < cur.cols && p == cur.cols * i + j
    requires cur.rows == t.rows == o.rows && cur.cols == t.cols == o.cols
    requires FilledTo(cur, t, o, p)
    ensures At(cur, i, j) == At(o, i, j)
    ensures FilledTo(Update(cur, i, j, At(t, i, j)), t, o, p + 1)
  {
    OffsetInRange(cur.rows, cur.cols, i, j);
    FillStepAt(cur, t, o, p);
  }

  /** A row-major fill by element in progress: rows before i, and row i
      before column j, already hold the target's elements. */
  ghost predicate AgreesUpTo(cur: Mat, t: Mat, i: nat, j: nat)
    requires Wf(cur) && Wf(t)
  {
    cur.rows == t.rows && cur.cols == t.cols &&
    forall r: nat, c: nat :: r < cur.rows && c < cur.cols && (r < i || (r == i && c < j)) ==>
      At(cur, r, c) == At(t, r, c)
  }

  lemma AgreesStep(cur: Mat, t: Mat, i: nat, j: nat)
    requires Wf(cur) && Wf(t) && AgreesUpTo(cur, t, i, j) && i < cur.rows && j < cur.cols
    ensures AgreesUpTo(Update(cur, i, j, At(t, i, j)), t, i, j + 1)
  {
  }

  lemma AgreesRow(cur: Mat, t: Mat, i: nat)
    requires Wf(cur) && Wf(t) && AgreesUpTo(cur, t, i, cur.cols)
    ensures AgreesUpTo(cur, t, i + 1, 0)
  {
  }

  lemma AgreesAll(cur: Mat, t: Mat)
    requires Wf(cur) && Wf(t) && AgreesUpTo(cur, t, cur.rows, 0)
    ensures cur == t
  {
    Ext(cur, t);
  }

  /** The same fill column by column: columns before j, and column j above
      row i, already hold the target's elements. */
  ghost predicate AgreesUpToByColumns(cur: Mat, t: Mat, j: nat, i: nat)
    requires Wf(cur) && Wf(t)
  {
    cur.rows == t.rows && cur.cols == t.cols &&
    forall r: nat, c: nat :: r < cur.rows && c < cur.cols && (c < j || (c == j && r < i)) ==>
      At(cur, r, c) == At(t, r, c)
  }

  lemma AgreesByColumnsStep(cur: Mat, t: Mat, j: nat, i: nat)
    requires Wf(cur) && Wf(t) && AgreesUpToByColumns(cur, t, j, i) && i < cur.rows && j < cur.cols
    ensures AgreesUpToByColumns(Update(cur, i, j, At(t, i, j)), t, j, i + 1)
  {
  }

  lemma AgreesByColumnsNext(cur: Mat, t: Mat, j: nat)
    requires Wf(cur) && Wf(t) && AgreesUpToByColumns(cur, t, j, cur.rows)
    ensures AgreesUpToByColumns(cur, t, j + 1, 0)
  {
  }

  lemma AgreesByColumnsAll(cur: Mat, t: Mat)
    requires Wf(cur) && Wf(t) && AgreesUpToByColumns(cur, t, cur.cols, 0)
    ensures cur == t
  {
    Ext(cur, t);
  }

  /** The sum and difference elementwise on the buffers. */
  lemma PlusMinusFlat(a: Mat, b: Mat)
    requires Wf(a) && Wf(b) && a.rows == b.rows && a.cols == b.cols
    ensures forall k :: 0 <= k < |a.elems| ==> Plus(a, b).elems[k] == a.elems[k] + b.elems[k]
    ensures forall k :: 0 <= k < |a.elems| ==> Minus(a, b).elems[k] == a.elems[k] - b.elems[k]
  {
    forall k | 0 <= k < |a.elems|
      ensures Plus(a, b).elems[k] == a.elems[k] + b.elems[k]
      ensures Minus(a, b).elems[k] == a.elems[k] - b.elems[k]
    {
      OffsetJoin(a.rows, a.cols, k);
      var i: nat, j: nat := k / a.cols, k % a.cols;
      assert At(Plus(a, b), i, j) == At(a, i, j) + At(b, i, j);
      assert At(Minus(a, b), i, j) == At(a, i, j) - At(b, i, j);
    }
  }

  /** A finished fill is the target. */
  lemma FilledAll(cur: Mat, t: Mat, o: Mat, n: nat)
    requires Wf(cur) && Wf(t) && Wf(o) && FilledTo(cur, t, o, n) && n >= |cur.elems|
    ensures cur == t
  {
    assert cur.elems == t.elems;
  }

  /** Two well-formed matrices of the same shape with the same elements are equal. */
  lemma Ext(a: Mat, b: Mat)
    requires Wf(a) && Wf(b) && a.rows == b.rows && a.cols == b.cols
    requires forall i: nat, j: nat :: i < a.rows && j < a.cols ==> At(a, i, j) == At(b, i, j)
    ensures a == b
  {
    forall k | 0 <= k < |a.elems|
      ensures a.elems[k] == b.elems[k]
    {
      OffsetJoin(a.rows, a.cols, k);
      var i: nat, j: nat := k / a.cols, k % a.cols;
      assert At(a, i, j) == At(b, i, j);
    }
  }

  function BuildElems(rows: nat, cols: nat, f: (nat, nat) --> real): seq<real>
    requires forall i: nat, j: nat :: i < rows && j < cols ==> f.requires(i, j)
  {
    seq(rows * cols, k requires 0 <= k < rows * cols =>
      OffsetJoin(rows, cols, k);
      f(k / cols, k % cols))
  }

  lemma BuildAt(rows: nat, cols: nat, f: (nat, nat) --> real)
    requires forall i: nat, j: nat :: i < rows && j < cols ==> f.requires(i, j)
    ensures Wf(Mat(rows, cols, BuildElems(rows, cols, f)))
    ensures forall i: nat, j: nat :: i < rows && j < cols ==>
              At(Mat(rows, cols, BuildElems(rows, cols, f)), i, j) == f(i, j)
  {
    var m := Mat(rows, cols, BuildElems(rows, cols, f));
    forall i: nat, j: nat | i < rows && j < cols
      ensures At(m, i, j) == f(i, j)
    {
      OffsetInRange(rows, cols, i, j);
      OffsetSplit(cols, i, j);
    }
  }

  /** The rows x cols matrix whose element (i, j) is f(i, j). */
  function Build(rows: nat, cols: nat, f: (nat, nat) --> real): (m: Mat)
    requires forall i: nat, j: nat :: i < rows && j < cols ==> f.requires(i, j)
    ensures Wf(m) && m.rows == rows && m.cols == cols
    ensures forall i: nat, j: nat :: i < rows && j < cols ==> At(m, i, j) == f(i, j)
  {
    BuildAt(rows, cols, f);
    Mat(rows, cols, BuildElems(rows, cols, f))
  }

  /** The size constructor with a fill value: every element is v. */
  function Filled(rows: nat, cols: nat, v: real): (m: Mat)
    ensures Wf(m) && m.rows == rows && m.cols == cols
    ensures forall k :: 0 <= k < |m.elems| ==> m.elems[k] == v
  {
    Mat(rows, cols, seq(rows * cols, _ => v))
  }

  lemma FilledAt(rows: nat, cols: nat, v: real)
    ensures forall i: nat, j: nat :: i < rows && j < cols ==> At(Filled(rows, cols, v), i, j) == v
  {
    forall i: nat, j: nat | i < rows && j < cols
      ensures At(Filled(rows, cols, v), i, j) == v
    {
      OffsetInRange(rows, cols, i, j);
    }
  }

  /** `swapRows`: out-of-range indices leave the matrix alone; otherwise rows
      r1 and r2 trade places. */
  function SwapRows(m: Mat, r1: nat, r2: nat): (r: Mat)
    requires Wf(m)
    ensures Wf(r) && r.rows == m.rows && r.cols == m.cols
    ensures r1 >= m.rows || r2 >= m.rows ==> r == m
    ensures r1 < m.rows && r2 < m.rows ==>
              forall i: nat, j: nat :: i < m.rows && j < m.cols ==>
                At(r, i, j) == At(m, if i == r1 then r2 else if i == r2 then r1 else i, j)
  {
    if r1 >= m.rows || r2 >= m.rows then m
    else Build(m.rows, m.cols, (i: nat, j: nat) requires i < m.rows && j < m.cols =>
           At(m, if i == r1 then r2 else if i == r2 then r1 else i, j))
  }

  /** `addRows`: out-of-range indices leave the matrix alone; otherwise row r2
      becomes r2 + s * r1 and no other row changes. */
  function AddRows(m: Mat, r1: nat, r2: nat, s: real): (r: Mat)
    requires Wf(m)
    ensures Wf(r) && r.rows == m.rows && r.cols == m.cols
    ensures r1 >= m.rows || r2 >= m.rows ==> r == m
    ensures r1 < m.rows && r2 < m.rows ==>
              forall i: nat, j: nat :: i < m.rows && j < m.cols ==>
                At(r, i, j) == if i == r2 then At(m, r2, j) + s * At(m, r1, j) else At(m, i, j)
  {
    if r1 >= m.rows || r2 >= m.rows then m
    else Build(m.rows, m.cols, (i: nat, j: nat) requires i < m.rows && j < m.cols =>
           if i == r2 then At(m, r2, j) + s * At(m, r1, j) else At(m, i, j))
  }

  /** `multiplyRow`: row r is multiplied by s, every other row is kept (with
      no columns there is nothing to touch, whatever r is). */
  function MultiplyRow(m: Mat, r: nat, s: real): (res: Mat)
    requires Wf(m) && (r < m.rows || m.cols == 0)
    ensures Wf(res) && res.rows == m.rows && res.cols == m.cols
    ensures forall i: nat, j: nat :: i < m.rows && j < m.cols ==>
              At(res, i, j) == if i == r then At(m, i, j) * s else At(m, i, j)
  {
    Build(m.rows, m.cols, (i: nat, j: nat) requires i < m.rows && j < m.cols =>
      if i == r then At(m, i, j) * s else At(m, i, j))
  }

  /** Scalar multiplication of every element. */
  function ScaleAll(m: Mat, s: real): (r: Mat)
    requires Wf(m)
    ensures Wf(r) && r.rows == m.rows && r.cols == m.cols
    ensures forall k :: 0 <= k < |m.elems| ==> r.elems[k] == m.elems[k] * s
  {
    Mat(m.rows, m.cols, seq(|m.elems|, k requires 0 <= k < |m.elems| => m.elems[k] * s))
  }

  lemma ScaleAllAt(m: Mat, s: real, i: nat, j: nat)
    requires Wf(m) && i < m.rows && j < m.cols
    ensures At(ScaleAll(m, s), i, j) == At(m, i, j) * s
  {
    OffsetInRange(m.rows, m.cols, i, j);
  }

  /** Unary minus: scalar multiplication by -1. */
  function Negate(m: Mat): (r: Mat)
    requires Wf(m)
    ensures Wf(r) && r.rows == m.rows && r.cols == m.cols
    ensures forall k :: 0 <= k < |m.elems| ==> r.elems[k] == -m.elems[k]
  {
    ScaleAll(m, -1.0)
  }

  /** Elementwise sum; a shape mismatch returns the left operand unchanged. */
  function Plus(a: Mat, b: Mat): (r: Mat)
    requires Wf(a) && Wf(b)
    ensures Wf(r) && r.rows == a.rows && r.cols == a.cols
    ensures a.rows != b.rows || a.cols != b.cols ==> r == a
    ensures a.rows == b.rows && a.cols == b.cols ==>
              forall i: nat, j: nat :: i < a.rows && j < a.cols ==> At(r, i, j) == At(a, i, j) + At(b, i, j)
  {
    if a.rows != b.rows || a.cols != b.cols then a
    else Build(a.rows, a.cols, (i: nat, j: nat) requires i < a.rows && j < a.cols => At(a, i, j) + At(b, i, j))
  }

  /** Elementwise difference; a shape mismatch returns the left operand unchanged. */
  function Minus(a: Mat, b: Mat): (r: Mat)
    requires Wf(a) && Wf(b)
    ensures Wf(r) && r.rows == a.rows && r.cols == a.cols
    ensures a.rows != b.rows || a.cols != b.cols ==> r == a
    ensures a.rows == b.rows && a.cols == b.cols ==>
              forall i: nat, j: nat :: i < a.rows && j < a.cols ==> At(r, i, j) == At(a, i, j) - At(b, i, j)
  {
    if a.rows != b.rows || a.cols != b.cols then a
    else Build(a.rows, a.cols, (i: nat, j: nat) requires i < a.rows && j < a.cols => At(a, i, j) - At(b, i, j))
  }

  /** The accumulator of the product loop after n terms:
      0 + a(i,0)*b(0,j) + ... + a(i,n-1)*b(n-1,j). */
  function Dot(a: Mat, b: Mat, i: nat, j: nat, n: nat): real
    requires Wf(a) && Wf(b) && i < a.rows && j < b.cols && n <= a.cols && n <= b.rows
  {
    if n == 0 then 0.0 else Dot(a, b, i, j, n - 1) + At(a, i, n - 1) * At(b, n - 1, j)
  }

  /** The product loop after its (i, j, k) step, in row-major order: entries
      before (i, j) hold their whole dot product, entry (i, j) its first k
      terms, and the entries after it are still 0. */
  ghost predicate ProductSoFar(cur: Mat, a: Mat, b: Mat, i: nat, j: nat, k: nat)
    requires Wf(cur) && Wf(a) && Wf(b) && a.cols == b.rows && k <= a.cols
    requires cur.rows == a.rows && cur.cols == b.cols
  {
    forall i': nat, j': nat :: i' < cur.rows && j' < cur.cols ==>
      At(cur, i', j') == if i' < i || (i' == i && j' < j) then Dot(a, b, i', j', a.cols)
                         else if i' == i && j' == j then Dot(a, b, i', j', k)
                         else 0.0
  }

  lemma ProductStart(a: Mat, b: Mat)
    requires Wf(a) && Wf(b) && a.cols == b.rows
    ensures ProductSoFar(Filled(a.rows, b.cols, 0.0), a, b, 0, 0, 0)
  {
    FilledAt(a.rows, b.cols, 0.0);
  }

  /** One k step of the product loop adds the term a(i, k) * b(k, j). */
  lemma ProductStep(cur: Mat, a: Mat, b: Mat, i: nat, j: nat, k: nat, x: real)
    requires Wf(cur) && Wf(a) && Wf(b) && a.cols == b.rows && cur.rows == a.rows && cur.cols == b.cols
    requires i < cur.rows && j < cur.cols && k < a.cols && ProductSoFar(cur, a, b, i, j, k)
    requires x == At(cur, i, j) + At(a, i, k) * At(b, k, j)
    ensures ProductSoFar(Update(cur, i, j, x), a, b, i, j, k + 1)
  {
  }

  /** A finished entry: move on to the next column, or to the next row when
      the row is done. */
  lemma ProductNextEntry(cur: Mat, a: Mat, b: Mat, i: nat, j: nat)
    requires Wf(cur) && Wf(a) && Wf(b) && a.cols == b.rows && cur.rows == a.rows && cur.cols == b.cols
    requires ProductSoFar(cur, a, b, i, j, a.cols)
    ensures ProductSoFar(cur, a, b, i, j + 1, 0)
  {
  }

  lemma ProductNextRow(cur: Mat, a: Mat, b: Mat, i: nat)
    requires Wf(cur) && Wf(a) && Wf(b) && a.cols == b.rows && cur.rows == a.rows && cur.cols == b.cols
    requires ProductSoFar(cur, a, b, i, cur.cols, 0)
    ensures ProductSoFar(cur, a, b, i + 1, 0, 0)
  {
  }

  lemma ProductDone(cur: Mat, a: Mat, b: Mat)
    requires Wf(cur) && Wf(a) && Wf(b) && a.cols == b.rows && cur.rows == a.rows && cur.cols == b.cols
    requires ProductSoFar(cur, a, b, cur.rows, 0, 0)
    ensures cur == Product(a, b)
  {
    Ext(cur, Product(a, b));
  }

  /** Matrix product; `cols != other.rows` returns the left operand unchanged. */
  function Product(a: Mat, b: Mat): (r: Mat)
    requires Wf(a) && Wf(b)
    ensures Wf(r)
    ensures a.cols != b.rows ==> r == a
    ensures a.cols == b.rows ==>
              r.rows == a.rows && r.cols == b.cols &&
              forall i: nat, j: nat :: i < a.rows && j < b.cols ==> At(r, i, j) == Dot(a, b, i, j, a.cols)
  {
    if a.cols != b.rows then a
    else Build(a.rows, b.cols, (i: nat, j: nat) requires i < a.rows && j < b.cols => Dot(a, b, i, j, a.cols))
  }

  /** The cols x rows matrix with T(j, i) = A(i, j). */
  function Transpose(m: Mat): (t: Mat)
    requires Wf(m)
    ensures Wf(t) && t.rows == m.cols && t.cols == m.rows
    ensures forall i: nat, j: nat :: i < m.rows && j < m.cols ==> At(t, j, i) == At(m, i, j)
  {
    Build(m.cols, m.rows, (j: nat, i: nat) requires j < m.cols && i < m.rows => At(m, i, j))
  }

  /** `[A | B]`; a row-count mismatch returns A unchanged. */
  function Augment(a: Mat, b: Mat): (r: Mat)
    requires Wf(a) && Wf(b)
    ensures Wf(r)
    ensures a.rows != b.rows ==> r == a
    ensures a.rows == b.rows ==>
              r.rows == a.rows && r.cols == a.cols + b.cols &&
              forall i: nat, j: nat :: i < r.rows && j < r.cols ==>
                At(r, i, j) == if j < a.cols then At(a, i, j) else At(b, i, j - a.cols)
  {
    if a.rows != b.rows then a
    else Build(a.rows, a.cols + b.cols, (i: nat, j: nat) requires i < a.rows && j < a.cols + b.cols =>
           if j < a.cols then At(a, i, j) else At(b, i, j - a.cols))
  }

  /** The columns [lo, lo + w) of m, as a rows x w matrix. */
  function Columns(m: Mat, lo: nat, w: nat): (r: Mat)
    requires Wf(m) && lo + w <= m.cols
    ensures Wf(r) && r.rows == m.rows && r.cols == w
    ensures forall i: nat, j: nat :: i < m.rows && j < w ==> At(r, i, j) == At(m, i, lo + j)
  {
    Build(m.rows, w, (i: nat, j: nat) requires i < m.rows && j < w => At(m, i, lo + j))
  }

  /** The n x n identity (1 on the diagonal, 0 elsewhere). */
  function Identity(n: nat): (r: Mat)
    ensures Wf(r) && r.rows == n && r.cols == n
    ensures forall i: nat, j: nat :: i < n && j < n ==> At(r, i, j) == if i == j then 1.0 else 0.0
  {
    Build(n, n, (i: nat, j: nat) => if i == j then 1.0 else 0.0)
  }

  // ---------------------------------------------------------------------
  // Properties of the operations

  /** Transposing twice gives the matrix back. */
  lemma TransposeTwice(m: Mat)
    requires Wf(m)
    ensures Transpose(Transpose(m)) == m
  {
    var t := Transpose(m);
    var tt := Transpose(t);
    forall i: nat, j: nat | i < m.rows && j < m.cols
      ensures At(tt, i, j) == At(m, i, j)
    {
      assert At(tt, i, j) == At(t, j, i);
    }
    Ext(tt, m);
  }

  /** Swapping the same two rows twice restores the matrix. */
  lemma SwapRowsTwice(m: Mat, r1: nat, r2: nat)
    requires Wf(m)
    ensures SwapRows(SwapRows(m, r1, r2), r1, r2) == m
  {
    var s := SwapRows(m, r1, r2);
    var ss := SwapRows(s, r1, r2);
    if r1 < m.rows && r2 < m.rows {
      forall i: nat, j: nat | i < m.rows && j < m.cols
        ensures At(ss, i, j) == At(m, i, j)
      {
        var i' := if i == r1 then r2 else if i == r2 then r1 else i;
        assert At(ss, i, j) == At(s, i', j);
      }
      Ext(ss, m);
    }
  }

  /** Negation is an involution: negating twice restores the matrix. */
  lemma NegateTwice(m: Mat)
    requires Wf(m)
    ensures Negate(Negate(m)) == m
  {
    var n := Negate(m);
    var nn := Negate(n);
    assert forall k :: 0 <= k < |m.elems| ==> nn.elems[k] == n.elems[k] * -1.0 == m.elems[k];
    assert nn.elems == m.elems;
  }

  /** Slicing the augmented matrix at A's width recovers A and B. */
  lemma AugmentSplits(a: Mat, b: Mat)
    requires Wf(a) && Wf(b) && a.rows == b.rows
    ensures Augment(a, b).cols == a.cols + b.cols
    ensures Columns(Augment(a, b), 0, a.cols) == a
    ensures Columns(Augment(a, b), a.cols, b.cols) == b
  {
    var g := Augment(a, b);
    var l := Columns(g, 0, a.cols);
    var r := Columns(g, a.cols, b.cols);
    forall i: nat, j: nat | i < a.rows && j < a.cols
      ensures At(l, i, j) == At(a, i, j)
    {
      assert At(l, i, j) == At(g, i, j);
    }
    Ext(l, a);
    forall i: nat, j: nat | i < b.rows && j < b.cols
      ensures At(r, i, j) == At(b, i, j)
    {
      assert At(r, i, j) == At(g, i, a.cols + j);
    }
    Ext(r, b);
  }

  /** The identity's rows pick out rows: I * B == B. */
  lemma DotIdentityLeft(b: Mat, i: nat, j: nat, n: nat)
    requires Wf(b) && i < b.rows && j < b.cols && n <= b.rows
    ensures Dot(Identity(b.rows), b, i, j, n) == if i < n then At(b, i, j) else 0.0
  {
    if n > 0 {
      DotIdentityLeft(b, i, j, n - 1);
    }
  }

  lemma ProductIdentityLeft(b: Mat)
    requires Wf(b)
    ensures Product(Identity(b.rows), b) == b
  {
    var p := Product(Identity(b.rows), b);
    forall i: nat, j: nat | i < b.rows && j < b.cols
      ensures At(p, i, j) == At(b, i, j)
    {
      DotIdentityLeft(b, i, j, b.rows);
    }
    Ext(p, b);
  }
}
