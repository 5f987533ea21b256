/** A square matrix without null vectors has an inverse, and then its transpose has no null vectors either. */
module Transpose {
  import opened Bits
  import opened GF256
  import opened GFTables
  import opened Linear
  import opened Invert

  // -- elimination on values

  lemma {:induction false} InverseFrom(out: Matrix, orig: Matrix, cur: Matrix, n: nat, i: nat) returns (b: Matrix)
    requires i <= n && Progress(out, orig, cur, n, i) && IsMatrix(orig, n, n) && Independent(orig, n)
    ensures IsInverse(b, orig, n)
    decreases n - i
  {
    hide Progress, Tracks, Independent, ReducedColumns, Cleared, OnMatrix, IsInverse, RowOp.Valid, GfInv;
    ProgressShape(out, orig, cur, n, i);
    if i == n {
      ProgressEnd(out, orig, cur, n);
      b := out;
    } else {
      var r := PivotRow(out, orig, cur, n, i);
      SwapKeepsColumns(cur, n, i, r);
      SwapBringsPivot(cur, n, i, r);
      SwapIsValid(i, r, n);
      ProgressOp(Swap(i, r), out, orig, cur, n, i);
      var out1, cur1 := OnMatrix(Swap(i, r), out, n), OnMatrix(Swap(i, r), cur, n);
      var t := GfInv(cur1[i][i]);
      ScaleMakesPivot(cur1, n, i, t);
      ScaleIsValid(i, t, n);
      ProgressOp(ScaleBy(i, t), out1, orig, cur1, n, i);
      var out2, cur2 := OnMatrix(ScaleBy(i, t), out1, n), OnMatrix(ScaleBy(i, t), cur1, n);
      PivotCleared(cur2, n, i);
      var out3, cur3 := ClearFrom(out2, orig, cur2, n, i, 0);
      ProgressColumn(out3, orig, cur3, n, i);
      b := InverseFrom(out3, orig, cur3, n, i + 1);
    }
  }

  lemma ProgressShape(out: Matrix, orig: Matrix, cur: Matrix, n: nat, i: nat)
    requires Progress(out, orig, cur, n, i)
    ensures IsMatrix(out, n, n) && IsMatrix(cur, n, n) && ReducedColumns(cur, n, i)
  {
    hide MapsAlike, Independent;
  }

  lemma SwapIsValid(i: nat, r: nat, n: nat)
    requires i < n && r < n
    ensures Swap(i, r).Valid(n)
  {}

  lemma PivotCleared(a: Matrix, n: nat, i: nat)
    requires IsMatrix(a, n, n) && i < n && a[i][i] == 1
    ensures Cleared(a, n, i, 0)
  {}

  lemma ProgressColumn(out: Matrix, orig: Matrix, cur: Matrix, n: nat, i: nat)
    requires i < n && Progress(out, orig, cur, n, i) && IsMatrix(cur, n, n) && Cleared(cur, n, i, n)
    ensures Progress(out, orig, cur, n, i + 1)
  {
    hide Tracks, Independent;
    ProgressShape(out, orig, cur, n, i);
    ClearedColumn(cur, n, i);
  }

  lemma PivotRow(out: Matrix, orig: Matrix, cur: Matrix, n: nat, i: nat) returns (r: nat)
    requires i < n && Progress(out, orig, cur, n, i) && IsMatrix(orig, n, n) && Independent(orig, n)
    ensures i <= r < n && IsMatrix(cur, n, n) && cur[r][i] != 0
  {
    hide Tracks, Independent, ReducedColumns;
    ProgressShape(out, orig, cur, n, i);
    if forall q :: i <= q < n ==> cur[q][i] == 0 {
      NoPivot(out, orig, cur, n, i);
    }
    r :| i <= r < n && cur[r][i] != 0;
  }

  lemma {:induction false} ClearFrom(out: Matrix, orig: Matrix, cur: Matrix, n: nat, i: nat, j: nat) returns (out': Matrix, cur': Matrix)
    requires i < n && j <= n && Progress(out, orig, cur, n, i) && IsMatrix(cur, n, n) && Cleared(cur, n, i, j)
    ensures Progress(out', orig, cur', n, i) && IsMatrix(cur', n, n) && Cleared(cur', n, i, n)
    decreases n - j
  {
    hide Progress, Tracks, Independent, ReducedColumns, Cleared, OnMatrix, IsInverse, RowOp.Valid, GfInv;
    ProgressShape(out, orig, cur, n, i);
    if j == n {
      out', cur' := out, cur;
    } else if j == i {
      ClearedPivot(cur, n, i);
      out', cur' := ClearFrom(out, orig, cur, n, i, j + 1);
    } else {
      var op := AddTo(j, i, cur[j][i]);
      AddIsValid(j, i, cur[j][i], n);
      AddClears(cur, n, i, j);
      ProgressOp(op, out, orig, cur, n, i);
      out', cur' := ClearFrom(OnMatrix(op, out, n), orig, OnMatrix(op, cur, n), n, i, j + 1);
    }
  }

  lemma ClearedPivot(a: Matrix, n: nat, i: nat)
    requires IsMatrix(a, n, n) && i < n && Cleared(a, n, i, i)
    ensures Cleared(a, n, i, i + 1)
  {}

  function UnitVector(n: nat, i: nat): (u: Vec)
    ensures |u| == n && forall c :: 0 <= c < n ==> u[c] == if c == i then 1 else 0
  {
    seq(n, c requires 0 <= c < n => if c == i then 1 else 0)
  }

  function Identity(n: nat): (a: Matrix)
    ensures IsMatrix(a, n, n) && forall r :: 0 <= r < n ==> a[r] == UnitVector(n, r)
  {
    seq(n, r requires 0 <= r < n => UnitVector(n, r))
  }

  /** A matrix without null vectors has an inverse. */
  lemma InverseExists(a: Matrix, n: nat) returns (b: Matrix)
    requires IsMatrix(a, n, n) && Independent(a, n)
    ensures IsInverse(b, a, n)
  {
    hide Independent, IsInverse, Progress;
    assert IsIdentity(Identity(n), n);
    ProgressStart(Identity(n), a, n);
    b := InverseFrom(Identity(n), a, a, n, 0);
  }

  // -- the transpose

  function Transposed(a: Matrix, rows: nat, cols: nat): (b: Matrix)
    requires IsMatrix(a, rows, cols)
    ensures IsMatrix(b, cols, rows) && forall i, j :: 0 <= i < cols && 0 <= j < rows ==> b[i][j] == a[j][i]
  {
    seq(cols, i requires 0 <= i < cols => seq(rows, j requires 0 <= j < rows => a[j][i]))
  }

  lemma TransposedTwice(a: Matrix, rows: nat, cols: nat)
    requires IsMatrix(a, rows, cols)
    ensures Transposed(Transposed(a, rows, cols), cols, rows) == a
  {
    var b := Transposed(Transposed(a, rows, cols), cols, rows);
    forall i | 0 <= i < rows ensures b[i] == a[i] {}
  }

  /** Moving a matrix to the other side of a dot product transposes it. */
  lemma {:induction false} Adjoint(a: Matrix, rows: nat, cols: nat, v: Vec, w: Vec)
    requires IsMatrix(a, rows, cols) && |v| == rows && |w| == cols
    ensures Dot(v, Apply(a, w)) == Dot(Apply(Transposed(a, rows, cols), v), w)
    decreases rows
  {
    hide Add, Product, Dot;
    var t := Transposed(a, rows, cols);
    if rows == 0 {
      DotNothing(v, Apply(a, w));
      forall i | 0 <= i < cols ensures Apply(t, v)[i] == 0 { DotNothing(t[i], v); }
      DotZero(Apply(t, v), w);
    } else {
      var m := rows - 1;
      var a', v' := a[..m], v[..m];
      var t' := Transposed(a', m, cols);
      Adjoint(a', m, cols, v', w);
      DotLast(v, Apply(a, w));
      assert Apply(a, w)[..m] == Apply(a', w);
      forall i | 0 <= i < cols ensures Apply(t, v)[i] == Plus(Apply(t', v'), Scale(v[m], a[m]))[i] {
        DotLast(t[i], v);
        assert t[i][..m] == t'[i];
        ProductComm(a[m][i], v[m]);
      }
      assert Apply(t, v) == Plus(Apply(t', v'), Scale(v[m], a[m]));
      DotPlusLeft(Apply(t', v'), Scale(v[m], a[m]), w);
      DotScaleLeft(v[m], a[m], w);
    }
  }

  lemma DotNothing(u: Vec, v: Vec)
    requires |u| == |v| == 0
    ensures Dot(u, v) == 0
  {}

  lemma TransposeKeeps(a: Matrix, n: nat)
    requires IsMatrix(a, n, n) && Independent(a, n)
    ensures Independent(Transposed(a, n, n), n)
  {
    var b := InverseExists(a, n);
    hide Apply, Dot, Transposed;
    var t := Transposed(a, n, n);
    forall v: Vec | |v| == n ensures NullOnlyIfZero(t, v) {
      if IsZero(Apply(t, v)) {
        forall i | 0 <= i < n ensures v[i] == 0 { NullAgainst(a, b, n, v, i); }
      }
    }
  }

  lemma NullAgainst(a: Matrix, b: Matrix, n: nat, v: Vec, i: nat)
    requires IsInverse(b, a, n) && |v| == n && i < n && IsZero(Apply(Transposed(a, n, n), v))
    ensures v[i] == 0
  {
    hide Apply, Dot, Transposed;
    var e := UnitVector(n, i);
    var w := Apply(b, e);
    assert Undoes(a, b, e);
    Adjoint(a, n, n, v, w);
    DotZero(Apply(Transposed(a, n, n), v), w);
    DotComm(v, e);
    DotUnit(e, v, i);
  }

  /** Rows and columns of a square matrix are independent together. */
  lemma TransposeIndependent(a: Matrix, n: nat)
    requires IsMatrix(a, n, n)
    ensures Independent(a, n) <==> Independent(Transposed(a, n, n), n)
  {
    hide Independent, Transposed;
    if Independent(a, n) { TransposeKeeps(a, n); }
    if Independent(Transposed(a, n, n), n) {
      TransposeKeeps(Transposed(a, n, n), n);
      TransposedTwice(a, n, n);
    }
  }
}
