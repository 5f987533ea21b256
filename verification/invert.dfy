/** In-place Gauss-Jordan inversion of a flat row-major matrix. */
module Invert {
  import opened Bits
  import opened GF256
  import opened GFTables
  import opened Linear

  // -- flat row-major storage

  lemma RowBound(r: nat, rows: nat, n: nat)
    requires r < rows
    ensures r * n + n <= rows * n
  {
    assert (r + 1) * n <= rows * n;
  }

  function RowOf(s: seq<Byte>, rows: nat, n: nat, r: nat): (u: Vec)
    requires |s| == rows * n && r < rows
    ensures |u| == n
  {
    RowBound(r, rows, n);
    s[r * n..r * n + n]
  }

  /** The matrix stored in a flat sequence. */
  function Rows(s: seq<Byte>, rows: nat, n: nat): (a: Matrix)
    requires |s| == rows * n
    ensures IsMatrix(a, rows, n)
  {
    seq(rows, r requires 0 <= r < rows => RowOf(s, rows, n, r))
  }

  lemma RowsShape(s: seq<Byte>, rows: nat, n: nat)
    requires |s| == rows * n
    ensures |Rows(s, rows, n)| == rows && forall r :: 0 <= r < rows ==> |Rows(s, rows, n)[r]| == n
  {}

  lemma IndexBound(rows: nat, n: nat, r: nat, c: nat)
    requires r < rows && c < n
    ensures r * n + c < rows * n
  {
    RowBound(r, rows, n);
  }

  lemma DistinctRows(n: nat, r: nat, q: nat)
    requires r < q
    ensures r * n + n <= q * n
  {
    RowBound(r, q, n);
  }

  function SetEntry(a: Matrix, r: nat, c: nat, b: Byte): Matrix
    requires r < |a| && c < |a[r]|
  {
    a[r := Put(a[r], c, b)]
  }

  function Put(u: Vec, c: nat, b: Byte): Vec
    requires c < |u|
  {
    u[..c] + [b] + u[c + 1..]
  }

  /** Where row q lies relative to element c of row r. */
  lemma RowPosition(rows: nat, n: nat, r: nat, c: nat, q: nat)
    requires r < rows && q < rows && c < n
    ensures r * n + c < rows * n && q * n + n <= rows * n
    ensures q * n <= r * n + c < q * n + n <==> q == r
  {
    IndexBound(rows, n, r, c);
    RowBound(q, rows, n);
    if q < r { DistinctRows(n, q, r); } else if r < q { DistinctRows(n, r, q); }
  }

  lemma RowAfter(s: seq<Byte>, rows: nat, n: nat, r: nat, c: nat, b: Byte, q: nat)
    requires |s| == rows * n && r < rows && c < n && q < rows && r * n + c < |s|
    ensures RowOf(s[r * n + c := b], rows, n, q) == if q == r then Put(RowOf(s, rows, n, r), c, b) else RowOf(s, rows, n, q)
  {
    hide *;
    RowPosition(rows, n, r, c, q);
    var lo, at := q * n, r * n + c;
    RowIsSlice(s, rows, n, q, lo);
    RowIsSlice(s[at := b], rows, n, q, lo);
    SliceUpdate(s, lo, n, at, b);
  }

  lemma RowIsSlice(s: seq<Byte>, rows: nat, n: nat, q: nat, lo: nat)
    requires |s| == rows * n && q < rows && lo == q * n
    ensures lo + n <= |s| && RowOf(s, rows, n, q) == s[lo..lo + n]
  {
    RowBound(q, rows, n);
  }

  /** Writing one flat element changes one matrix entry. */
  lemma RowsUpdate(s: seq<Byte>, rows: nat, n: nat, r: nat, c: nat, b: Byte)
    requires |s| == rows * n && r < rows && c < n
    ensures r * n + c < |s| && s[r * n + c] == Rows(s, rows, n)[r][c]
    ensures Rows(s[r * n + c := b], rows, n) == SetEntry(Rows(s, rows, n), r, c, b)
  {
    RowPosition(rows, n, r, c, r);
    assert s[r * n + c] == RowOf(s, rows, n, r)[c];
    hide RowOf, Put;
    forall q | 0 <= q < rows
      ensures RowOf(s[r * n + c := b], rows, n, q) == if q == r then Put(RowOf(s, rows, n, r), c, b) else RowOf(s, rows, n, q)
    {
      RowAfter(s, rows, n, r, c, b, q);
    }
  }

  lemma SliceUpdate(s: seq<Byte>, lo: nat, n: nat, k: nat, b: Byte)
    requires lo + n <= |s| && k < |s|
    ensures lo <= k < lo + n ==> s[k := b][lo..lo + n] == Put(s[lo..lo + n], k - lo, b)
    ensures !(lo <= k < lo + n) ==> s[k := b][lo..lo + n] == s[lo..lo + n]
  {}

  // -- what every step keeps

  ghost predicate MapsAlike(out: Matrix, orig: Matrix, cur: Matrix, v: Vec)
    requires IsMatrix(out, |v|, |v|) && IsMatrix(orig, |v|, |v|) && IsMatrix(cur, |v|, |v|)
  {
    Apply(out, Apply(orig, v)) == Apply(cur, v)
  }

  /** `out` maps whatever the original maps to what the current matrix maps. */
  ghost predicate Tracks(out: Matrix, orig: Matrix, cur: Matrix, n: nat) {
    IsMatrix(out, n, n) && IsMatrix(orig, n, n) && IsMatrix(cur, n, n)
    && forall v: Vec :: |v| == n ==> MapsAlike(out, orig, cur, v)
  }

  /** The first `i` columns are those of the identity. */
  ghost predicate ReducedColumns(a: Matrix, n: nat, i: nat)
    requires IsMatrix(a, n, n)
  {
    forall r, c :: 0 <= r < n && 0 <= c < n && c < i ==> a[r][c] == if r == c then 1 else 0
  }

  lemma MapsAlikeRowOp(op: RowOp, out: Matrix, orig: Matrix, cur: Matrix, n: nat, v: Vec)
    requires IsMatrix(out, n, n) && IsMatrix(orig, n, n) && IsMatrix(cur, n, n) && op.Valid(n) && |v| == n
    requires MapsAlike(out, orig, cur, v)
    ensures MapsAlike(OnMatrix(op, out, n), orig, OnMatrix(op, cur, n), v)
  {
    hide OnMatrix, OnVector, Apply;
    ApplyRowOp(op, out, Apply(orig, v));
    ApplyRowOp(op, cur, v);
  }

  lemma TracksRowOp(op: RowOp, out: Matrix, orig: Matrix, cur: Matrix, n: nat)
    requires Tracks(out, orig, cur, n) && op.Valid(n)
    ensures Tracks(OnMatrix(op, out, n), orig, OnMatrix(op, cur, n), n)
  {
    hide OnMatrix, OnVector, Apply, MapsAlike;
    forall v: Vec | |v| == n ensures MapsAlike(OnMatrix(op, out, n), orig, OnMatrix(op, cur, n), v) {
      MapsAlikeRowOp(op, out, orig, cur, n, v);
    }
  }

  lemma IndependentRowOp(op: RowOp, a: Matrix, n: nat)
    requires IsMatrix(a, n, n) && Independent(a, n) && op.Valid(n)
    ensures Independent(OnMatrix(op, a, n), n)
  {
    hide OnMatrix, OnVector, Apply, IsZero;
    forall v: Vec | |v| == n ensures NullOnlyIfZero(OnMatrix(op, a, n), v) {
      if IsZero(Apply(OnMatrix(op, a, n), v)) {
        assert NullOnlyIfZero(a, v);
        ApplyRowOp(op, a, v);
        RowOpKeepsNonzero(op, Apply(a, v));
      }
    }
  }

  // -- the two exits

  ghost predicate Undoes(b: Matrix, a: Matrix, v: Vec)
    requires IsMatrix(a, |v|, |v|) && IsMatrix(b, |v|, |v|)
  {
    Apply(b, Apply(a, v)) == v
  }

  /** A two-sided inverse, as maps on vectors. */
  ghost predicate IsInverse(b: Matrix, a: Matrix, n: nat) {
    IsMatrix(a, n, n) && IsMatrix(b, n, n)
    && forall v: Vec :: |v| == n ==> Undoes(b, a, v) && Undoes(a, b, v)
  }

  lemma PlusZero(u: Vec, v: Vec)
    requires |u| == |v|
    ensures IsZero(Plus(u, v)) <==> u == v
  {
    forall i | 0 <= i < |u| ensures Plus(u, v)[i] == 0 <==> u[i] == v[i] { AddCancel(u[i], v[i]); }
    if IsZero(Plus(u, v)) {
      forall i | 0 <= i < |u| ensures u[i] == v[i] { assert Plus(u, v)[i] == 0; }
    }
  }

  /** A left inverse without null vectors is a two-sided inverse. */
  lemma LeftInverseIsInverse(b: Matrix, a: Matrix, n: nat)
    requires IsMatrix(a, n, n) && IsMatrix(b, n, n) && Independent(b, n)
    requires forall v: Vec :: |v| == n ==> Undoes(b, a, v)
    ensures IsInverse(b, a, n) && Independent(a, n)
  {
    hide Apply, Plus;
    forall v: Vec | |v| == n ensures Undoes(b, a, v) && Undoes(a, b, v) {
      var w := Apply(a, Apply(b, v));
      assert Undoes(b, a, Apply(b, v));
      ApplyPlus(b, w, v);
      PlusZero(Apply(b, w), Apply(b, v));
      assert NullOnlyIfZero(b, Plus(w, v));
      PlusZero(w, v);
    }
    forall v: Vec | |v| == n ensures NullOnlyIfZero(a, v) {
      if IsZero(Apply(a, v)) {
        assert Undoes(b, a, v);
        ApplyZero(b, Apply(a, v));
      }
    }
  }

  lemma ApplyZero(b: Matrix, z: Vec)
    requires IsMatrix(b, |b|, |z|) && IsZero(z)
    ensures IsZero(Apply(b, z))
  {
    forall i | 0 <= i < |b| ensures Dot(b[i], z) == 0 { DotZero(b[i], z); }
  }

  /** Column i of a matrix whose first i columns are reduced, completed to a null vector. */
  function NullVector(a: Matrix, n: nat, i: nat): (v: Vec)
    requires IsMatrix(a, n, n) && i < n
    ensures |v| == n
  {
    seq(n, c requires 0 <= c < n => if c < i then a[c][i] else if c == i then 1 else 0)
  }

  /** Without a pivot at or below row i the current matrix, and hence the original, is singular. */
  lemma NoPivot(out: Matrix, orig: Matrix, cur: Matrix, n: nat, i: nat)
    requires Tracks(out, orig, cur, n) && Independent(out, n) && i < n && ReducedColumns(cur, n, i)
    requires forall r :: i <= r < n ==> cur[r][i] == 0
    ensures !Independent(orig, n)
  {
    hide MapsAlike, Apply, NullOnlyIfZero, NullVector, ReducedColumns;
    var v := NullVector(cur, n, i);
    NullVectorIsNull(cur, n, i);
    NullAtOriginal(out, orig, cur, n, v);
  }

  lemma NullAtOriginal(out: Matrix, orig: Matrix, cur: Matrix, n: nat, v: Vec)
    requires IsMatrix(out, n, n) && IsMatrix(orig, n, n) && IsMatrix(cur, n, n) && |v| == n
    requires MapsAlike(out, orig, cur, v) && NullOnlyIfZero(out, Apply(orig, v)) && IsZero(Apply(cur, v)) && !IsZero(v)
    ensures !NullOnlyIfZero(orig, v)
  {
    hide Apply, IsZero;
  }

  lemma NullVectorIsNull(cur: Matrix, n: nat, i: nat)
    requires IsMatrix(cur, n, n) && i < n && ReducedColumns(cur, n, i)
    requires forall r :: i <= r < n ==> cur[r][i] == 0
    ensures IsZero(Apply(cur, NullVector(cur, n, i))) && !IsZero(NullVector(cur, n, i))
  {
    assert NullVector(cur, n, i)[i] == 1;
    var v := NullVector(cur, n, i);
    forall r | 0 <= r < n ensures Apply(cur, v)[r] == 0 { NullRow(cur, n, i, r); }
  }

  lemma NullRow(cur: Matrix, n: nat, i: nat, r: nat)
    requires IsMatrix(cur, n, n) && i < n && r < n && ReducedColumns(cur, n, i)
    requires forall q :: i <= q < n ==> cur[q][i] == 0
    ensures Dot(cur[r], NullVector(cur, n, i)) == 0
  {
    var v, u := NullVector(cur, n, i), cur[r];
    hide Add, Product, Dot;
    DotPrefix(u, v, i + 1);
    var u', v' := u[..i + 1], v[..i + 1];
    assert u'[..i] == u[..i] && v'[..i] == v[..i];
    DotUnit(u[..i], v[..i], r);
    DotLast(u', v');
    ProductOne(u[i]);
    AddZero(u[i]);
  }

  lemma DotLast(u: Vec, v: Vec)
    requires |u| == |v| > 0
    ensures Dot(u, v) == Add(Dot(u[..|u| - 1], v[..|u| - 1]), Product(u[|u| - 1], v[|u| - 1]))
  {}

  // -- how one pass of the elimination shapes the columns

  lemma SwapKeepsColumns(a: Matrix, n: nat, i: nat, j: nat)
    requires IsMatrix(a, n, n) && i <= j < n && ReducedColumns(a, n, i)
    ensures ReducedColumns(OnMatrix(Swap(i, j), a, n), n, i)
  {}

  lemma ScaleMakesPivot(a: Matrix, n: nat, i: nat, t: Byte)
    requires IsMatrix(a, n, n) && i < n && ReducedColumns(a, n, i) && t != 0 && Product(a[i][i], t) == 1
    ensures ReducedColumns(OnMatrix(ScaleBy(i, t), a, n), n, i)
    ensures OnMatrix(ScaleBy(i, t), a, n)[i][i] == 1
  {
    hide Product;
    ProductZero(t);
    ProductComm(a[i][i], t);
  }

  /** Rows 0 to j, except the pivot row, are zero in column i, where the pivot is one. */
  ghost predicate Cleared(a: Matrix, n: nat, i: nat, j: nat)
    requires IsMatrix(a, n, n) && i < n
  {
    a[i][i] == 1 && forall r :: 0 <= r < n && r < j && r != i ==> a[r][i] == 0
  }

  lemma AddClears(a: Matrix, n: nat, i: nat, j: nat)
    requires IsMatrix(a, n, n) && i < n && j < n && i != j && ReducedColumns(a, n, i) && Cleared(a, n, i, j)
    ensures ReducedColumns(OnMatrix(AddTo(j, i, a[j][i]), a, n), n, i)
    ensures Cleared(OnMatrix(AddTo(j, i, a[j][i]), a, n), n, i, j + 1)
  {
    hide Product, Add;
    var t := a[j][i];
    ProductZero(t);
    ProductOne(t);
    AddZero(t);
    forall c | 0 <= c < i ensures Add(a[j][c], Product(t, a[i][c])) == a[j][c] {
      AddZero(a[j][c]);
    }
  }

  // -- the loops

  function Get(m: array<Byte>, rows: nat, n: nat, r: nat, c: nat): (b: Byte)
    requires m.Length == rows * n && r < rows && c < n
    reads m
    ensures b == Rows(m[..], rows, n)[r][c]
  {
    RowsUpdate(m[..], rows, n, r, c, 0);
    m[r * n + c]
  }

  /** The store of element c of row r. */
  method Set(m: array<Byte>, rows: nat, n: nat, r: nat, c: nat, b: Byte)
    requires m.Length == rows * n && r < rows && c < n
    modifies m
    ensures Rows(m[..], rows, n) == SetEntry(old(Rows(m[..], rows, n)), r, c, b)
  {
    RowsUpdate(m[..], rows, n, r, c, b);
    ghost var was := m[..];
    m[r * n + c] := b;
    assert m[..] == was[r * n + c := b];
  }

  /** A matrix whose row `q` has been replaced by `target` up to column `k`. */
  function Partial(a: Matrix, q: nat, target: Vec, k: nat): Matrix
    requires q < |a| && |a[q]| == |target| && k <= |target|
  {
    a[q := target[..k] + a[q][k..]]
  }

  lemma PartialStep(a: Matrix, q: nat, target: Vec, k: nat)
    requires q < |a| && |a[q]| == |target| && k < |target|
    ensures SetEntry(Partial(a, q, target, k), q, k, target[k]) == Partial(a, q, target, k + 1)
  {
    assert Put(target[..k] + a[q][k..], k, target[k]) == target[..k + 1] + a[q][k + 1..];
  }

  lemma PartialEnds(a: Matrix, q: nat, target: Vec)
    requires q < |a| && |a[q]| == |target|
    ensures Partial(a, q, target, 0) == a && Partial(a, q, target, |target|) == a[q := target]
  {
    assert target[..0] + a[q][0..] == a[q];
    assert target[..|target|] + a[q][|target|..] == target;
  }

  lemma ScaledEntry(a: Matrix, n: nat, i: nat, temp: Byte, j: nat)
    requires IsMatrix(a, n, n) && i < n && j < n
    ensures Partial(a, i, Scale(temp, a[i]), j)[i][j] == a[i][j]
    ensures Product(a[i][j], temp) == Scale(temp, a[i])[j]
  {
    ProductComm(a[i][j], temp);
  }

  lemma AddedEntry(a: Matrix, n: nat, j: nat, i: nat, temp: Byte, k: nat)
    requires IsMatrix(a, n, n) && i < n && j < n && i != j && k < n
    ensures Partial(a, j, Plus(a[j], Scale(temp, a[i])), k)[j][k] == a[j][k]
    ensures Partial(a, j, Plus(a[j], Scale(temp, a[i])), k)[i][k] == a[i][k]
    ensures Add(a[j][k], Product(temp, a[i][k])) == Plus(a[j], Scale(temp, a[i]))[k]
  {}

  /** Scales row i of both matrices. */
  method ScaleRow(inMat: array<Byte>, outMat: array<Byte>, n: nat, i: nat, temp: Byte)
    requires inMat.Length == n * n && outMat.Length == n * n && inMat != outMat && i < n && temp != 0
    modifies inMat, outMat
    ensures Rows(inMat[..], n, n) == OnMatrix(ScaleBy(i, temp), old(Rows(inMat[..], n, n)), n)
    ensures Rows(outMat[..], n, n) == OnMatrix(ScaleBy(i, temp), old(Rows(outMat[..], n, n)), n)
  {
    ghost var a, b := Rows(inMat[..], n, n), Rows(outMat[..], n, n);
    assert OnMatrix(ScaleBy(i, temp), a, n) == a[i := Scale(temp, a[i])] && OnMatrix(ScaleBy(i, temp), b, n) == b[i := Scale(temp, b[i])];
    hide Rows, RowOf, Partial, SetEntry, Put, OnMatrix, Scale, GfMul, Product;
    ghost var ta, tb := Scale(temp, a[i]), Scale(temp, b[i]);
    PartialEnds(a, i, ta);
    PartialEnds(b, i, tb);
    var j := 0;
    while j < n
      invariant 0 <= j <= n
      invariant Rows(inMat[..], n, n) == Partial(a, i, ta, j) && Rows(outMat[..], n, n) == Partial(b, i, tb, j)
    {
      ScaledEntry(a, n, i, temp, j);
      ScaledEntry(b, n, i, temp, j);
      PartialStep(a, i, ta, j);
      PartialStep(b, i, tb, j);
      Set(inMat, n, n, i, j, GfMul(Get(inMat, n, n, i, j), temp));
      Set(outMat, n, n, i, j, GfMul(Get(outMat, n, n, i, j), temp));
      j := j + 1;
    }
  }

  /** One element of a row addition. */
  method AddElement(m: array<Byte>, n: nat, j: nat, i: nat, temp: Byte, k: nat, ghost a: Matrix)
    requires m.Length == n * n && i < n && j < n && i != j && k < n && IsMatrix(a, n, n)
    requires Rows(m[..], n, n) == Partial(a, j, Plus(a[j], Scale(temp, a[i])), k)
    modifies m
    ensures Rows(m[..], n, n) == Partial(a, j, Plus(a[j], Scale(temp, a[i])), k + 1)
  {
    hide Rows, RowOf, Partial, SetEntry, Put, Scale, Plus, GfMul, Product, Add, Xor;
    AddedEntry(a, n, j, i, temp, k);
    PartialStep(a, j, Plus(a[j], Scale(temp, a[i])), k);
    Set(m, n, n, j, k, Add(Get(m, n, n, j, k), GfMul(temp, Get(m, n, n, i, k))));
  }

  /** Adds `temp` times row i to row j, in both matrices. */
  method AddRow(inMat: array<Byte>, outMat: array<Byte>, n: nat, j: nat, i: nat, temp: Byte)
    requires inMat.Length == n * n && outMat.Length == n * n && inMat != outMat && i < n && j < n && i != j
    modifies inMat, outMat
    ensures Rows(inMat[..], n, n) == OnMatrix(AddTo(j, i, temp), old(Rows(inMat[..], n, n)), n)
    ensures Rows(outMat[..], n, n) == OnMatrix(AddTo(j, i, temp), old(Rows(outMat[..], n, n)), n)
  {
    ghost var a, b := Rows(inMat[..], n, n), Rows(outMat[..], n, n);
    ghost var ta, tb := Plus(a[j], Scale(temp, a[i])), Plus(b[j], Scale(temp, b[i]));
    assert OnMatrix(AddTo(j, i, temp), a, n) == a[j := ta] && OnMatrix(AddTo(j, i, temp), b, n) == b[j := tb];
    hide Rows, RowOf, Partial, SetEntry, Put, OnMatrix, Scale, Plus;
    PartialEnds(a, j, ta);
    PartialEnds(b, j, tb);
    var k := 0;
    while k < n
      invariant 0 <= k <= n
      invariant Rows(inMat[..], n, n) == Partial(a, j, ta, k) && Rows(outMat[..], n, n) == Partial(b, j, tb, k)
    {
      AddElement(outMat, n, j, i, temp, k, b);
      AddElement(inMat, n, j, i, temp, k, a);
      k := k + 1;
    }
  }

  /** One element of a row exchange. */
  method SwapElement(m: array<Byte>, n: nat, i: nat, j: nat, k: nat, ghost a: Matrix)
    requires m.Length == n * n && i < n && j < n && i != j && k < n && IsMatrix(a, n, n)
    requires Rows(m[..], n, n) == Swapped(a, n, i, j, k)
    modifies m
    ensures Rows(m[..], n, n) == Swapped(a, n, i, j, k + 1)
  {
    hide Rows, RowOf, SetEntry, Put, Swapped;
    SwappedStep(a, n, i, j, k);
    var temp := Get(m, n, n, i, k);
    Set(m, n, n, i, k, Get(m, n, n, j, k));
    Set(m, n, n, j, k, temp);
  }

  /** Exchanges rows i and j of both matrices. */
  method SwapRows(inMat: array<Byte>, outMat: array<Byte>, n: nat, i: nat, j: nat)
    requires inMat.Length == n * n && outMat.Length == n * n && inMat != outMat && i < n && j < n && i != j
    modifies inMat, outMat
    ensures Rows(inMat[..], n, n) == OnMatrix(Swap(i, j), old(Rows(inMat[..], n, n)), n)
    ensures Rows(outMat[..], n, n) == OnMatrix(Swap(i, j), old(Rows(outMat[..], n, n)), n)
  {
    ghost var a, b := Rows(inMat[..], n, n), Rows(outMat[..], n, n);
    assert OnMatrix(Swap(i, j), a, n) == a[i := a[j]][j := a[i]] && OnMatrix(Swap(i, j), b, n) == b[i := b[j]][j := b[i]];
    hide Rows, RowOf, OnMatrix, Swapped;
    SwappedEnds(a, n, i, j);
    SwappedEnds(b, n, i, j);
    var k := 0;
    while k < n
      invariant 0 <= k <= n
      invariant Rows(inMat[..], n, n) == Swapped(a, n, i, j, k) && Rows(outMat[..], n, n) == Swapped(b, n, i, j, k)
    {
      SwapElement(inMat, n, i, j, k, a);
      SwapElement(outMat, n, i, j, k, b);
      k := k + 1;
    }
  }

  /** Rows i and j exchanged up to column k. */
  function Swapped(a: Matrix, n: nat, i: nat, j: nat, k: nat): (b: Matrix)
    requires IsMatrix(a, n, n) && i < n && j < n && i != j && k <= n
    ensures IsMatrix(b, n, n)
  {
    a[i := a[j][..k] + a[i][k..]][j := a[i][..k] + a[j][k..]]
  }

  lemma SwappedEnds(a: Matrix, n: nat, i: nat, j: nat)
    requires IsMatrix(a, n, n) && i < n && j < n && i != j
    ensures Swapped(a, n, i, j, 0) == a && Swapped(a, n, i, j, n) == a[i := a[j]][j := a[i]]
  {
    assert a[j][..0] + a[i][0..] == a[i] && a[i][..0] + a[j][0..] == a[j];
    assert a[j][..n] + a[i][n..] == a[j] && a[i][..n] + a[j][n..] == a[i];
  }

  lemma SwappedStep(a: Matrix, n: nat, i: nat, j: nat, k: nat)
    requires IsMatrix(a, n, n) && i < n && j < n && i != j && k < n
    ensures Swapped(a, n, i, j, k)[i][k] == a[i][k] && Swapped(a, n, i, j, k)[j][k] == a[j][k]
    ensures SetEntry(SetEntry(Swapped(a, n, i, j, k), i, k, a[j][k]), j, k, a[i][k]) == Swapped(a, n, i, j, k + 1)
  {
    assert Put(a[j][..k] + a[i][k..], k, a[j][k]) == a[j][..k + 1] + a[i][k + 1..];
    assert Put(a[i][..k] + a[j][k..], k, a[i][k]) == a[i][..k + 1] + a[j][k + 1..];
  }

  /** Writes the identity matrix. */
  method SetIdentity(m: array<Byte>, n: nat)
    requires m.Length == n * n
    modifies m
    ensures IsIdentity(Rows(m[..], n, n), n)
  {
    var i := 0;
    while i < n * n
      invariant 0 <= i <= n * n
      invariant forall k :: 0 <= k < i ==> m[k] == 0
    {
      m[i] := 0;
      i := i + 1;
    }
    AllZero(m[..], n, n);
    hide Rows, RowOf;
    i := 0;
    while i < n
      invariant 0 <= i <= n
      invariant forall r, c :: 0 <= r < n && 0 <= c < n ==> Rows(m[..], n, n)[r][c] == if r == c && r < i then 1 else 0
    {
      Set(m, n, n, i, i, 1);
      i := i + 1;
    }
  }

  lemma AllZero(s: seq<Byte>, rows: nat, n: nat)
    requires |s| == rows * n && forall k :: 0 <= k < |s| ==> s[k] == 0
    ensures forall r, c :: 0 <= r < rows && 0 <= c < n ==> Rows(s, rows, n)[r][c] == 0
  {
    hide RowOf, SetEntry;
    forall r, c | 0 <= r < rows && 0 <= c < n ensures Rows(s, rows, n)[r][c] == 0 {
      RowsUpdate(s, rows, n, r, c, 0);
    }
  }

  /** What holds before step i: `out` is a product of elementary operations that turns the original matrix into the
      current one, and the first i columns are done. */
  ghost predicate Progress(out: Matrix, orig: Matrix, cur: Matrix, n: nat, i: nat) {
    Tracks(out, orig, cur, n) && Independent(out, n) && ReducedColumns(cur, n, i)
  }

  lemma ProgressOp(op: RowOp, out: Matrix, orig: Matrix, cur: Matrix, n: nat, i: nat)
    requires Progress(out, orig, cur, n, i) && op.Valid(n)
    requires ReducedColumns(OnMatrix(op, cur, n), n, i)
    ensures Progress(OnMatrix(op, out, n), orig, OnMatrix(op, cur, n), n, i)
  {
    hide OnMatrix, Apply, MapsAlike, NullOnlyIfZero, ReducedColumns;
    TracksRowOp(op, out, orig, cur, n);
    IndependentRowOp(op, out, n);
  }

  lemma ProgressStart(out: Matrix, orig: Matrix, n: nat)
    requires IsMatrix(out, n, n) && IsMatrix(orig, n, n) && IsIdentity(out, n)
    ensures Progress(out, orig, orig, n, 0)
  {
    hide Apply;
    forall v: Vec | |v| == n ensures MapsAlike(out, orig, orig, v) && NullOnlyIfZero(out, v) {
      ApplyIdentity(out, Apply(orig, v));
      ApplyIdentity(out, v);
    }
  }

  lemma IdentityUndoes(out: Matrix, orig: Matrix, cur: Matrix, n: nat, v: Vec)
    requires IsMatrix(out, n, n) && IsMatrix(orig, n, n) && IsMatrix(cur, n, n) && |v| == n
    requires MapsAlike(out, orig, cur, v) && IsIdentity(cur, n)
    ensures Undoes(out, orig, v)
  {
    hide Apply;
    ApplyIdentity(cur, v);
  }

  lemma ProgressEnd(out: Matrix, orig: Matrix, cur: Matrix, n: nat)
    requires Progress(out, orig, cur, n, n)
    ensures IsInverse(out, orig, n) && Independent(orig, n) && IsIdentity(cur, n)
  {
    assert IsIdentity(cur, n);
    hide Apply, NullOnlyIfZero, MapsAlike, Undoes, IsIdentity, ReducedColumns;
    forall v: Vec | |v| == n ensures Undoes(out, orig, v) {
      IdentityUndoes(out, orig, cur, n, v);
    }
    LeftInverseIsInverse(out, orig, n);
  }

  lemma ClearedColumn(a: Matrix, n: nat, i: nat)
    requires IsMatrix(a, n, n) && i < n && ReducedColumns(a, n, i) && Cleared(a, n, i, n)
    ensures ReducedColumns(a, n, i + 1)
  {}

  /** The same of the stored matrices. */
  ghost predicate Stage(outS: seq<Byte>, inS: seq<Byte>, orig: Matrix, n: nat, i: nat) {
    |outS| == n * n && |inS| == n * n && Progress(Rows(outS, n, n), orig, Rows(inS, n, n), n, i)
  }

  /** The column cleared down to row j. */
  ghost predicate StoredCleared(inS: seq<Byte>, n: nat, i: nat, j: nat) {
    |inS| == n * n && i < n && Cleared(Rows(inS, n, n), n, i, j)
  }

  lemma StageOp(op: RowOp, outS: seq<Byte>, inS: seq<Byte>, outS': seq<Byte>, inS': seq<Byte>, orig: Matrix, n: nat, i: nat)
    requires Stage(outS, inS, orig, n, i) && op.Valid(n) && |outS'| == n * n && |inS'| == n * n
    requires Rows(outS', n, n) == OnMatrix(op, Rows(outS, n, n), n)
    requires Rows(inS', n, n) == OnMatrix(op, Rows(inS, n, n), n)
    requires ReducedColumns(OnMatrix(op, Rows(inS, n, n), n), n, i)
    ensures Stage(outS', inS', orig, n, i)
  {
    hide Rows, RowOf, OnMatrix, Progress, ReducedColumns;
    ProgressOp(op, Rows(outS, n, n), orig, Rows(inS, n, n), n, i);
  }

  /** Clears row j in column i. */
  method ClearRow(inMat: array<Byte>, outMat: array<Byte>, n: nat, i: nat, j: nat, ghost orig: Matrix)
    requires inMat.Length == n * n && outMat.Length == n * n && inMat != outMat && i < n && j < n && i != j
    requires Stage(outMat[..], inMat[..], orig, n, i) && StoredCleared(inMat[..], n, i, j)
    modifies inMat, outMat
    ensures Stage(outMat[..], inMat[..], orig, n, i) && StoredCleared(inMat[..], n, i, j + 1)
  {
    hide *;
    ghost var inS, outS := inMat[..], outMat[..];
    StageColumns(outS, inS, orig, n, i);
    ClearedColumns(inS, n, i, j);
    var temp := Get(inMat, n, n, j, i);
    AddClears(Rows(inS, n, n), n, i, j);
    AddRow(inMat, outMat, n, j, i, temp);
    AddIsValid(j, i, temp, n);
    StageOp(AddTo(j, i, temp), outS, inS, outMat[..], inMat[..], orig, n, i);
    ClearedStored(inMat[..], n, i, j + 1);
  }

  lemma StageColumns(outS: seq<Byte>, inS: seq<Byte>, orig: Matrix, n: nat, i: nat)
    requires Stage(outS, inS, orig, n, i)
    ensures |inS| == n * n && |outS| == n * n && IsMatrix(Rows(inS, n, n), n, n) && ReducedColumns(Rows(inS, n, n), n, i)
  {
    hide Rows;
  }

  lemma ClearedColumns(inS: seq<Byte>, n: nat, i: nat, j: nat)
    requires StoredCleared(inS, n, i, j)
    ensures |inS| == n * n && i < n && IsMatrix(Rows(inS, n, n), n, n) && Cleared(Rows(inS, n, n), n, i, j)
  {
    hide Rows;
  }

  lemma ClearedStored(inS: seq<Byte>, n: nat, i: nat, j: nat)
    requires |inS| == n * n && i < n && IsMatrix(Rows(inS, n, n), n, n) && Cleared(Rows(inS, n, n), n, i, j)
    ensures StoredCleared(inS, n, i, j)
  {
    hide Rows;
  }

  lemma AddIsValid(j: nat, i: nat, t: Byte, n: nat)
    requires i < n && j < n && i != j
    ensures AddTo(j, i, t).Valid(n)
  {}

  /** Clears column i above and below the pivot. */
  method ClearColumn(inMat: array<Byte>, outMat: array<Byte>, n: nat, i: nat, ghost orig: Matrix)
    requires inMat.Length == n * n && outMat.Length == n * n && inMat != outMat && i < n
    requires Stage(outMat[..], inMat[..], orig, n, i) && StoredCleared(inMat[..], n, i, 0)
    modifies inMat, outMat
    ensures Stage(outMat[..], inMat[..], orig, n, i + 1)
  {
    var j := 0;
    hide Stage, StoredCleared;
    while j < n
      invariant 0 <= j <= n
      invariant Stage(outMat[..], inMat[..], orig, n, i) && StoredCleared(inMat[..], n, i, j)
    {
      if j != i {
        ClearRow(inMat, outMat, n, i, j, orig);
      } else {
        SkipPivot(inMat[..], n, i);
      }
      j := j + 1;
    }
    ColumnDone(outMat[..], inMat[..], orig, n, i);
  }

  lemma SkipPivot(inS: seq<Byte>, n: nat, i: nat)
    requires StoredCleared(inS, n, i, i)
    ensures StoredCleared(inS, n, i, i + 1)
  {
    hide Rows;
  }

  lemma ColumnDone(outS: seq<Byte>, inS: seq<Byte>, orig: Matrix, n: nat, i: nat)
    requires Stage(outS, inS, orig, n, i) && StoredCleared(inS, n, i, n)
    ensures Stage(outS, inS, orig, n, i + 1)
  {
    hide Rows, Tracks, Independent;
    ClearedColumn(Rows(inS, n, n), n, i);
  }

  /** Finds a nonzero element in column i at or below row i and brings it to row i; reports whether there is one. */
  method FindPivot(inMat: array<Byte>, outMat: array<Byte>, n: nat, i: nat, ghost orig: Matrix) returns (found: bool)
    requires inMat.Length == n * n && outMat.Length == n * n && inMat != outMat && i < n
    requires Stage(outMat[..], inMat[..], orig, n, i)
    modifies inMat, outMat
    ensures found ==> Stage(outMat[..], inMat[..], orig, n, i) && Rows(inMat[..], n, n)[i][i] != 0
    ensures !found ==> IsMatrix(orig, n, n) && !Independent(orig, n)
  {
    hide *;
    ghost var inS, outS := inMat[..], outMat[..];
    StageColumns(outS, inS, orig, n, i);
    RowsShape(inS, n, n);
    if Get(inMat, n, n, i, i) == 0 {
      var j := i + 1;
      while j < n && Get(inMat, n, n, j, i) == 0
        invariant i < j <= n && inMat[..] == inS && outMat[..] == outS
        invariant forall r :: i <= r < j ==> Rows(inS, n, n)[r][i] == 0
      {
        j := j + 1;
      }
      if j == n {
        StageNoPivot(outS, inS, orig, n, i);
        return false;
      }
      SwapKeepsColumns(Rows(inS, n, n), n, i, j);
      SwapBringsPivot(Rows(inS, n, n), n, i, j);
      SwapRows(inMat, outMat, n, i, j);
      StageOp(Swap(i, j), outS, inS, outMat[..], inMat[..], orig, n, i);
    }
    return true;
  }

  lemma StageNoPivot(outS: seq<Byte>, inS: seq<Byte>, orig: Matrix, n: nat, i: nat)
    requires Stage(outS, inS, orig, n, i) && i < n
    requires forall r :: i <= r < n ==> Rows(inS, n, n)[r][i] == 0
    ensures IsMatrix(orig, n, n) && !Independent(orig, n)
  {
    hide Rows, Tracks, Independent;
    NoPivot(Rows(outS, n, n), orig, Rows(inS, n, n), n, i);
    StageOriginal(outS, inS, orig, n, i);
  }

  lemma StageOriginal(outS: seq<Byte>, inS: seq<Byte>, orig: Matrix, n: nat, i: nat)
    requires Stage(outS, inS, orig, n, i)
    ensures IsMatrix(orig, n, n)
  {
    hide Rows;
  }

  /** Scales the pivot row so that the pivot becomes one. */
  method NormalizePivot(inMat: array<Byte>, outMat: array<Byte>, n: nat, i: nat, ghost orig: Matrix)
    requires inMat.Length == n * n && outMat.Length == n * n && inMat != outMat && i < n
    requires Stage(outMat[..], inMat[..], orig, n, i) && Rows(inMat[..], n, n)[i][i] != 0
    modifies inMat, outMat
    ensures Stage(outMat[..], inMat[..], orig, n, i) && StoredCleared(inMat[..], n, i, 0)
  {
    hide *;
    ghost var inS, outS := inMat[..], outMat[..];
    StageColumns(outS, inS, orig, n, i);
    var temp := GfInv(Get(inMat, n, n, i, i));
    ScaleMakesPivot(Rows(inS, n, n), n, i, temp);
    ScaleIsValid(i, temp, n);
    ScaleRow(inMat, outMat, n, i, temp);
    StageOp(ScaleBy(i, temp), outS, inS, outMat[..], inMat[..], orig, n, i);
    FirstCleared(inMat[..], n, i);
  }

  lemma ScaleIsValid(i: nat, t: Byte, n: nat)
    requires i < n && t != 0
    ensures ScaleBy(i, t).Valid(n)
  {}

  lemma FirstCleared(inS: seq<Byte>, n: nat, i: nat)
    requires |inS| == n * n && i < n && Rows(inS, n, n)[i][i] == 1
    ensures StoredCleared(inS, n, i, 0)
  {
    hide Rows;
  }

  /** Inverts `inMat` into `outMat`; -1 exactly when the matrix has a null vector. On success `inMat` has become the
      identity. */
  method GfInvertMatrix(inMat: array<Byte>, outMat: array<Byte>, n: nat) returns (ret: int)
    requires inMat.Length == n * n && outMat.Length == n * n && inMat != outMat
    modifies inMat, outMat
    ensures ret == 0 || ret == -1
    ensures ret == 0 <==> Independent(old(Rows(inMat[..], n, n)), n)
    ensures ret == 0 ==> IsInverse(Rows(outMat[..], n, n), old(Rows(inMat[..], n, n)), n) && IsIdentity(Rows(inMat[..], n, n), n)
  {
    hide *;
    ghost var orig := Rows(inMat[..], n, n);
    SetIdentity(outMat, n);
    StageStart(outMat[..], inMat[..], n);
    var i := 0;
    while i < n
      invariant 0 <= i <= n
      invariant Stage(outMat[..], inMat[..], orig, n, i)
    {
      var found := FindPivot(inMat, outMat, n, i, orig);
      if !found {
        return -1;
      }
      NormalizePivot(inMat, outMat, n, i, orig);
      ClearColumn(inMat, outMat, n, i, orig);
      i := i + 1;
    }
    StageEnd(outMat[..], inMat[..], orig, n);
    return 0;
  }

  lemma StageStart(outS: seq<Byte>, inS: seq<Byte>, n: nat)
    requires |outS| == n * n && |inS| == n * n && IsIdentity(Rows(outS, n, n), n)
    ensures Stage(outS, inS, Rows(inS, n, n), n, 0)
  {
    hide Rows, IsIdentity, Progress;
    ProgressStart(Rows(outS, n, n), Rows(inS, n, n), n);
  }

  lemma StageEnd(outS: seq<Byte>, inS: seq<Byte>, orig: Matrix, n: nat)
    requires Stage(outS, inS, orig, n, n)
    ensures IsMatrix(orig, n, n) && IsInverse(Rows(outS, n, n), orig, n) && Independent(orig, n) && IsIdentity(Rows(inS, n, n), n)
  {
    ProgressEnd(Rows(outS, n, n), orig, Rows(inS, n, n), n);
  }

  lemma SwapBringsPivot(a: Matrix, n: nat, i: nat, j: nat)
    requires IsMatrix(a, n, n) && i < n && j < n
    ensures Swap(i, j).Valid(n) && OnMatrix(Swap(i, j), a, n)[i][i] == a[j][i]
  {}
}
