/** Vectors and matrices over the byte field, and what elementary row operations do to a linear map. */
module Linear {
  import opened Bits
  import opened GF256
  import opened GFTables

  type Vec = seq<Byte>
  type Matrix = seq<Vec>

  ghost predicate IsMatrix(a: Matrix, rows: nat, cols: nat) {
    |a| == rows && forall r :: 0 <= r < rows ==> |a[r]| == cols
  }

  function Plus(u: Vec, v: Vec): (w: Vec)
    requires |u| == |v|
    ensures |w| == |u|
  {
    seq(|u|, i requires 0 <= i < |u| => Add(u[i], v[i]))
  }

  function Scale(t: Byte, u: Vec): (w: Vec)
    ensures |w| == |u|
  {
    seq(|u|, i requires 0 <= i < |u| => Product(t, u[i]))
  }

  function Dot(u: Vec, v: Vec): Byte
    requires |u| == |v|
  {
    if |u| == 0 then 0
    else Add(Dot(u[..|u| - 1], v[..|u| - 1]), Product(u[|u| - 1], v[|u| - 1]))
  }

  /** The product of a matrix with a column vector. */
  function Apply(a: Matrix, v: Vec): (w: Vec)
    requires IsMatrix(a, |a|, |v|)
    ensures |w| == |a|
  {
    seq(|a|, i requires 0 <= i < |a| => Dot(a[i], v))
  }

  ghost predicate IsZero(v: Vec) {
    forall i :: 0 <= i < |v| ==> v[i] == 0
  }

  ghost predicate IsIdentity(a: Matrix, n: nat)
    requires IsMatrix(a, n, n)
  {
    forall r, c :: 0 <= r < n && 0 <= c < n ==> a[r][c] == if r == c then 1 else 0
  }

  ghost predicate NullOnlyIfZero(a: Matrix, v: Vec)
    requires IsMatrix(a, |a|, |v|)
  {
    IsZero(Apply(a, v)) ==> IsZero(v)
  }

  /** No nonzero vector is mapped to zero: the columns of the matrix are linearly independent. */
  ghost predicate Independent(a: Matrix, n: nat)
    requires IsMatrix(a, |a|, n)
  {
    forall v: Vec :: |v| == n ==> NullOnlyIfZero(a, v)
  }

  // -- bilinearity

  lemma {:induction false} DotPlusLeft(u: Vec, w: Vec, v: Vec)
    requires |u| == |w| == |v|
    ensures Dot(Plus(u, w), v) == Add(Dot(u, v), Dot(w, v))
  {
    hide Add, Product;
    if |u| == 0 {
      AddZero(0);
    } else {
      var n := |u| - 1;
      assert Plus(u, w)[..n] == Plus(u[..n], w[..n]);
      DotPlusLeft(u[..n], w[..n], v[..n]);
      ProductAddLeft(u[n], w[n], v[n]);
      AddSwap(Dot(u[..n], v[..n]), Dot(w[..n], v[..n]), Product(u[n], v[n]), Product(w[n], v[n]));
    }
  }

  lemma {:induction false} DotScaleLeft(t: Byte, u: Vec, v: Vec)
    requires |u| == |v|
    ensures Dot(Scale(t, u), v) == Product(t, Dot(u, v))
  {
    hide Add, Product;
    if |u| == 0 {
      ProductZero(t);
    } else {
      var n := |u| - 1;
      assert Scale(t, u)[..n] == Scale(t, u[..n]);
      DotScaleLeft(t, u[..n], v[..n]);
      ProductAssoc(t, u[n], v[n]);
      ProductAddRight(t, Dot(u[..n], v[..n]), Product(u[n], v[n]));
    }
  }

  lemma {:induction false} DotComm(u: Vec, v: Vec)
    requires |u| == |v|
    ensures Dot(u, v) == Dot(v, u)
  {
    hide Add, Product;
    if |u| > 0 {
      var n := |u| - 1;
      DotComm(u[..n], v[..n]);
      ProductComm(u[n], v[n]);
    }
  }

  lemma ApplyPlus(a: Matrix, v: Vec, w: Vec)
    requires |v| == |w| && IsMatrix(a, |a|, |v|)
    ensures Apply(a, Plus(v, w)) == Plus(Apply(a, v), Apply(a, w))
  {
    hide Add, Product, Dot;
    forall i | 0 <= i < |a| ensures Apply(a, Plus(v, w))[i] == Plus(Apply(a, v), Apply(a, w))[i] {
      DotComm(a[i], Plus(v, w));
      DotPlusLeft(v, w, a[i]);
      DotComm(a[i], v);
      DotComm(a[i], w);
    }
  }

  // -- sparse rows

  lemma {:induction false} DotZero(u: Vec, v: Vec)
    requires |u| == |v| && (IsZero(u) || IsZero(v))
    ensures Dot(u, v) == 0
  {
    hide Add, Product;
    if |u| > 0 {
      var n := |u| - 1;
      DotZero(u[..n], v[..n]);
      ProductZero(u[n]);
      ProductZero(v[n]);
      AddZero(0);
    }
  }

  lemma {:induction false} DotUnit(u: Vec, v: Vec, r: nat)
    requires |u| == |v| && forall c :: 0 <= c < |u| ==> u[c] == if c == r then 1 else 0
    ensures Dot(u, v) == if r < |u| then v[r] else 0
  {
    hide Add, Product;
    if |u| > 0 {
      var n := |u| - 1;
      DotUnit(u[..n], v[..n], r);
      ProductZero(v[n]);
      ProductOne(v[n]);
      AddZero(0);
      AddZero(if r < n then v[r] else v[n]);
    }
  }

  lemma {:induction false} DotPrefix(u: Vec, v: Vec, m: nat)
    requires |u| == |v| && m <= |u| && forall c :: m <= c < |v| ==> v[c] == 0
    ensures Dot(u, v) == Dot(u[..m], v[..m])
  {
    hide Add, Product;
    var n := |u| - 1;
    if m == |u| {
      assert u[..m] == u && v[..m] == v;
    } else {
      DotPrefix(u[..n], v[..n], m);
      assert u[..n][..m] == u[..m] && v[..n][..m] == v[..m];
      ProductZero(u[n]);
      AddZero(Dot(u[..n], v[..n]));
    }
  }

  lemma ApplyIdentity(a: Matrix, v: Vec)
    requires IsMatrix(a, |v|, |v|) && IsIdentity(a, |v|)
    ensures Apply(a, v) == v
  {
    forall i | 0 <= i < |v| ensures Apply(a, v)[i] == v[i] {
      hide Add, Product;
      DotUnit(a[i], v, i);
    }
  }

  // -- elementary row operations

  datatype RowOp =
    | Swap(i: nat, j: nat)
    | ScaleBy(i: nat, t: Byte)
    | AddTo(j: nat, i: nat, t: Byte)
  {
    ghost predicate Valid(n: nat) {
      match this
      case Swap(i, j) => i < n && j < n
      case ScaleBy(i, t) => i < n && t != 0
      case AddTo(j, i, _) => i < n && j < n && i != j
    }
  }

  function OnMatrix(op: RowOp, a: Matrix, cols: nat): (b: Matrix)
    requires op.Valid(|a|) && IsMatrix(a, |a|, cols)
    ensures IsMatrix(b, |a|, cols)
  {
    match op
    case Swap(i, j) => a[i := a[j]][j := a[i]]
    case ScaleBy(i, t) => a[i := Scale(t, a[i])]
    case AddTo(j, i, t) => a[j := Plus(a[j], Scale(t, a[i]))]
  }

  function OnVector(op: RowOp, v: Vec): (w: Vec)
    requires op.Valid(|v|)
    ensures |w| == |v|
  {
    match op
    case Swap(i, j) => v[i := v[j]][j := v[i]]
    case ScaleBy(i, t) => v[i := Product(t, v[i])]
    case AddTo(j, i, t) => v[j := Add(v[j], Product(t, v[i]))]
  }

  lemma ApplyRowOp(op: RowOp, a: Matrix, v: Vec)
    requires op.Valid(|a|) && IsMatrix(a, |a|, |v|)
    ensures Apply(OnMatrix(op, a, |v|), v) == OnVector(op, Apply(a, v))
  {
    hide Add, Product, Dot;
    if op.ScaleBy? { DotScaleLeft(op.t, a[op.i], v); }
    if op.AddTo? {
      DotScaleLeft(op.t, a[op.i], v);
      DotPlusLeft(a[op.j], Scale(op.t, a[op.i]), v);
    }
  }

  lemma RowOpKeepsNonzero(op: RowOp, v: Vec)
    requires op.Valid(|v|) && IsZero(OnVector(op, v))
    ensures IsZero(v)
  {
    var w := OnVector(op, v);
    hide Add, Product;
    forall k | 0 <= k < |v| ensures v[k] == 0 {
      match op
      case Swap(i, j) =>
        assert w[k] == 0 && w[i] == 0 && w[j] == 0;
      case ScaleBy(i, t) =>
        assert w[k] == 0;
        ProductNonzero(t, v[i]);
      case AddTo(j, i, t) =>
        assert w[k] == 0 && w[i] == 0;
        ProductZero(t);
        AddZero(v[j]);
    }
  }
}
