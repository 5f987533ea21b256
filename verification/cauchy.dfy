/** Why any k rows of the systematic Cauchy matrix are linearly independent. */
module Cauchy {
  import opened Bits
  import opened GF256
  import opened GFTables
  import opened Linear

  /** (a + d) / a = 1 + d / a, scaled by c. */
  lemma OnePlus(a: Byte, d: Byte, ia: Byte)
    requires Product(a, ia) == 1
    ensures Product(Add(a, d), ia) == Add(1, Product(d, ia))
  {
    hide *;
    ProductAddLeft(a, d, ia);
  }

  /** The identity behind one elimination step: with A = x + y, B = x' + y, D = y + y',
      (A + D) / A + (B + D) / B = (A + B) * (D / B) / A. */
  lemma EliminationTerm(a: Byte, b: Byte, d: Byte, ia: Byte, ib: Byte)
    requires Product(a, ia) == 1 && Product(b, ib) == 1
    ensures Add(Product(Add(a, d), ia), Product(Add(b, d), ib)) == Product(Add(a, b), Product(Product(d, ib), ia))
  {
    hide *;
    OnePlus(a, d, ia);
    OnePlus(b, d, ib);
    AddSwap(1, Product(d, ia), 1, Product(d, ib));
    AddZero(1);
    AddZero(Add(Product(d, ia), Product(d, ib)));
    // the right-hand side, summand by summand
    ProductAddLeft(a, b, Product(Product(d, ib), ia));
    ProductComm(Product(d, ib), ia);
    ProductAssoc(a, ia, Product(d, ib));
    ProductOne(Product(d, ib));
    CancelFactor(b, d, ib, ia);
    AddComm(Product(d, ia), Product(d, ib));
  }

  lemma CancelFactor(b: Byte, d: Byte, ib: Byte, ia: Byte)
    requires Product(b, ib) == 1
    ensures Product(b, Product(ia, Product(d, ib))) == Product(d, ia)
  {
    hide *;
    ProductComm(d, ib);
    ProductAssoc(ia, ib, d);
    ProductComm(ia, ib);
    ProductAssoc(ib, ia, d);
    ProductAssoc(b, ib, Product(ia, d));
    ProductOne(Product(ia, d));
    ProductComm(ia, d);
  }

  // -- Cauchy matrices

  ghost predicate Distinct(s: seq<nat>) {
    forall i, j :: 0 <= i < j < |s| ==> s[i] != s[j]
  }

  ghost predicate Disjoint(s: seq<nat>, t: seq<nat>) {
    forall i, j :: 0 <= i < |s| && 0 <= j < |t| ==> s[i] != t[j]
  }

  /** The row 1 / (x + y_j). */
  function CauchyRow(x: Byte, ys: Vec): (u: Vec)
    ensures |u| == |ys|
  {
    seq(|ys|, j requires 0 <= j < |ys| => GfInv(Add(x, ys[j])))
  }

  /** If the terms of one dot product are t times those of another, so is the sum. */
  lemma {:induction false} DotTermwise(t: Byte, u: Vec, v: Vec, u': Vec, v': Vec)
    requires |u| == |v| == |u'| == |v'|
    requires forall j :: 0 <= j < |u| ==> Product(u[j], v[j]) == Product(t, Product(u'[j], v'[j]))
    ensures Dot(u, v) == Product(t, Dot(u', v'))
  {
    hide Add, Product;
    if |u| == 0 {
      ProductZero(t);
    } else {
      var n := |u| - 1;
      DotTermwise(t, u[..n], v[..n], u'[..n], v'[..n]);
      ProductAddRight(t, Dot(u'[..n], v'[..n]), Product(u'[n], v'[n]));
    }
  }

  lemma InverseOfSum(x: Byte, y: Byte)
    requires x != y
    ensures Product(Add(x, y), GfInv(Add(x, y))) == 1 && GfInv(Add(x, y)) != 0
  {
    AddCancel(x, y);
  }

  /** The coefficients left after eliminating the last row and the last column. */
  function Reduced(xn: Byte, yn: Byte, ys: Vec, cs: Vec): (ds: Vec)
    requires |ys| == |cs|
    ensures |ds| == |ys|
  {
    seq(|ys|, j requires 0 <= j < |ys| => Product(cs[j], Product(Add(ys[j], yn), GfInv(Add(xn, ys[j])))))
  }

  lemma ReducedTerm(xi: Byte, xn: Byte, yn: Byte, y: Byte, c: Byte)
    requires xi != y && xn != y
    ensures Product(Add(Product(Add(xi, yn), GfInv(Add(xi, y))), Product(Add(xn, yn), GfInv(Add(xn, y)))), c)
         == Product(Add(xi, xn), Product(GfInv(Add(xi, y)), Product(c, Product(Add(y, yn), GfInv(Add(xn, y))))))
  {
    hide *;
    var a, b, d := Add(xi, y), Add(xn, y), Add(y, yn);
    var ia, ib := GfInv(a), GfInv(b);
    InverseOfSum(xi, y);
    InverseOfSum(xn, y);
    SumThrough(xi, y, yn);
    SumThrough(xn, y, yn);
    SumThrough(xi, y, xn);
    AddComm(y, xn);
    EliminationTerm(a, b, d, ia, ib);
    var e := Product(d, ib);
    ProductAssoc(Add(xi, xn), Product(e, ia), c);
    ProductComm(e, ia);
    ProductAssoc(ia, e, c);
    ProductComm(e, c);
  }

  lemma SumThrough(x: Byte, y: Byte, z: Byte)
    ensures Add(Add(x, y), Add(y, z)) == Add(x, z)
  {
    hide *;
    AddAssoc(x, y, Add(y, z));
    AddAssoc(y, y, z);
    AddZero(y);
    AddZero(z);
  }

  /** A square Cauchy matrix has no null vector: induction on the size, eliminating the last row and column. */
  lemma {:induction false} CauchyNull(xs: Vec, ys: Vec, cs: Vec)
    requires |xs| == |ys| == |cs| && Distinct(xs) && Distinct(ys) && Disjoint(xs, ys)
    requires forall i :: 0 <= i < |xs| ==> Dot(CauchyRow(xs[i], ys), cs) == 0
    ensures IsZero(cs)
  {
    hide Add, Product, GfInv, Dot, CauchyRow, Reduced;
    if |xs| > 0 {
      var n := |xs| - 1;
      var ds := Reduced(xs[n], ys[n], ys[..n], cs[..n]);
      forall i | 0 <= i < n ensures Dot(CauchyRow(xs[..n][i], ys[..n]), ds) == 0 {
        EliminateLast(xs, ys, cs, i);
      }
      CauchyNull(xs[..n], ys[..n], ds);
      forall j | 0 <= j < n ensures cs[j] == 0 { ReducedZero(xs[n], ys[n], ys[..n], cs[..n], j); }
      LastZero(xs[n], ys, cs);
    }
  }

  lemma ReducedZero(xn: Byte, yn: Byte, ys: Vec, cs: Vec, j: nat)
    requires |ys| == |cs| && j < |ys| && ys[j] != yn && xn != ys[j] && Reduced(xn, yn, ys, cs)[j] == 0
    ensures cs[j] == 0
  {
    assert Product(cs[j], Product(Add(ys[j], yn), GfInv(Add(xn, ys[j])))) == 0;
    hide Add, Product, GfInv;
    InverseOfSum(xn, ys[j]);
    AddCancel(ys[j], yn);
    ProductNonzero(Add(ys[j], yn), GfInv(Add(xn, ys[j])));
    ProductNonzero(cs[j], Product(Add(ys[j], yn), GfInv(Add(xn, ys[j]))));
  }

  lemma LastZero(x: Byte, ys: Vec, cs: Vec)
    requires |ys| == |cs| > 0 && x != ys[|ys| - 1] && Dot(CauchyRow(x, ys), cs) == 0
    requires forall j :: 0 <= j < |cs| - 1 ==> cs[j] == 0
    ensures cs[|cs| - 1] == 0
  {
    hide Add, Product, GfInv;
    var n, u := |ys| - 1, CauchyRow(x, ys);
    DotZero(u[..n], cs[..n]);
    AddZero(Product(u[n], cs[n]));
    InverseOfSum(x, ys[n]);
    ProductNonzero(u[n], cs[n]);
  }

  /** Row i and the last row of a null system combine into row i of the smaller one. */
  lemma EliminateLast(xs: Vec, ys: Vec, cs: Vec, i: nat)
    requires |xs| == |ys| == |cs| && i < |xs| - 1 && Distinct(xs) && Disjoint(xs, ys)
    requires Dot(CauchyRow(xs[i], ys), cs) == 0 && Dot(CauchyRow(xs[|xs| - 1], ys), cs) == 0
    ensures Dot(CauchyRow(xs[..|xs| - 1][i], ys[..|xs| - 1]), Reduced(xs[|xs| - 1], ys[|xs| - 1], ys[..|xs| - 1], cs[..|xs| - 1])) == 0
  {
    hide Add, Product, GfInv, Dot;
    var n := |xs| - 1;
    var xi, xn, yn := xs[i], xs[n], ys[n];
    var p, q := Add(xi, yn), Add(xn, yn);
    var ri, rn := CauchyRow(xi, ys), CauchyRow(xn, ys);
    var w := Plus(Scale(p, ri), Scale(q, rn));
    assert Dot(w, cs) == 0 by {
      DotPlusLeft(Scale(p, ri), Scale(q, rn), cs);
      DotScaleLeft(p, ri, cs);
      DotScaleLeft(q, rn, cs);
      ProductZero(p);
      ProductZero(q);
      AddZero(0);
    }
    assert w[n] == 0 by {
      InverseOfSum(xi, yn);
      InverseOfSum(xn, yn);
      AddZero(1);
    }
    DropLast(w, cs);
    var ds := Reduced(xn, yn, ys[..n], cs[..n]);
    var u := CauchyRow(xi, ys[..n]);
    forall j | 0 <= j < n ensures Product(w[..n][j], cs[..n][j]) == Product(Add(xi, xn), Product(u[j], ds[j])) {
      ReducedTerm(xi, xn, yn, ys[j], cs[j]);
    }
    DotTermwise(Add(xi, xn), w[..n], cs[..n], u, ds);
    AddCancel(xi, xn);
    ProductNonzero(Add(xi, xn), Dot(u, ds));
  }

  lemma DropLast(w: Vec, cs: Vec)
    requires |w| == |cs| > 0 && w[|w| - 1] == 0
    ensures Dot(w, cs) == Dot(w[..|w| - 1], cs[..|w| - 1])
  {
    hide Add, Product;
    ProductZero(cs[|w| - 1]);
    AddZero(Dot(w[..|w| - 1], cs[..|w| - 1]));
  }
}
