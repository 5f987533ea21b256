/** Square systems of powers: which choices of exponents and points leave no null vector. */
module Vandermonde {
  import opened Bits
  import opened GF256
  import opened GFTables
  import opened Linear
  import opened Invert
  import opened Cauchy
  import opened Generators
  import opened Transpose

  /** The powers ds of the points cs, points and entries given by their logarithms. */
  function PowerMinor(ds: seq<nat>, cs: seq<nat>): (b: Matrix)
    ensures IsMatrix(b, |ds|, |cs|)
    ensures forall i, j :: 0 <= i < |ds| && 0 <= j < |cs| ==> b[i][j] == Exp(ds[i] * cs[j])
  {
    seq(|ds|, i requires 0 <= i < |ds| => RsPowers(ds[i], cs))
  }

  ghost predicate Regular(ds: seq<nat>, cs: seq<nat>) { Independent(PowerMinor(ds, cs), |cs|) }

  /** One row applied to a vector. */
  function Moment(d: nat, cs: seq<nat>, v: Vec): Byte
    requires |v| == |cs|
  {
    Dot(RsPowers(d, cs), v)
  }

  ghost predicate Vanish(ds: seq<nat>, cs: seq<nat>, v: Vec)
    requires |v| == |cs|
  {
    forall i :: 0 <= i < |ds| ==> Moment(ds[i], cs, v) == 0
  }

  /** Without null vectors among the moments, the system is regular. */
  lemma FromMoments(ds: seq<nat>, cs: seq<nat>)
    requires forall v: Vec :: |v| == |cs| && Vanish(ds, cs, v) ==> IsZero(v)
    ensures Regular(ds, cs)
  {
    hide Dot, RsPowers;
    var a := PowerMinor(ds, cs);
    forall v: Vec | |v| == |cs| ensures NullOnlyIfZero(a, v) {
      if IsZero(Apply(a, v)) {
        forall i | 0 <= i < |ds| ensures Moment(ds[i], cs, v) == 0 {
          RowIsPowers(ds, cs, i);
          assert Apply(a, v)[i] == Dot(a[i], v);
        }
        assert Vanish(ds, cs, v);
      }
    }
  }

  lemma RowIsPowers(ds: seq<nat>, cs: seq<nat>, i: nat)
    requires i < |ds|
    ensures PowerMinor(ds, cs)[i] == RsPowers(ds[i], cs)
  {}

  /** A nonzero vector whose moments vanish shows that the system is singular. */
  lemma SingularBy(ds: seq<nat>, cs: seq<nat>, v: Vec)
    requires |v| == |cs| && Vanish(ds, cs, v) && !IsZero(v)
    ensures !Regular(ds, cs)
  {
    hide Dot, RsPowers;
    var a := PowerMinor(ds, cs);
    forall i | 0 <= i < |ds| ensures Apply(a, v)[i] == 0 {
      RowIsPowers(ds, cs, i);
      assert Moment(ds[i], cs, v) == 0;
    }
    assert !NullOnlyIfZero(a, v);
  }

  /** Exponents and points change places in the transpose. */
  lemma RegularSwaps(ds: seq<nat>, cs: seq<nat>)
    requires |ds| == |cs|
    ensures Regular(ds, cs) <==> Regular(cs, ds)
  {
    hide Independent, Exp;
    var n := |ds|;
    var t := Transposed(PowerMinor(ds, cs), n, n);
    forall i | 0 <= i < n ensures t[i] == PowerMinor(cs, ds)[i] {
      forall j | 0 <= j < n ensures t[i][j] == PowerMinor(cs, ds)[i][j] {
        assert ds[j] * cs[i] == cs[i] * ds[j];
      }
    }
    assert t == PowerMinor(cs, ds);
    TransposeIndependent(PowerMinor(ds, cs), n);
  }

  // -- combining two consecutive moments removes a point

  function Reduced(v: Vec, cs: seq<nat>, z: Byte): (w: Vec)
    requires |v| == |cs|
    ensures |w| == |v|
  {
    seq(|v|, j requires 0 <= j < |v| => Product(Add(Exp(cs[j]), z), v[j]))
  }

  lemma NextPower(d: nat, c: nat)
    ensures RsEntry(d + 1, c) == Product(RsEntry(d, c), Exp(c)) && RsEntry(0, c) == 1
  {
    hide Exp, Product;
    assert (d + 1) * c == d * c + c;
    ExpAdd(d * c, c);
    RsEntryIs(0, c, 0);
    ExpZero();
  }

  lemma ReducedTerm(d: nat, c: nat, z: Byte, t: Byte)
    ensures Product(RsEntry(d, c), Product(Add(Exp(c), z), t)) == Add(Product(RsEntry(d + 1, c), t), Product(z, Product(RsEntry(d, c), t)))
  {
    hide *;
    var p, x := RsEntry(d, c), Exp(c);
    NextPower(d, c);
    ProductAddLeft(x, z, t);
    ProductAddRight(p, Product(x, t), Product(z, t));
    ProductAssoc(p, x, t);
    ProductAssoc(p, z, t);
    ProductComm(p, z);
    ProductAssoc(z, p, t);
  }

  lemma {:induction false} ReducedMoment(d: nat, cs: seq<nat>, v: Vec, z: Byte)
    requires |v| == |cs|
    ensures Moment(d, cs, Reduced(v, cs, z)) == Add(Moment(d + 1, cs, v), Product(z, Moment(d, cs, v)))
  {
    hide Add, Product, Exp, RsEntry, Dot;
    var w := Reduced(v, cs, z);
    if |v| == 0 {
      DotNothing(RsPowers(d, cs), w);
      DotNothing(RsPowers(d + 1, cs), v);
      DotNothing(RsPowers(d, cs), v);
      ProductZero(z);
      AddZero(0);
    } else {
      var n := |v| - 1;
      ReducedMoment(d, cs[..n], v[..n], z);
      assert w[..n] == Reduced(v[..n], cs[..n], z);
      PowersLast(d, cs, w);
      PowersLast(d, cs, v);
      PowersLast(d + 1, cs, v);
      ReducedTerm(d, cs[n], z, v[n]);
      var m1, m0, t1, t0 := Moment(d + 1, cs[..n], v[..n]), Moment(d, cs[..n], v[..n]), Product(RsEntry(d + 1, cs[n]), v[n]), Product(RsEntry(d, cs[n]), v[n]);
      AddSwap(m1, Product(z, m0), t1, Product(z, t0));
      ProductAddRight(z, m0, t0);
    }
  }

  lemma PowersLast(d: nat, cs: seq<nat>, v: Vec)
    requires |v| == |cs| > 0
    ensures Moment(d, cs, v) == Add(Moment(d, cs[..|v| - 1], v[..|v| - 1]), Product(RsEntry(d, cs[|v| - 1]), v[|v| - 1]))
  {
    hide Add, Product, RsEntry, Dot;
    var n := |v| - 1;
    DotLast(RsPowers(d, cs), v);
    assert RsPowers(d, cs)[..n] == RsPowers(d, cs[..n]);
  }

  /** Taking the last point for z, that point drops out. */
  lemma DropPoint(d: nat, cs: seq<nat>, v: Vec)
    requires |v| == |cs| > 0
    ensures Moment(d, cs[..|v| - 1], Reduced(v, cs, Exp(cs[|v| - 1]))[..|v| - 1])
         == Add(Moment(d + 1, cs, v), Product(Exp(cs[|v| - 1]), Moment(d, cs, v)))
  {
    hide Add, Product, Exp, RsEntry, Dot, RsPowers;
    var n, z := |v| - 1, Exp(cs[|v| - 1]);
    var w := Reduced(v, cs, z);
    ReducedMoment(d, cs, v, z);
    PowersLast(d, cs, w);
    AddZero(z);
    ProductZero(v[n]);
    ProductZero(RsEntry(d, cs[n]));
    AddZero(Moment(d, cs[..n], w[..n]));
  }

  // -- consecutive exponents

  /** n consecutive moments of n distinct points vanish only for the zero vector. */
  lemma {:induction false} Consecutive(e: nat, cs: seq<nat>, v: Vec)
    requires |v| == |cs| && Distinct(cs) && (forall j :: 0 <= j < |cs| ==> cs[j] < 255)
    requires forall d: nat :: e <= d < e + |cs| ==> Moment(d, cs, v) == 0
    ensures IsZero(v)
  {
    hide Moment, Reduced, Add, Product, Exp;
    if |v| > 0 {
      var n := |v| - 1;
      var z := Exp(cs[n]);
      var w := Reduced(v, cs, z)[..n];
      forall d: nat | e <= d < e + n ensures Moment(d, cs[..n], w) == 0 {
        DropPoint(d, cs, v);
        ProductZero(z);
        AddZero(0);
      }
      Consecutive(e, cs[..n], w);
      forall j | 0 <= j < n ensures v[j] == 0 { DroppedZero(v, cs, n, j); }
      LastIsZero(e, cs, v);
    }
  }

  lemma DroppedZero(v: Vec, cs: seq<nat>, n: nat, j: nat)
    requires |v| == |cs| == n + 1 && j < n && cs[j] != cs[n] && cs[j] < 255 && cs[n] < 255 && Reduced(v, cs, Exp(cs[n]))[j] == 0
    ensures v[j] == 0
  {
    hide Add, Product, Exp;
    PointsDiffer(cs[j], cs[n]);
    AddCancel(Exp(cs[j]), Exp(cs[n]));
    ProductNonzero(Add(Exp(cs[j]), Exp(cs[n])), v[j]);
  }

  lemma LastIsZero(e: nat, cs: seq<nat>, v: Vec)
    requires |v| == |cs| > 0 && (forall j :: 0 <= j < |v| - 1 ==> v[j] == 0) && Moment(e, cs, v) == 0
    ensures v[|v| - 1] == 0
  {
    hide Add, Product, RsEntry, Dot;
    var n := |v| - 1;
    PowersLast(e, cs, v);
    DotZero(RsPowers(e, cs[..n]), v[..n]);
    AddZero(Product(RsEntry(e, cs[n]), v[n]));
    EntryNonzero(e, cs[n]);
    ProductNonzero(RsEntry(e, cs[n]), v[n]);
  }

  lemma EntryNonzero(d: nat, c: nat)
    ensures RsEntry(d, c) != 0
  {
    hide Exp;
    ExpNonzero(d * c);
  }

  // -- one exponent left out of a run

  /** Combines neighbours, removing the points from the last to the first; one more value than points. */
  function Collapse(s: Vec, cs: seq<nat>): Byte
    requires |s| == |cs| + 1
    decreases |cs|
  {
    if |cs| == 0 then s[0] else Collapse(Neighbours(s, Exp(cs[|cs| - 1])), cs[..|cs| - 1])
  }

  function Neighbours(s: Vec, z: Byte): (r: Vec)
    requires |s| > 0
    ensures |r| == |s| - 1
  {
    seq(|s| - 1, i requires 0 <= i < |s| - 1 => Add(s[i + 1], Product(z, s[i])))
  }

  function Moments(e: nat, n: nat, cs: seq<nat>, v: Vec): (s: Vec)
    requires |v| == |cs|
    ensures |s| == n && forall i :: 0 <= i < n ==> s[i] == Moment(e + i, cs, v)
  {
    if n == 0 then [] else Moments(e, n - 1, cs, v) + [Moment(e + (n - 1), cs, v)]
  }

  /** The moments satisfy the recurrence whose roots are the points. */
  lemma {:induction false} MomentsCollapse(e: nat, cs: seq<nat>, v: Vec)
    requires |v| == |cs|
    ensures Collapse(Moments(e, |cs| + 1, cs, v), cs) == 0
    decreases |cs|
  {
    hide Moment, Reduced, Add, Product, Exp;
    var n := |cs|;
    if n == 0 {
      NoMoment(e, cs, v);
    } else {
      var z := Exp(cs[n - 1]);
      var w := Reduced(v, cs, z)[..n - 1];
      MomentsCollapse(e, cs[..n - 1], w);
      var s, t := Neighbours(Moments(e, n + 1, cs, v), z), Moments(e, n, cs[..n - 1], w);
      forall i | 0 <= i < n ensures s[i] == t[i] { DropPoint(e + i, cs, v); }
      assert s == t;
    }
  }

  lemma NoMoment(e: nat, cs: seq<nat>, v: Vec)
    requires |v| == |cs| == 0
    ensures Moment(e, cs, v) == 0
  {
    DotNothing(RsPowers(e, cs), v);
  }

  lemma {:induction false} CollapseScales(t: Byte, s: Vec, cs: seq<nat>)
    requires |s| == |cs| + 1
    ensures Collapse(Scale(t, s), cs) == Product(t, Collapse(s, cs))
    decreases |cs|
  {
    hide Add, Product, Exp;
    var n := |cs|;
    if n > 0 {
      var z := Exp(cs[n - 1]);
      CollapseScales(t, Neighbours(s, z), cs[..n - 1]);
      forall i | 0 <= i < n ensures Neighbours(Scale(t, s), z)[i] == Scale(t, Neighbours(s, z))[i] {
        ProductAddRight(t, s[i + 1], Product(z, s[i]));
        ProductAssoc(t, z, s[i]);
        ProductComm(t, z);
        ProductAssoc(z, t, s[i]);
      }
      assert Neighbours(Scale(t, s), z) == Scale(t, Neighbours(s, z));
    }
  }

  /** The coefficient of X^g of the polynomial with the points as roots. */
  function Coefficient(g: nat, cs: seq<nat>): Byte { Collapse(UnitVector(|cs| + 1, g), cs) }

  /** Of n + 1 consecutive exponents one is left out: if its coefficient is nonzero, that makes no difference. */
  lemma OneLeftOut(e: nat, g: nat, cs: seq<nat>, v: Vec)
    requires |v| == |cs| && g <= |cs| && Distinct(cs) && (forall j :: 0 <= j < |cs| ==> cs[j] < 255) && Coefficient(g, cs) != 0
    requires forall d: nat :: e <= d <= e + |cs| && d != e + g ==> Moment(d, cs, v) == 0
    ensures IsZero(v)
  {
    hide Moment, Collapse, Product, Exp;
    var n := |cs|;
    var m := Moment(e + g, cs, v);
    MomentsCollapse(e, cs, v);
    var s, t := Moments(e, n + 1, cs, v), Scale(m, UnitVector(n + 1, g));
    forall i | 0 <= i <= n ensures s[i] == t[i] {
      ProductOne(m);
      ProductZero(m);
      ProductComm(m, 1);
    }
    assert s == t;
    CollapseScales(m, UnitVector(n + 1, g), cs);
    ProductNonzero(m, Coefficient(g, cs));
    Consecutive(e, cs, v);
  }
}
