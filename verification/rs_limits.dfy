/** For exactly which sizes the power generator recovers from every loss. */
module RsLimits {
  import opened Bits
  import opened BitStream
  import opened GF256
  import opened GFTables
  import opened Linear
  import opened Invert
  import opened Cauchy
  import opened Generators
  import opened Subsets
  import opened Singular
  import opened Transpose
  import opened Vandermonde

  // -- the code in terms of systems of powers

  ghost predicate Rising(s: seq<nat>, n: nat) {
    (forall i :: 0 <= i < |s| ==> s[i] < n) && forall i, j :: 0 <= i < j < |s| ==> s[i] < s[j]
  }

  ghost predicate Chosen(ds: seq<nat>, cs: seq<nat>, p: nat, k: nat) { |ds| == |cs| && Rising(ds, p) && Rising(cs, k) }

  /** Every square system with exponents below p and points below k is regular. */
  ghost predicate Good(p: nat, k: nat) {
    forall ds: seq<nat>, cs: seq<nat> :: Chosen(ds, cs, p, k) ==> Regular(ds, cs)
  }

  lemma GoodSwaps(p: nat, k: nat)
    requires Good(p, k)
    ensures Good(k, p)
  {
    hide Regular, Rising;
    forall ds: seq<nat>, cs: seq<nat> | Chosen(ds, cs, k, p) ensures Regular(ds, cs) {
      assert Chosen(cs, ds, p, k);
      RegularSwaps(ds, cs);
    }
  }

  lemma GoodLess(p: nat, k: nat, p': nat, k': nat)
    requires Good(p, k) && p' <= p && k' <= k
    ensures Good(p', k')
  {
    hide Regular;
    forall ds: seq<nat>, cs: seq<nat> | Chosen(ds, cs, p', k') ensures Regular(ds, cs) {
      assert Chosen(ds, cs, p, k);
    }
  }

  lemma {:induction false} MembersAre(x: nat, n: nat, s: seq<nat>)
    requires Rising(s, n) && forall i :: 0 <= i < n ==> (Has(x, i) <==> i in s)
    ensures Members(x, n) == s
    decreases n
  {
    hide Has, Rising;
    if n == 0 {
      RisingNone(s);
    } else if n - 1 in s {
      var m := |s| - 1;
      RisingLast(s, n);
      MembersAre(x, n - 1, s[..m]);
      assert s == s[..m] + [n - 1];
    } else {
      RisingLess(s, n);
      MembersAre(x, n - 1, s);
    }
  }

  lemma RisingAt(s: seq<nat>, n: nat, i: nat)
    requires Rising(s, n) && i < |s|
    ensures s[i] < n
  {}

  lemma RisingPair(s: seq<nat>, n: nat, i: nat, j: nat)
    requires Rising(s, n) && i < j < |s|
    ensures s[i] < s[j] < n
  {}

  lemma LargestLast(s: seq<nat>, n: nat, q: nat)
    requires Rising(s, n) && q < |s| && s[q] == n - 1
    ensures q == |s| - 1
  {
    hide Rising;
    if q < |s| - 1 { RisingPair(s, n, q, |s| - 1); }
  }

  lemma RisingNone(s: seq<nat>)
    requires Rising(s, 0)
    ensures s == []
  {
    if |s| > 0 { RisingAt(s, 0, 0); }
  }

  lemma RisingLast(s: seq<nat>, n: nat)
    requires Rising(s, n) && n > 0 && n - 1 in s
    ensures |s| > 0 && s[|s| - 1] == n - 1 && Rising(s[..|s| - 1], n - 1) && forall i :: 0 <= i < n - 1 ==> (i in s <==> i in s[..|s| - 1])
  {
    var m := |s| - 1;
    var q := IndexOf(s, n - 1);
    LargestLast(s, n, q);
    forall i: nat | i < n - 1 && i in s ensures i in s[..m] {
      var j := IndexOf(s, i);
      assert s[..m][j] == i;
    }
  }

  lemma RisingLess(s: seq<nat>, n: nat)
    requires Rising(s, n) && n > 0 && n - 1 !in s
    ensures Rising(s, n - 1)
  {
    forall i | 0 <= i < |s| ensures s[i] < n - 1 { assert s[i] in s; }
  }

  function SetOf(s: seq<nat>, n: nat): nat { ValueOf(seq(n, i requires 0 <= i < n => i in s)) }

  lemma SetOfIs(s: seq<nat>, n: nat)
    requires Rising(s, n)
    ensures Members(SetOf(s, n), n) == s && IsSubset(SetOf(s, n), n, |s|)
  {
    var bs := seq(n, i requires 0 <= i < n => i in s);
    hide ValueOf, Has, Pow2, Pop, Members;
    BitsOfValue(bs);
    forall i | 0 <= i < n ensures Has(SetOf(s, n), i) <==> i in s { HasValue(bs, i); }
    MembersAre(SetOf(s, n), n, s);
    MembersCount(SetOf(s, n), n);
  }

  lemma MembersRise(x: nat, n: nat)
    ensures Rising(Members(x, n), n)
  {
    hide Has;
  }

  /** The selected submatrices of the parity rows are the systems of powers. */
  lemma SelectedPowers(m: nat, k: nat, r: nat, c: nat)
    requires k <= m
    ensures Selected(Parity(RsMatrix(m, k), m, k), m - k, k, r, c) == PowerMinor(Members(r, m - k), Members(c, k))
  {
    hide Members, Exp, RsMatrix;
    var ds, cs := Members(r, m - k), Members(c, k);
    var b, d := Selected(Parity(RsMatrix(m, k), m, k), m - k, k, r, c), PowerMinor(ds, cs);
    forall i | 0 <= i < |ds| ensures b[i] == d[i] {
      forall j | 0 <= j < |cs| ensures b[i][j] == d[i][j] { RsAt(m, k, ds[i] + k, cs[j]); }
    }
  }

  lemma GoodDecides(m: nat, k: nat)
    requires k <= m
    ensures EveryChoiceIndependent(RsMatrix(m, k), m, k) <==> Good(m - k, k)
  {
    hide EveryChoiceIndependent, AllNonsingular, Parity, Selected, Independent, Members, RsMatrix, PowerMinor, Rising, Pow2, Pop;
    CauchySystematic(m, k);
    SubmatricesDecide(RsMatrix(m, k), m, k);
    var p, n := Parity(RsMatrix(m, k), m, k), m - k;
    if Good(n, k) {
      forall s: nat, r: nat, c: nat ensures Nonsingular(p, n, k, s, r, c) {
        if IsSubset(r, n, s) && IsSubset(c, k, s) {
          Counts(r, n, s);
          Counts(c, k, s);
          MembersRise(r, n);
          MembersRise(c, k);
          SelectedPowers(m, k, r, c);
          assert Chosen(Members(r, n), Members(c, k), n, k);
        }
      }
      AllIs(p, n, k);
    }
    if AllNonsingular(p, n, k) {
      forall ds: seq<nat>, cs: seq<nat> | Chosen(ds, cs, n, k) ensures Regular(ds, cs) { NonsingularRegular(m, k, ds, cs); }
    }
  }

  lemma NonsingularRegular(m: nat, k: nat, ds: seq<nat>, cs: seq<nat>)
    requires k <= m && AllNonsingular(Parity(RsMatrix(m, k), m, k), m - k, k) && Chosen(ds, cs, m - k, k)
    ensures Regular(ds, cs)
  {
    hide AllNonsingular, Parity, Selected, Independent, Members, RsMatrix, Pow2, Pop;
    if |ds| == 0 {
      EmptyIndependent(PowerMinor(ds, cs));
    } else {
      var r, c := SetOf(ds, m - k), SetOf(cs, k);
      SetOfIs(ds, m - k);
      SetOfIs(cs, k);
      AtMostAll(ds, m - k);
      AtMostAll(cs, k);
      AllUnfold(Parity(RsMatrix(m, k), m, k), m - k, k, |ds|, r, c);
      SelectedPowers(m, k, r, c);
    }
  }

  lemma AtMostAll(s: seq<nat>, n: nat)
    requires Rising(s, n)
    ensures |s| <= n
  {
    AtMost(s, n);
  }

  // -- small systems

  lemma Small(ds: seq<nat>, cs: seq<nat>)
    requires |ds| == |cs| <= 1
    ensures Regular(ds, cs)
  {
    hide Moment, RsEntry;
    forall v: Vec | |v| == |cs| && Vanish(ds, cs, v) ensures IsZero(v) {
      if |cs| == 1 { LastIsZero(ds[0], cs, v); }
    }
    FromMoments(ds, cs);
  }

  /** Two exponents, at a distance of e. */
  lemma Pair(a: nat, e: nat, cs: seq<nat>)
    requires |cs| == 2 && Exp(e * cs[0]) != Exp(e * cs[1])
    ensures Regular([a, a + e], cs)
  {
    hide Moment, RsEntry, Exp;
    var ds := [a, a + e];
    forall v: Vec | |v| == |cs| && Vanish(ds, cs, v) ensures IsZero(v) {
      assert Moment(ds[0], cs, v) == 0 && Moment(ds[1], cs, v) == 0;
      PairNull(a, e, cs, v);
    }
    FromMoments(ds, cs);
  }

  lemma EntryProduct(a: nat, e: nat, c: nat)
    ensures RsEntry(a + e, c) == Product(Exp(e * c), RsEntry(a, c))
  {
    hide Exp, Product;
    assert (a + e) * c == a * c + e * c;
    ExpAdd(e * c, a * c);
  }

  lemma PairNull(a: nat, e: nat, cs: seq<nat>, v: Vec)
    requires |v| == |cs| == 2 && Exp(e * cs[0]) != Exp(e * cs[1]) && Moment(a, cs, v) == 0 && Moment(a + e, cs, v) == 0
    ensures v[0] == 0 && v[1] == 0
  {
    hide Add, Product, Exp, RsEntry, Dot;
    Dot2(RsPowers(a, cs), v);
    Dot2(RsPowers(a + e, cs), v);
    var x, y := Exp(e * cs[0]), Exp(e * cs[1]);
    var s, t := Product(RsEntry(a, cs[0]), v[0]), Product(RsEntry(a, cs[1]), v[1]);
    EntryProduct(a, e, cs[0]);
    EntryProduct(a, e, cs[1]);
    ProductAssoc(x, RsEntry(a, cs[0]), v[0]);
    ProductAssoc(y, RsEntry(a, cs[1]), v[1]);
    AddCancel(s, t);
    ProductAddLeft(x, y, s);
    AddCancel(x, y);
    ProductNonzero(Add(x, y), s);
    EntryNonzero(a, cs[0]);
    EntryNonzero(a, cs[1]);
    ProductNonzero(RsEntry(a, cs[0]), v[0]);
    ProductNonzero(RsEntry(a, cs[1]), v[1]);
  }

  /** A run of exponents. */
  lemma Run(e: nat, ds: seq<nat>, cs: seq<nat>)
    requires |ds| == |cs| && Rising(cs, 255) && forall i :: 0 <= i < |ds| ==> ds[i] == e + i
    ensures Regular(ds, cs)
  {
    hide Moment;
    forall v: Vec | |v| == |cs| && Vanish(ds, cs, v) ensures IsZero(v) {
      forall d: nat | e <= d < e + |cs| ensures Moment(d, cs, v) == 0 { assert ds[d - e] == d; }
      Consecutive(e, cs, v);
    }
    FromMoments(ds, cs);
  }

  /** A run of exponents without the g-th. */
  lemma RunBut(e: nat, g: nat, ds: seq<nat>, cs: seq<nat>)
    requires |ds| == |cs| && Rising(cs, 255) && g <= |cs| && Coefficient(g, cs) != 0
    requires forall i :: 0 <= i < |ds| ==> ds[i] == e + i + if i < g then 0 else 1
    ensures Regular(ds, cs)
  {
    hide Moment, Coefficient;
    forall v: Vec | |v| == |cs| && Vanish(ds, cs, v) ensures IsZero(v) {
      forall d: nat | e <= d <= e + |cs| && d != e + g ensures Moment(d, cs, v) == 0 {
        assert ds[if d < e + g then d - e else d - e - 1] == d;
      }
      OneLeftOut(e, g, cs, v);
    }
    FromMoments(ds, cs);
  }

  // -- three exponents or points

  lemma SquaredPoints(c: nat, c': nat)
    requires c != c' && c < 255 && c' < 255
    ensures Exp(2 * c) != Exp(2 * c')
  {
    hide Exp, Product;
    PointsDiffer(c, c');
    SquaresDiffer(Exp(c), Exp(c'));
    ExpAdd(c, c);
    ExpAdd(c', c');
  }

  lemma UpTo3(k: nat)
    requires k <= 255
    ensures Good(3, k)
  {
    hide Regular, Exp;
    forall ds: seq<nat>, cs: seq<nat> | Chosen(ds, cs, 3, k) ensures Regular(ds, cs) {
      AtMostAll(ds, 3);
      if |ds| <= 1 {
        Small(ds, cs);
      } else if |ds| == 2 && ds[1] == ds[0] + 2 {
        SquaredPoints(cs[0], cs[1]);
        Pair(ds[0], 2, cs);
        assert ds == [ds[0], ds[0] + 2];
      } else {
        RisingPair(ds, 3, 0, 1);
        if |ds| == 3 { RisingPair(ds, 3, 1, 2); }
        RisingFits(cs, k, 255);
        Run(ds[0], ds, cs);
      }
    }
  }

  lemma RisingFits(s: seq<nat>, n: nat, n': nat)
    requires Rising(s, n) && n <= n'
    ensures Rising(s, n')
  {}

  // -- the coefficients that matter, as sums of powers

  function Sum3(a: nat, b: nat, c: nat): Byte { Add(Add(Exp(a), Exp(b)), Exp(c)) }

  function Sum4(a: nat, b: nat, c: nat, d: nat): Byte { Add(Sum3(a, b, c), Exp(d)) }

  lemma AddMove(a: Byte, b: Byte, c: Byte)
    ensures Add(a, Add(b, c)) == Add(Add(a, b), c)
  {
    AddAssoc(a, b, c);
  }

  /** x (y + z) and x (y + z + w) for powers. */
  lemma TimesSum(n: nat, a: nat, b: nat, c: nat)
    ensures Product(Exp(n), Add(Exp(a), Exp(b))) == Add(Exp(n + a), Exp(n + b))
    ensures Product(Exp(n), Sum3(a, b, c)) == Sum3(n + a, n + b, n + c)
  {
    hide Add, Product, Exp;
    ExpAdd(n, a);
    ExpAdd(n, b);
    ExpAdd(n, c);
    ProductAddRight(Exp(n), Exp(a), Exp(b));
    ProductAddRight(Exp(n), Add(Exp(a), Exp(b)), Exp(c));
  }

  /** Removing a point from an explicit list. */
  lemma Removes(s: Vec, r: Vec, cs: seq<nat>, c: nat)
    requires |s| == |cs| + 2 && |r| == |cs| + 1 && forall i :: 0 <= i < |r| ==> r[i] == Add(s[i + 1], Product(Exp(c), s[i]))
    ensures Collapse(s, cs + [c]) == Collapse(r, cs)
  {
    hide Add, Product, Exp;
    assert Neighbours(s, Exp(c)) == r;
    assert (cs + [c])[..|cs|] == cs;
  }

  lemma Last(s: Vec)
    requires |s| == 1
    ensures Collapse(s, []) == s[0]
  {}

  lemma Simple(x: Byte)
    ensures Product(x, 0) == 0 && Product(x, 1) == x && Add(x, 0) == x && Add(0, x) == x
  {
    ProductZero(x);
    ProductOne(x);
    ProductComm(x, 1);
    AddZero(x);
  }

  lemma Third(a: nat, b: nat, c: nat)
    ensures Coefficient(2, [a, b, c]) == Sum3(c, b, a)
    ensures Coefficient(1, [a, b, c]) == Sum3(b + c, a + c, a + b)
  {
    hide Add, Product, Exp, Collapse;
    var x, y, z := Exp(a), Exp(b), Exp(c);
    var zy := Add(z, y);
    Simple(x); Simple(y); Simple(z); Simple(0); Simple(1); Simple(zy);
    assert UnitVector(4, 2) == [0, 0, 1, 0] && UnitVector(4, 1) == [0, 1, 0, 0];
    assert [a, b, c] == [a, b] + [c] && [a, b] == [a] + [b] && [a] == [] + [a];
    Removes([0, 0, 1, 0], [0, 1, z], [a, b], c);
    Removes([0, 1, z], [1, zy], [a], b);
    Removes([1, zy], [Add(zy, x)], [], a);
    Last([Add(zy, x)]);
    var p := Product(y, z);
    Removes([0, 1, 0, 0], [1, z, 0], [a, b], c);
    Simple(p);
    Removes([1, z, 0], [zy, p], [a], b);
    var q := Add(p, Product(x, zy));
    Removes([zy, p], [q], [], a);
    Last([q]);
    ExpAdd(b, c);
    TimesSum(a, c, b, 0);
    AddMove(p, Exp(a + c), Exp(a + b));
  }

  function Pairs(x: Byte, y: Byte, z: Byte, w: Byte): Byte {
    Add(Add(Product(z, w), Product(y, Add(w, z))), Product(x, Add(Add(w, z), y)))
  }

  function Triples(x: Byte, y: Byte, z: Byte, w: Byte): Byte {
    Add(Product(y, Product(z, w)), Product(x, Add(Product(z, w), Product(y, Add(w, z)))))
  }

  lemma Fourth(a: nat, b: nat, c: nat, d: nat)
    ensures Coefficient(3, [a, b, c, d]) == Sum4(d, c, b, a)
    ensures Coefficient(2, [a, b, c, d]) == Pairs(Exp(a), Exp(b), Exp(c), Exp(d))
    ensures Coefficient(1, [a, b, c, d]) == Triples(Exp(a), Exp(b), Exp(c), Exp(d))
  {
    hide Add, Product, Exp, Collapse;
    var x, y, z, w := Exp(a), Exp(b), Exp(c), Exp(d);
    var wz := Add(w, z);
    var wzy := Add(wz, y);
    Simple(x); Simple(y); Simple(z); Simple(w); Simple(0); Simple(1); Simple(wz); Simple(wzy);
    var cs := [a, b, c];
    assert UnitVector(5, 3) == [0, 0, 0, 1, 0] && UnitVector(5, 2) == [0, 0, 1, 0, 0] && UnitVector(5, 1) == [0, 1, 0, 0, 0];
    assert [a, b, c, d] == cs + [d] && cs == [a, b] + [c] && [a, b] == [a] + [b] && [a] == [] + [a];
    Removes([0, 0, 0, 1, 0], [0, 0, 1, w], cs, d);
    Removes([0, 0, 1, w], [0, 1, wz], [a, b], c);
    Removes([0, 1, wz], [1, wzy], [a], b);
    Removes([1, wzy], [Add(wzy, x)], [], a);
    Last([Add(wzy, x)]);
    var zw := Product(z, w);
    var e2 := Add(zw, Product(y, wz));
    var f2 := Add(e2, Product(x, wzy));
    Simple(zw);
    Removes([0, 0, 1, 0, 0], [0, 1, w, 0], cs, d);
    Removes([0, 1, w, 0], [1, wz, zw], [a, b], c);
    Removes([1, wz, zw], [wzy, e2], [a], b);
    Removes([wzy, e2], [f2], [], a);
    Last([f2]);
    var yzw := Product(y, zw);
    var f1 := Add(yzw, Product(x, e2));
    Simple(yzw);
    Removes([0, 1, 0, 0, 0], [1, w, 0, 0], cs, d);
    Removes([1, w, 0, 0], [wz, zw, 0], [a, b], c);
    Removes([wz, zw, 0], [e2, yzw], [a], b);
    Removes([e2, yzw], [f1], [], a);
    Last([f1]);
  }

  lemma Distribute3(n: Byte, a: Byte, b: Byte, c: Byte)
    ensures Product(n, Add(Add(a, b), c)) == Add(Add(Product(n, a), Product(n, b)), Product(n, c))
  {
    hide Add, Product;
    ProductAddRight(n, a, b);
    ProductAddRight(n, Add(a, b), c);
  }

  lemma Regroup(p: Byte, q: Byte, r: Byte, t: Byte)
    ensures Add(p, Add(Add(q, r), t)) == Add(Add(Add(p, q), r), t)
  {
    hide Add;
    AddAssoc(p, Add(q, r), t);
    AddAssoc(p, q, r);
  }

  // -- small powers

  function PowerOf(n: nat): nat {
    if n < 8 then (if n == 0 then 1 else if n == 1 then 2 else if n == 2 then 4 else if n == 3 then 8 else if n == 4 then 16 else if n == 5 then 32 else if n == 6 then 64 else 128)
    else if n < 16 then (if n == 8 then 29 else if n == 9 then 58 else if n == 10 then 116 else if n == 11 then 232 else if n == 12 then 205 else if n == 13 then 135 else if n == 14 then 19 else 38)
    else if n == 16 then 76 else if n == 17 then 152 else if n == 18 then 45 else if n == 19 then 90 else if n == 20 then 180 else if n == 21 then 117
    else if n == 22 then 234 else if n == 23 then 201 else if n == 24 then 143 else 3
  }

  lemma Reduces(h: nat, b3: bool, b2: bool, b1: bool, b0: bool)
    ensures Xor(32 * h + (if b3 then 16 else 0) + (if b2 then 8 else 0) + (if b1 then 4 else 0) + (if b0 then 2 else 0), 29)
         == 32 * h + (if b3 then 0 else 16) + (if b2 then 0 else 8) + (if b1 then 0 else 4) + (if b0 then 2 else 0) + 1
  {
    hide Xor;
    XorReduction(h, b3, b2, b1, b0);
  }

  lemma XtimeIs(v: Byte)
    ensures v < 128 ==> Xtime(v) == 2 * v
    ensures v >= 128 ==> Xtime(v) == Xor(2 * v - 256, 29)
  {
    hide Xor;
  }

  lemma NextPowerOf(n: nat)
    requires n < 25
    ensures PowerOf(n) < 256 && Xtime(PowerOf(n)) == PowerOf(n + 1)
  {
    hide Xor, Xtime;
    XtimeIs(PowerOf(n));
    if n == 7 {
      Reduces(0, false, false, false, false);
    } else if n == 11 {
      Reduces(6, true, false, false, false);
    } else if n == 12 {
      Reduces(4, true, true, false, true);
    } else if n == 13 {
      Reduces(0, false, true, true, true);
    } else if n == 17 {
      Reduces(1, true, false, false, false);
    } else if n == 20 {
      Reduces(3, false, true, false, false);
    } else if n == 22 {
      Reduces(6, true, false, true, false);
    } else if n == 23 {
      Reduces(4, true, false, false, true);
    } else if n == 24 {
      Reduces(0, true, true, true, true);
    }
  }

  lemma {:induction false} PowerOfIs(n: nat)
    requires n <= 25
    ensures Exp(n) == PowerOf(n)
  {
    hide PowerOf, Xtime;
    FirstPower();
    if n > 0 {
      PowerOfIs(n - 1);
      NextPowerOf(n - 1);
    }
  }

  lemma FirstPower()
    ensures PowerOf(0) == 1
  {}

  lemma AddOne(v: Byte)
    ensures Add(v, 1) == Add(1, v) == if v % 2 == 0 then v + 1 else v - 1
  {
    hide Xor;
    XorComm(v, 1);
    XorLowBit(v / 2, v % 2, 0, 1);
    XorZero(v / 2);
  }

  /** Up to 2^20, no power is one away from another: 2^21 + 2^10 + 1 is the first sum of three that vanishes. */
  lemma NotNeighbours(s: nat, t: nat)
    requires 0 < s < t <= 20
    ensures Add(Exp(s), 1) != Exp(t)
  {
    hide Exp, Add, PowerOf;
    PowerOfIs(s);
    PowerOfIs(t);
    AddOne(Exp(s));
    Apart(s, t);
  }

  lemma Apart(s: nat, t: nat)
    requires 0 < s < t <= 20
    ensures PowerOf(t) != if PowerOf(s) % 2 == 0 then PowerOf(s) + 1 else PowerOf(s) - 1
  {
    if s < 8 { ApartLow(s, t); } else if s < 14 { ApartMid(s, t); } else { ApartHigh(s, t); }
  }

  lemma ApartLow(s: nat, t: nat)
    requires 0 < s < 8 && s < t <= 20
    ensures PowerOf(t) != PowerOf(s) + 1 && PowerOf(s) % 2 == 0
  {}

  lemma ApartMid(s: nat, t: nat)
    requires 8 <= s < 14 && s < t <= 20
    ensures PowerOf(t) != if PowerOf(s) % 2 == 0 then PowerOf(s) + 1 else PowerOf(s) - 1
  {}

  lemma ApartHigh(s: nat, t: nat)
    requires 14 <= s < t <= 20
    ensures PowerOf(t) != if PowerOf(s) % 2 == 0 then PowerOf(s) + 1 else PowerOf(s) - 1
  {}

  lemma ThreeNonzero(a: nat, b: nat, c: nat)
    requires a < b < c <= a + 20
    ensures Sum3(c, b, a) != 0
  {
    hide Exp, Add, Product;
    var s, t := b - a, c - a;
    var x, y, z := Exp(a), Exp(s), Exp(t);
    ExpAdd(a, s);
    ExpAdd(a, t);
    ProductOne(x);
    ProductComm(x, 1);
    Distribute3(x, z, y, 1);
    ProductNonzero(x, Add(Add(z, y), 1));
    ExpNonzero(a);
    NotNeighbours(s, t);
    AddOne(y);
    AddCancel(Add(z, y), 1);
    AddCancel(z, y);
  }

  // -- exponents within a window of four

  lemma PairOf4(a: nat, e: nat, cs: seq<nat>)
    requires |cs| == 2 && Rising(cs, 21) && 0 < e <= 4
    ensures Regular([a, a + e], cs)
  {
    hide Exp, Regular;
    RisingPair(cs, 21, 0, 1);
    var i, j := e * cs[0], e * cs[1];
    assert i < j <= 80;
    PointsDiffer(i, j);
    Pair(a, e, cs);
  }

  lemma GapOf4(e: nat, g: nat, ds: seq<nat>, cs: seq<nat>)
    requires |ds| == |cs| == 3 && Rising(cs, 21) && 1 <= g <= 2
    requires forall i :: 0 <= i < 3 ==> ds[i] == e + i + if i < g then 0 else 1
    ensures Regular(ds, cs)
  {
    hide Exp, Regular, Coefficient;
    var a, b, c := cs[0], cs[1], cs[2];
    RisingPair(cs, 21, 0, 1);
    RisingPair(cs, 21, 1, 2);
    assert cs == [a, b, c];
    Third(a, b, c);
    ThreeNonzero(a, b, c);
    ThreeNonzero(a + b, a + c, b + c);
    RisingFits(cs, 21, 255);
    RunBut(e, g, ds, cs);
  }

  ghost predicate Window(ds: seq<nat>) { |ds| <= 1 || (Rising(ds, ds[0] + 4) && |ds| <= 4) }

  lemma WindowRegular(ds: seq<nat>, cs: seq<nat>)
    requires |ds| == |cs| && Window(ds) && Rising(cs, 21)
    ensures Regular(ds, cs)
  {
    hide Exp, Regular;
    if |ds| <= 1 {
      Small(ds, cs);
    } else {
      var e := ds[0];
      RisingPair(ds, e + 4, 0, 1);
      if |ds| == 2 {
        PairOf4(e, ds[1] - e, cs);
        assert ds == [e, e + (ds[1] - e)];
      } else {
        RisingPair(ds, e + 4, 1, 2);
        if |ds| == 4 { RisingPair(ds, e + 4, 2, 3); }
        RisingFits(cs, 21, 255);
        if |ds| == 4 || ds[2] == e + 2 {
          Run(e, ds, cs);
        } else if ds[1] == e + 1 {
          GapOf4(e, 2, ds, cs);
        } else {
          GapOf4(e, 1, ds, cs);
        }
      }
    }
  }

  lemma UpTo4()
    ensures Good(4, 21)
  {
    hide Regular;
    forall ds: seq<nat>, cs: seq<nat> | Chosen(ds, cs, 4, 21) ensures Regular(ds, cs) {
      AtMostAll(ds, 4);
      WindowRegular(ds, cs);
    }
  }

  // -- five exponents and five points

  lemma {:induction false} HasXor(a: nat, b: nat, k: nat)
    ensures Has(Xor(a, b), k) == (Has(a, k) != Has(b, k))
    decreases k
  {
    XorUnfold(a, b);
    hide Xor;
    if k > 0 { HasXor(a / 2, b / 2, k - 1); }
  }

  lemma HasAdd(a: Byte, b: Byte, k: nat)
    ensures Has(Add(a, b), k) == (Has(a, k) != Has(b, k))
  {
    hide Has, Xor;
    HasXor(a, b, k);
  }

  lemma {:induction false} NoBits(v: nat, n: nat)
    requires v < Pow2(n) && forall k :: 0 <= k < n ==> !Has(v, k)
    ensures v == 0
  {
    if n > 0 {
      assert !Has(v, 0);
      forall k | 0 <= k < n - 1 ensures !Has(v / 2, k) { assert !Has(v, k + 1); }
      NoBits(v / 2, n - 1);
    }
  }

  /** Three points, the first of them 1: two exponents d1 and d2 besides 0. */
  function Less1(n: nat): Byte { Add(Exp(n), 1) }

  function Cross(a: nat, b: nat, c: nat, d: nat): Byte { Add(Product(Less1(a), Less1(b)), Product(Less1(c), Less1(d))) }

  lemma Cramer(p: Byte, q: Byte, p': Byte, q': Byte, v: Byte, w: Byte)
    requires Add(Product(p, v), Product(q, w)) == 0 && Add(Product(p', v), Product(q', w)) == 0
    requires p != 0 && Add(Product(p, q'), Product(q, p')) != 0
    ensures v == 0 && w == 0
  {
    hide *;
    AddCancel(Product(p, v), Product(q, w));
    AddCancel(Product(p', v), Product(q', w));
    ProductAssoc(p', p, v);
    ProductAssoc(p', q, w);
    ProductAssoc(p, p', v);
    ProductAssoc(p, q', w);
    ProductComm(p, p');
    ProductComm(p', q);
    ProductAddLeft(Product(p, q'), Product(q, p'), w);
    AddCancel(Product(Product(p, q'), w), Product(Product(q, p'), w));
    ProductNonzero(Add(Product(p, q'), Product(q, p')), w);
    ProductZero(q);
    ProductNonzero(p, v);
  }

  lemma MomentOfThree(d: nat, s: nat, t: nat, v: Vec)
    requires |v| == 3
    ensures Moment(d, [0, s, t], v) == Add(Add(v[0], Product(Exp(d * s), v[1])), Product(Exp(d * t), v[2]))
  {
    hide Add, Product, Dot;
    var cs := [0, s, t];
    Dot3(RsPowers(d, cs), v);
    assert RsPowers(d, cs)[0] == RsEntry(d, 0) && RsPowers(d, cs)[1] == RsEntry(d, s) && RsPowers(d, cs)[2] == RsEntry(d, t);
    RsEntryIs(d, 0, 0);
    hide Exp;
    ExpZero();
    Simple(v[0]);
    ProductComm(1, v[0]);
  }

  /** Subtracting the first of two such equations. */
  lemma WithoutFirst(v: Vec, x: Byte, y: Byte)
    requires |v| == 3 && Add(Add(v[0], v[1]), v[2]) == 0
    ensures Add(Add(v[0], Product(x, v[1])), Product(y, v[2])) == Add(Product(Add(x, 1), v[1]), Product(Add(y, 1), v[2]))
  {
    hide *;
    var a, b, c := v[0], v[1], v[2];
    AddCancel(Add(a, b), c);
    AddCancel(a, b);
    ProductAddLeft(x, 1, b);
    ProductAddLeft(y, 1, c);
    Simple(b);
    Simple(c);
    ProductComm(1, b);
    ProductComm(1, c);
    AddSwap(Product(x, b), b, Product(y, c), c);
    AddComm(b, c);
    AddComm(a, Product(x, b));
    AddAssoc(Product(x, b), a, Product(y, c));
    AddComm(a, Product(y, c));
    AddAssoc(Product(x, b), Product(y, c), a);
    SumOfOthers(a, b, c);
  }

  lemma SumOfOthers(a: Byte, b: Byte, c: Byte)
    requires Add(Add(a, b), c) == 0
    ensures Add(b, c) == a
  {
    hide *;
    AddCancel(Add(a, b), c);
    AddComm(a, b);
    AddCancel(a, b);
  }

  lemma PowerNotOne(n: nat)
    requires 0 < n < 255
    ensures Less1(n) != 0
  {
    hide Exp, Add;
    PointsDiffer(n, 0);
    ExpZero();
    AddCancel(Exp(n), 1);
  }

  /** Three points and three exponents, the first ones 0: regular exactly when the cross sum is nonzero. */
  lemma ThreeByThree(d1: nat, d2: nat, s: nat, t: nat, a: nat, b: nat, c: nat, d: nat)
    requires a == d1 * s && b == d2 * t && c == d1 * t && d == d2 * s && 0 < a < 255
    ensures Regular([0, d1, d2], [0, s, t]) <==> Cross(a, b, c, d) != 0
  {
    hide Moment, Regular, Add, Product, Less1, IsZero, Vanish;
    var ds, cs := [0, d1, d2], [0, s, t];
    var p, q, p', q' := Less1(a), Less1(c), Less1(d), Less1(b);
    PowerNotOne(a);
    if Cross(a, b, c, d) != 0 {
      forall v: Vec | |v| == |cs| && Vanish(ds, cs, v) ensures IsZero(v) {
        EquationsOfThree(d1, d2, s, t, a, b, c, d, v);
        Cramer(p, q, p', q', v[1], v[2]);
        ZeroOfThree(v);
      }
      FromMoments(ds, cs);
    } else {
      var v: Vec := [Add(q, p), q, p];
      AddCancel(Add(q, p), q);
      EquationsOfThree(d1, d2, s, t, a, b, c, d, v);
      CrossNull(p, q, p', q');
      NonzeroOfThree(v);
      SingularBy(ds, cs, v);
    }
  }

  lemma NonzeroOfThree(v: Vec)
    requires |v| == 3 && v[2] != 0
    ensures !IsZero(v)
  {}

  lemma ZeroOfThree(v: Vec)
    requires |v| == 3 && v[1] == 0 && v[2] == 0 && Add(Add(v[0], v[1]), v[2]) == 0
    ensures IsZero(v)
  {
    hide Add;
    AddZero(v[0]);
  }

  lemma CrossNull(p: Byte, q: Byte, p': Byte, q': Byte)
    requires Add(Product(p, q'), Product(q, p')) == 0
    ensures Add(Product(p, q), Product(q, p)) == 0 && Add(Product(p', q), Product(q', p)) == 0
    ensures Add(Add(Add(q, p), q), p) == 0
  {
    hide *;
    ProductComm(p, q);
    AddZero(Product(p, q));
    ProductComm(p, q');
    ProductComm(q, p');
    AddCancel(Product(p, q'), Product(q, p'));
    AddCancel(Product(p', q), Product(q', p));
    AddCancel(p, q);
    AddZero(p);
  }

  /** The three equations, with the first subtracted from the others. */
  lemma EquationsOfThree(d1: nat, d2: nat, s: nat, t: nat, a: nat, b: nat, c: nat, d: nat, v: Vec)
    requires |v| == 3 && a == d1 * s && b == d2 * t && c == d1 * t && d == d2 * s
    ensures Vanish([0, d1, d2], [0, s, t], v) <==>
              Add(Add(v[0], v[1]), v[2]) == 0
              && Add(Product(Less1(a), v[1]), Product(Less1(c), v[2])) == 0 && Add(Product(Less1(d), v[1]), Product(Less1(b), v[2])) == 0
  {
    hide Moment, Add, Product, Exp;
    var ds, cs := [0, d1, d2], [0, s, t];
    MomentOfThree(0, s, t, v);
    MomentOfThree(d1, s, t, v);
    MomentOfThree(d2, s, t, v);
    ExpZero();
    Simple(v[1]);
    Simple(v[2]);
    ProductComm(1, v[1]);
    ProductComm(1, v[2]);
    assert Vanish(ds, cs, v) <==> Moment(ds[0], cs, v) == 0 && Moment(ds[1], cs, v) == 0 && Moment(ds[2], cs, v) == 0;
    if Add(Add(v[0], v[1]), v[2]) == 0 {
      WithoutFirst(v, Exp(a), Exp(c));
      WithoutFirst(v, Exp(d), Exp(b));
    }
  }

  // -- which sums of powers vanish, bit by bit

  lemma Less1Product(a: nat, b: nat)
    ensures Product(Less1(a), Less1(b)) == Add(Add(Exp(a + b), Exp(a)), Add(Exp(b), 1))
  {
    hide Exp, Add, Product;
    var x, y := Exp(a), Exp(b);
    ProductAddLeft(x, 1, Add(y, 1));
    ProductAddRight(x, y, 1);
    ExpAdd(a, b);
    Simple(x);
    Simple(Add(y, 1));
    ProductComm(1, Add(y, 1));
  }

  lemma HasPower(n: nat, k: nat)
    requires n <= 25
    ensures Has(Exp(n), k) == Has(PowerOf(n), k)
  {
    hide Exp, Has, PowerOf;
    PowerOfIs(n);
  }

  lemma CrossBit(a: nat, b: nat, c: nat, d: nat, k: nat)
    requires a + b <= 25 && c + d <= 25
    ensures Has(Cross(a, b, c, d), k)
         == (((Has(PowerOf(a + b), k) != Has(PowerOf(a), k)) != Has(PowerOf(b), k)) != ((Has(PowerOf(c + d), k) != Has(PowerOf(c), k)) != Has(PowerOf(d), k)))
  {
    hide Exp, Add, Product, Has, PowerOf, Less1;
    HasLess1Product(a, b, k);
    HasLess1Product(c, d, k);
    HasAdd(Product(Less1(a), Less1(b)), Product(Less1(c), Less1(d)), k);
  }

  lemma HasLess1Product(a: nat, b: nat, k: nat)
    requires a + b <= 25
    ensures Has(Product(Less1(a), Less1(b)), k) == (((Has(PowerOf(a + b), k) != Has(PowerOf(a), k)) != Has(PowerOf(b), k)) != Has(1, k))
  {
    hide Exp, Add, Product, Has, PowerOf, Less1;
    Less1Product(a, b);
    HasAdd(Add(Exp(a + b), Exp(a)), Add(Exp(b), 1), k);
    HasAdd(Exp(a + b), Exp(a), k);
    HasAdd(Exp(b), 1, k);
    HasPower(a + b, k);
    HasPower(a, k);
    HasPower(b, k);
  }

  lemma BitNonzero(v: nat, k: nat)
    requires Has(v, k)
    ensures v != 0
  {
    NothingIn(k);
  }

  /** The third bits of the powers up to 2^25. */
  lemma ThirdBits(n: nat)
    requires n <= 25
    ensures Has(PowerOf(n), 3) == (PowerOf(n) / 8 % 2 == 1)
  {
    hide PowerOf, Has;
    ThirdBit(PowerOf(n));
  }

  lemma CrossSums()
    ensures Cross(1, 16, 4, 4) != 0 && Cross(3, 16, 4, 12) != 0 && Cross(9, 16, 12, 12) != 0
  {
    hide Cross, Has;
    ThirdBits(17); ThirdBits(1); ThirdBits(16); ThirdBits(8); ThirdBits(4);
    CrossBit(1, 16, 4, 4, 3);
    BitNonzero(Cross(1, 16, 4, 4), 3);
    ThirdBits(19); ThirdBits(3); ThirdBits(12);
    CrossBit(3, 16, 4, 12, 3);
    BitNonzero(Cross(3, 16, 4, 12), 3);
    ThirdBits(25); ThirdBits(9); ThirdBits(24);
    CrossBit(9, 16, 12, 12, 3);
    BitNonzero(Cross(9, 16, 12, 12), 3);
  }

  lemma ThirdBit(v: nat)
    ensures Has(v, 3) == (v / 2 / 2 / 2 % 2 == 1)
  {
    assert Has(v, 3) == Has(v / 2, 2) && Has(v / 2, 2) == Has(v / 2 / 2, 1) && Has(v / 2 / 2, 1) == Has(v / 2 / 2 / 2, 0);
  }

  /** The coefficients of four points, bit by bit; the first point is 1. */
  lemma FourthBits(b: nat, c: nat, d: nat)
    requires 0 < b < c < d && b + c + d <= 25
    ensures Has(Coefficient(3, [0, b, c, d]), 0) == (((Has(PowerOf(d), 0) != Has(PowerOf(c), 0)) != Has(PowerOf(b), 0)) != Has(1, 0))
    ensures Has(Coefficient(2, [0, b, c, d]), 3)
         == (((Has(PowerOf(c + d), 3) != (Has(PowerOf(b + d), 3) != Has(PowerOf(b + c), 3))) != ((Has(PowerOf(d), 3) != Has(PowerOf(c), 3)) != Has(PowerOf(b), 3))))
    ensures Has(Coefficient(1, [0, b, c, d]), 3)
         == (Has(PowerOf(b + c + d), 3) != (Has(PowerOf(c + d), 3) != (Has(PowerOf(b + d), 3) != Has(PowerOf(b + c), 3))))
  {
    hide Add, Product, Exp, Coefficient, Has, PowerOf;
    var y, z, w := Exp(b), Exp(c), Exp(d);
    var zw, ywz, wzy := Product(z, w), Product(y, Add(w, z)), Add(Add(w, z), y);
    Fourth(0, b, c, d);
    ExpZero();
    Simple(Add(zw, ywz));
    Simple(wzy);
    ProductComm(1, Add(zw, ywz));
    ProductComm(1, wzy);
    PairBits(b, c, d);
    SumBits(b, c, d);
    HasAdd(Add(zw, ywz), wzy, 3);
    HasAdd(Product(y, zw), Add(zw, ywz), 3);
    HasAdd(wzy, 1, 0);
  }

  lemma HasProduct(m: nat, n: nat, k: nat)
    requires m + n <= 25
    ensures Has(Product(Exp(m), Exp(n)), k) == Has(PowerOf(m + n), k)
  {
    hide Product, Exp, Has, PowerOf;
    ExpAdd(m, n);
    HasPower(m + n, k);
  }

  lemma HasTriple(b: nat, c: nat, d: nat, k: nat)
    requires b + c + d <= 25
    ensures Has(Product(Exp(b), Product(Exp(c), Exp(d))), k) == Has(PowerOf(b + c + d), k)
  {
    hide Product, Exp, Has, PowerOf;
    ExpAdd(c, d);
    HasProduct(b, c + d, k);
    assert b + (c + d) == b + c + d;
  }

  lemma PairBits(b: nat, c: nat, d: nat)
    requires b + c + d <= 25
    ensures Has(Add(Product(Exp(c), Exp(d)), Product(Exp(b), Add(Exp(d), Exp(c)))), 3)
         == (Has(PowerOf(c + d), 3) != (Has(PowerOf(b + d), 3) != Has(PowerOf(b + c), 3)))
    ensures Has(Product(Exp(b), Product(Exp(c), Exp(d))), 3) == Has(PowerOf(b + c + d), 3)
  {
    hide *;
    var y, z, w := Exp(b), Exp(c), Exp(d);
    HasTriple(b, c, d, 3);
    HasProduct(c, d, 3);
    HasProduct(b, d, 3);
    HasProduct(b, c, 3);
    ProductAddRight(y, w, z);
    HasAdd(Product(z, w), Product(y, Add(w, z)), 3);
    HasAdd(Product(y, w), Product(y, z), 3);
  }

  lemma SumBits(b: nat, c: nat, d: nat)
    requires b + c + d <= 25
    ensures forall k: nat :: k == 0 || k == 3 ==>
              Has(Add(Add(Exp(d), Exp(c)), Exp(b)), k) == ((Has(PowerOf(d), k) != Has(PowerOf(c), k)) != Has(PowerOf(b), k))
  {
    hide Add, Exp, Has, PowerOf;
    forall k: nat | k == 0 || k == 3
      ensures Has(Add(Add(Exp(d), Exp(c)), Exp(b)), k) == ((Has(PowerOf(d), k) != Has(PowerOf(c), k)) != Has(PowerOf(b), k))
    {
      HasAdd(Add(Exp(d), Exp(c)), Exp(b), k);
      HasAdd(Exp(d), Exp(c), k);
      HasPower(b, k);
      HasPower(c, k);
      HasPower(d, k);
    }
  }

  lemma LowBits(n: nat)
    requires 0 < n <= 4
    ensures !Has(PowerOf(n), 0) && Has(1, 0)
  {}

  /** Five exponents without one, at four of five points, both with the first and the last. */
  lemma FourOfFive(b: nat, c: nat, d: nat, g: nat)
    requires 0 < b < c < d == 4 && 1 <= g <= 3
    ensures Coefficient(g, [0, b, c, d]) != 0
  {
    hide Coefficient, Has;
    FourthBits(b, c, d);
    LowBits(b);
    LowBits(c);
    LowBits(d);
    ThirdBits(b); ThirdBits(c); ThirdBits(d);
    ThirdBits(c + d); ThirdBits(b + d); ThirdBits(b + c); ThirdBits(b + c + d);
    BitNonzero(Coefficient(g, [0, b, c, d]), if g == 3 then 0 else 3);
  }

  function Doubled(cs: seq<nat>): (r: seq<nat>)
    ensures |r| == |cs| && forall i :: 0 <= i < |cs| ==> r[i] == 2 * cs[i]
  {
    seq(|cs|, i requires 0 <= i < |cs| => 2 * cs[i])
  }

  lemma DoubledMoment(d: nat, cs: seq<nat>, v: Vec)
    requires |v| == |cs|
    ensures Moment(2 * d, cs, v) == Moment(d, Doubled(cs), v)
  {
    hide Dot, Exp;
    assert RsPowers(2 * d, cs) == RsPowers(d, Doubled(cs)) by {
      forall j | 0 <= j < |cs| ensures RsEntry(2 * d, cs[j]) == RsEntry(d, 2 * cs[j]) {
        assert (2 * d) * cs[j] == d * (2 * cs[j]);
      }
    }
  }

  /** Even exponents: a run at the squares of the points. */
  lemma EvenRun(cs: seq<nat>)
    requires |cs| == 3 && Rising(cs, 5)
    ensures Regular([0, 2, 4], cs)
  {
    hide Moment, Regular, Exp;
    var ds := [0, 2, 4];
    RisingPair(cs, 5, 0, 1);
    RisingPair(cs, 5, 1, 2);
    forall v: Vec | |v| == |cs| && Vanish(ds, cs, v) ensures IsZero(v) {
      forall d: nat | d < 3 ensures Moment(d, Doubled(cs), v) == 0 {
        DoubledMoment(d, cs, v);
        assert ds[d] == 2 * d;
      }
      Consecutive(0, Doubled(cs), v);
    }
    FromMoments(ds, cs);
  }

  /** Sets of at least three numbers below five that span all five. */
  lemma Spanning(s: seq<nat>)
    requires Rising(s, 5) && |s| >= 3 && !Window(s)
    ensures |s| <= 5 && (|s| == 5 ==> s == [0, 1, 2, 3, 4])
    ensures |s| == 4 ==> s == [0, s[1], s[2], 4] && 0 < s[1] < s[2] < 4
    ensures |s| == 3 ==> s == [0, 1, 4] || s == [0, 2, 4] || s == [0, 3, 4]
  {
    AtMostAll(s, 5);
    RisingPair(s, 5, 0, 1);
    RisingPair(s, 5, 1, 2);
    if |s| > 3 { RisingPair(s, 5, 2, 3); }
    if |s| > 4 { RisingPair(s, 5, 3, 4); }
    NotWindow(s);
  }

  lemma NotWindow(s: seq<nat>)
    requires Rising(s, 5) && |s| >= 3 && !Window(s)
    ensures s[0] == 0 && s[|s| - 1] == 4
  {
    var m := |s| - 1;
    AtMostAll(s, 5);
    RisingPair(s, 5, 0, m);
    if s[0] > 0 || s[m] < 4 {
      forall i | 0 <= i < |s| ensures s[i] < s[0] + 4 {
        if i < m { RisingPair(s, 5, i, m); }
      }
      FewWithin(s);
    }
  }

  lemma FewWithin(s: seq<nat>)
    requires |s| >= 3 && Rising(s, s[0] + 4)
    ensures |s| <= 4
  {
    RisesByOne(s, s[0] + 4, |s| - 1);
  }

  lemma {:induction false} RisesByOne(s: seq<nat>, n: nat, i: nat)
    requires Rising(s, n) && i < |s|
    ensures s[0] + i <= s[i] < n
  {
    if i > 0 {
      RisingPair(s, n, i - 1, i);
      RisesByOne(s, n, i - 1);
    }
  }

  lemma ThreeOfFive(ds: seq<nat>, cs: seq<nat>)
    requires |ds| == |cs| == 3 && Rising(ds, 5) && Rising(cs, 5) && !Window(ds) && !Window(cs)
    ensures Regular(ds, cs)
  {
    Spanning(ds);
    Spanning(cs);
    hide Regular, Cross, Window, Rising;
    CrossSums();
    if ds == [0, 2, 4] {
      EvenRun(cs);
    } else if cs == [0, 2, 4] {
      EvenRun(ds);
      RegularSwaps(ds, cs);
    } else if ds == [0, 1, 4] && cs == [0, 1, 4] {
      ThreeByThree(1, 4, 1, 4, 1, 16, 4, 4);
    } else if ds == [0, 3, 4] && cs == [0, 3, 4] {
      ThreeByThree(3, 4, 3, 4, 9, 16, 12, 12);
    } else {
      ThreeByThree(1, 4, 3, 4, 3, 16, 4, 12);
      RegularSwaps([0, 1, 4], [0, 3, 4]);
    }
  }

  lemma FourByFour(ds: seq<nat>, cs: seq<nat>)
    requires |ds| == |cs| == 4 && Rising(ds, 5) && Rising(cs, 5) && !Window(ds) && !Window(cs)
    ensures Regular(ds, cs)
  {
    Spanning(ds);
    Spanning(cs);
    RisingFits(cs, 5, 255);
    hide Regular, Coefficient, Window, Rising;
    var g := if ds[1] == 2 then 1 else if ds[2] == 3 then 2 else 3;
    FourOfFive(cs[1], cs[2], 4, g);
    RunBut(0, g, ds, cs);
  }

  lemma UpTo5()
    ensures Good(5, 5)
  {
    forall ds: seq<nat>, cs: seq<nat> | Chosen(ds, cs, 5, 5) ensures Regular(ds, cs) { RegularOf5(ds, cs); }
  }

  lemma RegularOf5(ds: seq<nat>, cs: seq<nat>)
    requires Chosen(ds, cs, 5, 5)
    ensures Regular(ds, cs)
  {
    hide Regular, Window;
    AtMostAll(ds, 5);
    RisingFits(cs, 5, 21);
    RisingFits(ds, 5, 21);
    if |ds| <= 1 {
      Small(ds, cs);
    } else if |ds| == 2 {
      RisingPair(ds, 5, 0, 1);
      PairOf4(ds[0], ds[1] - ds[0], cs);
      assert ds == [ds[0], ds[0] + (ds[1] - ds[0])];
    } else if Window(ds) {
      WindowRegular(ds, cs);
    } else if Window(cs) {
      WindowRegular(cs, ds);
      RegularSwaps(ds, cs);
    } else {
      Spanning(ds);
      if |ds| == 3 {
        ThreeOfFive(ds, cs);
      } else if |ds| == 4 {
        FourByFour(ds, cs);
      } else {
        RisingFits(cs, 5, 255);
        Run(0, ds, cs);
      }
    }
  }

  // -- one more exponent or point is too many

  lemma SomePowers()
    ensures PowerOf(10) == 116 && PowerOf(21) == 117
    ensures PowerOf(23) == 201 && PowerOf(3) == 8 && PowerOf(20) == 180 && PowerOf(17) == 152 && PowerOf(5) == 32 && PowerOf(12) == 205
  {}

  lemma SumOf22()
    ensures Add(1, Exp(10)) == Exp(21) && Add(1, Exp(20)) == Exp(42) && Add(1, Exp(40)) == Exp(84)
  {
    hide Exp, Add, Product, PowerOf;
    PowerOfIs(10);
    PowerOfIs(21);
    SomePowers();
    AddOne(Exp(10));
    SquareOnePlus(Exp(10));
    ExpAdd(10, 10);
    ExpAdd(21, 21);
    SquareOnePlus(Exp(20));
    ExpAdd(20, 20);
    ExpAdd(42, 42);
  }

  /** 1 + 2^10 + 2^21 = 0, and so are the sums of the squares and of the fourth powers. */
  lemma Singular4by22()
    ensures !Regular([0, 1, 3], [0, 10, 21])
  {
    hide Exp, Add, Product, Moment, Regular;
    var z, w := Exp(10), Exp(21);
    var v: Vec := [1, z, w];
    SumOf22();
    MomentOfThree(0, 10, 21, v);
    MomentOfThree(1, 10, 21, v);
    MomentOfThree(3, 10, 21, v);
    ExpZero();
    Simple(z);
    Simple(w);
    ProductComm(1, z);
    ProductComm(1, w);
    ExpAdd(10, 10);
    ExpAdd(21, 21);
    ExpAdd(30, 10);
    ExpAdd(63, 21);
    AddZero(Exp(21));
    AddZero(Exp(42));
    AddZero(Exp(84));
    assert v[0] == 1;
    SingularBy([0, 1, 3], [0, 10, 21], v);
  }

  lemma HasDigits(v: nat)
    ensures Has(v, 0) == (v % 2 == 1) && Has(v, 1) == (v / 2 % 2 == 1) && Has(v, 2) == (v / 4 % 2 == 1) && Has(v, 3) == (v / 8 % 2 == 1)
    ensures Has(v, 4) == (v / 16 % 2 == 1) && Has(v, 5) == (v / 32 % 2 == 1) && Has(v, 6) == (v / 64 % 2 == 1) && Has(v, 7) == (v / 128 % 2 == 1)
  {
    hide Has;
    Quarters(v);
    HasFirst(v, v / 2, v / 4);
    HasFirst(v / 2, v / 4, v / 8);
    HasFirst(v / 4, v / 8, v / 16);
    HasFirst(v / 8, v / 16, v / 32);
    HasFirst(v / 16, v / 32, v / 64);
    HasFirst(v / 32, v / 64, v / 128);
    HasHalf(v, v / 2);
    HasHalf(v / 2, v / 4);
    HasHalf(v / 4, v / 8);
    HasHalf(v / 8, v / 16);
    HasHalf(v / 16, v / 32);
  }

  lemma Quarters(v: nat)
    ensures v / 2 / 2 == v / 4 && v / 4 / 2 == v / 8 && v / 8 / 2 == v / 16 && v / 16 / 2 == v / 32 && v / 32 / 2 == v / 64 && v / 64 / 2 == v / 128
  {}

  lemma HasFirst(v: nat, a: nat, b: nat)
    requires a == v / 2 && b == a / 2
    ensures Has(v, 0) == (v % 2 == 1) && Has(v, 1) == (a % 2 == 1) && Has(v, 2) == (b % 2 == 1)
  {
    assert Has(v, 1) == Has(a, 0) && Has(v, 2) == Has(a, 1) && Has(a, 1) == Has(b, 0);
  }

  lemma HasHalf(v: nat, a: nat)
    requires a == v / 2
    ensures Has(v, 3) == Has(a, 2) && Has(v, 4) == Has(a, 3) && Has(v, 5) == Has(a, 4) && Has(v, 6) == Has(a, 5) && Has(v, 7) == Has(a, 6)
  {}

  lemma CancelBits(k: nat)
    requires k < 8
    ensures ((Has(201, k) != Has(8, k)) != Has(180, k)) == ((Has(152, k) != Has(32, k)) != Has(205, k))
  {
    hide Has;
    HasDigits(201); HasDigits(8); HasDigits(180); HasDigits(152); HasDigits(32); HasDigits(205);
  }

  lemma EightBits()
    ensures Pow2(8) == 256
  {
    Pow2Values();
  }

  lemma Singular5by6()
    ensures !Regular([0, 1, 4], [0, 3, 5])
  {
    hide Cross, Has, Regular, Pow2, PowerOf;
    var x := Cross(3, 20, 5, 12);
    SomePowers();
    EightBits();
    forall k: nat | k < 8 ensures !Has(x, k) {
      CrossBit(3, 20, 5, 12, k);
      CancelBits(k);
    }
    NoBits(x, 8);
    ThreeByThree(1, 4, 3, 5, 3, 20, 5, 12);
  }

  /** The 255th power is 1 again. */
  lemma Singular2by256()
    ensures !Regular([0, 1], [0, 255])
  {
    hide Exp, Add, Product, Regular;
    var ds, cs := [0, 1], [0, 255];
    var v: Vec := [1, 1];
    ExpZero();
    ExpPeriod(0);
    forall d: nat | d <= 1 ensures Moment(d, cs, v) == 0 {
      Dot2(RsPowers(d, cs), v);
      RsEntryIs(d, 0, 0);
      RsEntryIs(d, 255, 255 * d);
      ProductOne(1);
      AddZero(1);
    }
    assert v[0] == 1;
    SingularBy(ds, cs, v);
  }

  lemma Spoiled(ds: seq<nat>, cs: seq<nat>, p: nat, k: nat)
    requires Chosen(ds, cs, p, k) && !Regular(ds, cs)
    ensures !Good(p, k)
  {
    hide Regular;
  }

  // -- the exact range

  /** p parity rows and k data rows. */
  predicate Within(p: nat, k: nat) {
    p <= 1 || k <= 1 || (p <= 3 && k <= 255) || (k <= 3 && p <= 255) || (p <= 4 && k <= 21) || (k <= 4 && p <= 21) || (p <= 5 && k <= 5)
  }

  lemma OneIsGood(k: nat)
    ensures Good(1, k)
  {
    hide Regular;
    forall ds: seq<nat>, cs: seq<nat> | Chosen(ds, cs, 1, k) ensures Regular(ds, cs) {
      AtMostAll(ds, 1);
      Small(ds, cs);
    }
  }

  lemma WithinGood(p: nat, k: nat)
    requires Within(p, k) && p <= k
    ensures Good(p, k)
  {
    hide Good;
    if p <= 1 {
      OneIsGood(k);
      GoodLess(1, k, p, k);
    } else if p <= 3 && k <= 255 {
      UpTo3(k);
      GoodLess(3, k, p, k);
    } else if p <= 4 && k <= 21 {
      UpTo4();
      GoodLess(4, 21, p, k);
    } else {
      UpTo5();
      GoodLess(5, 5, p, k);
    }
  }

  lemma BeyondBad(p: nat, k: nat)
    requires !Within(p, k) && p <= k
    ensures !Good(p, k)
  {
    hide Good, Regular;
    if p <= 3 {
      Singular2by256();
      Spoiled([0, 1], [0, 255], p, k);
    } else if p == 4 {
      Singular4by22();
      Spoiled([0, 1, 3], [0, 10, 21], p, k);
    } else {
      Singular5by6();
      Spoiled([0, 1, 4], [0, 3, 5], p, k);
    }
  }

  /** The power generator recovers from every loss exactly within this range. */
  lemma RsExact(m: nat, k: nat)
    requires k <= m
    ensures EveryChoiceIndependent(RsMatrix(m, k), m, k) <==> Within(m - k, k)
  {
    hide EveryChoiceIndependent, RsMatrix, Good;
    var p := m - k;
    GoodDecides(m, k);
    if p <= k {
      if Within(p, k) { WithinGood(p, k); } else { BeyondBad(p, k); }
    } else {
      if Within(k, p) { WithinGood(k, p); } else { BeyondBad(k, p); }
      if Good(k, p) { GoodSwaps(k, p); }
      if Good(p, k) { GoodSwaps(p, k); }
    }
  }

  /** In particular: three parity rows for up to 255 data rows, four for up to 21, five for up to five, and up to 255 for
      up to three. */
  lemma RsEveryChoice(m: nat, k: nat)
    requires k <= m
    requires (m <= k + 3 && k <= 255) || (m <= k + 4 && k <= 21) || (m <= k + 5 && k <= 5) || (m <= k + 21 && k <= 4) || (m <= k + 255 && k <= 3)
    ensures EveryChoiceIndependent(RsMatrix(m, k), m, k)
  {
    hide EveryChoiceIndependent, RsMatrix;
    RsExact(m, k);
  }
}
