/** Sets of small numbers as machine words, and the enumeration of the sets of one size in increasing order. */
module Subsets {
  import opened Bits
  import opened BitStream

  const WORD: nat := 64

  /** The number of elements. */
  function Pop(x: nat): nat {
    if x == 0 then 0 else x % 2 + Pop(x / 2)
  }

  /** Whether i is an element. */
  predicate Has(x: nat, i: nat) {
    if i == 0 then x % 2 == 1 else Has(x / 2, i - 1)
  }

  /** Bitwise and. */
  function And(a: nat, b: nat): nat
    decreases a + b
  {
    if a == 0 || b == 0 then 0 else 2 * And(a / 2, b / 2) + (if a % 2 == 1 && b % 2 == 1 then 1 else 0)
  }

  /** Negation of a machine word. */
  function Neg(x: nat): nat
    requires 0 < x < Pow2(WORD)
  {
    Pow2(WORD) - x
  }

  // -- the smallest element, the word with the lowest run of ones carried out, and that run without its top bit

  function Lowest(x: nat): (l: nat)
    requires x > 0
    ensures 0 < l <= x
  {
    if x % 2 == 1 then 1 else 2 * Lowest(x / 2)
  }

  function Carried(x: nat): nat
    requires x > 0
  {
    x + Lowest(x)
  }

  function Refill(x: nat): (r: nat)
    requires x > 0
    ensures r <= x
  {
    if x % 2 == 0 then Refill(x / 2)
    else if (x / 2) % 2 == 0 then 0
    else 2 * Refill(x / 2) + 1
  }

  /** The carry passes through the lowest bit, except from a lone bit. */
  lemma CarriedHalf(x: nat)
    requires x > 0
    ensures x % 2 == 0 || (x / 2) % 2 == 1 ==> Carried(x) == 2 * Carried(x / 2)
    ensures x % 2 == 1 && (x / 2) % 2 == 0 ==> Carried(x) == 2 * (x / 2 + 1)
  {}

  /** How these go with the lowest bit, in three cases: none, part of a longer run, alone. */
  lemma Halved(x: nat)
    requires x > 0
    ensures x % 2 == 0 ==> x / 2 > 0 && Lowest(x) == 2 * Lowest(x / 2) && Refill(x) == Refill(x / 2) && Pop(x) == Pop(x / 2)
    ensures x % 2 == 1 && (x / 2) % 2 == 1 ==> x / 2 > 0 && Lowest(x) == Lowest(x / 2) == 1 && Refill(x) == 2 * Refill(x / 2) + 1
    ensures x % 2 == 1 && (x / 2) % 2 == 0 ==> Lowest(x) == 1 && Refill(x) == 0 && Carried(x) == x + 1
    ensures x % 2 == 1 ==> Pop(x) == 1 + Pop(x / 2)
  {}

  lemma PopDouble(h: nat)
    ensures Pop(2 * h) == Pop(h) && Pop(2 * h + 1) == Pop(h) + 1
  {}

  lemma {:induction false} AndNegAt(x: nat, w: nat)
    requires 0 < x < Pow2(w)
    ensures And(x, Pow2(w) - x) == Lowest(x)
  {
    var y := Pow2(w) - x;
    if x % 2 == 0 {
      assert y / 2 == Pow2(w - 1) - x / 2 && y % 2 == 0;
      AndNegAt(x / 2, w - 1);
    } else {
      assert y / 2 == Pow2(w - 1) - 1 - x / 2 && y % 2 == 1;
      AndComplement(x / 2, w - 1);
    }
  }

  lemma {:induction false} AndComplement(x: nat, w: nat)
    requires x < Pow2(w)
    ensures And(x, Pow2(w) - 1 - x) == 0
  {
    if w > 0 {
      var y := Pow2(w) - 1 - x;
      assert y / 2 == Pow2(w - 1) - 1 - x / 2 && y % 2 == 1 - x % 2;
      AndComplement(x / 2, w - 1);
    }
  }

  lemma XorEven(h: nat, c: nat, l: nat, r: nat)
    requires Xor(h, c) == l * (4 * r + 3)
    ensures Xor(2 * h, 2 * c) == (2 * l) * (4 * r + 3)
  {
    hide *;
    XorLowBit(h, 0, c, 0);
    TwiceProduct(l, 4 * r + 3);
  }

  lemma XorRun(h: nat, c: nat, r: nat)
    requires Xor(h, c) == 4 * r + 3
    ensures Xor(2 * h + 1, 2 * c) == 4 * (2 * r + 1) + 3
  {
    hide *;
    XorLowBit(h, 1, c, 0);
  }

  lemma XorLone(u: nat)
    ensures Xor(4 * u + 1, 4 * u + 2) == 3
  {
    hide *;
    XorLowBit(2 * u, 1, 2 * u + 1, 0);
    XorLowBit(u, 0, u, 1);
    XorZero(u);
  }

  /** What changes in the carry is the run of ones and the bit above it. */
  lemma {:induction false} XorCarried(x: nat)
    requires x > 0
    ensures Xor(x, Carried(x)) == Lowest(x) * (4 * Refill(x) + 3)
  {
    hide *;
    CarriedHalf(x);
    Halved(x);
    if x % 2 == 0 {
      XorCarried(x / 2);
      XorEven(x / 2, Carried(x / 2), Lowest(x / 2), Refill(x / 2));
    } else if (x / 2) % 2 == 1 {
      XorCarried(x / 2);
      XorRun(x / 2, Carried(x / 2), Refill(x / 2));
    } else {
      XorLone(x / 4);
    }
  }

  lemma TwiceProduct(a: nat, b: nat)
    ensures (2 * a) * b == 2 * (a * b)
  {}

  lemma ShiftAndDivide(l: nat, r: nat)
    requires l > 0
    ensures Over(l * (4 * r + 3) / 4, l) == r
  {
    var n := l * (4 * r + 3);
    assert n == 4 * (l * r) + 3 * l;
    var e := n / 4 - l * r;
    assert 0 <= e < l;
    assert n / 4 == r * l + e;
    Quotient(r, l, e);
  }

  lemma Quotient(q: nat, l: nat, e: nat)
    requires e < l
    ensures (q * l + e) / l == q
  {
    var p := (q * l + e) / l;
    DivBounds(q * l + e, l);
    if p < q { ProductMonotone(p + 1, q, l); }
    if p > q { ProductMonotone(q + 1, p, l); }
  }

  lemma ProductMonotone(p: nat, q: nat, l: nat)
    requires p <= q
    ensures p * l <= q * l
  {}

  lemma DivBounds(n: nat, l: nat)
    requires l > 0
    ensures (n / l) * l <= n < (n / l) * l + l
  {}

  lemma RoomStep(d: nat, t: nat)
    requires Or(d / 2, t) == d / 2 + t && Pop(d / 2 + t) == Pop(d / 2) + Pop(t)
    ensures Or(d, 2 * t) == d + 2 * t && Pop(d + 2 * t) == Pop(d) + Pop(2 * t)
  {
    var u, b := d / 2, d % 2;
    assert d == 2 * u + b;
    assert Or(d, 2 * t) == 2 * Or(u, t) + b;
    hide Or;
    PopSplit(d);
    PopSplit(2 * t);
    PopSplit(d + 2 * t);
    assert (d + 2 * t) / 2 == u + t && (d + 2 * t) % 2 == b;
  }

  lemma PopSplit(x: nat)
    ensures Pop(x) == x % 2 + Pop(x / 2)
  {}

  /** Below the carried word there is room for any number up to the refill. */
  lemma {:induction false} RoomBelow(x: nat, d: nat)
    requires x > 0 && d <= Refill(x)
    ensures Or(d, Carried(x)) == d + Carried(x) && Pop(d + Carried(x)) == Pop(d) + Pop(Carried(x))
  {
    hide *;
    CarriedHalf(x);
    Halved(x);
    if x % 2 == 1 && (x / 2) % 2 == 0 {
      OrZero(Carried(x));
      PopZero();
    } else {
      RoomBelow(x / 2, d / 2);
      RoomStep(d, Carried(x / 2));
    }
  }

  /** Carrying and refilling keeps the number of elements. */
  lemma {:induction false} SameSize(x: nat)
    requires x > 0
    ensures Pop(Carried(x)) + Pop(Refill(x)) == Pop(x)
  {
    hide *;
    CarriedHalf(x);
    Halved(x);
    if x % 2 == 1 && (x / 2) % 2 == 0 {
      var h := x / 2;
      PopDouble(h + 1);
      PopDouble(h / 2);
      PopZero();
    } else {
      SameSize(x / 2);
      PopDouble(Carried(x / 2));
      PopDouble(Refill(x / 2));
    }
  }

  lemma PopZero()
    ensures Pop(0) == 0
  {}

  /** No smaller number has as many elements as the refill. */
  lemma {:induction false} RefillIsLeast(x: nat, d: nat)
    requires x > 0 && d < Refill(x)
    ensures Pop(d) < Pop(Refill(x))
  {
    hide *;
    Halved(x);
    if x % 2 == 0 {
      RefillIsLeast(x / 2, d);
    } else {
      PopSplit(d);
      PopDouble(Refill(x / 2));
      if d / 2 < Refill(x / 2) { RefillIsLeast(x / 2, d / 2); }
    }
  }

  /** What is added below the smallest element adds elements. */
  lemma {:induction false} AddedBelow(x: nat, e: nat)
    requires x > 0 && e < Lowest(x)
    ensures Pop(x + e) == Pop(x) + Pop(e)
  {
    if x % 2 == 0 {
      var h := x / 2;
      assert (x + e) / 2 == h + e / 2 && (x + e) % 2 == e % 2;
      AddedBelow(h, e / 2);
    }
  }

  lemma {:induction false} PopPositive(e: nat)
    requires e > 0
    ensures Pop(e) > 0
  {
    if e % 2 == 0 { PopPositive(e / 2); }
  }

  /** y is the next set after x with as many elements. */
  ghost predicate Follows(x: nat, y: nat) {
    x < y && Pop(y) == Pop(x) && forall z {:trigger Pop(z)} :: x < z < y ==> Pop(z) != Pop(x)
  }

  lemma NextFollows(x: nat)
    requires x > 0
    ensures Follows(x, Carried(x) + Refill(x))
  {
    hide Carried, Refill, Pop, Lowest;
    var t, r := Carried(x), Refill(x);
    CarriedIs(x);
    SameSize(x);
    RoomBelow(x, r);
    forall z {:trigger Pop(z)} | x < z < t + r ensures Pop(z) != Pop(x) {
      if z < t {
        AddedBelow(x, z - x);
        PopPositive(z - x);
      } else {
        RoomBelow(x, z - t);
        RefillIsLeast(x, z - t);
      }
    }
  }

  lemma CarriedIs(x: nat)
    requires x > 0
    ensures Carried(x) == x + Lowest(x)
  {}

  lemma {:induction false} CarriedBound(x: nat, n: nat)
    requires 0 < x < Pow2(n)
    ensures Carried(x) <= Pow2(n)
  {
    if x % 2 == 0 { CarriedBound(x / 2, n - 1); CarriedHalf(x); }
  }

  lemma {:induction false} TopBit(y: nat, n: nat)
    requires y < Pow2(n + 1)
    ensures And(y, Pow2(n)) != 0 <==> y >= Pow2(n)
  {
    if n > 0 && y > 0 { TopBit(y / 2, n - 1); }
    if n == 0 { assert y == 0 || y == 1; }
  }

  /** The smallest set with k elements. */
  function First(k: nat): nat { Pow2(k) - 1 }

  lemma FirstHalf(k: nat)
    ensures k == 0 ==> First(k) == 0
    ensures k > 0 ==> First(k) / 2 == First(k - 1) && First(k) % 2 == 1
  {}

  lemma {:induction false} FirstIsLeast(k: nat, z: nat)
    ensures Pop(First(k)) == k && (z < First(k) ==> Pop(z) < k)
  {
    hide First, Pop;
    FirstHalf(k);
    PopZero();
    if k > 0 {
      PopSplit(First(k));
      PopSplit(z);
      FirstIsLeast(k - 1, z / 2);
    }
  }

  /** Steps to the next subset of {0, .., n - 1} of the same size; 1 and the first one again behind the last. */
  method NextSubset(subset: nat, n: nat, k: nat) returns (next: nat, ret: nat)
    requires 0 < subset < Pow2(n) && n < WORD && Pop(subset) == k
    ensures next < Pow2(n) && Pop(next) == k
    ensures ret == 0 ==> Follows(subset, next)
    ensures ret != 0 ==> ret == 1 && next == First(k) && forall z {:trigger Pop(z)} :: subset < z < Pow2(n) ==> Pop(z) != k
  {
    hide *;
    WordFits(subset, n);
    var tmp1 := And(subset, Neg(subset));
    var tmp2 := subset + tmp1;
    next := Or(Over(Xor(subset, tmp2) / 4, tmp1), tmp2);
    NextIs(subset);
    NextFits(subset, n);
    ret := 0;
    if And(next, Pow2(n)) != 0 {
      next := Pow2(k) - 1;
      ret := 1;
      LastOf(subset, n);
    }
  }

  lemma WordFits(x: nat, n: nat)
    requires 0 < x < Pow2(n) && n < WORD
    ensures x < Pow2(WORD) && And(x, Neg(x)) == Lowest(x) && x + Lowest(x) < Pow2(WORD)
  {
    hide Pow2, And, Lowest;
    FitsIn(x, n, WORD);
  }

  lemma FitsIn(x: nat, n: nat, w: nat)
    requires 0 < x < Pow2(n) && n < w
    ensures x < Pow2(w) && And(x, Pow2(w) - x) == Lowest(x) && x + Lowest(x) < Pow2(w)
  {
    Pow2Monotone(n, w - 1);
    AndNegAt(x, w);
    CarriedBound(x, n);
  }

  /** Division of words. */
  function Over(a: nat, b: nat): nat
    requires b > 0
  {
    a / b
  }

  lemma NextIs(x: nat)
    requires x > 0
    ensures Or(Over(Xor(x, x + Lowest(x)) / 4, Lowest(x)), x + Lowest(x)) == Carried(x) + Refill(x)
  {
    hide *;
    CarriedIs(x);
    NextSum(x);
  }

  lemma NextSum(x: nat)
    requires x > 0
    ensures Or(Over(Xor(x, Carried(x)) / 4, Lowest(x)), Carried(x)) == Carried(x) + Refill(x)
  {
    hide *;
    XorCarried(x);
    ShiftAndDivide(Lowest(x), Refill(x));
    RoomBelow(x, Refill(x));
  }

  lemma NextFits(x: nat, n: nat)
    requires 0 < x < Pow2(n)
    ensures Follows(x, Carried(x) + Refill(x)) && Pop(Carried(x) + Refill(x)) == Pop(x)
    ensures And(Carried(x) + Refill(x), Pow2(n)) != 0 <==> Carried(x) + Refill(x) >= Pow2(n)
  {
    hide Carried, Refill, And, Pop;
    NextFollows(x);
    CarriedBound(x, n);
    TopBit(Carried(x) + Refill(x), n);
  }

  lemma LastOf(x: nat, n: nat)
    requires 0 < x < Pow2(n) && Carried(x) + Refill(x) >= Pow2(n)
    ensures forall z {:trigger Pop(z)} :: x < z < Pow2(n) ==> Pop(z) != Pop(x)
    ensures First(Pop(x)) == Pow2(Pop(x)) - 1 && First(Pop(x)) < Pow2(n) && Pop(First(Pop(x))) == Pop(x)
  {
    hide Carried, Refill, Pop, Pow2;
    NextFollows(x);
    FirstIsLeast(Pop(x), x);
  }
}
