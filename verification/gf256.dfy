/** GF(2^8) as the erasure code computes in it: the reference field of polynomials, the log and antilog
    tables that the field generator fills, the table-driven multiply and inverse, and the field laws. */
module GF256 {
  import opened Bits

  // -- the reference: polynomials over GF(2) modulo x^8 + x^4 + x^3 + x^2 + 1

  /** Field addition: exclusive or of bytes. */
  function Add(a: Byte, b: Byte): Byte {
    Pow2Values(); XorBound(8, a, b);
    Xor(a, b)
  }

  /** Multiplication by x (the generator 2): shift left, reduce by 0x11d on overflow. */
  function Xtime(b: Byte): Byte {
    if b < 128 then 2 * b else Add(2 * b - 256, 0x1d)
  }

  /** `a` if the constant coefficient of `b` is set. */
  function Low(a: Byte, b: Byte): Byte { if b % 2 == 1 then a else 0 }

  /** Schoolbook product by Horner's rule over the bits of `b`. */
  function Product(a: Byte, b: Byte): Byte {
    if b == 0 then 0 else Add(Low(a, b), Xtime(Product(a, b / 2)))
  }

  // -- laws of addition

  lemma AddComm(a: Byte, b: Byte)
    ensures Add(a, b) == Add(b, a)
  {
    XorComm(a, b);
  }

  lemma AddAssoc(a: Byte, b: Byte, c: Byte)
    ensures Add(Add(a, b), c) == Add(a, Add(b, c))
  {
    XorAssoc(a, b, c);
  }

  lemma AddZero(a: Byte)
    ensures Add(a, 0) == a && Add(0, a) == a && Add(a, a) == 0
  {
    XorZero(a);
  }

  lemma AddSwap(a: Byte, b: Byte, c: Byte, d: Byte)
    ensures Add(Add(a, b), Add(c, d)) == Add(Add(a, c), Add(b, d))
  {
    XorSwap(a, b, c, d);
  }

  lemma AddCancel(a: Byte, b: Byte)
    ensures Add(Add(a, b), b) == a && Add(b, Add(b, a)) == a && Add(Add(b, a), b) == a
    ensures Add(a, b) == 0 <==> a == b
  {
    XorCancel(a, b);
    XorComm(a, b);
  }

  // -- the reference product is bilinear and multiplies powers

  lemma XtimeLinear(a: Byte, b: Byte)
    ensures Xtime(Add(a, b)) == Add(Xtime(a), Xtime(b)) && Xtime(0) == 0
  {
    hide Add, Xor;
    DoubleAdd(a, b);
    var h, l, h', l' := a / 128, a % 128, b / 128, b % 128;
    DoubleAdd(l, l');
    XtimeParts(a);
    XtimeParts(b);
    XtimeParts(Add(a, b));
    var r, r' := if h == 1 then 0x1d else 0, if h' == 1 then 0x1d else 0;
    AddSwap(2 * l, r, 2 * l', r');
    AddZero(r);
    AddZero(r');
    AddZero(0x1d);
  }

  /** Doubling without reduction distributes; addition works on the top bit and the rest independently. */
  lemma DoubleAdd(a: Byte, b: Byte)
    ensures Add(a, b) % 128 == Add(a % 128, b % 128)
    ensures Add(a, b) / 128 == (a / 128 + b / 128) % 2
    ensures a < 128 && b < 128 ==> Add(a, b) < 128 && 2 * Add(a, b) == Add(2 * a, 2 * b)
  {
    hide Xor;
    Pow2Values();
    XorSplit(7, a / 128, a % 128, b / 128, b % 128);
    XorBound(7, a % 128, b % 128);
    XorBits();
    if a < 128 && b < 128 { XorUnfold(2 * a, 2 * b); }
  }

  lemma XorBits()
    ensures Xor(0, 0) == 0 && Xor(1, 0) == 1 && Xor(0, 1) == 1 && Xor(1, 1) == 0
  {}

  lemma XtimeParts(a: Byte)
    ensures Xtime(a) == Add(2 * (a % 128), if a / 128 == 1 then 0x1d else 0)
  {
    AddZero(2 * (a % 128));
  }

  lemma {:induction false} XtimeInjective(a: Byte)
    requires Xtime(a) == 0
    ensures a == 0
  {
    AddCancel(2 * (a % 128), 0x1d);
  }

  lemma LowLinear(a: Byte, b: Byte, c: Byte)
    ensures Low(Add(a, b), c) == Add(Low(a, c), Low(b, c))
    ensures Low(c, Add(a, b)) == Add(Low(c, a), Low(c, b))
    ensures Low(Xtime(a), c) == Xtime(Low(a, c))
    ensures Add(a, b) / 2 == Add(a / 2, b / 2)
  {
    hide *;
    LowLeft(a, b, c);
    LowRight(a, b, c);
    LowXtime(a, c);
    AddHalves(a, b);
  }

  lemma AddHalves(a: Byte, b: Byte)
    ensures Add(a, b) / 2 == Add(a / 2, b / 2) && Add(a, b) % 2 == (a + b) % 2
  {
    XorUnfold(a, b);
  }

  lemma LowLeft(a: Byte, b: Byte, c: Byte)
    ensures Low(Add(a, b), c) == Add(Low(a, c), Low(b, c))
  {
    hide Add;
    AddZero(0);
  }

  lemma LowRight(a: Byte, b: Byte, c: Byte)
    ensures Low(c, Add(a, b)) == Add(Low(c, a), Low(c, b))
  {
    hide Add;
    AddHalves(a, b);
    AddZero(c);
    AddZero(0);
  }

  lemma LowXtime(a: Byte, c: Byte)
    ensures Low(Xtime(a), c) == Xtime(Low(a, c))
  {
    hide Add;
  }

  /** Every byte is its upper seven bits times x plus its low bit. */
  lemma ByteSplit(a: Byte)
    ensures a == Add(Low(1, a), Xtime(a / 2))
  {
    hide Xor;
    XorSplit(1, a / 2, 0, 0, a % 2);
    Pow2Values();
    XorZero(a % 2);
    XorZero(a / 2);
    XorComm(2 * (a / 2), a % 2);
  }

  lemma ProductUnfold(a: Byte, b: Byte)
    ensures Product(a, b) == Add(Low(a, b), Xtime(Product(a, b / 2)))
  {
    if b == 0 { AddZero(0); }
  }

  lemma {:induction false} ProductAddLeft(a: Byte, b: Byte, c: Byte)
    ensures Product(Add(a, b), c) == Add(Product(a, c), Product(b, c))
    decreases c
  {
    hide Add, Xtime, Low;
    if c == 0 {
      AddZero(0);
    } else {
      ProductAddLeft(a, b, c / 2);
      LowLinear(a, b, c);
      XtimeLinear(Product(a, c / 2), Product(b, c / 2));
      AddSwap(Low(a, c), Low(b, c), Xtime(Product(a, c / 2)), Xtime(Product(b, c / 2)));
    }
  }

  lemma {:induction false} ProductAddRight(a: Byte, b: Byte, c: Byte)
    ensures Product(a, Add(b, c)) == Add(Product(a, b), Product(a, c))
    decreases b
  {
    hide Add, Xtime, Low, Product;
    if b == 0 {
      AddZero(c);
      AddZero(Product(a, c));
      ProductZero(a);
    } else {
      ProductUnfold(a, b);
      ProductUnfold(a, c);
      ProductUnfold(a, Add(b, c));
      ProductAddRight(a, b / 2, c / 2);
      LowLinear(b, c, a);
      XtimeLinear(Product(a, b / 2), Product(a, c / 2));
      AddSwap(Low(a, b), Low(a, c), Xtime(Product(a, b / 2)), Xtime(Product(a, c / 2)));
    }
  }

  lemma {:induction false} ProductZero(a: Byte)
    ensures Product(a, 0) == 0 && Product(0, a) == 0
  {
    hide Add, Xtime;
    if a != 0 {
      ProductZero(a / 2);
      AddZero(0);
      XtimeLinear(0, 0);
    }
  }

  lemma {:induction false} ProductOne(a: Byte)
    ensures Product(a, 1) == a && Product(1, a) == a
  {
    hide Add, Xtime, Product;
    ByteSplit(a);
    ProductUnfold(1, a);
    ProductUnfold(a, 1);
    ProductZero(a);
    ProductZero(1);
    XtimeLinear(0, 0);
    AddZero(a);
    if a != 0 {
      ProductOne(a / 2);
    }
  }

  lemma {:induction false} ProductXtimeLeft(a: Byte, b: Byte)
    ensures Product(Xtime(a), b) == Xtime(Product(a, b))
    decreases b
  {
    hide Add, Xtime, Low;
    XtimeLinear(0, 0);
    if b != 0 {
      ProductXtimeLeft(a, b / 2);
      LowLinear(a, 0, b);
      XtimeLinear(Low(a, b), Xtime(Product(a, b / 2)));
    }
  }

  lemma ProductOfLow(a: Byte, b: Byte, c: Byte)
    ensures Product(a, Low(b, c)) == Low(Product(a, b), c)
    ensures Product(Low(1, a), b) == Low(b, a)
  {
    hide Add, Xtime, Product;
    ProductZero(a);
    ProductZero(b);
    ProductOne(b);
  }

  /** The product does not care which operand is expanded: induction over the bits of the left one. */
  lemma {:induction false} ProductComm(a: Byte, b: Byte)
    ensures Product(a, b) == Product(b, a)
    decreases a
  {
    hide Add, Xtime, Low, Product;
    ProductUnfold(b, a);
    if a == 0 {
      ProductZero(b);
    } else {
      ByteSplit(a);
      ProductAddLeft(Low(1, a), Xtime(a / 2), b);
      ProductXtimeLeft(a / 2, b);
      ProductComm(a / 2, b);
      ProductOfLow(a, b, b);
    }
  }

  lemma ProductXtimeRight(a: Byte, b: Byte)
    ensures Product(a, Xtime(b)) == Xtime(Product(a, b))
  {
    hide Add, Xtime, Low, Product;
    ProductComm(a, Xtime(b));
    ProductXtimeLeft(b, a);
    ProductComm(a, b);
  }

  lemma {:induction false} ProductAssoc(a: Byte, b: Byte, c: Byte)
    ensures Product(Product(a, b), c) == Product(a, Product(b, c))
    decreases c
  {
    hide Add, Xtime, Low, Product;
    if c == 0 {
      ProductZero(Product(a, b));
      ProductZero(b);
      ProductZero(a);
    } else {
      ProductUnfold(Product(a, b), c);
      ProductUnfold(b, c);
      ProductAssoc(a, b, c / 2);
      ProductAddRight(a, Low(b, c), Xtime(Product(b, c / 2)));
      ProductXtimeRight(a, Product(b, c / 2));
      ProductOfLow(a, b, c);
    }
  }

  // -- powers of the generator

  /** The n-th power of the generator. */
  function Exp(n: nat): Byte {
    if n == 0 then 1 else Xtime(Exp(n - 1))
  }

  lemma {:induction false} ExpAdd(m: nat, n: nat)
    ensures Product(Exp(m), Exp(n)) == Exp(m + n)
  {
    hide Add, Xtime, Low, Product;
    if n == 0 {
      ProductOne(Exp(m));
    } else {
      ExpAdd(m, n - 1);
      ProductXtimeRight(Exp(m), Exp(n - 1));
    }
  }

  // -- the generator has order 255: evaluated on explicit bits

  datatype Octet = Octet(b7: bool, b6: bool, b5: bool, b4: bool, b3: bool, b2: bool, b1: bool, b0: bool)

  /** Appends bit `b` below the number `n`. */
  function Shift(n: nat, b: bool): nat { 2 * n + if b then 1 else 0 }

  /** The low seven bits of `o` below the number `n`. */
  function Below(n: nat, o: Octet): nat {
    Shift(Shift(Shift(Shift(Shift(Shift(Shift(n, o.b6), o.b5), o.b4), o.b3), o.b2), o.b1), o.b0)
  }

  function Value(o: Octet): nat { Below(if o.b7 then 1 else 0, o) }

  /** One step of the generator, bit by bit. */
  function XtimeOctet(o: Octet): Octet {
    Octet(o.b6, o.b5, o.b4, o.b3 != o.b7, o.b2 != o.b7, o.b1 != o.b7, o.b0, o.b7)
  }

  /** Exclusive or bit by bit: the lowest bits and the rest. */
  lemma XorShift(m: nat, n: nat, a: bool, b: bool)
    ensures Xor(Shift(m, a), Shift(n, b)) == Shift(Xor(m, n), a != b)
  {
    hide Xor;
    XorLowBit(m, if a then 1 else 0, n, if b then 1 else 0);
  }

  lemma ShiftSum(m: nat, n: nat, b: bool, k: nat)
    requires m == k + n && n < k
    ensures Shift(m, b) == 2 * k + Shift(n, b) && Shift(n, b) < 2 * k
  {}

  /** The top bit of an octet is worth 128. */
  lemma TopBit(o: Octet)
    ensures Below(1, o) == 128 + Below(0, o) && Below(0, o) < 128
  {
    hide Shift;
    ShiftSum(1, 0, o.b6, 1);
    var m, n := Shift(1, o.b6), Shift(0, o.b6);
    ShiftSum(m, n, o.b5, 2);
    m, n := Shift(m, o.b5), Shift(n, o.b5);
    ShiftSum(m, n, o.b4, 4);
    m, n := Shift(m, o.b4), Shift(n, o.b4);
    ShiftSum(m, n, o.b3, 8);
    m, n := Shift(m, o.b3), Shift(n, o.b3);
    ShiftSum(m, n, o.b2, 16);
    m, n := Shift(m, o.b2), Shift(n, o.b2);
    ShiftSum(m, n, o.b1, 32);
    m, n := Shift(m, o.b1), Shift(n, o.b1);
    ShiftSum(m, n, o.b0, 64);
  }

  /** Exclusive or with 0x1d flips bits 4, 3, 2 and 0; `h` holds the bits above them. */
  lemma XorReduction(h: nat, b3: bool, b2: bool, b1: bool, b0: bool)
    ensures Xor(Shift(Shift(Shift(Shift(Shift(h, b3), b2), b1), b0), false), 29)
         == Shift(Shift(Shift(Shift(Shift(h, !b3), !b2), !b1), b0), true)
  {
    assert Shift(0, true) == 1 && Shift(1, true) == 3 && Shift(3, true) == 7 && Shift(7, false) == 14 && Shift(14, true) == 29;
    hide Xor, Shift;
    XorZero(h);
    XorShift(h, 0, b3, true);
    var v := Shift(h, b3);
    XorShift(v, 1, b2, true);
    v := Shift(v, b2);
    XorShift(v, 3, b1, true);
    v := Shift(v, b1);
    XorShift(v, 7, b0, false);
    XorShift(Shift(v, b0), 14, false, true);
  }

  lemma ShiftEnds(n: nat)
    ensures Shift(n, false) == 2 * n && Shift(0, true) == 1 && Shift(0, false) == 0
  {}

  lemma XtimeOctetValue(o: Octet)
    ensures 0 <= Value(o) < 256 && Xtime(Value(o)) == Value(XtimeOctet(o))
  {
    hide Xor, Shift;
    TopBit(o);
    ShiftEnds(Below(0, o));
    ShiftEnds(0);
    var h := Shift(Shift(Shift(0, o.b6), o.b5), o.b4);
    if o.b7 {
      XorReduction(h, o.b3, o.b2, o.b1, o.b0);
    }
  }

  /** Five steps at once, written out per bit. */
  function Five(o: Octet): Octet {
    Octet(
      (o.b7 != o.b6) != o.b2,
      ((o.b7 != o.b6) != o.b5) != o.b1,
      ((o.b6 != o.b5) != o.b4) != o.b0,
      (o.b5 != o.b4) != o.b3,
      ((o.b7 != o.b6) != o.b4) != o.b3,
      (o.b7 != o.b5) != o.b3,
      o.b4,
      o.b7 != o.b3)
  }

  lemma FiveOctet(o: Octet)
    ensures XtimeOctet(XtimeOctet(XtimeOctet(XtimeOctet(XtimeOctet(o))))) == Five(o)
  {}

  lemma FiveSteps(n: nat, o: Octet)
    requires Exp(n) == Value(o)
    ensures Exp(n + 5) == Value(Five(o))
  {
    hide Xtime, Value, XtimeOctet, Five;
    FiveOctet(o);
    var o1 := XtimeOctet(o);
    var o2 := XtimeOctet(o1);
    var o3 := XtimeOctet(o2);
    XtimeOctetValue(o); XtimeOctetValue(o1); XtimeOctetValue(o2); XtimeOctetValue(o3); XtimeOctetValue(XtimeOctet(o3));
    assert Exp(n + 1) == Value(o1);
    assert Exp(n + 2) == Value(o2);
    assert Exp(n + 3) == Value(o3);
    assert Exp(n + 4) == Value(XtimeOctet(o3));
  }

  /** The octet of x^(5 n). */
  function Fives(n: nat): Octet { if n == 0 then Octet(false, false, false, false, false, false, false, true) else Five(Fives(n - 1)) }

  lemma {:induction false} FivesValue(n: nat)
    ensures Exp(5 * n) == Value(Fives(n))
  {
    hide Five, Xtime;
    if n > 0 {
      FivesValue(n - 1);
      FiveSteps(5 * (n - 1), Fives(n - 1));
    }
  }

  lemma FullCycle()
    ensures Fives(3).b1 && XtimeOctet(Fives(10)).b1 && Fives(17).b1 && Fives(51) == Octet(false, false, false, false, false, false, false, true)
  {
    assert Fives(3) == Octet(false, false, true, false, false, true, true, false);
    NextSeven(3);
    NextSeven(10);
    NextSeven(17);
    NextSeven(24);
    hide Fives;
    assert Fives(10) == Octet(false, false, false, false, false, true, false, true);
    assert Fives(17) == Octet(true, true, false, true, false, true, true, false);
    assert Fives(24) == Octet(false, false, true, true, true, false, true, true);
    assert Fives(31) == Octet(false, true, true, true, false, false, true, false);
    LastCycle();
  }

  lemma LastCycle()
    requires Fives(31) == Octet(false, true, true, true, false, false, true, false)
    ensures Fives(51) == Octet(false, false, false, false, false, false, false, true)
  {
    NextSeven(31);
    NextSeven(38);
    NextSeven(44);
    NextFive(44);
    hide Fives;
    var o38, o45 := Fives(38), Fives(45);
    assert o38 == Octet(true, false, true, false, true, true, true, false);
    assert o45 == Octet(false, false, true, false, false, true, false, false);
    assert Fives(51) == Five(Five(Five(Five(Five(Five(o45))))));
  }

  lemma NextFive(n: nat)
    ensures Fives(n + 1) == Five(Fives(n))
  {}

  lemma NextSeven(n: nat)
    ensures Fives(n + 7) == Five(Five(Five(Five(Five(Five(Five(Fives(n))))))))
  {
    hide Five;
    assert Fives(n + 6) == Five(Fives(n + 5)) && Fives(n + 4) == Five(Fives(n + 3)) && Fives(n + 2) == Five(Fives(n + 1));
  }

  lemma KeyPowers()
    ensures Exp(15) != 1 && Exp(51) != 1 && Exp(85) != 1 && Exp(255) == 1
  {
    assert Value(Octet(false, false, false, false, false, false, false, true)) == 1;
    assert Exp(51) == Xtime(Exp(50));
    hide *;
    FivesValue(3);
    FivesValue(10);
    FivesValue(17);
    FivesValue(51);
    FullCycle();
    XtimeOctetValue(Fives(10));
    OddOctet(Fives(3));
    OddOctet(XtimeOctet(Fives(10)));
    OddOctet(Fives(17));
  }

  lemma OddOctet(o: Octet)
    requires o.b1
    ensures Value(o) != 1
  {}

  lemma {:induction false} ExpMultiple(d: nat, q: nat)
    requires Exp(d) == 1
    ensures Exp(d * q) == 1
  {
    hide Xtime, Product;
    if q == 0 {
      assert d * q == 0;
    } else {
      ExpMultiple(d, q - 1);
      ExpAdd(d * (q - 1), d);
      ProductOne(1);
      assert d * (q - 1) + d == d * q;
    }
  }

  lemma ProductAtLeast(d: nat, q: nat, a: nat, b: nat)
    ensures d >= a && q >= b ==> d * q >= a * b
  {
    if d >= a && q >= b { assert d * q == a * b + (d - a) * b + d * (q - b); }
  }

  /** Every proper divisor of 255 divides 15, 51 or 85. */
  lemma DivisorOf255(d: nat, q: nat)
    requires 0 < d < 255 && d * q == 255
    ensures d * (q / 3) == 85 || d * (q / 5) == 51 || d * (q / 17) == 15
  {
    ProductAtLeast(d, q, 15, 18);
    assert q != 0 && q != 1;
    if q > 17 {
      assert d in {1, 2, 3, 4, 5, 6, 7, 8, 9, 10, 11, 12, 13, 14};
    } else {
      assert q in {2, 3, 4, 5, 6, 7, 8, 9, 10, 11, 12, 13, 14, 15, 16, 17};
    }
  }

  /** The generator has order exactly 255. */
  lemma {:induction false} ExpOrder(d: nat)
    requires 0 < d < 255
    ensures Exp(d) != 1
  {
    hide Exp, Product;
    if Exp(d) == 1 {
      KeyPowers();
      var q, r := 255 / d, 255 % d;
      if r > 0 {
        ExpMultiple(d, q);
        ExpAdd(d * q, r);
        ProductOne(Exp(r));
        ExpOrder(r);
      } else {
        DivisorOf255(d, q);
        ExpMultiple(d, q / 3);
        ExpMultiple(d, q / 5);
        ExpMultiple(d, q / 17);
      }
    }
  }

  lemma {:induction false} ExpPeriod(n: nat)
    ensures Exp(n + 255) == Exp(n)
  {
    hide Product, Exp;
    KeyPowers();
    ExpAdd(n, 255);
    ProductOne(Exp(n));
  }

  lemma ExpInjective(i: nat, j: nat)
    requires 1 <= i < j <= 255
    ensures Exp(i) != Exp(j)
  {
    hide Product, Exp;
    if Exp(i) == Exp(j) {
      ExpAdd(i, 255 - i);
      ExpAdd(j, 255 - i);
      KeyPowers();
      assert j + (255 - i) == (j - i) + 255;
      ExpPeriod(j - i);
      ExpOrder(j - i);
    }
  }

  lemma {:induction false} ExpNonzero(n: nat)
    ensures Exp(n) != 0
  {
    if n > 0 {
      ExpNonzero(n - 1);
      if Exp(n) == 0 { XtimeInjective(Exp(n - 1)); }
    }
  }

  // -- logarithms

  function UpTo(n: nat): (s: set<int>)
    ensures |s| == n && forall x :: x in s <==> 1 <= x <= n
  {
    if n == 0 then {} else UpTo(n - 1) + {n}
  }

  /** The first n powers, as numbers. */
  ghost predicate ArePowers(s: set<int>, n: nat) {
    s <= UpTo(255) && forall x :: x in s ==> exists i: nat :: 1 <= i <= n && x == Exp(i)
  }

  lemma {:induction false} PowersExist(n: nat) returns (s: set<int>)
    requires n <= 255
    ensures |s| == n && ArePowers(s, n)
  {
    hide Exp, UpTo;
    if n == 0 {
      s := {};
    } else {
      s := PowersExist(n - 1);
      ExpNonzero(n);
      forall i: nat | 1 <= i <= n - 1 ensures Exp(i) != Exp(n) { ExpInjective(i, n); }
      s := s + {Exp(n) as int};
    }
  }

  /** Every nonzero byte is a power of the generator. */
  lemma ExpOnto(a: Byte)
    requires a != 0
    ensures exists i: nat :: 1 <= i <= 255 && Exp(i) == a
  {
    hide Exp, UpTo;
    var all := UpTo(255);
    var s := PowersExist(255);
    assert |all - s| == |all| - |s|;
    assert a as int in all && a as int !in all - s;
  }
}
