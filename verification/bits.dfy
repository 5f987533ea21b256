/** Machine words as natural numbers: powers of two, exclusive or, and how both split at a bit position. */
module Bits {

  type Byte = x: int | 0 <= x < 256

  function Pow2(n: nat): (p: nat)
    ensures p >= 1
  {
    if n == 0 then 1 else 2 * Pow2(n - 1)
  }

  lemma {:induction false} Pow2Add(m: nat, n: nat)
    ensures Pow2(m + n) == Pow2(m) * Pow2(n)
  {
    if m > 0 {
      Pow2Add(m - 1, n);
      assert Pow2(m) * Pow2(n) == 2 * (Pow2(m - 1) * Pow2(n));
    }
  }

  lemma {:induction false} Pow2Monotone(m: nat, n: nat)
    requires m <= n
    ensures Pow2(m) <= Pow2(n)
    decreases n
  {
    if m < n { Pow2Monotone(m, n - 1); }
  }

  lemma Pow2Values()
    ensures Pow2(0) == 1 && Pow2(1) == 2 && Pow2(2) == 4 && Pow2(3) == 8 && Pow2(4) == 16 && Pow2(5) == 32
    ensures Pow2(6) == 64 && Pow2(7) == 128 && Pow2(8) == 256 && Pow2(15) == 32768 && Pow2(16) == 65536
  {}

  /** Bitwise exclusive or. */
  function Xor(a: nat, b: nat): nat
    decreases a + b
  {
    if a == 0 && b == 0 then 0 else 2 * Xor(a / 2, b / 2) + (a + b) % 2
  }

  lemma XorUnfold(a: nat, b: nat)
    ensures Xor(a, b) / 2 == Xor(a / 2, b / 2) && Xor(a, b) % 2 == (a + b) % 2
  {}

  lemma {:induction false} XorZero(a: nat)
    ensures Xor(a, 0) == a && Xor(0, a) == a && Xor(a, a) == 0
  {
    if a > 0 { XorZero(a / 2); }
  }

  lemma {:induction false} XorComm(a: nat, b: nat)
    ensures Xor(a, b) == Xor(b, a)
    decreases a + b
  {
    if a + b > 0 { XorComm(a / 2, b / 2); }
  }

  /** Two numbers with equal halves and equal parities are equal. */
  lemma SameHalves(x: nat, y: nat)
    requires x / 2 == y / 2 && x % 2 == y % 2
    ensures x == y
  {}

  lemma {:induction false} XorAssoc(a: nat, b: nat, c: nat)
    ensures Xor(Xor(a, b), c) == Xor(a, Xor(b, c))
    decreases a + b + c
  {
    hide Xor;
    if a + b + c == 0 {
      XorZero(0);
    } else {
      XorUnfold(a, b);
      XorUnfold(b, c);
      XorUnfold(Xor(a, b), c);
      XorUnfold(a, Xor(b, c));
      XorAssoc(a / 2, b / 2, c / 2);
      ParityAssoc(a, b, c, Xor(a, b), Xor(b, c));
      SameHalves(Xor(Xor(a, b), c), Xor(a, Xor(b, c)));
    }
  }

  lemma ParityAssoc(a: nat, b: nat, c: nat, x: nat, y: nat)
    requires x % 2 == (a + b) % 2 && y % 2 == (b + c) % 2
    ensures (x + c) % 2 == (a + y) % 2
  {}

  lemma XorSwap(a: nat, b: nat, c: nat, d: nat)
    ensures Xor(Xor(a, b), Xor(c, d)) == Xor(Xor(a, c), Xor(b, d))
  {
    hide Xor;
    XorAssoc(a, b, Xor(c, d));
    XorAssoc(b, c, d);
    XorComm(b, c);
    XorAssoc(c, b, d);
    XorAssoc(a, c, Xor(b, d));
  }

  lemma XorCancel(a: nat, b: nat)
    ensures Xor(Xor(a, b), b) == a && Xor(b, Xor(b, a)) == a
    ensures Xor(a, b) == 0 <==> a == b
  {
    hide Xor;
    XorAssoc(a, b, b);
    XorAssoc(b, b, a);
    XorZero(a);
    XorZero(b);
    XorAssoc(a, b, b);
  }

  lemma {:induction false} XorBound(n: nat, a: nat, b: nat)
    requires a < Pow2(n) && b < Pow2(n)
    ensures Xor(a, b) < Pow2(n)
  {
    if n > 0 { XorBound(n - 1, a / 2, b / 2); XorUnfold(a, b); }
  }

  /** Exclusive or works on the lowest bit and the rest independently. */
  lemma XorLowBit(m: nat, p: nat, n: nat, q: nat)
    requires p < 2 && q < 2
    ensures Xor(2 * m + p, 2 * n + q) == 2 * Xor(m, n) + (p + q) % 2
  {
    hide Xor;
    XorUnfold(2 * m + p, 2 * n + q);
    EvenSum(m, n, p, q);
  }

  /** Exclusive or works on the parts above and below bit `n` independently. */
  lemma {:induction false} XorSplit(n: nat, h: nat, l: nat, h': nat, l': nat)
    requires l < Pow2(n) && l' < Pow2(n)
    ensures Xor(Pow2(n) * h + l, Pow2(n) * h' + l') == Pow2(n) * Xor(h, h') + Xor(l, l')
  {
    hide Xor;
    if n == 0 {
      XorZero(0);
    } else {
      var p := Pow2(n - 1);
      XorSplit(n - 1, h, l / 2, h', l' / 2);
      XorDouble(p * h, l, p * h', l', p * Xor(h, h'));
      assert Pow2(n) * h == 2 * (p * h) && Pow2(n) * h' == 2 * (p * h') && Pow2(n) * Xor(h, h') == 2 * (p * Xor(h, h'));
    }
  }

  lemma XorDouble(a: nat, l: nat, a': nat, l': nat, b: nat)
    requires Xor(a + l / 2, a' + l' / 2) == b + Xor(l / 2, l' / 2)
    ensures Xor(2 * a + l, 2 * a' + l') == 2 * b + Xor(l, l')
  {
    hide Xor;
    XorUnfold(2 * a + l, 2 * a' + l');
    XorUnfold(l, l');
    Halves(a, l);
    Halves(a', l');
    EvenSum(a, a', l, l');
    FromHalves(Xor(2 * a + l, 2 * a' + l'), b, Xor(l, l'));
  }

  lemma Halves(a: nat, l: nat)
    ensures (2 * a + l) / 2 == a + l / 2 && (2 * a + l) % 2 == l % 2
  {}

  lemma FromHalves(x: nat, b: nat, y: nat)
    requires x / 2 == b + y / 2 && x % 2 == y % 2
    ensures x == 2 * b + y
  {}

  lemma EvenSum(u: nat, v: nat, l: nat, l': nat)
    ensures (2 * u + l + (2 * v + l')) % 2 == (l + l') % 2
  {}
}
