/** The tables of the field and the code that builds and reads them: the generator loop, multiply and inverse by
    logarithms, and the 32-byte nibble tables that the vector kernels read. */
module GFTables {
  import opened Bits
  import opened GF256

  // -- logarithm tables

  function LogFrom(a: Byte, n: nat): nat {
    if n == 0 then 0 else if Exp(n) == a then n else LogFrom(a, n - 1)
  }

  lemma {:induction false} LogBound(a: Byte, n: nat)
    ensures LogFrom(a, n) <= n
  {
    hide Exp;
    if n > 0 { LogBound(a, n - 1); }
  }

  /** The logarithm as the generator leaves it in the table: 255 for 1, and 0 for 0. */
  function Log(a: Byte): Byte {
    LogBound(a, 255);
    LogFrom(a, 255)
  }

  lemma LogIsSearch(a: Byte)
    ensures Log(a) == LogFrom(a, 255)
  {}

  lemma {:induction false} LogFromFinds(i: nat, n: nat)
    requires 1 <= i <= n <= 255
    ensures LogFrom(Exp(i), n) == i
  {
    hide Exp;
    if i < n {
      ExpInjective(i, n);
      LogFromFinds(i, n - 1);
    }
  }

  lemma LogOfExp(i: nat)
    requires 1 <= i <= 255
    ensures Log(Exp(i)) == i
  {
    LogFromFinds(i, 255);
  }

  lemma ExpOfLog(a: Byte)
    requires a != 0
    ensures 1 <= Log(a) && Exp(Log(a)) == a
  {
    hide Exp, Log;
    ExpOnto(a);
    var i: nat :| 1 <= i <= 255 && Exp(i) == a;
    LogOfExp(i);
  }

  lemma {:induction false} LogOfZero(n: nat)
    requires n <= 255
    ensures LogFrom(0, n) == 0
  {
    hide Exp;
    if n > 0 {
      ExpNonzero(n);
      LogOfZero(n - 1);
    }
  }

  lemma ExpNext(n: nat)
    ensures Exp(n + 1) == Xtime(Exp(n))
  {}

  /** The generator loop fills both tables; the last step overwrites log(1) = 0 by 255. */
  method MkGfField(gff: array<Byte>, gflog: array<Byte>)
    requires gff.Length == 256 && gflog.Length == 256 && gff != gflog
    modifies gff, gflog
    ensures forall i :: 0 <= i < 256 ==> gff[i] == Exp(i)
    ensures gflog[0] == 0 && forall j {:trigger Exp(j)} :: 1 <= j < 256 ==> gflog[Exp(j)] == j
  {
    hide Exp, Xtime;
    var i := 0;
    var s: Byte := 1;
    FirstPower();
    gflog[0] := 0;
    while i < 256
      invariant 0 <= i <= 256 && s == Exp(i)
      invariant Antilogs(gff[..], i) && Logs(gflog[..], i)
    {
      ghost var was := gflog[..];
      gff[i] := s;
      gflog[s] := i;
      LogsMore(was, i);
      assert gflog[..] == was[Exp(i) := i];
      ExpNext(i);
      s := Xtime(s);
      i := i + 1;
    }
  }

  lemma FirstPower()
    ensures Exp(0) == 1
  {}

  /** The first i steps have filled in the powers and their exponents. */
  ghost predicate Antilogs(t: seq<Byte>, i: nat) { |t| == 256 && forall j: nat {:trigger Exp(j)} :: j < i && j < 256 ==> t[j] == Exp(j) }

  ghost predicate Logs(t: seq<Byte>, i: nat) { |t| == 256 && t[0] == 0 && forall j: nat {:trigger Exp(j)} :: 1 <= j < i ==> t[Exp(j)] == j }

  lemma LogsMore(t: seq<Byte>, i: nat)
    requires Logs(t, i) && i < 256
    ensures Logs(t[Exp(i) := i], i + 1)
  {
    hide Exp;
    ExpNonzero(i);
    forall j: nat | 1 <= j < i ensures Exp(j) != Exp(i) { ExpInjective(j, i); }
  }

  /** What the generator loop leaves in its second table is the logarithm. */
  lemma LogTable(t: seq<Byte>)
    requires |t| == 256 && t[0] == 0
    requires forall j {:trigger Exp(j)} :: 1 <= j < 256 ==> t[Exp(j)] == j
    ensures forall a :: 0 <= a < 256 ==> t[a] == Log(a)
  {
    hide *;
    forall a | 0 <= a < 256 ensures t[a] == Log(a) {
      if a == 0 { LogOfZero(255); LogIsSearch(0); } else { ExpOfLog(a); }
    }
  }

  /** Reduces a sum of two logarithms to an index of the antilog table. */
  function WrapLog(i: nat): nat { if i > 254 then i - 255 else i }

  /** Table-driven multiply, reading the tables that MkGfField fills: it is the product of the reference field. */
  function GfMul(a: Byte, b: Byte): (r: Byte)
    ensures r == Product(a, b)
  {
    ProductZero(a); ProductZero(b); LogSum(a, b);
    if a == 0 || b == 0 then 0 else Exp(WrapLog(Log(a) + Log(b)))
  }

  lemma LogSum(a: Byte, b: Byte)
    ensures a != 0 && b != 0 ==> Exp(WrapLog(Log(a) + Log(b))) == Product(a, b)
  {
    hide Exp, Log, Product;
    if a != 0 && b != 0 {
      ExpOfLog(a);
      ExpOfLog(b);
      ExpAdd(Log(a), Log(b));
      if Log(a) + Log(b) > 254 { ExpPeriod(Log(a) + Log(b) - 255); }
    }
  }

  lemma InverseLog(a: Byte)
    requires a != 0
    ensures Exp(255 - Log(a)) != 0 && Product(a, Exp(255 - Log(a))) == 1
  {
    hide Exp, Log, Product;
    ExpOfLog(a);
    ExpAdd(Log(a), 255 - Log(a));
    KeyPowers();
    ExpNonzero(255 - Log(a));
  }

  /** Table-driven inverse; zero is sent to zero. */
  function GfInv(a: Byte): (r: Byte)
    ensures a != 0 ==> r != 0 && Product(a, r) == 1
    ensures a == 0 ==> r == 0
  {
    if a == 0 then 0 else
      InverseLog(a);
      Exp(255 - Log(a))
  }

  /** The field has no zero divisors. */
  lemma ProductNonzero(a: Byte, b: Byte)
    ensures Product(a, b) == 0 <==> a == 0 || b == 0
  {
    hide Exp, Log, Product;
    ProductZero(a);
    ProductZero(b);
    if a != 0 && b != 0 {
      LogSum(a, b);
      ExpNonzero(WrapLog(Log(a) + Log(b)));
    }
  }

  // -- words

  /** Byte `i` of a word, least significant first. */
  function ByteAt(w: nat, i: nat): Byte {
    if i == 0 then w % 256 else ByteAt(w / 256, i - 1)
  }

  lemma XorParts(v: nat, w: nat)
    ensures Xor(v, w) % 256 == Add(v % 256, w % 256) && Xor(v, w) / 256 == Xor(v / 256, w / 256)
  {
    hide *;
    var a, b: Byte, c, d: Byte := v / 256, v % 256, w / 256, w % 256;
    XorJoined(a, b, c, d);
    Quotient(Xor(a, c), Add(b, d));
  }

  lemma XorJoined(a: nat, b: Byte, c: nat, d: Byte)
    ensures Xor(256 * a + b, 256 * c + d) == 256 * Xor(a, c) + Add(b, d)
  {
    Pow2Values();
    hide Xor, Pow2;
    XorSplit(8, a, b, c, d);
  }

  lemma Quotient(q: nat, r: nat)
    requires r < 256
    ensures (256 * q + r) / 256 == q && (256 * q + r) % 256 == r
  {}

  lemma {:induction false} XorByteAt(v: nat, w: nat, i: nat)
    ensures ByteAt(Xor(v, w), i) == Add(ByteAt(v, i), ByteAt(w, i))
  {
    XorParts(v, w);
    hide Xor, Add;
    if i > 0 { XorByteAt(v / 256, w / 256, i - 1); }
  }

  /** Bit p (p = 1, 2 or 4) of a position. */
  function PositionBit(p: nat, i: nat): nat
    requires p > 0
  {
    i / p % 2
  }

  /** The word of bits p of the positions i to end. */
  function Mask(p: nat, i: nat, end: nat): nat
    requires p > 0
    decreases end - i
  {
    if i >= end then 0 else PositionBit(p, i) + 256 * Mask(p, i + 1, end)
  }

  /** The replication constants of the source. */
  lemma Mask1()
    ensures Mask(1, 0, 8) == 0x0100_0100_0100_0100
  {
    assert Mask(1, 6, 8) == 0x0100;
    assert Mask(1, 4, 8) == 0x0100_0100;
    assert Mask(1, 2, 8) == 0x0100_0100_0100;
  }

  lemma Mask2()
    ensures Mask(2, 0, 8) == 0x0101_0000_0101_0000
  {
    assert Mask(2, 6, 8) == 0x0101;
    assert Mask(2, 4, 8) == 0x0101_0000;
    assert Mask(2, 2, 8) == 0x0101_0000_0101;
  }

  lemma Mask4()
    ensures Mask(4, 0, 8) == 0x0101_0101_0000_0000
  {
    assert Mask(4, 6, 8) == 0x0101;
    assert Mask(4, 4, 8) == 0x0101_0101;
    assert Mask(4, 2, 8) == 0x0101_0101_0000;
  }

  lemma Mask8()
    ensures Mask(8, 8, 16) == 0x0101_0101_0101_0101
  {
    assert Mask(8, 14, 16) == 0x0101;
    assert Mask(8, 12, 16) == 0x0101_0101;
    assert Mask(8, 10, 16) == 0x0101_0101_0101;
  }

  /** A byte times a replication constant. */
  function Replicate(c: nat, k: nat): nat { c * k }

  lemma ScaledByte(c: Byte, d: nat, m: nat, i: nat)
    requires d < 2
    ensures ByteAt(Replicate(c, d + 256 * m), 0) == if d == 1 then c else 0
    ensures ByteAt(Replicate(c, d + 256 * m), i + 1) == ByteAt(Replicate(c, m), i)
  {
    assert c * (d + 256 * m) == 256 * (c * m) + if d == 1 then c else 0;
    Quotient(c * m, if d == 1 then c else 0);
  }

  lemma {:induction false} MaskByte(c: Byte, p: nat, i: nat, end: nat, k: nat)
    requires p > 0 && i + k < end
    ensures ByteAt(Replicate(c, Mask(p, i, end)), k) == if PositionBit(p, i + k) == 1 then c else 0
    decreases k
  {
    BitRange(p, i);
    assert Mask(p, i, end) == PositionBit(p, i) + 256 * Mask(p, i + 1, end);
    hide *;
    ScaledByte(c, PositionBit(p, i), Mask(p, i + 1, end), if k == 0 then 0 else k - 1);
    if k > 0 {
      MaskByte(c, p, i + 1, end, k - 1);
    }
  }

  lemma BitRange(p: nat, i: nat)
    requires p > 0
    ensures PositionBit(p, i) < 2
  {}

  // -- nibble tables

  /** Products with a nibble, by the bits of the nibble. */
  lemma NibbleProduct(c: Byte, x: nat)
    requires x < 16
    ensures Product(c, x) == Add(Add(Add(Low(c, x), Low(Xtime(c), x / 2)), Low(Xtime(Xtime(c)), x / 4)), Low(Xtime(Xtime(Xtime(c))), x / 8))
  {
    hide Add, Xtime, Low, Product;
    ProductUnfold(c, x);
    ProductUnfold(c, x / 2);
    ProductUnfold(c, x / 4);
    ProductUnfold(c, x / 8);
    ProductZero(c);
    XtimeLinear(0, 0);
    assert x / 2 / 2 == x / 4 && x / 4 / 2 == x / 8 && x / 8 / 2 == 0;
    var p2, p3 := Product(c, x / 4), Low(c, x / 8);
    AddZero(p3);
    XtimeLinear(Low(c, x / 2), Xtime(p2));
    XtimeLinear(Low(c, x / 4), Xtime(p3));
    XtimeLinear(Xtime(Low(c, x / 4)), Xtime(Xtime(p3)));
    LowXtime(c, x / 2);
    LowXtime(c, x / 4);
    LowXtime(c, x / 8);
    var l1, l2, l3 := Low(Xtime(c), x / 2), Low(Xtime(Xtime(c)), x / 4), Low(Xtime(Xtime(Xtime(c))), x / 8);
    AddAssoc(Low(c, x), l1, Add(l2, l3));
    AddAssoc(Add(Low(c, x), l1), l2, l3);
  }

  lemma LowXtime(c: Byte, x: Byte)
    ensures Low(Xtime(c), x) == Xtime(Low(c, x))
    ensures Low(Xtime(Xtime(c)), x) == Xtime(Xtime(Low(c, x)))
    ensures Low(Xtime(Xtime(Xtime(c))), x) == Xtime(Xtime(Xtime(Low(c, x))))
  {
    hide Xtime, Low;
    LowLinear(c, 0, x);
    LowLinear(Xtime(c), 0, x);
    LowLinear(Xtime(Xtime(c)), 0, x);
  }

  /** The two words of one half of a nibble table, as the source computes them from one constant. */
  function LowerWord(c: nat, c2: nat, c4: nat): nat {
    Xor(Xor(Replicate(c, 0x0100_0100_0100_0100), Replicate(c2, 0x0101_0000_0101_0000)), Replicate(c4, 0x0101_0101_0000_0000))
  }

  function UpperWord(c8: nat, lower: nat): nat {
    Xor(Replicate(c8, 0x0101_0101_0101_0101), lower)
  }

  lemma MaskLow(c: Byte, p: nat, i: nat)
    requires (p == 1 || p == 2 || p == 4) && i < 8
    ensures ByteAt(Replicate(c, Mask(p, 0, 8)), i) == Low(c, i / p)
  {
    assert i / p <= i;
    assert Low(c, i / p) == if PositionBit(p, i) == 1 then c else 0;
    hide *;
    MaskByte(c, p, 0, 8, i);
  }

  lemma LowerWordBytes(c: Byte, i: nat)
    requires i < 8
    ensures ByteAt(LowerWord(c, Xtime(c), Xtime(Xtime(c))), i) == Product(c, i)
  {
    var c2, c4 := Xtime(c), Xtime(Xtime(c));
    hide *;
    LowerWordMasks(c, c2, c4);
    var w1, w2, w4 := Replicate(c, Mask(1, 0, 8)), Replicate(c2, Mask(2, 0, 8)), Replicate(c4, Mask(4, 0, 8));
    MaskLow(c, 1, i);
    MaskLow(c2, 2, i);
    MaskLow(c4, 4, i);
    XorByteAt(w1, w2, i);
    XorByteAt(Xor(w1, w2), w4, i);
    NibbleProduct(c, i);
    LowOfZero(Xtime(c4), i / 8);
    AddZero(Add(Add(Low(c, i), Low(c2, i / 2)), Low(c4, i / 4)));
  }

  lemma LowerWordMasks(c: nat, c2: nat, c4: nat)
    ensures LowerWord(c, c2, c4) == Xor(Xor(Replicate(c, Mask(1, 0, 8)), Replicate(c2, Mask(2, 0, 8))), Replicate(c4, Mask(4, 0, 8)))
  {
    hide Mask, Xor, Replicate;
    Mask1();
    Mask2();
    Mask4();
  }

  lemma UpperWordMask(c8: nat, lower: nat)
    ensures UpperWord(c8, lower) == Xor(Replicate(c8, Mask(8, 8, 16)), lower)
  {
    hide Mask, Xor, Replicate;
    Mask8();
  }

  lemma LowOfZero(c: Byte, x: Byte)
    requires x == 0
    ensures Low(c, x) == 0
  {}

  lemma UpperNibble(c: Byte, i: nat)
    requires i < 8
    ensures Product(c, 8 + i) == Add(Xtime(Xtime(Xtime(c))), Product(c, i))
  {
    var c2 := Xtime(c);
    var c4 := Xtime(c2);
    var c8 := Xtime(c4);
    assert Low(c, 8 + i) == Low(c, i) && Low(c2, (8 + i) / 2) == Low(c2, i / 2) && Low(c4, (8 + i) / 4) == Low(c4, i / 4);
    assert Low(c8, (8 + i) / 8) == c8 && Low(c8, i / 8) == 0;
    hide *;
    NibbleProduct(c, i);
    NibbleProduct(c, 8 + i);
    AddZero(Add(Add(Low(c, i), Low(c2, i / 2)), Low(c4, i / 4)));
    AddComm(c8, Product(c, i));
  }

  lemma UpperWordBytes(c: Byte, lower: nat, i: nat)
    requires i < 8 && ByteAt(lower, i) == Product(c, i)
    ensures ByteAt(UpperWord(Xtime(Xtime(Xtime(c))), lower), i) == Product(c, 8 + i)
  {
    var c8 := Xtime(Xtime(Xtime(c)));
    assert PositionBit(8, 8 + i) == 1;
    hide *;
    UpperWordMask(c8, lower);
    MaskByte(c8, 8, 8, 16, i);
    XorByteAt(Replicate(c8, Mask(8, 8, 16)), lower, i);
    UpperNibble(c, i);
  }

  /** Multiplying by 16 x is multiplying the product with 16 by x. */
  lemma HighNibble(c: Byte, x: nat)
    requires x < 16
    ensures Product(c, 16 * x) == Product(Xtime(Xtime(Xtime(Xtime(c)))), x)
  {
    hide *;
    TimesTwo(c, 8 * x);
    TimesTwo(Xtime(c), 4 * x);
    TimesTwo(Xtime(Xtime(c)), 2 * x);
    TimesTwo(Xtime(Xtime(Xtime(c))), x);
  }

  lemma TimesTwo(c: Byte, x: nat)
    requires x < 128
    ensures Product(c, 2 * x) == Product(Xtime(c), x)
  {
    ProductXtimeLeft(c, x);
    ProductXtimeRight(c, x);
  }

  /** Stores a word, least significant byte first. */
  method StoreU64(tbl: array<Byte>, off: nat, word: nat)
    requires off + 8 <= tbl.Length
    modifies tbl
    ensures forall i :: 0 <= i < 8 ==> tbl[off + i] == ByteAt(word, i)
    ensures forall i :: 0 <= i < off || off + 8 <= i < tbl.Length ==> tbl[i] == old(tbl[i])
  {
    var i, w := 0, word;
    while i < 8
      invariant 0 <= i <= 8
      invariant forall j :: 0 <= j < i ==> tbl[off + j] == ByteAt(word, j)
      invariant forall j: nat :: ByteAt(word, i + j) == ByteAt(w, j)
      invariant forall j :: 0 <= j < off || off + 8 <= j < tbl.Length ==> tbl[j] == old(tbl[j])
    {
      assert ByteAt(word, i + 0) == ByteAt(w, 0);
      tbl[off + i] := w % 256;
      forall j: nat | true ensures ByteAt(word, i + 1 + j) == ByteAt(w / 256, j) {
        assert ByteAt(word, i + (1 + j)) == ByteAt(w, 1 + j);
      }
      w := w / 256;
      i := i + 1;
    }
  }

  /** The 32 bytes of a nibble table: the products of `c` with every low nibble and with every high nibble. */
  function TableEntry(c: Byte, x: nat): Byte
    requires x < 32
  {
    if x < 16 then Product(c, x) else Product(c, 16 * (x - 16))
  }

  /** The four words that the source stores, byte by byte. */
  lemma TableWords(c: Byte, i: nat)
    requires i < 8
    ensures ByteAt(LowerWord(c, Xtime(c), Xtime(Xtime(c))), i) == TableEntry(c, i)
    ensures ByteAt(UpperWord(Xtime(Xtime(Xtime(c))), LowerWord(c, Xtime(c), Xtime(Xtime(c)))), i) == TableEntry(c, 8 + i)
  {
    hide Xtime, LowerWord, UpperWord, ByteAt, Product;
    LowerWordBytes(c, i);
    UpperWordBytes(c, LowerWord(c, Xtime(c), Xtime(Xtime(c))), i);
  }

  lemma UpperEntries(c: Byte, x: nat)
    requires x < 16
    ensures TableEntry(Xtime(Xtime(Xtime(Xtime(c)))), x) == TableEntry(c, 16 + x)
  {
    hide Product, Xtime;
    HighNibble(c, x);
  }

  /** One 32-byte table for the coefficient `c`. */
  method GfVectMulInit(c: Byte, tbl: array<Byte>, off: nat)
    requires off + 32 <= tbl.Length
    modifies tbl
    ensures forall x :: 0 <= x < 32 ==> tbl[off + x] == TableEntry(c, x)
    ensures forall i :: 0 <= i < off || off + 32 <= i < tbl.Length ==> tbl[i] == old(tbl[i])
  {
    hide *;
    var c2 := Xtime(c);
    var c4 := Xtime(c2);
    var c8 := Xtime(c4);
    var low := LowerWord(c, c2, c4);
    StoreU64(tbl, off, low);
    StoreU64(tbl, off + 8, UpperWord(c8, low));
    forall x | 0 <= x < 16 ensures tbl[off + x] == TableEntry(c, x) {
      TableWords(c, x % 8);
      assert x < 8 || tbl[off + 8 + (x - 8)] == ByteAt(UpperWord(c8, low), x - 8);
    }
    var c17 := Xtime(c8);
    var c18 := Xtime(c17);
    var c20 := Xtime(c18);
    var c24 := Xtime(c20);
    var high := LowerWord(c17, c18, c20);
    StoreU64(tbl, off + 16, high);
    StoreU64(tbl, off + 24, UpperWord(c24, high));
    forall x | 16 <= x < 32 ensures tbl[off + x] == TableEntry(c, x) {
      var y := x - 16;
      TableWords(c17, y % 8);
      UpperEntries(c, y);
      assert y >= 8 || tbl[off + 16 + y] == ByteAt(high, y);
      assert y < 8 || tbl[off + 24 + (y - 8)] == ByteAt(UpperWord(c24, high), y - 8);
    }
  }

  /** What the vector kernels do with a table: two nibble lookups make a full product. */
  lemma NibbleLookup(c: Byte, y: Byte)
    ensures Product(c, y) == Add(TableEntry(c, y % 16), TableEntry(c, 16 + y / 16))
  {
    Pow2Values();
    XorSplit(4, 0, y % 16, y / 16, 0);
    XorZero(y % 16);
    XorZero(y / 16);
    hide Xor;
    assert Add(y % 16, 16 * (y / 16)) == y;
    ProductAddRight(c, y % 16, 16 * (y / 16));
  }
}
