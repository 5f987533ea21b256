/** Canonical prefix codes, section 3.2.2 of RFC 1951: their assignment, and why they can be decoded. */
module Canonical {
  import opened Bits
  import opened BitStream
  import opened LZ77

  // -- counts and the Kraft sum

  /** How many of the first n symbols have code length l. */
  function Rank(lens: seq<nat>, n: nat, l: nat): (r: nat)
    requires n <= |lens|
    ensures r <= n
  {
    if n == 0 then 0 else Rank(lens, n - 1, l) + if lens[n - 1] == l then 1 else 0
  }

  function CountOf(lens: seq<nat>, l: nat): nat { Rank(lens, |lens|, l) }

  /** A run of symbols of the same length. */
  lemma {:induction false} RankRun(lens: seq<nat>, a: nat, b: nat, v: nat, l: nat)
    requires a <= b <= |lens| && forall i :: a <= i < b ==> lens[i] == v
    ensures Rank(lens, b, l) == Rank(lens, a, l) + if l == v then b - a else 0
    decreases b
  {
    if a < b { RankRun(lens, a, b - 1, v, l); }
  }

  lemma RankNone(lens: seq<nat>, l: nat)
    ensures Rank(lens, 0, l) == 0
  {}

  lemma {:induction false} RankMonotone(lens: seq<nat>, m: nat, n: nat, l: nat)
    requires m <= n <= |lens|
    ensures Rank(lens, m, l) <= Rank(lens, n, l)
    decreases n
  {
    if m < n { RankMonotone(lens, m, n - 1, l); }
  }

  /** An earlier symbol of the same length has a smaller rank. */
  lemma RankStrict(lens: seq<nat>, i: nat, j: nat)
    requires i < j <= |lens|
    ensures Rank(lens, i, lens[i]) < Rank(lens, j, lens[i])
  {
    RankMonotone(lens, i + 1, j, lens[i]);
  }

  /** The Kraft sum of all codes up to length d, as a multiple of 2^-d; `count[0]` does not take part. */
  function Horner(count: seq<nat>, d: nat): nat
    requires d < |count|
  {
    if d == 0 then 0 else 2 * Horner(count, d - 1) + count[d]
  }

  lemma {:induction false} HornerGrows(count: seq<nat>, a: nat, b: nat)
    requires a <= b < |count|
    ensures Horner(count, b) >= Horner(count, a) * Pow2(b - a)
    decreases b
  {
    if a < b {
      HornerGrows(count, a, b - 1);
      DoubleProduct(Horner(count, a), Pow2(b - a - 1));
    }
  }

  lemma DoubleProduct(x: nat, p: nat)
    ensures x * (2 * p) == 2 * (x * p)
  {}

  lemma {:induction false} HornerNothing(count: seq<nat>, d: nat)
    requires d < |count| && forall l :: 1 <= l <= d ==> count[l] == 0
    ensures Horner(count, d) == 0
  {
    if d > 0 { HornerNothing(count, d - 1); }
  }

  lemma {:induction false} HornerDoubles(count: seq<nat>, a: nat, b: nat)
    requires a <= b < |count| && forall l :: a < l <= b ==> count[l] == 0
    ensures Horner(count, b) == Horner(count, a) * Pow2(b - a)
    decreases b
  {
    if a < b {
      HornerDoubles(count, a, b - 1);
      DoubleProduct(Horner(count, a), Pow2(b - a - 1));
    }
  }

  /** If the whole sum is at most 1, so is every part of it. */
  lemma HornerPart(count: seq<nat>, a: nat, b: nat)
    requires a <= b < |count| && Horner(count, b) <= Pow2(b)
    ensures Horner(count, a) <= Pow2(a)
  {
    hide Pow2, Horner;
    HornerGrows(count, a, b);
    Pow2Add(a, b - a);
    if Horner(count, a) > Pow2(a) { StrictProduct(Pow2(a), Horner(count, a), Pow2(b - a)); }
  }

  lemma StrictProduct(x: nat, y: nat, p: nat)
    requires x < y && p > 0
    ensures x * p < y * p
  {}

  // -- codes

  ghost predicate Lengths(lens: seq<nat>, top: nat) { forall i :: 0 <= i < |lens| ==> lens[i] <= top }

  /** The counts of the lengths 1 to 15. */
  ghost predicate CountsMatch(lens: seq<nat>, count: seq<nat>) {
    |count| == 16 && count[0] == 0 && forall l :: 1 <= l <= 15 ==> count[l] == CountOf(lens, l)
  }

  /** The Kraft sum is at most 1. */
  ghost predicate Kraft(count: seq<nat>) {
    |count| == 16 && Horner(count, 15) <= Pow2(15)
  }

  /** The code of symbol i as a number: the codes of one length are consecutive, and start where twice the shorter ones end. */
  function Code(lens: seq<nat>, count: seq<nat>, i: nat): nat
    requires i < |lens| && 1 <= lens[i] <= 15 && |count| == 16
  {
    2 * Horner(count, lens[i] - 1) + Rank(lens, i, lens[i])
  }

  lemma CodeBounds(lens: seq<nat>, count: seq<nat>, i: nat)
    requires i < |lens| && 1 <= lens[i] <= 15 && CountsMatch(lens, count)
    ensures Code(lens, count, i) < Horner(count, lens[i])
  {
    RankStrict(lens, i, |lens|);
    assert count[lens[i]] == CountOf(lens, lens[i]);
  }

  /** Every code fits in its length. */
  lemma CodeFits(lens: seq<nat>, count: seq<nat>, i: nat)
    requires i < |lens| && 1 <= lens[i] <= 15 && CountsMatch(lens, count) && Kraft(count)
    ensures Code(lens, count, i) < Pow2(lens[i])
  {
    hide Code, Horner;
    CodeBounds(lens, count, i);
    HornerPart(count, lens[i], 15);
  }

  /** The n bits of c, most significant first: the order in which a code is read. */
  function Msb(c: nat, n: nat): (w: seq<bool>)
    ensures |w| == n
  {
    if n == 0 then [] else Msb(c / 2, n - 1) + [c % 2 == 1]
  }

  lemma {:induction false} MsbPrefix(c: nat, m: nat, n: nat)
    requires m <= n
    ensures Msb(c, n)[..m] == Msb(Shr(c, n - m), m)
    decreases n
  {
    if m < n { MsbPrefix(c / 2, m, n - 1); }
  }

  lemma {:induction false} MsbInjective(a: nat, b: nat, n: nat)
    requires a < Pow2(n) && b < Pow2(n) && Msb(a, n) == Msb(b, n)
    ensures a == b
  {
    if n > 0 {
      assert Msb(a, n)[n - 1] == Msb(b, n)[n - 1];
      assert Msb(a / 2, n - 1) == Msb(a, n)[..n - 1] && Msb(b / 2, n - 1) == Msb(b, n)[..n - 1];
      MsbInjective(a / 2, b / 2, n - 1);
    }
  }

  /** The code word of symbol i. */
  function Word(lens: seq<nat>, count: seq<nat>, i: nat): (w: seq<bool>)
    requires i < |lens| && 1 <= lens[i] <= 15 && |count| == 16
    ensures |w| == lens[i]
  {
    Msb(Code(lens, count, i), lens[i])
  }

  lemma {:induction false} ShrAtLeast(x: nat, y: nat, k: nat)
    requires x >= y * Pow2(k)
    ensures Shr(x, k) >= y
  {
    if k > 0 {
      DoubleProduct(y, Pow2(k - 1));
      ShrAtLeast(x / 2, y, k - 1);
    }
  }

  /** A longer code lies beyond all shorter ones. */
  lemma LongerBeyond(lens: seq<nat>, count: seq<nat>, i: nat, j: nat)
    requires i < |lens| && j < |lens| && 1 <= lens[i] < lens[j] <= 15 && CountsMatch(lens, count)
    ensures Shr(Code(lens, count, j), lens[j] - lens[i]) > Code(lens, count, i)
  {
    hide Shr, Pow2;
    var a, b := lens[i], lens[j];
    CodeBounds(lens, count, i);
    HornerGrows(count, a, b - 1);
    DoubleProduct(Horner(count, a), Pow2(b - 1 - a));
    PowNext(b - 1 - a);
    ShrAtLeast(Code(lens, count, j), Horner(count, a), b - a);
  }

  lemma PowNext(k: nat)
    ensures Pow2(k + 1) == 2 * Pow2(k)
  {}

  /** No code word is a prefix of another. */
  lemma PrefixFree(lens: seq<nat>, count: seq<nat>, i: nat, j: nat)
    requires i < |lens| && j < |lens| && 1 <= lens[i] <= 15 && 1 <= lens[j] <= 15 && CountsMatch(lens, count) && Kraft(count)
    requires |count| == 16 && Word(lens, count, i) <= Word(lens, count, j)
    ensures i == j
  {
    hide Horner, Shr, Msb, CountsMatch, Kraft;
    var a, b := lens[i], lens[j];
    MsbPrefix(Code(lens, count, j), a, b);
    CodeFits(lens, count, i);
    CodeFits(lens, count, j);
    ShrBound(Code(lens, count, j), b - a, a);
    MsbInjective(Code(lens, count, i), Shr(Code(lens, count, j), b - a), a);
    if a < b {
      LongerBeyond(lens, count, i, j);
    } else {
      ShrNone(Code(lens, count, j));
      if i < j { RankStrict(lens, i, j); } else if j < i { RankStrict(lens, j, i); }
    }
  }

  lemma ShrNone(v: nat)
    ensures Shr(v, 0) == v
  {}

  // -- bit reversal

  /** The n low bits of v in reverse order. */
  function Rev(v: nat, n: nat): nat {
    if n == 0 then 0 else (if v % 2 == 1 then Pow2(n - 1) else 0) + Rev(v / 2, n - 1)
  }

  lemma {:induction false} RevBound(v: nat, n: nat)
    ensures Rev(v, n) < Pow2(n)
  {
    if n > 0 { RevBound(v / 2, n - 1); }
  }

  lemma {:induction false} RevSplit(v: nat, m: nat, n: nat)
    ensures Rev(v, m + n) == Rev(v, m) * Pow2(n) + Rev(Shr(v, m), n)
  {
    if m > 0 {
      RevSplit(v / 2, m - 1, n);
      Pow2Add(m - 1, n);
      Distribute(if v % 2 == 1 then Pow2(m - 1) else 0, Rev(v / 2, m - 1), Pow2(n));
    }
  }

  lemma Distribute(p: nat, r: nat, q: nat)
    ensures (p + r) * q == p * q + r * q
  {}

  lemma {:induction false} RevZero(n: nat)
    ensures Rev(0, n) == 0
  {
    if n > 0 { RevZero(n - 1); }
  }

  lemma {:induction false} ShrAll(v: nat, n: nat)
    requires v < Pow2(n)
    ensures Shr(v, n) == 0
  {
    if n > 0 { ShrAll(v / 2, n - 1); }
  }

  /** The bits of the reversed number are the code bits in reading order. */
  lemma {:induction false} RevReads(c: nat, n: nat)
    ensures BitsOf(Rev(c, n), n) == Msb(c, n)
  {
    hide Pow2, BitsOf;
    if n == 0 {
      BitsOfNothing(Rev(c, n));
    } else {
      RevReads(c / 2, n - 1);
      RevBound(c / 2, n - 1);
      BitsOfConcat(Rev(c / 2, n - 1), n - 1, c % 2, 1);
      OneBit(c % 2);
      BitTimes(c % 2, Pow2(n - 1));
    }
  }

  lemma BitTimes(b: nat, p: nat)
    requires b < 2
    ensures b * p == if b == 1 then p else 0
  {}

  lemma OneBit(b: nat)
    requires b < 2
    ensures BitsOf(b, 1) == [b == 1]
  {
    assert BitsOf(b / 2, 0) == [];
  }

  /** Reverses the bytes of a 16-bit code through a table of reversed bytes, and drops what lies below the code. */
  function BitReverse(code: nat, length: nat): nat
    requires length <= 16
  {
    Shr(Rev(code % 256, 8) * 256 + Rev(code / 256, 8), 16 - length)
  }

  /** For a code that fits in its length, this is the reversal of its bits. */
  lemma BitReverseIs(code: nat, length: nat)
    requires length <= 16 && code < Pow2(length)
    ensures BitReverse(code, length) == Rev(code, length)
  {
    hide Rev, Shr, Pow2;
    RevBytes(code);
    RevTop(code, length);
  }

  lemma RevBytes(code: nat)
    ensures Rev(code, 16) == Rev(code % 256, 8) * 256 + Rev(code / 256, 8)
  {
    hide Rev, Shr;
    Pow2Values();
    RevSplit(code, 8, 8);
    ByteOf(code);
    RevLow(code);
  }

  lemma RevTop(code: nat, length: nat)
    requires length <= 16 && code < Pow2(length)
    ensures Shr(Rev(code, 16), 16 - length) == Rev(code, length)
  {
    hide Rev, Shr, Pow2;
    RevSplit(code, length, 16 - length);
    ShrAll(code, length);
    RevZero(16 - length);
    PowPositive(16 - length);
    ShrProduct(0, 16 - length, Rev(code, length));
  }

  lemma PowPositive(n: nat)
    ensures Pow2(n) > 0
  {}

  lemma RevLow(v: nat)
    ensures Rev(v % 256, 8) == Rev(v, 8)
  {
    hide BitsOf, Rev;
    ByteOf(v);
    SameBitsSameRev(v, v % 256, 8);
  }

  lemma {:induction false} SameBitsSameRev(v: nat, w: nat, n: nat)
    requires BitsOf(v, n) == BitsOf(w, n)
    ensures Rev(v, n) == Rev(w, n)
  {
    if n > 0 {
      assert BitsOf(v, n)[0] == BitsOf(w, n)[0];
      assert BitsOf(v / 2, n - 1) == BitsOf(v, n)[1..] && BitsOf(w / 2, n - 1) == BitsOf(w, n)[1..];
      SameBitsSameRev(v / 2, w / 2, n - 1);
    }
  }

  // -- decoding

  ghost predicate Usable(lens: seq<nat>, syms: seq<nat>) {
    forall k :: 0 <= k < |syms| ==> syms[k] < |lens| && 1 <= lens[syms[k]] <= 15
  }

  function Encode(lens: seq<nat>, count: seq<nat>, syms: seq<nat>): seq<bool>
    requires |count| == 16 && forall k :: 0 <= k < |syms| ==> syms[k] < |lens| && 1 <= lens[syms[k]] <= 15
  {
    if |syms| == 0 then [] else Word(lens, count, syms[0]) + Encode(lens, count, syms[1..])
  }

  datatype Search = Nothing | Symbol(sym: nat)

  /** The symbol, among the first n, whose code word stands at the front of the bits. */
  function Find(lens: seq<nat>, count: seq<nat>, bits: seq<bool>, n: nat): (r: Search)
    requires |count| == 16 && n <= |lens|
    ensures r.Symbol? ==> r.sym < n && 1 <= lens[r.sym] <= 15 && Word(lens, count, r.sym) <= bits
  {
    if n == 0 then Nothing
    else if 1 <= lens[n - 1] <= 15 && Word(lens, count, n - 1) <= bits then Symbol(n - 1)
    else Find(lens, count, bits, n - 1)
  }

  datatype Decoded = Stuck | Decoded(syms: seq<nat>, rest: seq<bool>)

  /** Reads k symbols. */
  function Decode(lens: seq<nat>, count: seq<nat>, bits: seq<bool>, k: nat): Decoded
    requires |count| == 16
    decreases k
  {
    if k == 0 then Decoded([], bits) else
      match Find(lens, count, bits, |lens|)
      case Nothing => Stuck
      case Symbol(s) =>
        match Decode(lens, count, bits[lens[s]..], k - 1)
        case Stuck => Stuck
        case Decoded(syms, rest) => Decoded([s] + syms, rest)
  }

  /** Whatever symbol's word stands at the front is the one that is found. */
  lemma {:induction false} FindWord(lens: seq<nat>, count: seq<nat>, i: nat, bits: seq<bool>, n: nat)
    requires i < n <= |lens| && 1 <= lens[i] <= 15 && CountsMatch(lens, count) && Kraft(count)
    requires |count| == 16 && Word(lens, count, i) <= bits
    ensures Find(lens, count, bits, n) == Symbol(i)
  {
    hide CountsMatch, Kraft, Word;
    var j := n - 1;
    if 1 <= lens[j] <= 15 && Word(lens, count, j) <= bits {
      if lens[i] <= lens[j] {
        Shorter(Word(lens, count, i), Word(lens, count, j), bits);
        PrefixFree(lens, count, i, j);
      } else {
        Shorter(Word(lens, count, j), Word(lens, count, i), bits);
        PrefixFree(lens, count, j, i);
      }
    } else {
      FindWord(lens, count, i, bits, n - 1);
    }
  }

  lemma Shorter(a: seq<bool>, b: seq<bool>, c: seq<bool>)
    requires a <= c && b <= c && |a| <= |b|
    ensures a <= b
  {}

  /** Any sequence of symbols is read back from its code words, whatever follows them. */
  lemma {:induction false} DecodeEncode(lens: seq<nat>, count: seq<nat>, syms: seq<nat>, rest: seq<bool>)
    requires CountsMatch(lens, count) && Kraft(count) && |count| == 16 && Usable(lens, syms)
    ensures Decode(lens, count, Encode(lens, count, syms) + rest, |syms|) == Decoded(syms, rest)
  {
    hide CountsMatch, Kraft, Word, Find;
    if |syms| == 0 {
      assert Encode(lens, count, syms) + rest == rest;
    } else {
      var s, tail := syms[0], Encode(lens, count, syms[1..]) + rest;
      var bits := Encode(lens, count, syms) + rest;
      assert bits == Word(lens, count, s) + tail;
      FindWord(lens, count, s, bits, |lens|);
      assert bits[lens[s]..] == tail;
      DecodeEncode(lens, count, syms[1..], rest);
      assert [s] + syms[1..] == syms;
    }
  }

  // -- code tables

  /** A code with its extra bits or the count of them, and its length. */
  datatype HuffCode = HuffCode(code: nat, extraBitCount: nat, length: nat)

  function LengthsOf(t: seq<HuffCode>): (lens: seq<nat>)
    ensures |lens| == |t| && forall i :: 0 <= i < |t| ==> lens[i] == t[i].length
  {
    seq(|t|, i requires 0 <= i < |t| => t[i].length)
  }

  /** Distance codes also get the number of their extra bits. */
  function ExtraOf(c: HuffCode, dist: bool, i: nat): nat { if dist then DistExtraBits(i) else c.extraBitCount }

  /** The first n codes have their code words, with the rest of the table as it was. */
  ghost predicate CodesSet(was: seq<HuffCode>, now: seq<HuffCode>, lens: seq<nat>, count: seq<nat>, dist: bool, n: nat)
    requires |count| == 16 && |lens| == |was|
  {
    n <= |was| == |now| && (forall i :: n <= i < |was| ==> now[i] == was[i])
    && forall i :: 0 <= i < n ==> CodeSet(was, now, lens, count, dist, i)
  }

  ghost predicate CodeSet(was: seq<HuffCode>, now: seq<HuffCode>, lens: seq<nat>, count: seq<nat>, dist: bool, i: nat)
    requires |count| == 16 && |lens| == |was|
  {
    i < |was| == |now| && if 1 <= lens[i] <= 15 then
      now[i] == was[i].(code := now[i].code, extraBitCount := ExtraOf(was[i], dist, i)) && now[i].code < Pow2(lens[i]) && BitsOf(now[i].code, lens[i]) == Word(lens, count, i)
    else now[i] == was[i]
  }

  /** The next code of each length, when n symbols have been numbered. */
  ghost predicate NextCodes(next: seq<nat>, lens: seq<nat>, count: seq<nat>, top: nat, n: nat) {
    |next| == |count| == 16 && top <= 15 && n <= |lens| && forall l :: 1 <= l <= top ==> next[l] == 2 * Horner(count, l - 1) + Rank(lens, n, l)
  }

  lemma StartsFit(count: seq<nat>, l: nat)
    requires Kraft(count) && 1 <= l <= 15
    ensures 2 * Horner(count, l - 1) <= 32768
  {
    hide Horner, Pow2;
    HornerPart(count, l - 1, 15);
    Pow2Monotone(l - 1, 14);
    PowNext(14);
    Pow2Values();
  }

  /** The counts agree up to the longest length that occurs. */
  ghost predicate Agree(blCount: seq<nat>, count: seq<nat>, top: nat) {
    |blCount| >= 16 && |count| == 16 && top <= 15 && forall l :: 0 <= l <= top ==> blCount[l] == count[l]
  }

  /** Starting values of the codes of each length. Counts of lengths that do not occur may be arbitrary. */
  method StartCodes(blCount: seq<nat>, next: array<nat>, ghost count: seq<nat>, ghost top: nat)
    requires |count| == 16 && Kraft(count) && count[0] == 0 && next.Length == 16 && Agree(blCount, count, top)
    modifies next
    ensures forall l :: 1 <= l <= top ==> next[l] == 2 * Horner(count, l - 1)
  {
    hide Kraft, Pow2;
    next[0] := 0;
    var i := 1;
    while i < 16
      invariant 1 <= i <= 16 && next[0] == 0 && forall l :: 1 <= l < i && l <= top ==> next[l] == 2 * Horner(count, l - 1)
    {
      StartsFit(count, i);
      next[i] := (next[i - 1] + blCount[i - 1]) * 2 % 65536;
      i := i + 1;
    }
  }

  lemma CountsLength(lens: seq<nat>, count: seq<nat>)
    requires CountsMatch(lens, count)
    ensures |count| == 16 && count[0] == 0
  {}

  lemma NextStart(next: seq<nat>, lens: seq<nat>, count: seq<nat>, top: nat)
    requires |next| == |count| == 16 && top <= 15 && forall l :: 1 <= l <= top ==> next[l] == 2 * Horner(count, l - 1)
    ensures NextCodes(next, lens, count, top, 0)
  {}

  lemma NextUsed(next: seq<nat>, lens: seq<nat>, count: seq<nat>, top: nat, n: nat)
    requires NextCodes(next, lens, count, top, n) && n < |lens| && 1 <= lens[n] <= top
    ensures next[lens[n]] == Code(lens, count, n) && NextCodes(next[lens[n] := next[lens[n]] + 1], lens, count, top, n + 1)
  {}

  lemma NextUnused(next: seq<nat>, lens: seq<nat>, count: seq<nat>, top: nat, n: nat)
    requires NextCodes(next, lens, count, top, n) && n < |lens| && !(1 <= lens[n] <= top)
    ensures NextCodes(next, lens, count, top, n + 1)
  {}

  /** Turns a code number into the bits that are written. */
  lemma CodeWritten(lens: seq<nat>, count: seq<nat>, i: nat)
    requires i < |lens| && 1 <= lens[i] <= 15 && |count| == 16 && CountsMatch(lens, count) && Kraft(count)
    ensures Code(lens, count, i) < 32768 && BitReverse(Code(lens, count, i), lens[i]) < Pow2(lens[i])
    ensures BitsOf(BitReverse(Code(lens, count, i), lens[i]), lens[i]) == Word(lens, count, i)
  {
    hide CountsMatch, Kraft, Code, BitReverse, Rev, Msb, BitsOf, Pow2;
    var c, l := Code(lens, count, i), lens[i];
    CodeFits(lens, count, i);
    Pow2Monotone(l, 15);
    Pow2Values();
    BitReverseIs(c, l);
    RevReads(c, l);
    RevBound(c, l);
  }

  lemma SetMore(was: seq<HuffCode>, before: seq<HuffCode>, now: seq<HuffCode>, lens: seq<nat>, count: seq<nat>, dist: bool, n: nat)
    requires |count| == 16 && |lens| == |was| && CodesSet(was, before, lens, count, dist, n) && n < |was| && |now| == |was|
    requires now == before[n := now[n]] && CodeSet(was, before[n := now[n]], lens, count, dist, n)
    ensures CodesSet(was, now, lens, count, dist, n + 1)
  {
    hide Word, BitsOf;
    forall i | 0 <= i < n + 1 ensures CodeSet(was, now, lens, count, dist, i) {
      if i < n { assert CodeSet(was, before, lens, count, dist, i); }
    }
  }

  /** The last symbol with a code, or 0. */
  function LastUsed(lens: seq<nat>, n: nat): nat
    requires n <= |lens|
  {
    if n == 0 then 0 else if lens[n - 1] != 0 then n - 1 else LastUsed(lens, n - 1)
  }

  /** Gives every one of the first n symbols with a length its canonical code, ready to be written least significant bit
      first. */
  method SetHuffCodes(table: array<HuffCode>, n: nat, blCount: seq<nat>, ghost count: seq<nat>, ghost top: nat) returns (maxCode: nat)
    requires n <= table.Length && Agree(blCount, count, top) && Lengths(LengthsOf(table[..n]), top)
    requires CountsMatch(LengthsOf(table[..n]), count) && Kraft(count)
    modifies table
    ensures |count| == 16 && LengthsOf(table[..n]) == LengthsOf(old(table[..n])) && table[n..] == old(table[n..])
    ensures CodesSet(old(table[..n]), table[..n], LengthsOf(old(table[..n])), count, false, n)
    ensures maxCode == LastUsed(LengthsOf(old(table[..n])), n)
  {
    maxCode := NumberCodes(table, n, blCount, false, count, top);
  }

  /** The same for distance codes, with their numbers of extra bits. */
  method SetDistHuffCodes(codes: array<HuffCode>, blCount: seq<nat>, ghost count: seq<nat>, ghost top: nat) returns (maxCode: nat)
    requires 30 <= codes.Length && Agree(blCount, count, top) && Lengths(LengthsOf(codes[..30]), top)
    requires CountsMatch(LengthsOf(codes[..30]), count) && Kraft(count)
    modifies codes
    ensures |count| == 16 && LengthsOf(codes[..30]) == LengthsOf(old(codes[..30])) && codes[30..] == old(codes[30..])
    ensures CodesSet(old(codes[..30]), codes[..30], LengthsOf(old(codes[..30])), count, true, 30)
    ensures maxCode == LastUsed(LengthsOf(old(codes[..30])), 30)
  {
    maxCode := NumberCodes(codes, 30, blCount, true, count, top);
  }

  /** The loop both share. */
  method NumberCodes(table: array<HuffCode>, n: nat, blCount: seq<nat>, dist: bool, ghost count: seq<nat>, ghost top: nat) returns (maxCode: nat)
    requires n <= table.Length && Agree(blCount, count, top) && Lengths(LengthsOf(table[..n]), top)
    requires CountsMatch(LengthsOf(table[..n]), count) && Kraft(count)
    modifies table
    ensures |count| == 16 && LengthsOf(table[..n]) == LengthsOf(old(table[..n])) && table[n..] == old(table[n..])
    ensures CodesSet(old(table[..n]), table[..n], LengthsOf(old(table[..n])), count, dist, n)
    ensures maxCode == LastUsed(LengthsOf(old(table[..n])), n)
  {
    hide *;
    ghost var was := table[..n];
    ghost var lens := LengthsOf(was);
    CountsLength(lens, count);
    var nextCode := new nat[16];
    StartCodes(blCount, nextCode, count, top);
    TopBound(blCount, count, top);
    NextStart(nextCode[..], lens, count, top);
    NoneSet(was, lens, count, dist);
    maxCode := 0;
    var i := 0;
    while i < n
      invariant 0 <= i <= n && CodesSet(was, table[..n], lens, count, dist, i)
      invariant NextCodes(nextCode[..], lens, count, top, i) && maxCode == LastUsed(lens, i) && table[n..] == old(table[n..])
    {
      ghost var before, next := table[..n], nextCode[..];
      SetTail(was, before, lens, count, dist, i);
      LengthAt(lens, top, i);
      LastUsedStep(lens, i);
      if table[i].length != 0 {
        var l := table[i].length;
        NextUsed(next, lens, count, top, i);
        CodeWritten(lens, count, i);
        table[i] := table[i].(code := BitReverse(nextCode[l], l), extraBitCount := ExtraOf(table[i], dist, i));
        nextCode[l] := (nextCode[l] + 1) % 65536;
        maxCode := i;
        assert nextCode[..] == next[l := next[l] + 1];
        assert table[..n] == before[i := table[i]];
        IsSet(was, table[..n], lens, count, dist, i);
      } else {
        NextUnused(next, lens, count, top, i);
        IsUnset(was, table[..n], lens, count, dist, i);
        assert before == before[i := before[i]];
      }
      SetMore(was, before, table[..n], lens, count, dist, i);
      i := i + 1;
    }
    SetLengths(was, table[..n], lens, count, dist);
  }

  lemma TopBound(blCount: seq<nat>, count: seq<nat>, top: nat)
    requires Agree(blCount, count, top)
    ensures top <= 15
  {}

  lemma NoneSet(was: seq<HuffCode>, lens: seq<nat>, count: seq<nat>, dist: bool)
    requires |count| == 16 && |lens| == |was|
    ensures CodesSet(was, was, lens, count, dist, 0) && LastUsed(lens, 0) == 0
  {}

  lemma SetTail(was: seq<HuffCode>, now: seq<HuffCode>, lens: seq<nat>, count: seq<nat>, dist: bool, n: nat)
    requires |count| == 16 && |lens| == |was| && CodesSet(was, now, lens, count, dist, n)
    ensures |now| == |was| && forall i :: n <= i < |was| ==> now[i] == was[i]
  {}

  lemma LengthAt(lens: seq<nat>, top: nat, i: nat)
    requires Lengths(lens, top) && i < |lens|
    ensures lens[i] <= top
  {}

  lemma LastUsedStep(lens: seq<nat>, i: nat)
    requires i < |lens|
    ensures LastUsed(lens, i + 1) == if lens[i] != 0 then i else LastUsed(lens, i)
  {}

  lemma IsSet(was: seq<HuffCode>, now: seq<HuffCode>, lens: seq<nat>, count: seq<nat>, dist: bool, i: nat)
    requires |count| == 16 && |lens| == |was| == |now| && i < |was| && 1 <= lens[i] <= 15
    requires now[i] == was[i].(code := now[i].code, extraBitCount := ExtraOf(was[i], dist, i)) && now[i].code < Pow2(lens[i]) && BitsOf(now[i].code, lens[i]) == Word(lens, count, i)
    ensures CodeSet(was, now, lens, count, dist, i)
  {}

  lemma IsUnset(was: seq<HuffCode>, now: seq<HuffCode>, lens: seq<nat>, count: seq<nat>, dist: bool, i: nat)
    requires |count| == 16 && |lens| == |was| == |now| && i < |was| && !(1 <= lens[i] <= 15) && now[i] == was[i]
    ensures CodeSet(was, now, lens, count, dist, i)
  {}

  lemma SetLengths(was: seq<HuffCode>, now: seq<HuffCode>, lens: seq<nat>, count: seq<nat>, dist: bool)
    requires lens == LengthsOf(was) && |count| == 16 && CodesSet(was, now, lens, count, dist, |was|)
    ensures LengthsOf(now) == lens
  {
    forall i | 0 <= i < |was| ensures now[i].length == was[i].length {
      assert CodeSet(was, now, lens, count, dist, i);
    }
  }
}
