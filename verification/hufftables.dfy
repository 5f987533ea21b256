/** The static tables of a fixed Huffman code: the check that its codes fit the bit buffer, and the packed tables. */
module Hufftables {
  import opened Bits
  import opened BitStream
  import opened LZ77
  import opened Canonical
  import opened IcfEncode

  // -- do a literal, a length and a distance fit the bit buffer?

  /** The largest of the first n literal and length codes. */
  function MaxLit(lens: seq<nat>, n: nat): nat
    requires n <= |lens|
  {
    if n == 0 then 0 else if lens[n - 1] > MaxLit(lens, n - 1) then lens[n - 1] else MaxLit(lens, n - 1)
  }

  /** The largest of the length codes from 257 up to n, extra bits included. */
  function MaxLen(lens: seq<nat>, n: nat): nat
    requires n <= |lens|
  {
    if n <= 257 then 0
    else if lens[n - 1] + LenExtraBits(n - 1) > MaxLen(lens, n - 1) then lens[n - 1] + LenExtraBits(n - 1) else MaxLen(lens, n - 1)
  }

  /** The largest of the first n distance codes, extra bits included. */
  function MaxDist(lens: seq<nat>, n: nat): nat
    requires n <= |lens|
  {
    if n == 0 then 0
    else if lens[n - 1] + DistExtraBits(n - 1) > MaxDist(lens, n - 1) then lens[n - 1] + DistExtraBits(n - 1) else MaxDist(lens, n - 1)
  }

  lemma {:induction false} MaxLitIs(lens: seq<nat>, n: nat, i: nat)
    requires i < n <= |lens|
    ensures MaxLit(lens, n) >= lens[i]
  {
    if i < n - 1 { MaxLitIs(lens, n - 1, i); }
  }

  lemma {:induction false} MaxLitReached(lens: seq<nat>, n: nat) returns (i: nat)
    requires 0 < n <= |lens|
    ensures i < n && MaxLit(lens, n) == lens[i]
  {
    if lens[n - 1] > MaxLit(lens, n - 1) || n == 1 { i := n - 1; } else { i := MaxLitReached(lens, n - 1); }
  }

  lemma {:induction false} MaxLenIs(lens: seq<nat>, n: nat, i: nat)
    requires 257 <= i < n <= |lens|
    ensures MaxLen(lens, n) >= lens[i] + LenExtraBits(i)
  {
    if i < n - 1 { MaxLenIs(lens, n - 1, i); }
  }

  lemma {:induction false} MaxLenReached(lens: seq<nat>, n: nat) returns (i: nat)
    requires 257 < n <= |lens|
    ensures 257 <= i < n && MaxLen(lens, n) == lens[i] + LenExtraBits(i)
  {
    if lens[n - 1] + LenExtraBits(n - 1) > MaxLen(lens, n - 1) || n == 258 { i := n - 1; } else { i := MaxLenReached(lens, n - 1); }
  }

  lemma {:induction false} MaxDistIs(lens: seq<nat>, n: nat, i: nat)
    requires i < n <= |lens|
    ensures MaxDist(lens, n) >= lens[i] + DistExtraBits(i)
  {
    if i < n - 1 { MaxDistIs(lens, n - 1, i); }
  }

  lemma {:induction false} MaxDistReached(lens: seq<nat>, n: nat) returns (i: nat)
    requires 0 < n <= |lens|
    ensures i < n && MaxDist(lens, n) == lens[i] + DistExtraBits(i)
  {
    if lens[n - 1] + DistExtraBits(n - 1) > MaxDist(lens, n - 1) || n == 1 { i := n - 1; } else { i := MaxDistReached(lens, n - 1); }
  }

  /** A literal or length code, a length with its extra bits and a distance with its extra bits fit 56 bits, for all length
      symbols below `top`. */
  ghost predicate Fits(llens: seq<nat>, dlens: seq<nat>, top: nat)
    requires |llens| == 286 && |dlens| == 30 && top <= 286
  {
    forall i, j, k :: 0 <= i < 286 && 257 <= j < top && 0 <= k < 30 ==> llens[i] + (llens[j] + LenExtraBits(j)) + (dlens[k] + DistExtraBits(k)) <= 56
  }

  /** The check of the source; it leaves out the last length symbol. */
  predicate Useable(llens: seq<nat>, dlens: seq<nat>)
    requires |llens| == 286 && |dlens| == 30
  {
    MaxLit(llens, 286) + MaxLen(llens, 285) + MaxDist(dlens, 30) <= 56
  }

  /** The check decides exactly whether the codes fit, for all lengths but 258. */
  lemma UseableMeans(llens: seq<nat>, dlens: seq<nat>)
    requires |llens| == 286 && |dlens| == 30
    ensures Useable(llens, dlens) <==> Fits(llens, dlens, 285)
  {
    hide MaxLit, MaxLen, MaxDist, LenExtraBits, DistExtraBits;
    forall i, j, k | 0 <= i < 286 && 257 <= j < 285 && 0 <= k < 30
      ensures llens[i] + (llens[j] + LenExtraBits(j)) + (dlens[k] + DistExtraBits(k)) <= MaxLit(llens, 286) + MaxLen(llens, 285) + MaxDist(dlens, 30)
    {
      MaxLitIs(llens, 286, i);
      MaxLenIs(llens, 285, j);
      MaxDistIs(dlens, 30, k);
    }
    var i := MaxLitReached(llens, 286);
    var j := MaxLenReached(llens, 285);
    var k := MaxDistReached(dlens, 30);
  }

  /** For all lengths, it must also look at the symbol of length 258. */
  lemma FitsMeans(llens: seq<nat>, dlens: seq<nat>)
    requires |llens| == 286 && |dlens| == 30
    ensures Fits(llens, dlens, 286) <==> Useable(llens, dlens) && MaxLit(llens, 286) + llens[285] + MaxDist(dlens, 30) <= 56
  {
    hide MaxLit, MaxLen, MaxDist, DistExtraBits;
    UseableMeans(llens, dlens);
    forall i, k | 0 <= i < 286 && 0 <= k < 30
      ensures llens[i] + (llens[285] + LenExtraBits(285)) + (dlens[k] + DistExtraBits(k)) <= MaxLit(llens, 286) + llens[285] + MaxDist(dlens, 30)
    {
      MaxLitIs(llens, 286, i);
      MaxDistIs(dlens, 30, k);
    }
    var i := MaxLitReached(llens, 286);
    var k := MaxDistReached(dlens, 30);
  }

  /** Every symbol has a code of at most 15 bits, and the codes leave nothing over. */
  ghost predicate CompleteCode(lens: seq<nat>) {
    Lengths(lens, 15) && (forall i :: 0 <= i < |lens| ==> lens[i] > 0)
    && exists count: seq<nat> :: CountsMatch(lens, count) && |count| == 16 && Horner(count, 15) == Pow2(15)
  }

  function UnluckyLit(s: nat): nat { if s < 6 then 15 - s else if s < 53 then 9 else if s < 285 then 8 else 15 }

  function UnluckyDist(k: nat): nat { if k < 12 then 4 else if k < 18 then 5 else if k < 28 then 32 - k else 15 }

  /** Complete codes that pass the check although a literal, the length 258 and a distance take 58 bits. */
  lemma UseableMissesLast()
    ensures exists llens: seq<nat>, dlens: seq<nat> ::
              |llens| == 286 && |dlens| == 30 && CompleteCode(llens) && CompleteCode(dlens) && Useable(llens, dlens) && !Fits(llens, dlens, 286)
  {
    var llens: seq<nat> := seq(286, s requires 0 <= s < 286 => UnluckyLit(s));
    var dlens: seq<nat> := seq(30, k requires 0 <= k < 30 => UnluckyDist(k));
    UnluckyLitComplete(llens);
    UnluckyDistComplete(dlens);
    hide MaxLit, MaxLen, MaxDist, CompleteCode;
    var i := MaxLitReached(llens, 286);
    var j := MaxLenReached(llens, 285);
    var k := MaxDistReached(dlens, 30);
    assert llens[0] + (llens[285] + LenExtraBits(285)) + (dlens[29] + DistExtraBits(29)) == 58;
  }

  /** How many codes of each length these have. */
  function LitLengths(l: nat): nat { if l < 8 then 0 else if l == 8 then 232 else if l == 9 then 47 else if l < 15 then 1 else 2 }

  function DistLengths(l: nat): nat { if l < 4 then 0 else if l == 4 then 12 else if l == 5 then 7 else if l < 15 then 1 else 2 }

  lemma UnluckyLitComplete(lens: seq<nat>)
    requires |lens| == 286 && forall s :: 0 <= s < 286 ==> lens[s] == UnluckyLit(s)
    ensures CompleteCode(lens)
  {
    hide CountOf, Horner;
    var count := seq(16, l requires 0 <= l < 16 => LitLengths(l));
    forall l: nat | 1 <= l <= 15 ensures LitLengths(l) == CountOf(lens, l) { LitCount(lens, l); }
    LitSum(count);
    IsComplete(lens, count);
  }

  lemma UnluckyDistComplete(lens: seq<nat>)
    requires |lens| == 30 && forall k :: 0 <= k < 30 ==> lens[k] == UnluckyDist(k)
    ensures CompleteCode(lens)
  {
    hide CountOf, Horner;
    var count := seq(16, l requires 0 <= l < 16 => DistLengths(l));
    forall l: nat | 1 <= l <= 15 ensures DistLengths(l) == CountOf(lens, l) { DistCount(lens, l); }
    DistSum(count);
    IsComplete(lens, count);
  }

  lemma IsComplete(lens: seq<nat>, count: seq<nat>)
    requires (forall i :: 0 <= i < |lens| ==> 1 <= lens[i] <= 15) && CountsMatch(lens, count) && Horner(count, 15) == Pow2(15)
    ensures CompleteCode(lens)
  {
    hide CountOf, Horner;
  }

  lemma LitCount(lens: seq<nat>, l: nat)
    requires |lens| == 286 && forall s :: 0 <= s < 286 ==> lens[s] == UnluckyLit(s)
    ensures CountOf(lens, l) == (if 10 <= l <= 15 then 1 else 0) + (if l == 9 then 47 else 0) + (if l == 8 then 232 else 0) + if l == 15 then 1 else 0
  {
    hide Rank;
    RankNone(lens, l);
    RankStairs(lens, 0, 6, 15, l);
    RankRun(lens, 6, 53, 9, l);
    RankRun(lens, 53, 285, 8, l);
    RankRun(lens, 285, 286, 15, l);
  }

  lemma DistCount(lens: seq<nat>, l: nat)
    requires |lens| == 30 && forall k :: 0 <= k < 30 ==> lens[k] == UnluckyDist(k)
    ensures CountOf(lens, l) == (if l == 4 then 12 else 0) + (if l == 5 then 6 else 0) + (if 5 <= l <= 14 then 1 else 0) + if l == 15 then 2 else 0
  {
    hide Rank;
    RankNone(lens, l);
    RankRun(lens, 0, 12, 4, l);
    RankRun(lens, 12, 18, 5, l);
    RankStairs(lens, 18, 10, 14, l);
    RankRun(lens, 28, 30, 15, l);
  }

  lemma {:induction false} RankStairs(lens: seq<nat>, a: nat, n: nat, top: nat, l: nat)
    requires a + n <= |lens| && n <= top && forall i :: a <= i < a + n ==> lens[i] == top - (i - a)
    ensures Rank(lens, a + n, l) == Rank(lens, a, l) + if top - n < l <= top then 1 else 0
  {
    if n > 0 { RankStairs(lens, a, n - 1, top, l); }
  }

  lemma LitSum(count: seq<nat>)
    requires |count| == 16 && forall l: nat :: l < 16 ==> count[l] == LitLengths(l)
    ensures Horner(count, 15) == Pow2(15)
  {
    Pow2Values();
    HornerNothing(count, 7);
    hide Pow2;
    assert Horner(count, 8) == 232;
    assert Horner(count, 9) == 511;
    assert Horner(count, 10) == 1023;
    assert Horner(count, 11) == 2047;
    assert Horner(count, 12) == 4095;
    assert Horner(count, 13) == 8191;
    assert Horner(count, 14) == 16383;
    assert Horner(count, 15) == 32768;
  }

  lemma DistSum(count: seq<nat>)
    requires |count| == 16 && forall l: nat :: l < 16 ==> count[l] == DistLengths(l)
    ensures Horner(count, 15) == Pow2(15)
  {
    Pow2Values();
    HornerNothing(count, 3);
    hide Pow2;
    assert Horner(count, 4) == 12;
    assert Horner(count, 5) == 31;
    assert Horner(count, 6) == 63;
    assert Horner(count, 7) == 127;
    assert Horner(count, 8) == 255;
    assert Horner(count, 9) == 511;
    assert Horner(count, 10) == 1023;
    assert Horner(count, 11) == 2047;
    assert Horner(count, 12) == 4095;
    assert Horner(count, 13) == 8191;
    assert Horner(count, 14) == 16383;
    assert Horner(count, 15) == 32768;
  }

  /** The shorter codes always fit. */
  lemma SafeLengths(llens: seq<nat>, dlens: seq<nat>)
    requires |llens| == 286 && |dlens| == 30 && Lengths(llens, 13) && Lengths(dlens, 12)
    ensures Fits(llens, dlens, 286)
  {}

  /** Looks for the longest codes; true if they do not fit together. */
  method AreHufftablesUseable(lit: array<HuffCode>, dist: array<HuffCode>, ghost llens: seq<nat>, ghost dlens: seq<nat>) returns (tooLong: bool)
    requires lit.Length == 286 && dist.Length == 30 && llens == LengthsOf(lit[..]) && dlens == LengthsOf(dist[..])
    ensures |llens| == 286 && |dlens| == 30 && tooLong == !Useable(llens, dlens)
  {
    hide LenExtraBits, DistExtraBits;
    var maxLit, maxLen, maxDist, lenExtra, distExtra := 0, 0, 0, 0, 0;
    var gainDist, gainLen := 3, 264;
    var i := 0;
    while i < 286
      invariant 0 <= i <= 286 && maxLit == MaxLit(llens, i)
    {
      if lit[i].length > maxLit { maxLit := lit[i].length; }
      i := i + 1;
    }
    i := 257;
    LenGain(257);
    while i < 286 - 1
      invariant 257 <= i <= 285 && maxLen == MaxLen(llens, i) && (i < 285 ==> lenExtra == LenExtraBits(i)) && gainLen == LenGainAt(i)
      invariant i == 285 ==> lenExtra == 6
    {
      LenGain(i);
      if lit[i].length + lenExtra > maxLen { maxLen := lit[i].length + lenExtra; }
      if i == gainLen {
        gainLen := gainLen + 4;
        lenExtra := lenExtra + 1;
      }
      i := i + 1;
    }
    i := 0;
    DistGain(0);
    while i < 30
      invariant 0 <= i <= 30 && maxDist == MaxDist(dlens, i) && distExtra == DistExtraBits(i) && gainDist == DistGainAt(i)
    {
      DistGain(i);
      if dist[i].length + distExtra > maxDist { maxDist := dist[i].length + distExtra; }
      if i == gainDist {
        gainDist := gainDist + 2;
        distExtra := distExtra + 1;
      }
      i := i + 1;
    }
    tooLong := maxLit + maxLen + maxDist > 56;
  }

  /** The next symbol after which a length has one more extra bit. */
  function LenGainAt(i: nat): nat { if i <= 264 then 264 else 264 + (i - 261) / 4 * 4 }

  lemma LenGain(i: nat)
    requires 257 <= i < 285
    ensures LenGainAt(257) == 264 && LenExtraBits(257) == 0 && LenGainAt(i + 1) == if i == LenGainAt(i) then LenGainAt(i) + 4 else LenGainAt(i)
    ensures i < 284 ==> LenExtraBits(i + 1) == if i == LenGainAt(i) then LenExtraBits(i) + 1 else LenExtraBits(i)
    ensures i == 284 ==> LenExtraBits(i) == 5 && i == LenGainAt(i)
  {}

  function DistGainAt(i: nat): nat { if i <= 3 then 3 else 3 + (i - 2) / 2 * 2 }

  lemma DistGain(i: nat)
    ensures DistGainAt(0) == 3 && DistExtraBits(0) == 0
    ensures DistGainAt(i + 1) == if i == DistGainAt(i) then DistGainAt(i) + 2 else DistGainAt(i)
    ensures DistExtraBits(i + 1) == if i == DistGainAt(i) then DistExtraBits(i) + 1 else DistExtraBits(i)
  {}

  // -- packed tables

  /** A code with its extra bits behind it, above five bits for the whole length. */
  function Pack(code: nat, length: nat, extra: nat, extraCount: nat): nat {
    Or(Or(length + extraCount, code * 32), extra * Pow2(length + 5))
  }

  /** What is unpacked: the code followed by its extra bits, and how many bits that is. */
  lemma Unpacked(code: nat, length: nat, extra: nat, extraCount: nat)
    requires code < Pow2(length) && extra < Pow2(extraCount) && length + extraCount < 32
    ensures Pack(code, length, extra, extraCount) % 32 == length + extraCount
    ensures Pack(code, length, extra, extraCount) / 32 == code + extra * Pow2(length) < Pow2(length + extraCount)
    ensures BitsOf(Pack(code, length, extra, extraCount) / 32, length + extraCount) == BitsOf(code, length) + BitsOf(extra, extraCount)
  {
    hide Or, BitsOf, Pow2;
    FiveBits(length);
    OrDisjoint(length + extraCount, 5, code);
    FiveMore(length + extraCount, code, Pow2(length));
    OrDisjoint(length + extraCount + code * 32, length + 5, extra);
    BitsOfConcat(code, length, extra, extraCount);
    SumBound(code, length, extra, extraCount);
    PackedSum(length + extraCount, code, extra, Pow2(length), Pow2(length + 5));
  }

  lemma FiveBits(n: nat)
    ensures Pow2(5) == 32 && Pow2(n + 5) == Pow2(n) * 32
  {
    Pow2Values();
    Pow2Add(n, 5);
  }

  lemma FiveMore(a: nat, code: nat, p: nat)
    requires a < 32 && code < p
    ensures a + code * 32 < p * 32
  {}

  lemma PackedSum(a: nat, code: nat, extra: nat, p: nat, q: nat)
    requires a < 32 && q == p * 32
    ensures (a + code * 32 + extra * q) % 32 == a && (a + code * 32 + extra * q) / 32 == code + extra * p
  {
    var x := extra * p;
    assert extra * q == 32 * x;
  }

  /** The packed entry of a length index. */
  function PackedLen(lit: seq<HuffCode>, l: nat): nat
    requires |lit| == 286 && 257 <= l <= 512
  {
    Pack(lit[LenSymbol(l)].code, lit[LenSymbol(l)].length, LenValue(l), IndexExtra(l))
  }

  /** Fills in one packed entry for every length. */
  method CreatePackedLenTable(packed: array<nat>, lit: seq<HuffCode>)
    requires packed.Length == 256 && |lit| == 286
    modifies packed
    ensures forall l: nat :: 257 <= l <= 512 ==> packed[l - 257] == PackedLen(lit, l)
  {
    hide Pack, LenSymbol, LenValue, IndexExtra, Pow2, LenExtraBits;
    var count, extraCount, gain, i := 0, 0, 264, 257;
    LenGain(257);
    while i < 286 - 1
      invariant 257 <= i <= 285 && (i < 285 ==> extraCount == LenExtraBits(i)) && gain == LenGainAt(i)
      invariant count == (if i == 285 then 255 else FirstIndex(i) - 257) && PackedTo(lit, packed[..], count)
    {
      LenGain(i);
      IndexRange(i);
      var extra := 0;
      while extra < Pow2(extraCount)
        invariant 0 <= extra <= Pow2(extraCount) && PackedTo(lit, packed[..], count)
        invariant count == if FirstIndex(i) + extra > 512 then 255 else FirstIndex(i) + extra - 257
        decreases Pow2(extraCount) - extra
      {
        if count > 254 { break; }
        IndexOf(i, extra, count + 257);
        ghost var was := packed[..];
        packed[count] := Pack(lit[i].code, lit[i].length, extra, extraCount);
        PackedMore(lit, was, packed[..], count);
        count := count + 1;
        extra := extra + 1;
      }
      if i == gain {
        gain := gain + 4;
        extraCount := extraCount + 1;
      }
      i := i + 1;
    }
    ghost var was := packed[..];
    packed[count] := Pack(lit[285].code, lit[285].length, 0, 0);
    LastPacked(lit);
    PackedMore(lit, was, packed[..], count);
    PackedAll(lit, packed[..]);
  }

  /** The index of the first length of a symbol. */
  function FirstIndex(s: nat): nat { if s < 257 then 0 else LenBase(s) + 254 }

  lemma IndexRange(s: nat)
    requires 257 <= s <= 284
    ensures 257 <= FirstIndex(s) <= 512 && FirstIndex(257) == 257 && Pow2(LenExtraBits(s)) <= 32
    ensures s < 284 ==> FirstIndex(s + 1) == FirstIndex(s) + Pow2(LenExtraBits(s)) <= 512
    ensures s == 284 ==> FirstIndex(s) + Pow2(LenExtraBits(s)) == 513
  {
    Pow2Values();
    hide Pow2;
  }

  lemma IndexOf(s: nat, extra: nat, l: nat)
    requires 257 <= s <= 284 && extra < Pow2(LenExtraBits(s)) && l == FirstIndex(s) + extra && l < 512
    ensures 257 <= l && LenSymbol(l) == s && LenValue(l) == extra && IndexExtra(l) == LenExtraBits(s)
  {
    hide Pow2, LenBase, LenSymbol, LenValue, IndexExtra;
    FirstLengths(s);
    var eb := LenExtraBits(s);
    if s >= 265 {
      var k := s - 261 - 4 * eb;
      GroupPower(eb);
      LenBaseAt(eb, k);
      GroupSymbol(eb, k, extra, l);
    }
  }

  lemma FirstLengths(s: nat)
    requires 257 <= s <= 284
    ensures s < 265 ==> LenBase(s) + 254 == s && LenExtraBits(s) == 0 && LenSymbol(s) == s && LenValue(s) == 0 && IndexExtra(s) == 0 && Pow2(0) == 1
    ensures s >= 265 ==> 1 <= LenExtraBits(s) <= 5 && 0 <= s - 261 - 4 * LenExtraBits(s) < 4
  {}

  ghost predicate PackedTo(lit: seq<HuffCode>, packed: seq<nat>, n: nat) {
    |lit| == 286 && |packed| == 256 && forall l: nat :: 257 <= l < 257 + n && l <= 512 ==> packed[l - 257] == PackedLen(lit, l)
  }

  lemma PackedMore(lit: seq<HuffCode>, was: seq<nat>, now: seq<nat>, n: nat)
    requires PackedTo(lit, was, n) && n < 256 && |now| == 256 && now == was[n := now[n]] && now[n] == PackedLen(lit, n + 257)
    ensures PackedTo(lit, now, n + 1)
  {
    hide PackedLen;
  }

  lemma LastPacked(lit: seq<HuffCode>)
    requires |lit| == 286
    ensures PackedLen(lit, 512) == Pack(lit[285].code, lit[285].length, 0, 0)
  {}

  lemma PackedAll(lit: seq<HuffCode>, packed: seq<nat>)
    requires PackedTo(lit, packed, 256)
    ensures |packed| == 256 && |lit| == 286 && forall l: nat :: 257 <= l <= 512 ==> packed[l - 257] == PackedLen(lit, l)
  {}

  /** The packed entry of a distance. */
  function PackedDist(dist: seq<HuffCode>, d: nat): nat
    requires |dist| == 30 && 1 <= d <= 32768 && DistIcfCode(d).code < 30
  {
    Pack(dist[DistIcfCode(d).code].code, dist[DistIcfCode(d).code].length, DistIcfCode(d).extra, DistExtraBits(DistIcfCode(d).code))
  }

  lemma NextDistStart(i: nat)
    ensures DistStart(0) == 1 && DistStart(i + 1) == DistStart(i) + Pow2(DistExtraBits(i))
  {}

  lemma {:induction false} DistStarts(i: nat, j: nat)
    requires i < j
    ensures DistStart(i) + Pow2(DistExtraBits(i)) <= DistStart(j)
    decreases j
  {
    hide DistStart, Pow2, DistExtraBits;
    NextDistStart(j - 1);
    if i < j - 1 { DistStarts(i, j - 1); }
  }

  /** A distance has only one symbol and extra value. */
  lemma DistOnly(i: nat, extra: nat, d: nat)
    requires i < 30 && extra < Pow2(DistExtraBits(i)) && d == DistStart(i) + extra && 1 <= d <= 32768
    ensures DistIcfCode(d) == DistSymbol(i, extra)
  {
    hide DistStart, Pow2, DistExtraBits, DistIcfCode;
    DistRoundTrip(d);
    var s := DistIcfCode(d);
    if s.code < i { DistStarts(s.code, i); } else if i < s.code { DistStarts(i, s.code); }
  }

  ghost predicate PackedDistTo(dist: seq<HuffCode>, packed: seq<nat>, n: nat) {
    |dist| == 30 && n <= 32768 && n <= |packed| && forall d: nat :: 1 <= d <= n ==> DistIcfCode(d).code < 30 && packed[d - 1] == PackedDist(dist, d)
  }

  lemma PackedDistMore(dist: seq<HuffCode>, was: seq<nat>, now: seq<nat>, n: nat)
    requires PackedDistTo(dist, was, n) && n < 32768 && n < |was| == |now| && now == was[n := now[n]]
    requires DistIcfCode(n + 1).code < 30 && now[n] == PackedDist(dist, n + 1)
    ensures PackedDistTo(dist, now, n + 1)
  {
    hide PackedDist, DistIcfCode;
  }

  /** Fills in one packed entry for every short distance. */
  method CreatePackedDistTable(packed: array<nat>, length: nat, dist: seq<HuffCode>)
    requires length <= packed.Length && length <= 32768 && |dist| == 30
    modifies packed
    ensures PackedDistTo(dist, packed[..], length)
  {
    hide Pack, Pow2, DistIcfCode, DistStart, DistExtraBits, PackedDistTo;
    var count, extraCount, gain, i := 0, 0, 3, 0;
    DistGain(0);
    NextDistStart(0);
    NoneDist(dist, packed[..]);
    while i < 30
      invariant 0 <= i <= 30 && extraCount == DistExtraBits(i) && gain == DistGainAt(i) && count <= length
      invariant count + 1 == DistStart(i) && PackedDistTo(dist, packed[..], count)
    {
      DistGain(i);
      NextDistStart(i);
      var extra := 0;
      while extra < Pow2(extraCount)
        invariant 0 <= extra <= Pow2(extraCount) && count <= length
        invariant count + 1 == DistStart(i) + extra && PackedDistTo(dist, packed[..], count)
        decreases Pow2(extraCount) - extra
      {
        if count >= length { return; }
        DistOnly(i, extra, count + 1);
        ghost var was := packed[..];
        packed[count] := Pack(dist[i].code, dist[i].length, extra, extraCount);
        PackedDistMore(dist, was, packed[..], count);
        count := count + 1;
        extra := extra + 1;
      }
      if i == gain {
        gain := gain + 2;
        extraCount := extraCount + 1;
      }
      i := i + 1;
    }
    EndOfDist();
  }

  lemma NoneDist(dist: seq<HuffCode>, packed: seq<nat>)
    requires |dist| == 30
    ensures PackedDistTo(dist, packed, 0)
  {}

  lemma EndOfDist()
    ensures DistStart(30) == 32769
  {
    Pow2Add(7, 7);
    Pow2Values();
  }
}
