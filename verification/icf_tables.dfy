/** Making the codes of a block from its symbol counts: Huffman codes or the fixed ones, whichever gives the smaller block,
    the block header, and the exact size of the block. */
module IcfTables {
  import opened Bits
  import opened BitStream
  import opened LZ77
  import opened Icf
  import opened Canonical
  import opened CodeLengths
  import opened HuffTree
  import opened LeastBits
  import opened Header
  import opened IcfEncode
  import opened IcfCost

  // -- tables before they are expanded

  /** One code word for each symbol that has one. */
  ghost predicate Plain(c: Codes, ll: seq<HuffCode>, d: seq<HuffCode>) {
    c.Valid() && |ll| >= 286 && |d| >= 30
    && (forall s: nat :: s <= 285 && c.llens[s] > 0 ==> PlainEntry(c, ll[s], s))
    && forall t: nat :: t < 30 && c.dlens[t] > 0 ==> DistEntry(c, d[t], t)
  }

  ghost predicate PlainEntry(c: Codes, e: HuffCode, s: nat)
    requires c.Valid() && s <= 285 && c.llens[s] > 0
  {
    e.length == c.llens[s] <= 15 && e.extraBitCount == 0 && e.code < Pow2(e.length) && BitsOf(e.code, e.length) == Word(c.llens, c.lcount, s)
  }

  lemma ExpandedEntry(c: Codes, ll: seq<HuffCode>, d: seq<HuffCode>, l: nat)
    requires c.Valid() && Plain(c, ll, d) && 257 <= l <= 512 && c.llens[LenSymbol(l)] > 0
    ensures |ll| >= 286 && LenEntry(c, ExpandedCode(ll, l), l)
  {
    hide BitsOf, Word, Codes.Valid, Pow2, LenSymbol, Or, CodeAndExtra, WithExtra;
    var s := LenSymbol(l);
    ValidSizes(c);
    assert PlainEntry(c, ll[s], s);
    SymbolSame(l);
    if l < 265 || l == 512 {
      PlainWhole(ll[s]);
      BitsOfNothing(0);
    } else {
      var len, v, eb := c.llens[s], LenValue(l), IndexExtra(l);
      LengthRoundTrip(l);
      OrDisjoint(ll[s].code, len, v);
      BitsOfConcat(ll[s].code, len, v, eb);
      SumBound(ll[s].code, len, v, eb);
      WholeWith(Or(ll[s].code, v * Pow2(len)), len + eb);
    }
  }

  lemma SymbolSame(l: nat)
    requires 257 <= l <= 512
    ensures (l < 265 ==> LenSymbol(l) == l) && (l == 512 ==> LenSymbol(l) == 285) && IndexExtra(l) <= 5
    ensures l < 265 || l == 512 ==> LenValue(l) == 0 && IndexExtra(l) == 0
  {}

  lemma PlainWhole(e: HuffCode)
    requires e.extraBitCount == 0
    ensures CodeAndExtra(e) == e.code
  {}

  lemma WholeWith(v: nat, n: nat)
    ensures CodeAndExtra(WithExtra(v, n)) == v && WithExtra(v, n).length == n
  {}

  /** Expanding plain tables gives tables for the encoder. */
  lemma ExpandedTables(c: Codes, ll: seq<HuffCode>, d: seq<HuffCode>, ll': seq<HuffCode>, d': seq<HuffCode>)
    requires c.Valid() && Plain(c, ll, d) && |ll| == |ll'| == 513 && |d| == |d'| == 31
    requires (forall l :: 0 <= l <= 512 ==> ll'[l] == ExpandedCode(ll, l)) && d'[..30] == d[..30] && d'[30] == HuffCode(0, 0, 0)
    ensures Tables(c, ll', d')
  {
    hide LenEntry, Codes.Valid, LenSymbol, BitsOf, Word, Pow2;
    ValidSizes(c);
    forall l: nat | 257 <= l <= 512 && c.llens[LenSymbol(l)] > 0 ensures LenEntry(c, ll'[l], l) { ExpandedEntry(c, ll, d, l); }
    forall s: nat | s <= 256 && c.llens[s] > 0 ensures LitEntry(c, ll'[s], s) {
      assert PlainEntry(c, ll[s], s);
      FirstKept(ll, s);
    }
    forall t: nat | t < 30 && c.dlens[t] > 0 ensures DistEntry(c, d'[t], t) { assert d'[..30][t] == d[..30][t]; }
  }

  lemma FirstKept(ll: seq<HuffCode>, s: nat)
    requires |ll| >= 286 && s <= 256
    ensures ExpandedCode(ll, s) == ll[s]
  {}

  // -- what the counts cover

  lemma {:induction false} CountPositive(rs: seq<Record>, i: nat)
    requires i < |rs|
    ensures LLCount(rs, rs[i].litLen) > 0
    ensures rs[i].litLen < 256 && rs[i].litDist > 30 ==> LLCount(rs, rs[i].litDist - 31) > 0
    ensures rs[i].litLen >= 257 ==> DCount(rs, rs[i].litDist) > 0
  {
    if i < |rs| - 1 { CountPositive(rs[..|rs| - 1], i); }
  }

  lemma {:induction false} SumAtLeast(h: seq<nat>, a: nat, b: nat, l: nat)
    requires a <= l < b <= |h|
    ensures Sum(h, a, b) >= h[l]
    decreases b
  {
    if l < b - 1 { SumAtLeast(h, a, b - 1, l); }
  }

  lemma FoldedPositive(h: seq<nat>, l: nat)
    requires |h| == 513 && 257 <= l <= 512 && h[l] > 0
    ensures Folded(h, LenSymbol(l)) > 0
  {
    hide Sum;
    if 265 <= l < 512 {
      SymbolRange(l);
      var s := LenSymbol(l);
      SumAtLeast(h, SymStart(s), if s == 284 then 512 else SymStart(s + 1), l);
    }
  }

  lemma SymbolRange(l: nat)
    requires 265 <= l < 512
    ensures 265 <= LenSymbol(l) <= 284 && SymStart(LenSymbol(l)) <= l < SymStart(LenSymbol(l) + 1) <= 513
    ensures LenSymbol(l) == 284 ==> SymStart(284) == 481
  {
    if l < 273 { } else if l < 289 { } else if l < 321 { } else if l < 385 { } else { }
  }

  /** Records of a block: literals, pairs, matches and the end of the block. */
  ghost predicate BlockRecords(rs: seq<Record>) { forall i :: 0 <= i < |rs| ==> rs[i].Valid() || rs[i] == EOB }

  /** All symbols that are counted have codes. */
  ghost predicate Covers(c: Codes, f: seq<nat>, d: seq<nat>) {
    c.Valid() && |f| >= 286 && |d| >= 30 && (forall s: nat :: s <= 285 && f[s] > 0 ==> c.llens[s] > 0) && forall t: nat :: t < 30 && d[t] > 0 ==> c.dlens[t] > 0
  }

  lemma CoveredEncodable(c: Codes, rs: seq<Record>, f: seq<nat>)
    requires BlockRecords(rs) && Covers(c, f, DHist(rs)) && forall s: nat :: s <= 255 || 257 <= s <= 285 ==> f[s] == Folded(LLHist(rs), s)
    requires f[256] >= LLCount(rs, 256)
    ensures c.Valid() && AllEncodable(c, rs)
  {
    forall i | 0 <= i < |rs| ensures Encodable(c, rs[i]) { RecordEncodable(c, rs, f, i); }
  }

  lemma RecordEncodable(c: Codes, rs: seq<Record>, f: seq<nat>, i: nat)
    requires BlockRecords(rs) && Covers(c, f, DHist(rs)) && i < |rs| && forall s: nat :: s <= 255 || 257 <= s <= 285 ==> f[s] == Folded(LLHist(rs), s)
    requires f[256] >= LLCount(rs, 256)
    ensures c.Valid() && Encodable(c, rs[i])
  {
    hide Codes.Valid, Sum, LLCount, DCount, LenSymbol, DistExtraBits;
    ValidSizes(c);
    CountPositive(rs, i);
    var r := rs[i];
    if r.litLen >= 257 { FoldedPositive(LLHist(rs), r.litLen); }
  }

  // -- Huffman codes for the counts

  /** Makes lengths and code words for the symbols that occur. */
  method HuffmanCodes(hist: seq<nat>, codes: array<HuffCode>, n: nat, dist: bool) returns (maxCode: nat, ghost lens: seq<nat>, ghost count: seq<nat>)
    requires 2 <= |hist| == n <= 286 && n <= codes.Length && (dist ==> n == 30)
    modifies codes
    ensures |lens| == n && |count| == 16 && Canonical.Lengths(lens, 15) && CountsMatch(lens, count) && Kraft(count)
    ensures lens == LengthsOf(codes[..n]) && codes[n..] == old(codes[n..]) && forall s :: 0 <= s < n && hist[s] != 0 ==> lens[s] > 0
    ensures maxCode == LastUsed(lens, n) && 1 <= maxCode < n
    ensures forall s: nat :: s < n && lens[s] > 0 ==> Coded(codes[s], lens, count, dist, s)
    ensures Light(hist) && Canonical.Lengths(lens, 14) ==> FewestBits(hist, lens)
  {
    hide *;
    var heap, child, tally, blCount := new nat[859], new nat[859], new nat[859], new nat[16];
    var depth := new nat[859](_ => 0);
    var heapSize;
    ghost var symbols;
    heapSize, symbols := InitHeap(heap, hist);
    FewSymbols(symbols, heapSize);
    ghost var free := GenHuffCodeLens(heap, child, depth, tally, heapSize, blCount, codes, n, 15, symbols, n, AtLeast(hist, 1));
    ghost var was := codes[..n];
    lens, count := LengthsOf(was), FullCounts(blCount[..], 15);
    GoodParts(lens, symbols, blCount[..], 15);
    GoodIsCanonical(lens, symbols, blCount[..], 15);
    HeapCovers(hist, symbols);
    LengthsAt(lens, was);
    if Light(hist) && Canonical.Lengths(lens, 14) { NowFewest(hist, symbols, lens, count, free); }
    TwoUsed(lens, symbols);
    if dist {
      maxCode := SetDistHuffCodes(codes, blCount[..], count, 15);
    } else {
      maxCode := SetHuffCodes(codes, n, blCount[..], count, 15);
    }
    AreCoded(was, codes[..n], lens, count, dist, n);
    forall s: nat | s < n && lens[s] > 0 ensures Coded(codes[s], lens, count, dist, s) { assert codes[s] == codes[..n][s]; }
  }

  ghost predicate Coded(e: HuffCode, lens: seq<nat>, count: seq<nat>, dist: bool, s: nat)
    requires s < |lens| && lens[s] > 0 && |count| == 16
  {
    e.length == lens[s] <= 15 && e.code < Pow2(e.length) && BitsOf(e.code, e.length) == Word(lens, count, s)
    && e.extraBitCount == if dist then DistExtraBits(s) else 0
  }

  /** Where the longest length is not reached, the lengths are those of a code of least cost. */
  lemma NowFewest(hist: seq<nat>, symbols: set<nat>, lens: seq<nat>, count: seq<nat>, free: seq<nat>)
    requires HeapOf(hist, symbols) && Cheapest(symbols, AtLeast(hist, 1), free) && |hist| == |lens| == |free| <= 859
    requires Canonical.Lengths(lens, 14) && (forall s :: 0 <= s < |lens| ==> (lens[s] != 0 <==> s in symbols)) && forall s :: s in symbols ==> s < |hist|
    requires Canonical.Lengths(free, 15) || Canonical.Lengths(lens, 14) ==> lens == free
    requires CountsMatch(lens, count) && Horner(count, 15) == Pow2(15)
    ensures FewestBits(hist, lens)
  {
    hide CountsMatch, Horner, Pow2, Cheapest, CheapIfShort, FewestBits;
    if |Occurring(hist)| >= 2 {
      PaddedCheap(symbols, hist, 1, 15, lens, free);
      CheapBelow(symbols, hist, 15, lens);
      CheapestFewest(hist, lens);
    } else {
      var x, y := PairOf(symbols);
      assert Occurring(lens) == {x, y};
      TwoNames(lens, count, x, y);
      OnesFewest(hist, lens);
    }
  }

  lemma PairOf(s: set<nat>) returns (x: nat, y: nat)
    requires |s| == 2
    ensures x != y && s == {x, y}
  {
    x :| x in s;
    var rest := s - {x};
    assert |rest| == 1;
    y :| y in rest;
    var none := rest - {y};
    assert |none| == 0;
    assert s == {x, y} + none;
  }

  lemma FewSymbols(symbols: set<nat>, n: nat)
    requires n == |symbols| <= 286
    ensures |symbols| <= Pow2(15)
  {
    Pow2Values();
  }

  lemma {:induction false} LastUsedIs(lens: seq<nat>, n: nat, s: nat)
    requires s < n <= |lens| && lens[s] != 0
    ensures s <= LastUsed(lens, n) < n && lens[LastUsed(lens, n)] != 0
  {
    if lens[n - 1] == 0 { LastUsedIs(lens, n - 1, s); }
  }

  lemma TwoUsed(lens: seq<nat>, symbols: set<nat>)
    requires |symbols| >= 2 && (forall s :: s in symbols ==> s < |lens|) && forall s :: 0 <= s < |lens| ==> (lens[s] != 0 <==> s in symbols)
    ensures 1 <= LastUsed(lens, |lens|) < |lens|
  {
    var rest := symbols - {0};
    assert rest + {0} >= symbols;
    if rest == {} { assert symbols <= {0}; OneAtMost(symbols); }
    var x :| x in rest;
    LastUsedIs(lens, |lens|, x);
  }

  lemma OneAtMost(s: set<nat>)
    requires s <= {0}
    ensures |s| <= 1
  {
    if 0 in s { assert s == {0}; } else { assert s == {}; }
  }

  lemma AreCoded(was: seq<HuffCode>, now: seq<HuffCode>, lens: seq<nat>, count: seq<nat>, dist: bool, n: nat)
    requires |was| == |now| == n == |lens| && lens == LengthsOf(was) && |count| == 16 && Canonical.Lengths(lens, 15) && CodesSet(was, now, lens, count, dist, n)
    requires forall s :: 0 <= s < n ==> was[s].extraBitCount == 0
    ensures forall s: nat :: s < n && lens[s] > 0 ==> Coded(now[s], lens, count, dist, s)
  {
    hide Word, BitsOf, Pow2;
    forall s: nat | s < n && lens[s] > 0 ensures Coded(now[s], lens, count, dist, s) { assert CodeSet(was, now, lens, count, dist, s); }
  }

  // -- the size of the block, and which codes to use

  /** The entries of the code length list: the used literal and length codes, then the used distance codes. */
  function Combined(llens: seq<nat>, dlens: seq<nat>, maxLl: nat, maxD: nat): (r: seq<nat>)
    requires maxLl < |llens| && maxD < |dlens|
    ensures |r| == maxLl + maxD + 2
  {
    llens[..maxLl + 1] + dlens[..maxD + 1]
  }

  /** Adds up the size of the block body with the new codes and with the fixed ones, and lists the code lengths. */
  method MeasureLl(codes: array<HuffCode>, fixedCodes: seq<HuffCode>, hist: array<nat>, maxLl: nat, combined: array<nat>,
                   ghost llens: seq<nat>, ghost slens: seq<nat>)
    returns (size: nat, fixedSize: nat)
    requires 256 <= maxLl <= 285 && codes.Length >= 286 && |fixedCodes| >= 286 && hist.Length >= 286 && combined.Length == 316 && combined != hist
    requires |llens| >= 286 && |slens| >= 286
    requires (forall s :: 0 <= s < 286 ==> codes[s].length == llens[s]) && forall s :: 0 <= s < 286 ==> fixedCodes[s].length == slens[s]
    modifies combined
    ensures size == SymbolBits(llens, hist[..], maxLl + 1) && fixedSize == 3 + SymbolBits(slens, hist[..], maxLl + 1)
    ensures combined[..maxLl + 1] == llens[..maxLl + 1]
  {
    hide LenExtraBits, SymbolBits;
    ghost var h := hist[..];
    SymbolNone(llens, h);
    SymbolNone(slens, h);
    size, fixedSize := 0, 3;
    var i := 0;
    while i <= 256
      invariant 0 <= i <= 257 && combined[..i] == llens[..i] && hist[..] == h
      invariant size == SymbolBits(llens, h, i) && fixedSize == 3 + SymbolBits(slens, h, i)
    {
      NoExtra(i);
      SymbolNext(llens, h, i);
      SymbolNext(slens, h, i);
      combined[i] := codes[i].length;
      size := size + codes[i].length * hist[i];
      fixedSize := fixedSize + fixedCodes[i].length * hist[i];
      assert combined[..i + 1] == combined[..i] + [codes[i].length];
      i := i + 1;
    }
    while i < maxLl + 1
      invariant 257 <= i <= maxLl + 1 && combined[..i] == llens[..i] && hist[..] == h
      invariant size == SymbolBits(llens, h, i) && fixedSize == 3 + SymbolBits(slens, h, i)
    {
      SymbolNext(llens, h, i);
      SymbolNext(slens, h, i);
      combined[i] := codes[i].length;
      size := size + (codes[i].length + LenExtraBits(i)) * hist[i];
      fixedSize := fixedSize + (fixedCodes[i].length + LenExtraBits(i)) * hist[i];
      assert combined[..i + 1] == combined[..i] + [codes[i].length];
      i := i + 1;
    }
  }

  lemma SymbolNone(llens: seq<nat>, f: seq<nat>)
    requires |llens| >= 286 && |f| >= 286
    ensures SymbolBits(llens, f, 0) == 0
  {}

  lemma SymbolNext(llens: seq<nat>, f: seq<nat>, i: nat)
    requires |llens| >= 286 && |f| >= 286 && i < 286
    ensures SymbolBits(llens, f, i + 1) == SymbolBits(llens, f, i) + (llens[i] + LenExtraBits(i)) * f[i]
  {
    hide LenExtraBits;
  }

  lemma DistNone(dlens: seq<nat>, h: seq<nat>)
    requires |dlens| == 30 <= |h|
    ensures DistBits(dlens, h, 0) == 0
  {}

  lemma DistNext(dlens: seq<nat>, h: seq<nat>, i: nat)
    requires |dlens| == 30 <= |h| && i < 30
    ensures DistBits(dlens, h, i + 1) == DistBits(dlens, h, i) + (dlens[i] + DistExtraBits(i)) * h[i]
  {
    hide DistExtraBits;
  }

  lemma NoExtra(i: nat)
    requires i <= 256
    ensures LenExtraBits(i) == 0
  {}

  method MeasureDist(codes: array<HuffCode>, fixedCodes: seq<HuffCode>, hist: array<nat>, maxD: nat, at: nat, combined: array<nat>,
                     ghost dlens: seq<nat>, ghost slens: seq<nat>)
    returns (size: nat, fixedSize: nat)
    requires maxD < 30 && codes.Length >= 30 && |fixedCodes| >= 30 && hist.Length == 30 && at + 30 <= combined.Length && combined != hist
    requires |dlens| == |slens| == 30
    requires (forall s :: 0 <= s < 30 ==> codes[s].length == dlens[s]) && forall s :: 0 <= s < 30 ==> fixedCodes[s].length == slens[s]
    modifies combined
    ensures size == DistBits(dlens, hist[..], maxD + 1) && fixedSize == DistBits(slens, hist[..], maxD + 1)
    ensures combined[..at] == old(combined[..at]) && combined[at..at + maxD + 1] == dlens[..maxD + 1]
  {
    hide DistExtraBits, DistBits;
    ghost var h := hist[..];
    DistNone(dlens, h);
    DistNone(slens, h);
    size, fixedSize := 0, 0;
    var i := 0;
    while i < maxD + 1
      invariant 0 <= i <= maxD + 1 && combined[..at] == old(combined[..at]) && combined[at..at + i] == dlens[..i] && hist[..] == h
      invariant size == DistBits(dlens, h, i) && fixedSize == DistBits(slens, h, i)
    {
      DistNext(dlens, h, i);
      DistNext(slens, h, i);
      combined[i + at] := codes[i].length;
      size := size + (codes[i].length + DistExtraBits(i)) * hist[i];
      fixedSize := fixedSize + (fixedCodes[i].length + DistExtraBits(i)) * hist[i];
      assert combined[at..at + i + 1] == combined[at..at + i] + [codes[i].length];
      i := i + 1;
    }
  }

  /** Symbols behind the last one with a code do not occur, and cost nothing under any code. */
  lemma {:induction false} SymbolTail(lens: seq<nat>, f: seq<nat>, m: nat, n: nat)
    requires |lens| >= 286 && m <= n <= 286 <= |f| && forall s :: m <= s < n ==> f[s] == 0
    ensures SymbolBits(lens, f, n) == SymbolBits(lens, f, m)
    decreases n
  {
    if m < n { SymbolTail(lens, f, m, n - 1); }
  }

  lemma {:induction false} DistTail(lens: seq<nat>, h: seq<nat>, m: nat, n: nat)
    requires |lens| == 30 <= |h| && m <= n <= 30 && forall s :: m <= s < n ==> h[s] == 0
    ensures DistBits(lens, h, n) == DistBits(lens, h, m)
    decreases n
  {
    if m < n { DistTail(lens, h, m, n - 1); }
  }

  lemma {:induction false} BehindLast(lens: seq<nat>, n: nat)
    requires n <= |lens|
    ensures forall s :: LastUsed(lens, n) < s < n ==> lens[s] == 0
  {
    if n > 0 && lens[n - 1] == 0 { BehindLast(lens, n - 1); }
  }

  /** The header gives exactly the lengths of the codes; those behind the lists are 0. */
  ghost predicate DynamicBlock(c: Codes, hdr: seq<bool>, final: bool, hlit: nat, hdist: nat) {
    |c.llens| == 286 && |c.dlens| == 30 && hlit < 30 && hdist < 30
    && ParsesTo(hdr, final, hlit, hdist, Combined(c.llens, c.dlens, hlit + 256, hdist))
    && (forall s :: hlit + 256 < s < 286 ==> c.llens[s] == 0) && forall t :: hdist < t < 30 ==> c.dlens[t] == 0
  }

  /** Folds the counts, and makes sure that the end of the block is counted. */
  method FoldCounts(llHist: array<nat>, ghost rs: seq<Record>) returns (ghost f: seq<nat>)
    requires llHist.Length == 513 && llHist[..] == LLHist(rs)
    modifies llHist
    ensures f == llHist[..] && forall s: nat :: s <= 285 && s != 256 ==> f[s] == Folded(LLHist(rs), s)
    ensures f[256] == if LLCount(rs, 256) == 0 then 1 else LLCount(rs, 256)
  {
    hide Sum, LLCount;
    FlattenLl(llHist);
    assert llHist[256] == Folded(LLHist(rs), 256) == LLHist(rs)[256];
    if llHist[256] == 0 {
      llHist[256] := 1;
    }
    f := llHist[..];
  }

  /** The fixed codes of section 3.2.6 of RFC 1951 give every symbol a code; only that is needed here. */
  ghost predicate FixedTables(fixed: Codes, ll: seq<HuffCode>, d: seq<HuffCode>) {
    |ll| == 513 && |d| == 31 && Plain(fixed, ll, d) && fixed.Valid()
    && (forall s: nat :: s <= 285 ==> fixed.llens[s] > 0 && ll[s].length == fixed.llens[s])
    && forall t: nat :: t < 30 ==> fixed.dlens[t] > 0 && d[t].length == fixed.dlens[t]
  }

  lemma FixedEncodes(fixed: Codes, ll: seq<HuffCode>, d: seq<HuffCode>, rs: seq<Record>)
    requires FixedTables(fixed, ll, d) && BlockRecords(rs)
    ensures fixed.Valid() && AllEncodable(fixed, rs) && |fixed.llens| >= 286 && |fixed.dlens| == 30
  {
    forall i | 0 <= i < |rs| ensures Encodable(fixed, rs[i]) { FixedEncodesOne(fixed, ll, d, rs[i]); }
  }

  lemma FixedEncodesOne(fixed: Codes, ll: seq<HuffCode>, d: seq<HuffCode>, r: Record)
    requires FixedTables(fixed, ll, d) && (r.Valid() || r == EOB)
    ensures fixed.Valid() && Encodable(fixed, r)
  {
    hide Plain, DistExtraBits, LenSymbol;
    ValidSizes(fixed);
  }

  lemma DynamicPlain(c: Codes, ll: seq<HuffCode>, d: seq<HuffCode>)
    requires |c.llens| == 286 && |c.dlens| == 30 && |c.lcount| == |c.dcount| == 16 && |ll| >= 286 && |d| >= 30
    requires Canonical.Lengths(c.llens, 15) && CountsMatch(c.llens, c.lcount) && Kraft(c.lcount)
    requires Canonical.Lengths(c.dlens, 15) && CountsMatch(c.dlens, c.dcount) && Kraft(c.dcount)
    requires forall s: nat :: s < 286 && c.llens[s] > 0 ==> Coded(ll[s], c.llens, c.lcount, false, s)
    requires forall t: nat :: t < 30 && c.dlens[t] > 0 ==> Coded(d[t], c.dlens, c.dcount, true, t)
    ensures c.Valid() && Plain(c, ll, d)
  {
    hide BitsOf, Word, Pow2, CountsMatch, Kraft, Canonical.Lengths;
    forall t: nat | t < 30 && c.dlens[t] > 0 ensures DistEntry(c, d[t], t) { ExtraBound(t); }
  }

  lemma ExtraBound(t: nat)
    requires t < 30
    ensures DistExtraBits(t) <= 13
  {}

  /** The sizes of the body under the new codes and under the fixed ones, the latter with its header. */
  ghost predicate Measured(c: Codes, fixed: Codes, f: seq<nat>, dh: seq<nat>, size: nat, fixedSize: nat) {
    |c.llens| >= 286 && |fixed.llens| >= 286 && |c.dlens| == |fixed.dlens| == 30 <= |dh| && |f| >= 286
    && size == SymbolBits(c.llens, f, 286) + DistBits(c.dlens, dh, 30)
    && fixedSize == 3 + SymbolBits(fixed.llens, f, 286) + DistBits(fixed.dlens, dh, 30)
  }

  /** The counts cost the same up to the last used symbol as in full. */
  lemma MeasuredInFull(c: Codes, fixed: Codes, f: seq<nat>, dh: seq<nat>, maxLl: nat, maxD: nat, size: nat, fixedSize: nat)
    requires |c.llens| == 286 && |fixed.llens| >= 286 && |c.dlens| == |fixed.dlens| == 30 == |dh| && |f| >= 286
    requires maxLl == LastUsed(c.llens, 286) < 286 && maxD == LastUsed(c.dlens, 30) < 30
    requires (forall s :: 0 <= s < 286 && f[s] != 0 ==> c.llens[s] > 0) && forall t :: 0 <= t < 30 && dh[t] != 0 ==> c.dlens[t] > 0
    requires size == SymbolBits(c.llens, f, maxLl + 1) + DistBits(c.dlens, dh, maxD + 1)
    requires fixedSize == 3 + SymbolBits(fixed.llens, f, maxLl + 1) + DistBits(fixed.dlens, dh, maxD + 1)
    ensures Measured(c, fixed, f, dh, size, fixedSize)
    ensures (forall s :: maxLl < s < 286 ==> c.llens[s] == 0) && forall t :: maxD < t < 30 ==> c.dlens[t] == 0
  {
    BehindLast(c.llens, 286);
    BehindLast(c.dlens, 30);
    SymbolTail(c.llens, f, maxLl + 1, 286);
    SymbolTail(fixed.llens, f, maxLl + 1, 286);
    DistTail(c.dlens, dh, maxD + 1, 30);
    DistTail(fixed.dlens, dh, maxD + 1, 30);
  }

  /** Codes for the counted symbols, the list of their lengths, and the sizes of the block body. */
  method CodesAndSizes(ll: array<HuffCode>, d: array<HuffCode>, llHist: array<nat>, dHist: array<nat>, fixedLl: seq<HuffCode>, fixedD: seq<HuffCode>,
                       ghost fixed: Codes, ghost rs: seq<Record>)
    returns (maxLl: nat, maxD: nat, lens: seq<nat>, size: nat, fixedSize: nat, ghost c: Codes, ghost f: seq<nat>)
    requires ll != d && ll.Length == 513 && d.Length == 31 && llHist != dHist && llHist.Length == 513 && dHist.Length == 30
    requires FixedTables(fixed, fixedLl, fixedD) && BlockRecords(rs) && llHist[..] == LLHist(rs) && dHist[..] == DHist(rs)
    modifies ll, d, llHist
    ensures c.Valid() && |c.llens| == 286 && |c.dlens| == 30 && Plain(c, ll[..], d[..]) && AllEncodable(c, rs)
    ensures 256 <= maxLl < 286 && 1 <= maxD < 30 && lens == Combined(c.llens, c.dlens, maxLl, maxD)
    ensures (forall s :: maxLl < s < 286 ==> c.llens[s] == 0) && forall t :: maxD < t < 30 ==> c.dlens[t] == 0
    ensures Measured(c, fixed, f, DHist(rs), size, fixedSize)
    ensures LLCount(rs, 256) > 0 ==> forall s: nat :: s <= 285 ==> f[s] == Folded(LLHist(rs), s)
    ensures LLCount(rs, 256) > 0 && Light(FoldedHist(rs)) && Light(DHist(rs)) && Canonical.Lengths(c.llens, 14) && Canonical.Lengths(c.dlens, 14) ==>
              Shortest(c, rs)
  {
    hide *;
    FixedFacts(fixed, fixedLl, fixedD);
    f := FoldCounts(llHist, rs);
    FoldedAll(f, rs);
    ghost var llens, lcount, dlens, dcount;
    maxLl, llens, lcount := HuffmanCodes(llHist[..286], ll, 286, false);
    ghost var made := ll[..];
    maxD, dlens, dcount := HuffmanCodes(dHist[..30], d, 30, true);
    assert ll[..] == made;
    c := Codes(llens, lcount, dlens, dcount);
    LastUsedIs(llens, 286, 256);
    assert maxLl >= 256;
    assert maxD != 0;
    DynamicPlain(c, ll[..], d[..]);
    NowCovers(c, f, DHist(rs));
    CoveredEncodable(c, rs, f);
    LengthsAt(llens, ll[..286]);
    LengthsAt(dlens, d[..30]);
    var combined := new nat[316];
    size, fixedSize := MeasureLl(ll, fixedLl, llHist, maxLl, combined, llens, fixed.llens);
    var more, fixedMore := MeasureDist(d, fixedD, dHist, maxD, maxLl + 1, combined, dlens, fixed.dlens);
    size := size + more;
    fixedSize := fixedSize + fixedMore;
    MeasuredInFull(c, fixed, f, dHist[..], maxLl, maxD, size, fixedSize);
    lens := combined[..maxLl + maxD + 2];
    assert lens == combined[..maxLl + 1] + combined[maxLl + 1..maxLl + 1 + maxD + 1];
    CombinedIs(llens, dlens, maxLl, maxD);
    if LLCount(rs, 256) > 0 && Light(FoldedHist(rs)) && Light(DHist(rs)) && Canonical.Lengths(c.llens, 14) && Canonical.Lengths(c.dlens, 14) {
      IsFoldedHist(f, rs);
      DistHist(DHist(rs));
      FewestIsShortest(c, rs);
    }
  }

  lemma IsFoldedHist(f: seq<nat>, rs: seq<Record>)
    requires |f| == 513 && forall s: nat :: s <= 285 ==> f[s] == Folded(LLHist(rs), s)
    ensures f[..286] == FoldedHist(rs)
  {
    hide Folded;
  }

  lemma DistHist(d: seq<nat>)
    requires |d| == 30
    ensures d[..30] == d
  {}

  lemma CombinedIs(llens: seq<nat>, dlens: seq<nat>, maxLl: nat, maxD: nat)
    requires maxLl < |llens| && maxD < |dlens|
    ensures Combined(llens, dlens, maxLl, maxD) == llens[..maxLl + 1] + dlens[..maxD + 1]
  {}

  lemma LengthsAt(lens: seq<nat>, codes: seq<HuffCode>)
    requires lens == LengthsOf(codes)
    ensures |lens| == |codes| && forall s :: 0 <= s < |lens| ==> codes[s].length == lens[s]
  {}

  lemma FixedFacts(fixed: Codes, ll: seq<HuffCode>, d: seq<HuffCode>)
    requires FixedTables(fixed, ll, d)
    ensures |ll| == 513 && |d| == 31 && |fixed.llens| >= 286 && |fixed.dlens| == 30 && Plain(fixed, ll, d) && fixed.Valid()
    ensures (forall s :: 0 <= s < 286 ==> ll[s].length == fixed.llens[s]) && forall t :: 0 <= t < 30 ==> d[t].length == fixed.dlens[t]
  {}

  lemma FoldedAll(f: seq<nat>, rs: seq<Record>)
    requires |f| == 513 && (forall s: nat :: s <= 285 && s != 256 ==> f[s] == Folded(LLHist(rs), s))
    requires f[256] == if LLCount(rs, 256) == 0 then 1 else LLCount(rs, 256)
    ensures LLCount(rs, 256) > 0 ==> forall s: nat :: s <= 285 ==> f[s] == Folded(LLHist(rs), s)
    ensures f[256] >= LLCount(rs, 256) && f[256] > 0
  {
    hide Sum, LLCount;
  }

  lemma NowCovers(c: Codes, f: seq<nat>, dh: seq<nat>)
    requires c.Valid() && |c.llens| == 286 && |c.dlens| == 30 == |dh| && |f| >= 286
    requires (forall s :: 0 <= s < 286 && f[s] != 0 ==> c.llens[s] > 0) && forall t :: 0 <= t < 30 && dh[t] != 0 ==> c.dlens[t] > 0
    ensures Covers(c, f, dh)
  {}

  lemma ListBounds(llens: seq<nat>, dlens: seq<nat>, maxLl: nat, maxD: nat, c: Codes)
    requires c.Valid() && c.llens == llens && c.dlens == dlens && |llens| == 286 && |dlens| == 30 && maxLl < 286 && maxD < 30
    ensures forall i :: 0 <= i < maxLl + maxD + 2 ==> Combined(llens, dlens, maxLl, maxD)[i] < 16
  {}

  /** The size of the block: body and header, and for a dynamic header also the bits before it in the buffer. */
  lemma SizeIs(c: Codes, fixed: Codes, rs: seq<Record>, f: seq<nat>, size: nat, fixedSize: nat)
    requires c.Valid() && fixed.Valid() && AllEncodable(c, rs) && AllEncodable(fixed, rs)
    requires Measured(c, fixed, f, DHist(rs), size, fixedSize) && forall s: nat :: s <= 285 ==> f[s] == Folded(LLHist(rs), s)
    ensures size == |RecordsBits(c, rs)| && fixedSize == 3 + |RecordsBits(fixed, rs)|
  {
    hide Codes.Valid, SymbolBits, DistBits, Folded, RecordsBits, AllEncodable;
    FoldedExactCost(c, rs, f);
    FoldedExactCost(fixed, rs, f);
  }

  lemma MeasuredParts(c: Codes, fixed: Codes, f: seq<nat>, dh: seq<nat>, size: nat, fixedSize: nat)
    requires Measured(c, fixed, f, dh, size, fixedSize)
    ensures |f| >= 286
  {}

  method CopyTable(to: array<HuffCode>, from: seq<HuffCode>)
    requires to.Length == |from|
    modifies to
    ensures to[..] == from
  {
    var i := 0;
    while i < |from|
      invariant 0 <= i <= |from| && to[..i] == from[..i]
    {
      to[i] := from[i];
      assert to[..i + 1] == to[..i] + [from[i]];
      i := i + 1;
    }
  }

  /** Writes the header of a block with fixed codes, back where the bit buffer stood before. */
  method FixedHeader(bb: BitBuf2, outBuf: nat, bits: nat, bitCount: nat, final: bool, ghost stream0: seq<bool>)
    requires bb.outStart <= outBuf && outBuf + 8 <= bb.out.Length && bb.outEnd + 8 <= bb.out.Length && bitCount < 8 && bits < Pow2(bitCount)
    requires stream0 == bb.sent + ByteBits(bb.out[bb.outStart..outBuf]) + BitsOf(bits, bitCount)
    modifies bb`bits, bb`bitCount, bb`outBuf, bb.out
    ensures bb.Valid() && bb.bitCount < 8 && bb.Stream() == stream0 + BitsOf(if final then 3 else 2, 3) && bb.Settled()
  {
    hide *;
    bb.outBuf, bb.bits, bb.bitCount := outBuf, bits, bitCount;
    bb.StreamIs();
    Three(final);
    bb.WriteBits(Or(2, if final then 1 else 0), 3);
  }

  /** Goes back to where the bit buffer stood, and takes the fixed codes. */
  method UseFixed(bb: BitBuf2, ll: array<HuffCode>, d: array<HuffCode>, fixedLl: seq<HuffCode>, fixedD: seq<HuffCode>, outBuf: nat, bits: nat,
                  bitCount: nat, final: bool, ghost stream0: seq<bool>)
    requires ll != d && ll.Length == |fixedLl| && d.Length == |fixedD|
    requires bb.outStart <= outBuf && outBuf + 8 <= bb.out.Length && bb.outEnd + 8 <= bb.out.Length && bitCount < 8 && bits < Pow2(bitCount)
    requires stream0 == bb.sent + ByteBits(bb.out[..outBuf][bb.outStart..]) + BitsOf(bits, bitCount)
    modifies bb`bits, bb`bitCount, bb`outBuf, bb.out, ll, d
    ensures ll[..] == fixedLl && d[..] == fixedD
    ensures bb.Valid() && bb.bitCount < 8 && bb.Stream() == stream0 + BitsOf(if final then 3 else 2, 3) && bb.Settled()
  {
    hide *;
    CopyTable(ll, fixedLl);
    CopyTable(d, fixedD);
    assert bb.out[bb.outStart..outBuf] == bb.out[..outBuf][bb.outStart..];
    FixedHeader(bb, outBuf, bits, bitCount, final, stream0);
  }

  lemma Three(final: bool)
    ensures Or(2, if final then 1 else 0) == if final then 3 else 2
    ensures (if final then 3 else 2) < Pow2(3)
  {
    if final { assert Or(2, 1) == 2 * Or(1, 0) + 1 && Or(1, 0) == 2 * Or(0, 0) + 1; } else { assert Or(2, 0) == 2 * Or(1, 0) && Or(1, 0) == 2 * Or(0, 0) + 1; }
  }

  lemma FixedIsPlain(fixed: Codes, ll: seq<HuffCode>, d: seq<HuffCode>)
    requires FixedTables(fixed, ll, d)
    ensures |ll| == 513 && |d| == 31 && fixed.Valid() && Plain(fixed, ll, d)
  {}

  lemma IsDynamic(c: Codes, hdr: seq<bool>, final: bool, maxLl: nat, maxD: nat)
    requires |c.llens| == 286 && |c.dlens| == 30 && 256 <= maxLl < 286 && maxD < 30
    requires ParsesTo(hdr, final, maxLl - 256, maxD, Combined(c.llens, c.dlens, maxLl, maxD))
    requires (forall s :: maxLl < s < 286 ==> c.llens[s] == 0) && forall t :: maxD < t < 30 ==> c.dlens[t] == 0
    ensures DynamicBlock(c, hdr, final, maxLl - 256, maxD)
  {}

  /** Makes the code tables of a block from the counts of its records, and writes the block header. The result is the size of
      the block in bits. `own` are the codes made for these counts, and `made` is the header that announces them, which is made
      only if their body is shorter than the block with fixed codes. They are used exactly if they make the block shorter. */
  method CreateHufftablesIcf(bb: BitBuf2, ll: array<HuffCode>, d: array<HuffCode>, llHist: array<nat>, dHist: array<nat>, endOfBlock: bool,
                             fixedLl: seq<HuffCode>, fixedD: seq<HuffCode>, ghost fixed: Codes, ghost rs: seq<Record>)
    returns (size: nat, ghost c: Codes, ghost hdr: seq<bool>, ghost dynamic: bool, ghost hlit: nat, ghost hdist: nat, ghost own: Codes,
             ghost made: seq<bool>)
    requires ll != d && ll.Length == 513 && d.Length == 31 && llHist != dHist && llHist.Length == 513 && dHist.Length == 30
    requires FixedTables(fixed, fixedLl, fixedD) && BlockRecords(rs) && llHist[..] == LLHist(rs) && dHist[..] == DHist(rs)
    requires bb.Valid() && bb.bitCount < 8 && bb.outBuf + 296 <= bb.out.Length
    modifies bb`bits, bb`bitCount, bb`outBuf, bb.out, ll, d, llHist
    ensures bb.Valid() && bb.bitCount < 8 && bb.Stream() == old(bb.Stream()) + hdr && |hdr| <= 2286 && bb.Settled()
    ensures c.Valid() && Tables(c, ll[..], d[..]) && AllEncodable(c, rs) && fixed.Valid() && AllEncodable(fixed, rs)
    ensures if dynamic then DynamicBlock(c, hdr, endOfBlock, hlit, hdist) else c == fixed && hdr == BitsOf(if endOfBlock then 3 else 2, 3)
    ensures LLCount(rs, 256) > 0 ==>
              size == |hdr| + |RecordsBits(c, rs)| + (if dynamic then 8 * old(bb.outBuf - bb.outStart) + old(bb.bitCount) else 0)
    ensures own.Valid() && AllEncodable(own, rs) && (dynamic ==> c == own && hdr == made)
    ensures LLCount(rs, 256) > 0 ==>
              if |RecordsBits(own, rs)| < 3 + |RecordsBits(fixed, rs)| then DynamicBlock(own, made, endOfBlock, hlit, hdist) else made == []
    ensures LLCount(rs, 256) > 0 ==>
              (dynamic <==> |made| + 8 * old(bb.outBuf - bb.outStart) + old(bb.bitCount) + |RecordsBits(own, rs)| < 3 + |RecordsBits(fixed, rs)|)
    ensures LLCount(rs, 256) > 0 && Light(FoldedHist(rs)) && Light(DHist(rs)) && Canonical.Lengths(own.llens, 14) && Canonical.Lengths(own.dlens, 14) ==>
              Shortest(own, rs)
  {
    hide *;
    BufferWas(bb);
    FixedIsPlain(fixed, fixedLl, fixedD);
    FixedEncodes(fixed, fixedLl, fixedD, rs);
    var outBuf, bits, bitCount := bb.outBuf, bb.bits, bb.bitCount;
    ghost var stream0, out0 := bb.Stream(), bb.out[..outBuf];
    var maxLl, maxD, lens, fixedSize;
    ghost var f;
    maxLl, maxD, lens, size, fixedSize, c, f := CodesAndSizes(ll, d, llHist, dHist, fixedLl, fixedD, fixed, rs);
    MeasuredParts(c, fixed, f, DHist(rs), size, fixedSize);
    if LLCount(rs, 256) > 0 { SizeIs(c, fixed, rs, f, size, fixedSize); }
    ghost var ll0, d0 := ll[..], d[..];
    dynamic, hdr, hlit, hdist, own, made := false, [], 0, 0, c, [];
    BufferWas(bb);
    if fixedSize > size {
      ListBounds(c.llens, c.dlens, maxLl, maxD, c);
      var headerBits;
      headerBits, hdr := DynamicHeader(bb, lens, maxLl - 256, maxD, endOfBlock);
      IsDynamic(c, hdr, endOfBlock, maxLl, maxD);
      BufferWas(bb);
      dynamic, hlit, hdist, made := true, maxLl - 256, maxD, hdr;
      size := size + (8 * bb.BufferUsed() + bb.bitCount);
    }
    if fixedSize <= size {
      UseFixed(bb, ll, d, fixedLl, fixedD, outBuf, bits, bitCount, endOfBlock, stream0);
      ll0, d0, c, dynamic, hdr := fixedLl, fixedD, fixed, false, BitsOf(if endOfBlock then 3 else 2, 3);
      size := fixedSize;
    }
    ExpandHufftablesIcf(ll, d);
    ExpandedTables(c, ll0, d0, ll[..], d[..]);
  }

  lemma BufferWas(bb: BitBuf2)
    requires bb.Valid()
    ensures bb.outStart <= bb.outBuf <= bb.out.Length && bb.outEnd + 8 <= bb.out.Length && bb.bits < Pow2(bb.bitCount)
    ensures bb.Stream() == bb.sent + ByteBits(bb.out[bb.outStart..bb.outBuf]) + BitsOf(bb.bits, bb.bitCount)
    ensures bb.BufferUsed() == bb.outBuf - bb.outStart
  {}

  // -- from the match finders to a decodable block

  lemma {:induction false} NoEobCounted(rs: seq<Record>)
    requires AllValid(rs)
    ensures LLCount(rs, 256) == 0
  {
    if |rs| > 0 { NoEobCounted(rs[..|rs| - 1]); }
  }

  /** The counts a match finder leaves behind, with the end of the block counted once, are those of its records and the
      end-of-block record. */
  lemma CountsOfBlock(rs: seq<Record>, ll: seq<nat>, d: seq<nat>)
    requires AllValid(rs) && Counted(ll, d, Zeros(513), Zeros(30), rs)
    ensures |ll| == 513 && ll[256 := 1] == LLHist(rs + [EOB]) && d == DHist(rs + [EOB])
    ensures BlockRecords(rs + [EOB]) && LLCount(rs + [EOB], 256) == 1
  {
    NoEobCounted(rs);
    forall l: nat ensures LLCount(rs + [EOB], l) == LLCount(rs, l) + LLUses(EOB, l) && DCount(rs + [EOB], l) == DCount(rs, l) + DUses(EOB, l) {
      IcfCost.UsesMore(rs, EOB, l);
    }
    hide LLCount, DCount, Record.Valid;
    assert ll[256 := 1] == LLHist(rs + [EOB]);
  }
}
