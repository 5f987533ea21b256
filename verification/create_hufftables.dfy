/** The tables of a static Huffman code, made from a histogram of sample data, with the block header that goes with them. */
module CreateHufftables {
  import opened Bits
  import opened BitStream
  import opened LZ77
  import opened Canonical
  import opened CodeLengths
  import opened Dyadic
  import opened HuffTree
  import opened Optimal
  import opened Header
  import opened IcfEncode
  import opened Hufftables

  /** All symbols have codes of at most `max` bits, which together are complete. */
  ghost predicate CompleteCode(lens: seq<nat>, count: seq<nat>, max: nat) {
    |count| == 16 && CountsMatch(lens, count) && Horner(count, 15) == Pow2(15) && forall s :: 0 <= s < |lens| ==> 1 <= lens[s] <= max
  }

  ghost predicate AllCoded(codes: seq<HuffCode>, lens: seq<nat>, count: seq<nat>)
    requires |count| == 16 && |lens| == |codes| && forall s :: 0 <= s < |lens| ==> 1 <= lens[s] <= 15
  {
    forall s: nat :: s < |lens| ==> WordAt(codes[s], lens, count, s)
  }

  ghost predicate WordAt(e: HuffCode, lens: seq<nat>, count: seq<nat>, s: nat)
    requires s < |lens| && 1 <= lens[s] <= 15 && |count| == 16
  {
    e.length == lens[s] && e.code < Pow2(e.length) && BitsOf(e.code, e.length) == Word(lens, count, s)
  }

  ghost function AllSymbols(n: nat): (names: set<nat>)
    ensures forall s :: s in names <==> 0 <= s < n
  {
    if n == 0 then {} else AllSymbols(n - 1) + {n - 1}
  }

  /** Where the frequencies call for lengths that are not too long, these are the lengths. */
  ghost predicate AsForced(hist: seq<nat>, max: nat, lens: seq<nat>) {
    forall want, total :: Forced(hist, want, total) && Canonical.Lengths(want, max) ==> lens == want
  }

  lemma CheapIsForced(hist: seq<nat>, max: nat, lens: seq<nat>)
    requires CheapIfShort(AllSymbols(|hist|), hist, max, lens) && |lens| == |hist|
    ensures AsForced(hist, max, lens)
  {
    hide Forced, Minimal, Coded;
    var names := AllSymbols(|hist|);
    var free: seq<nat> :| Free(names, hist, max, lens, free);
    var h: nat :| Coded(names, free, h);
    forall want, total | Forced(hist, want, total) && Canonical.Lengths(want, max) ensures lens == want {
      MinimalIsForced(hist, want, total, names, free, h);
    }
  }

  lemma AllCheap(hist: seq<nat>, max: nat, lens: seq<nat>, free: seq<nat>, symbols: set<nat>)
    requires Cheapest(symbols, AtLeast(hist, 0), free) && |free| == |lens| == |hist| <= 859 && max >= 1
    requires Canonical.Lengths(free, max) || Canonical.Lengths(lens, max - 1) ==> lens == free
    requires forall s :: s in symbols <==> 0 <= s < |hist|
    ensures CheapIfShort(AllSymbols(|hist|), hist, max, lens) && AsForced(hist, max, lens)
  {
    hide Cheapest, CheapIfShort, AsForced, Canonical.Lengths;
    assert symbols == AllSymbols(|hist|);
    PaddedCheap(symbols, hist, 0, max, lens, free);
    CheapIsForced(hist, max, lens);
  }

  /** A complete code for all symbols, whether they occur or not. */
  method CompleteCodes(hist: seq<nat>, codes: array<HuffCode>, codesCount: nat, max: nat) returns (maxSym: nat, ghost lens: seq<nat>, ghost count: seq<nat>)
    requires 2 <= |hist| == codes.Length <= 286 && codesCount <= codes.Length && 1 <= max <= 15 && |hist| <= Pow2(max)
    modifies codes
    ensures |lens| == |hist| && CompleteCode(lens, count, max) && lens == LengthsOf(codes[..]) && maxSym == |hist| - 1
    ensures |count| == 16 && (forall s :: 0 <= s < |lens| ==> 1 <= lens[s] <= 15) && AllCoded(codes[..], lens, count)
    ensures Light(hist) ==> CheapIfShort(AllSymbols(|hist|), hist, max, lens) && AsForced(hist, max, lens)
  {
    hide *;
    var heap, child, tally, blCount := new nat[859], new nat[859], new nat[859], new nat[16];
    var depth := new nat[859](_ => 0);
    var heapSize;
    ghost var symbols;
    heapSize, symbols := InitHeapComplete(heap, hist);
    ghost var free := GenHuffCodeLens(heap, child, depth, tally, heapSize, blCount, codes, codesCount, max, symbols, codes.Length, AtLeast(hist, 0));
    assert codes[..codes.Length] == codes[..];
    ghost var was := codes[..];
    lens, count := LengthsOf(was), FullCounts(blCount[..], max);
    LengthsSize(was, lens);
    if Light(hist) { AllCheap(hist, max, lens, free, symbols); }
    GoodParts(lens, symbols, blCount[..], max);
    GoodIsCanonical(lens, symbols, blCount[..], max);
    AllPositive(lens, symbols, max);
    maxSym := SetHuffCodes(codes, codes.Length, blCount[..], count, max);
    assert codes[..codes.Length] == codes[..];
    LastOfAll(lens);
    AreWords(was, codes[..], lens, count, |hist|);
    IsComplete(lens, count, max);
  }

  lemma LengthsSize(codes: seq<HuffCode>, lens: seq<nat>)
    requires lens == LengthsOf(codes)
    ensures |lens| == |codes|
  {}

  lemma AllPositive(lens: seq<nat>, symbols: set<nat>, max: nat)
    requires Canonical.Lengths(lens, max) && (forall s :: 0 <= s < |lens| ==> (lens[s] != 0 <==> s in symbols)) && forall s :: 0 <= s < |lens| ==> s in symbols
    ensures forall s :: 0 <= s < |lens| ==> 1 <= lens[s] <= max
  {}

  lemma LastOfAll(lens: seq<nat>)
    requires |lens| > 0 && lens[|lens| - 1] != 0
    ensures LastUsed(lens, |lens|) == |lens| - 1
  {}

  lemma IsComplete(lens: seq<nat>, count: seq<nat>, max: nat)
    requires |count| == 16 && CountsMatch(lens, count) && Horner(count, 15) == Pow2(15) && forall s :: 0 <= s < |lens| ==> 1 <= lens[s] <= max
    ensures CompleteCode(lens, count, max)
  {}

  lemma AreWords(was: seq<HuffCode>, now: seq<HuffCode>, lens: seq<nat>, count: seq<nat>, n: nat)
    requires |was| == |now| == n == |lens| && lens == LengthsOf(was) && |count| == 16 && CodesSet(was, now, lens, count, false, n)
    requires forall s :: 0 <= s < n ==> 1 <= lens[s] <= 15
    ensures AllCoded(now, lens, count)
  {
    hide Word, BitsOf, Pow2;
    forall s: nat | s < n ensures WordAt(now[s], lens, count, s) { assert CodeSet(was, now, lens, count, false, s); }
  }

  lemma CompleteParts(lens: seq<nat>, count: seq<nat>, max: nat)
    requires CompleteCode(lens, count, max)
    ensures |count| == 16 && CountsMatch(lens, count) && Kraft(count) && (forall s :: 0 <= s < |lens| ==> 1 <= lens[s] <= max) && Canonical.Lengths(lens, max)
  {}

  lemma Alphabet()
    ensures Pow2(15) >= 286 && Pow2(13) >= 286 && Pow2(12) >= 30
  {
    Pow2Values();
    Pow2Monotone(12, 13);
    Pow2Add(8, 4);
  }

  datatype CodeLen = CodeLen(code: nat, len: nat)

  /** The bits of a stored code. */
  ghost predicate Gives(v: CodeLen, bits: seq<bool>) { v.len == |bits| && v.code < Pow2(v.len) && BitsOf(v.code, v.len) == bits }

  /** The stored form of a fixed Huffman code. The distance table holds two entries, as by default. */
  class Tables {
    var distTable: seq<nat>
    var lenTable: seq<nat>
    var litTable: seq<nat>
    var litTableSizes: seq<nat>
    var dcodes: seq<nat>
    var dcodesSizes: seq<nat>
    var deflateHdr: seq<Byte>
    var deflateHdrCount: nat
    var deflateHdrExtraBits: nat

    predicate Sizes()
      reads `distTable, `lenTable, `litTable, `litTableSizes, `dcodes, `dcodesSizes
    {
      |distTable| == 2 && |lenTable| == 256 && |litTable| == |litTableSizes| == 257 && |dcodes| == |dcodesSizes| == 30
    }

    function GetLitCode(lit: nat): CodeLen
      requires Sizes() && lit <= 256
      reads `distTable, `lenTable, `litTable, `litTableSizes, `dcodes, `dcodesSizes
    {
      CodeLen(litTable[lit], litTableSizes[lit])
    }

    function GetLenCode(length: nat): CodeLen
      requires Sizes() && 3 <= length <= 258
      reads `distTable, `lenTable, `litTable, `litTableSizes, `dcodes, `dcodesSizes
    {
      CodeLen(lenTable[length - 3] / 32, lenTable[length - 3] % 32)
    }

    /** Distances behind the table take the code of their symbol and their extra bits. */
    function GetDistCode(dist: nat): CodeLen
      requires Sizes() && 1 <= dist <= 32768
      reads `distTable, `lenTable, `litTable, `litTableSizes, `dcodes, `dcodesSizes
    {
      if dist <= 2 then CodeLen(distTable[dist - 1] / 32, distTable[dist - 1] % 32)
      else if DistIcfCode(dist).code < 30 then
        CodeLen(Or(dcodes[DistIcfCode(dist).code], DistIcfCode(dist).extra * Pow2(dcodesSizes[DistIcfCode(dist).code])),
                dcodesSizes[DistIcfCode(dist).code] + DistExtraBits(DistIcfCode(dist).code))
      else CodeLen(0, 0)
    }

    /** Every literal, length and distance is given the code word of its symbol, with its extra bits. */
    ghost predicate Serves(c: Codes)
      reads `distTable, `lenTable, `litTable, `litTableSizes, `dcodes, `dcodesSizes
    {
      Sizes() && Complete(c)
      && (forall s: nat :: s <= 256 ==> Gives(GetLitCode(s), Word(c.llens, c.lcount, s)))
      && (forall len: nat :: 3 <= len <= 258 ==> Gives(GetLenCode(len), LengthBits(c, len)))
      && (forall dist: nat :: 1 <= dist <= 32768 ==> Gives(GetDistCode(dist), DistanceBits(c, dist)))
    }

    /** The header is that of a last block with these codes. */
    ghost predicate HeaderOf(c: Codes)
      reads this
    {
      |c.llens| == 286 && |c.dlens| == 30 && HeaderShape(deflateHdr, deflateHdrCount, deflateHdrExtraBits)
      && ParsesTo(ByteBits(deflateHdr)[..8 * deflateHdrCount + deflateHdrExtraBits], true, 29, 29, c.llens + c.dlens)
    }

    /** Makes all tables. Codes that could not be written together with a literal are made again, shorter. */
    method Create(litHist: seq<nat>, distHist: seq<nat>, maxDist: nat) returns (ghost c: Codes)
      requires |litHist| == 286 && |distHist| == 30 && maxDist <= 30
      modifies this
      ensures c.Valid() && Serves(c) && HeaderOf(c) && |c.llens| == 286 && |c.dlens| == 30
      ensures Fits(c.llens, c.dlens, 285) && Compelled(litHist, distHist, c)
    {
      hide *;
      var lit, dist := new HuffCode[286](_ => HuffCode(0, 0, 0)), new HuffCode[30](_ => HuffCode(0, 0, 0));
      var maxLit, maxD;
      maxLit, maxD, c := ChooseCodes(litHist, distHist, maxDist, lit, dist);
      FillTables(lit, dist, c);
      var hdr;
      hdr, deflateHdrCount, deflateHdrExtraBits := WriteHeader(lit, dist, maxLit, maxD, c);
      deflateHdr := hdr;
      HeaderIsThere(c);
    }

    lemma HeaderIsThere(c: Codes)
      requires |c.llens| == 286 && |c.dlens| == 30 && HeaderShape(deflateHdr, deflateHdrCount, deflateHdrExtraBits)
      requires ParsesTo(ByteBits(deflateHdr)[..8 * deflateHdrCount + deflateHdrExtraBits], true, 29, 29, c.llens + c.dlens)
      ensures HeaderOf(c)
    {}

    /** Stores the codes, packed where lengths and short distances are looked up. */
    method FillTables(lit: array<HuffCode>, dist: array<HuffCode>, ghost c: Codes)
      requires lit.Length == 286 && dist.Length == 30 && Complete(c) && AllCoded(lit[..], c.llens, c.lcount) && AllCoded(dist[..], c.dlens, c.dcount)
      modifies `distTable, `lenTable, `litTable, `litTableSizes, `dcodes, `dcodesSizes
      ensures Serves(c)
    {
      hide *;
      dcodes, dcodesSizes := CreateCodeTables(dist, 30);
      litTable, litTableSizes := CreateCodeTables(lit, 257);
      var lens, dists := new nat[256](_ => 0), new nat[2](_ => 0);
      CreatePackedLenTable(lens, lit[..]);
      ghost var packed := lens[..];
      CreatePackedDistTable(dists, 2, dist[..]);
      assert lens[..] == packed;
      lenTable, distTable := lens[..], dists[..];
      SizesAre();
      ServesAll(c, lit[..], dist[..]);
    }

    lemma SizesAre()
      requires |distTable| == 2 && |lenTable| == 256 && |litTable| == |litTableSizes| == 257 && |dcodes| == |dcodesSizes| == 30
      ensures Sizes()
    {}

    lemma ServesAll(c: Codes, lit: seq<HuffCode>, dist: seq<HuffCode>)
      requires Sizes() && Complete(c) && |lit| == 286 && |dist| == 30 && AllCoded(lit, c.llens, c.lcount) && AllCoded(dist, c.dlens, c.dcount)
      requires (forall s :: 0 <= s <= 256 ==> litTable[s] == lit[s].code && litTableSizes[s] == lit[s].length)
      requires (forall t :: 0 <= t < 30 ==> dcodes[t] == dist[t].code && dcodesSizes[t] == dist[t].length)
      requires (forall l: nat :: 257 <= l <= 512 ==> lenTable[l - 257] == PackedLen(lit, l)) && PackedDistTo(dist, distTable, 2)
      ensures Serves(c)
    {
      hide Word, Gives, LengthBits, DistanceBits, PackedLen, PackedDist, AllCoded;
      forall s: nat | s <= 256 ensures Gives(GetLitCode(s), Word(c.llens, c.lcount, s)) { GivesLit(c, lit, s); }
      forall len: nat | 3 <= len <= 258 ensures Gives(GetLenCode(len), LengthBits(c, len)) { GivesLen(c, lit, len); }
      forall d: nat | 1 <= d <= 32768 ensures Gives(GetDistCode(d), DistanceBits(c, d)) {
        if d <= 2 { GivesDist(c, dist, d); } else {
          DistanceBitsAre(c, d);
          GivesLongDist(c, dist, DistIcfCode(d).code, DistIcfCode(d).extra, DistExtraBits(DistIcfCode(d).code));
        }
      }
    }
  }

  /** All symbols have code words. */
  ghost predicate Complete(c: Codes) {
    |c.llens| == 286 && |c.dlens| == 30 && |c.lcount| == |c.dcount| == 16 && (forall s :: 0 <= s < 286 ==> 1 <= c.llens[s] <= 15)
    && forall t :: 0 <= t < 30 ==> 1 <= c.dlens[t] <= 15
  }

  /** What is written for a length, and for a distance. */
  ghost function LengthBits(c: Codes, len: nat): seq<bool>
    requires Complete(c) && 3 <= len <= 258
  {
    Word(c.llens, c.lcount, LenSymbol(len + 254)) + BitsOf(LenValue(len + 254), IndexExtra(len + 254))
  }

  ghost function DistanceBits(c: Codes, dist: nat): seq<bool>
    requires Complete(c) && 1 <= dist <= 32768
  {
    if DistIcfCode(dist).code < 30 then
      Word(c.dlens, c.dcount, DistIcfCode(dist).code) + BitsOf(DistIcfCode(dist).extra, DistExtraBits(DistIcfCode(dist).code))
    else []
  }

  lemma SentEmpty(bb: BitBuf2)
    requires bb.Valid() && bb.Stream() == [] && bb.outBuf == bb.outStart
    ensures bb.sent == []
  {
    assert bb.out[bb.outStart..bb.outBuf] == [];
  }

  lemma FlushedBits(bb: BitBuf2)
    requires bb.Valid() && bb.bitCount == 0 && bb.sent == []
    ensures bb.outStart <= bb.outBuf <= bb.out.Length && bb.Stream() == ByteBits(bb.out[bb.outStart..bb.outBuf])
  {}

  lemma LengthsOfAt(lens: seq<nat>, codes: seq<HuffCode>)
    requires lens == LengthsOf(codes)
    ensures |lens| == |codes| && forall s :: 0 <= s < |lens| ==> codes[s].length == lens[s]
  {}

  lemma FewerFit(llens: seq<nat>, dlens: seq<nat>)
    requires |llens| == 286 && |dlens| == 30 && Fits(llens, dlens, 286)
    ensures Fits(llens, dlens, 285)
  {}

  lemma IsValid(c: Codes, ltop: nat, dtop: nat)
    requires |c.llens| == 286 && |c.dlens| == 30 && ltop <= 15 && dtop <= 15 && CompleteCode(c.llens, c.lcount, ltop) && CompleteCode(c.dlens, c.dcount, dtop)
    ensures c.Valid() && Complete(c)
  {}

  /** Splits a code table into codes and lengths. */
  method CreateCodeTables(table: array<HuffCode>, n: nat) returns (codes: seq<nat>, sizes: seq<nat>)
    requires n <= table.Length
    ensures |codes| == |sizes| == n && forall i :: 0 <= i < n ==> codes[i] == table[i].code && sizes[i] == table[i].length
  {
    codes, sizes := [], [];
    var i := 0;
    while i < n
      invariant 0 <= i == |codes| == |sizes| <= n && forall k :: 0 <= k < i ==> codes[k] == table[k].code && sizes[k] == table[k].length
    {
      codes := codes + [table[i].code];
      sizes := sizes + [table[i].length];
      i := i + 1;
    }
  }

  lemma WordOf(codes: seq<HuffCode>, lens: seq<nat>, count: seq<nat>, s: nat)
    requires |count| == 16 && |lens| == |codes| && (forall k :: 0 <= k < |lens| ==> 1 <= lens[k] <= 15) && AllCoded(codes, lens, count) && s < |lens|
    ensures codes[s].length == lens[s] && codes[s].code < Pow2(lens[s]) && BitsOf(codes[s].code, lens[s]) == Word(lens, count, s)
  {
    assert WordAt(codes[s], lens, count, s);
  }

  lemma GivesLit(c: Codes, lit: seq<HuffCode>, s: nat)
    requires Complete(c) && |lit| == 286 && AllCoded(lit, c.llens, c.lcount) && s <= 256
    ensures Gives(CodeLen(lit[s].code, lit[s].length), Word(c.llens, c.lcount, s))
  {
    hide Word, AllCoded, BitsOf;
    WordOf(lit, c.llens, c.lcount, s);
  }

  lemma GivesLen(c: Codes, lit: seq<HuffCode>, len: nat)
    requires Complete(c) && |lit| == 286 && AllCoded(lit, c.llens, c.lcount) && 3 <= len <= 258
    ensures Gives(CodeLen(PackedLen(lit, len + 254) / 32, PackedLen(lit, len + 254) % 32), LengthBits(c, len))
  {
    hide Word, AllCoded, BitsOf, Pack, Pow2, LenSymbol, LenValue;
    var l := len + 254;
    var s := LenSymbol(l);
    WordOf(lit, c.llens, c.lcount, s);
    LengthRoundTrip(l);
    Unpacked(lit[s].code, lit[s].length, LenValue(l), IndexExtra(l));
  }

  lemma GivesDist(c: Codes, dist: seq<HuffCode>, d: nat)
    requires Complete(c) && |dist| == 30 && AllCoded(dist, c.dlens, c.dcount) && 1 <= d <= 32768
    ensures DistIcfCode(d).code < 30 && Gives(CodeLen(PackedDist(dist, d) / 32, PackedDist(dist, d) % 32), DistanceBits(c, d))
  {
    hide Word, AllCoded, BitsOf, Pack, Pow2, DistIcfCode, DistExtraBits, DistStart;
    DistRoundTrip(d);
    var s := DistIcfCode(d);
    WordOf(dist, c.dlens, c.dcount, s.code);
    FewExtra(s.code);
    Unpacked(dist[s.code].code, dist[s.code].length, s.extra, DistExtraBits(s.code));
  }

  lemma DistanceBitsAre(c: Codes, d: nat)
    requires Complete(c) && 1 <= d <= 32768
    ensures DistIcfCode(d).code < 30 && DistIcfCode(d).extra < Pow2(DistExtraBits(DistIcfCode(d).code))
    ensures DistanceBits(c, d) == Word(c.dlens, c.dcount, DistIcfCode(d).code) + BitsOf(DistIcfCode(d).extra, DistExtraBits(DistIcfCode(d).code))
  {
    hide Word, BitsOf, Pow2, DistIcfCode, DistExtraBits, DistStart;
    DistRoundTrip(d);
  }

  lemma GivesWithExtra(code: nat, length: nat, extra: nat, extraBits: nat)
    requires code < Pow2(length) && extra < Pow2(extraBits)
    ensures Gives(CodeLen(Or(code, extra * Pow2(length)), length + extraBits), BitsOf(code, length) + BitsOf(extra, extraBits))
  {
    hide *;
    OrDisjoint(code, length, extra);
    JoinedBits(code, length, extra, extraBits, length + extraBits, Or(code, extra * Pow2(length)));
    GivesBits(Or(code, extra * Pow2(length)), length + extraBits, BitsOf(code, length) + BitsOf(extra, extraBits));
  }

  lemma JoinedBits(code: nat, length: nat, extra: nat, extraBits: nat, n: nat, v: nat)
    requires code < Pow2(length) && extra < Pow2(extraBits) && n == length + extraBits && v == code + extra * Pow2(length)
    ensures v < Pow2(n) && BitsOf(v, n) == BitsOf(code, length) + BitsOf(extra, extraBits)
  {
    hide *;
    BitsOfConcat(code, length, extra, extraBits);
    SumBound(code, length, extra, extraBits);
  }

  lemma GivesBits(v: nat, n: nat, bits: seq<bool>)
    requires v < Pow2(n) && BitsOf(v, n) == bits
    ensures Gives(CodeLen(v, n), bits)
  {}

  lemma GivesLongDist(c: Codes, dist: seq<HuffCode>, code: nat, extra: nat, extraBits: nat)
    requires Complete(c) && |dist| == 30 && AllCoded(dist, c.dlens, c.dcount) && code < 30 && extra < Pow2(extraBits)
    ensures Gives(CodeLen(Or(dist[code].code, extra * Pow2(dist[code].length)), dist[code].length + extraBits),
                  Word(c.dlens, c.dcount, code) + BitsOf(extra, extraBits))
  {
    hide Word, AllCoded, BitsOf, Pow2, Or, Gives;
    WordOf(dist, c.dlens, c.dcount, code);
    GivesWithExtra(dist[code].code, dist[code].length, extra, extraBits);
  }

  lemma FewExtra(t: nat)
    requires t < 30
    ensures DistExtraBits(t) <= 13
  {}

  /** Where the histograms call for lengths that pass the check, these are the lengths. */
  ghost predicate Compelled(litHist: seq<nat>, distHist: seq<nat>, c: Codes) {
    |litHist| == 286 && |distHist| == 30
    && forall wl, wd, t, u :: Light(litHist) && Light(distHist) && Forced(litHist, wl, t) && Forced(distHist, wd, u) && Canonical.Lengths(wl, 15) && Canonical.Lengths(wd, 15) && Useable(wl, wd) ==>
                                c.llens == wl && c.dlens == wd
  }

  /** The first lengths are the final ones exactly if they pass the check. */
  lemma CompelledIs(litHist: seq<nat>, distHist: seq<nat>, llens: seq<nat>, dlens: seq<nat>, c: Codes)
    requires |litHist| == 286 == |llens| && |distHist| == 30 == |dlens| && (Light(litHist) ==> AsForced(litHist, 15, llens))
    requires (Light(distHist) ==> AsForced(distHist, 15, dlens)) && |distHist| == 30
    requires Useable(llens, dlens) ==> c.llens == llens && c.dlens == dlens
    ensures Compelled(litHist, distHist, c)
  {
    hide Forced, Light, Useable;
  }

  /** Codes of at most 15 bits, or, if they do not fit together, of at most 13 and 12. */
  method ChooseCodes(litHist: seq<nat>, distHist: seq<nat>, maxDist: nat, lit: array<HuffCode>, dist: array<HuffCode>)
    returns (maxLit: nat, maxD: nat, ghost c: Codes)
    requires |litHist| == 286 == lit.Length && |distHist| == 30 == dist.Length && maxDist <= 30 && lit != dist
    modifies lit, dist
    ensures maxLit == 285 && maxD == 29 && c.Valid() && Complete(c) && c.llens == LengthsOf(lit[..]) && c.dlens == LengthsOf(dist[..])
    ensures |c.llens| == 286 && |c.dlens| == 30 && AllCoded(lit[..], c.llens, c.lcount) && AllCoded(dist[..], c.dlens, c.dcount)
    ensures Fits(c.llens, c.dlens, 285) && Compelled(litHist, distHist, c)
  {
    hide *;
    Alphabet();
    ghost var llens, lcount, dlens, dcount;
    maxLit, maxD, llens, lcount, dlens, dcount := BothCodes(litHist, distHist, maxDist, lit, dist, 15, 15);
    var tooLong := AreHufftablesUseable(lit, dist, llens, dlens);
    UseableMeans(llens, dlens);
    c := Codes(llens, lcount, dlens, dcount);
    ghost var first, second := llens, dlens;
    if tooLong {
      maxLit, maxD, llens, lcount, dlens, dcount := BothCodes(litHist, distHist, maxDist, lit, dist, 13, 12);
      CompleteParts(llens, lcount, 13);
      CompleteParts(dlens, dcount, 12);
      SafeLengths(llens, dlens);
      FewerFit(llens, dlens);
      c := Codes(llens, lcount, dlens, dcount);
      IsValid(c, 13, 12);
    } else {
      IsValid(c, 15, 15);
    }
    CompelledIs(litHist, distHist, first, second, c);
  }

  method BothCodes(litHist: seq<nat>, distHist: seq<nat>, maxDist: nat, lit: array<HuffCode>, dist: array<HuffCode>, litMax: nat, distMax: nat)
    returns (maxLit: nat, maxD: nat, ghost llens: seq<nat>, ghost lcount: seq<nat>, ghost dlens: seq<nat>, ghost dcount: seq<nat>)
    requires |litHist| == 286 == lit.Length && |distHist| == 30 == dist.Length && maxDist <= 30 && lit != dist
    requires 1 <= litMax <= 15 && 1 <= distMax <= 15 && 286 <= Pow2(litMax) && 30 <= Pow2(distMax)
    modifies lit, dist
    ensures |llens| == 286 && CompleteCode(llens, lcount, litMax) && llens == LengthsOf(lit[..]) && maxLit == 285
    ensures |lcount| == 16 && (forall s :: 0 <= s < |llens| ==> 1 <= llens[s] <= 15) && AllCoded(lit[..], llens, lcount)
    ensures |dlens| == 30 && CompleteCode(dlens, dcount, distMax) && dlens == LengthsOf(dist[..]) && maxD == 29
    ensures |dcount| == 16 && (forall s :: 0 <= s < |dlens| ==> 1 <= dlens[s] <= 15) && AllCoded(dist[..], dlens, dcount)
    ensures Light(litHist) ==> AsForced(litHist, litMax, llens)
    ensures Light(distHist) ==> AsForced(distHist, distMax, dlens)
  {
    hide *;
    maxLit, llens, lcount := CompleteCodes(litHist, lit, 286, litMax);
    ghost var made := lit[..];
    maxD, dlens, dcount := CompleteCodes(distHist, dist, maxDist, distMax);
    assert lit[..] == made;
  }

  /** Lists the code lengths of literals and lengths, then those of distances. */
  method CombineLengths(lit: array<HuffCode>, dist: array<HuffCode>, hlit: nat, hdist: nat, ghost c: Codes) returns (lens: seq<nat>)
    requires lit.Length == 286 && dist.Length == 30 && hlit == 29 && hdist == 29
    requires LengthsOf(lit[..]) == c.llens && LengthsOf(dist[..]) == c.dlens
    ensures lens == c.llens + c.dlens
  {
    hide *;
    var combined := new nat[316](_ => 0);
    LengthsOfAt(c.llens, lit[..]);
    LengthsOfAt(c.dlens, dist[..]);
    var i := 0;
    while i < 257 + hlit
      invariant 0 <= i <= 286 && combined[..i] == c.llens[..i]
    {
      combined[i] := lit[i].length;
      assert combined[..i + 1] == combined[..i] + [lit[i].length];
      i := i + 1;
    }
    i := 0;
    while i < 1 + hdist
      invariant 0 <= i <= 30 && combined[..286] == c.llens[..286] && combined[286..286 + i] == c.dlens[..i]
    {
      combined[i + hlit + 257] := dist[i].length;
      assert combined[286..286 + i + 1] == combined[286..286 + i] + [dist[i].length];
      i := i + 1;
    }
    lens := combined[..316];
    assert lens == combined[..286] + combined[286..316];
  }

  /** Writes the header of a last block with the codes of the tables. */
  method WriteHeader(lit: array<HuffCode>, dist: array<HuffCode>, maxLit: nat, maxD: nat, ghost c: Codes)
    returns (hdr: seq<Byte>, count: nat, extraBits: nat)
    requires lit.Length == 286 && dist.Length == 30 && maxLit == 285 && maxD == 29 && Complete(c)
    requires LengthsOf(lit[..]) == c.llens && LengthsOf(dist[..]) == c.dlens
    ensures HeaderShape(hdr, count, extraBits) && ParsesTo(ByteBits(hdr)[..8 * count + extraBits], true, 29, 29, c.llens + c.dlens)
  {
    hide *;
    CompleteSizes(c);
    var lens := CombineLengths(lit, dist, maxLit - 256, maxD, c);
    var out := new Byte[328](_ => 0);
    var bb := new BitBuf2();
    bb.SetBuf(out, 0, 328);
    SentEmpty(bb);
    var bitCount;
    ghost var bits;
    bitCount, bits := DynamicHeader(bb, lens, maxLit - 256, maxD, true);
    HeaderSent(bb.Stream(), bits);
    bb.SettledAt();
    bb.BufferParts();
    BitsDivide(bitCount, bb.outBuf, bb.bitCount);
    count, extraBits := bb.outBuf, bb.bitCount;
    ghost var last := bb.bits;
    bb.Flush();
    hdr := out[..];
    FlushedBits(bb);
    FrontBits(bits, bb.Stream());
    BitsInFront(hdr, bb.outBuf, 8 * count + extraBits);
    HasShape(hdr, count, extraBits);
  }

  lemma BitsDivide(n: nat, bytes: nat, rest: nat)
    requires 8 * bytes + rest == n && rest < 8 && n <= 74 + 7 * 316
    ensures n / 8 == bytes && n % 8 == rest && bytes + 8 <= 328
  {}

  /** The bits of the bytes in front. */
  lemma BitsInFront(bytes: seq<Byte>, k: nat, n: nat)
    requires k <= |bytes| && n <= 8 * k
    ensures ByteBits(bytes)[..n] == ByteBits(bytes[0..k])[..n]
  {
    assert bytes == bytes[0..k] + bytes[k..];
    ByteBitsConcat(bytes[0..k], bytes[k..]);
  }

  lemma HasShape(hdr: seq<Byte>, count: nat, extraBits: nat)
    requires count < |hdr| && extraBits < 8 && hdr[count] < Pow2(extraBits)
    ensures HeaderShape(hdr, count, extraBits)
  {}

  lemma HeaderSent(stream: seq<bool>, bits: seq<bool>)
    requires stream == [] + bits
    ensures stream == bits
  {}

  lemma CompleteSizes(c: Codes)
    requires Complete(c)
    ensures |c.llens| == 286 && |c.dlens| == 30 && forall i :: 0 <= i < 316 ==> (c.llens + c.dlens)[i] < 16
  {}

  lemma FrontBits(bits: seq<bool>, stream: seq<bool>)
    requires bits <= stream
    ensures stream[..8 * (|bits| / 8) + |bits| % 8] == bits
  {}
}
