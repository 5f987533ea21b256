/** Codes of least cost and the records of a block: no other codes write the records in fewer bits. */
module LeastBits {
  import opened Bits
  import opened Canonical
  import opened CodeLengths
  import opened HuffTree
  import opened Icf
  import opened IcfCost
  import opened IcfEncode
  import opened LZ77
  import opened Optimal
  import opened Weights

  // -- the Kraft sum by counts and by names

  lemma TakeOne(x: nat, p: nat)
    requires x >= 1
    ensures (x - 1) * p + p == x * p
  {}

  /** The Kraft sum of the counts is the sum of the shares of all names with a code. */
  lemma {:induction false} KraftShares(lens: seq<nat>, n: nat, count: seq<nat>, d: nat)
    requires n <= |lens| && d < |count| && forall l :: 1 <= l <= d ==> count[l] == Rank(lens, n, l)
    ensures Horner(count, d) == SumOf(Occurring(lens), Shares(lens, d), n)
    decreases n
  {
    hide Horner, Pow2;
    if n == 0 {
      HornerNothing(count, d);
    } else {
      var v := lens[n - 1];
      if 1 <= v <= d {
        var less := count[v := count[v] - 1];
        KraftShares(lens, n - 1, less, d);
        HornerSet(count, v, count[v] - 1, d);
        TakeOne(count[v], Pow2(d - v));
      } else {
        KraftShares(lens, n - 1, count, d);
      }
    }
  }

  lemma {:induction false} SumSubset(names: set<nat>, all: set<nat>, f: seq<nat>, m: nat)
    requires names <= all && m <= |f|
    ensures SumOf(names, f, m) <= SumOf(all, f, m)
  {
    if m > 0 { SumSubset(names, all, f, m - 1); }
  }

  /** Lengths that canonical codes can be given are those of a code. */
  lemma ValidCoded(lens: seq<nat>, count: seq<nat>, names: set<nat>)
    requires CountsMatch(lens, count) && Kraft(count) && Lengths(lens, 15) && names <= Occurring(lens)
    ensures Optimal.Coded(names, lens, 15)
  {
    hide Horner, SumOf, CountOf, Pow2;
    CountIsRank(lens, count);
    KraftShares(lens, |lens|, count, 15);
    SumSubset(names, Occurring(lens), Shares(lens, 15), |lens|);
  }

  lemma CountIsRank(lens: seq<nat>, count: seq<nat>)
    requires CountsMatch(lens, count)
    ensures |count| == 16 && forall l :: 1 <= l <= 15 ==> count[l] == Rank(lens, |lens|, l)
  {}

  /** Two names alone have one bit each. */
  lemma TwoNames(lens: seq<nat>, count: seq<nat>, x: nat, y: nat)
    requires CountsMatch(lens, count) && Horner(count, 15) == Pow2(15) && Lengths(lens, 15) && Occurring(lens) == {x, y} && x != y
    ensures x < |lens| && y < |lens| && lens[x] == lens[y] == 1
  {
    hide Horner, CountOf;
    CountIsRank(lens, count);
    KraftShares(lens, |lens|, count, 15);
    assert x in Occurring(lens) && y in Occurring(lens);
    SumTwo(Occurring(lens), Shares(lens, 15), x, y);
    assert Occurring(lens) - {x} - {y} == {};
    NoSum(Shares(lens, 15), |lens|);
    HalfShare(lens[x]);
    HalfShare(lens[y]);
  }

  lemma HalfShare(l: nat)
    requires 1 <= l <= 15
    ensures 2 * Share(l, 15) <= Pow2(15) && (2 * Share(l, 15) == Pow2(15) ==> l == 1)
  {
    Pow2Monotone(15 - l, 14);
    if l >= 2 { Pow2Monotone(15 - l, 13); }
    Pow2Values();
  }

  // -- fewest bits for a histogram

  /** All symbols that occur have a code. */
  ghost predicate Positive(hist: seq<nat>, lens: seq<nat>) { |hist| <= |lens| && forall s :: 0 <= s < |hist| && hist[s] > 0 ==> lens[s] > 0 }

  /** No code takes fewer bits for what occurs. */
  ghost predicate FewestBits(hist: seq<nat>, lens: seq<nat>) {
    forall other: seq<nat>, h: nat :: Positive(hist, other) && Optimal.Coded(Occurring(hist), other, h) ==>
                                        Cost(Occurring(hist), hist, lens) <= Cost(Occurring(hist), hist, other)
  }

  lemma CheapestFewest(hist: seq<nat>, lens: seq<nat>)
    requires |lens| == |hist| && Cheapest(Occurring(hist), hist, lens)
    ensures FewestBits(hist, lens)
  {
    hide Optimal.Coded, Cost;
    var names := Occurring(hist);
    forall other: seq<nat>, h: nat | Positive(hist, other) && Optimal.Coded(names, other, h) ensures Cost(names, hist, lens) <= Cost(names, hist, other) {
      var front := other[..|hist|];
      assert other == front + other[|hist|..];
      Extended(names, hist, front, other[|hist|..], h);
    }
  }

  lemma {:induction false} CostMore(names: set<nat>, wt: seq<nat>, l: seq<nat>, other: seq<nat>, m: nat)
    requires m <= |l| && m <= |other| && forall s :: s in names && s < m ==> l[s] <= other[s]
    ensures SumOf(names, Costs(wt, l), m) <= SumOf(names, Costs(wt, other), m)
  {
    if m > 0 {
      CostMore(names, wt, l, other, m - 1);
      if m - 1 in names && m - 1 < |wt| { Scaled(wt[m - 1], l[m - 1], other[m - 1]); }
    }
  }

  /** One bit is the least that a symbol can have. */
  lemma OnesFewest(hist: seq<nat>, lens: seq<nat>)
    requires |lens| == |hist| && forall s :: 0 <= s < |hist| && hist[s] > 0 ==> lens[s] == 1
    ensures FewestBits(hist, lens)
  {
    hide SumOf, Optimal.Coded;
    var names := Occurring(hist);
    forall other: seq<nat>, h: nat | Positive(hist, other) && Optimal.Coded(names, other, h) ensures Cost(names, hist, lens) <= Cost(names, hist, other) {
      CostMore(names, hist, lens, other, |lens|);
      SumBeyond(names, Costs(hist, other), |lens|, |other|);
    }
  }

  // -- the records of a block

  /** How often each literal, length or end-of-block symbol occurs. */
  ghost function FoldedHist(rs: seq<Record>): (f: seq<nat>)
    ensures |f| == 286 && forall s: nat :: s < 286 ==> f[s] == Folded(LLHist(rs), s)
  {
    seq(286, s requires 0 <= s < 286 => Folded(LLHist(rs), s))
  }

  function ExtraCost(f: seq<nat>, n: nat): nat
    requires n <= |f|
  {
    if n == 0 then 0 else ExtraCost(f, n - 1) + LenExtraBits(n - 1) * f[n - 1]
  }

  function DistExtra(f: seq<nat>, n: nat): nat
    requires n <= |f|
  {
    if n == 0 then 0 else DistExtra(f, n - 1) + DistExtraBits(n - 1) * f[n - 1]
  }

  lemma Both(a: nat, b: nat, c: nat)
    ensures (a + b) * c == c * a + b * c
  {}

  /** The bits of the symbols are the cost of their codes and the extra bits, which no code changes. */
  lemma {:induction false} SymbolCost(lens: seq<nat>, f: seq<nat>, n: nat)
    requires |lens| >= 286 == |f| && n <= 286
    ensures SymbolBits(lens, f, n) == SumOf(Occurring(f), Costs(f, lens), n) + ExtraCost(f, n)
  {
    hide LenExtraBits;
    if n > 0 {
      SymbolCost(lens, f, n - 1);
      Both(lens[n - 1], LenExtraBits(n - 1), f[n - 1]);
      if f[n - 1] == 0 { ZeroTimes(lens[n - 1]); }
    }
  }

  lemma ZeroTimes(x: nat)
    ensures 0 * x == 0
  {}

  lemma {:induction false} DistCost(lens: seq<nat>, f: seq<nat>, n: nat)
    requires |lens| == 30 == |f| && n <= 30
    ensures DistBits(lens, f, n) == SumOf(Occurring(f), Costs(f, lens), n) + DistExtra(f, n)
  {
    hide DistExtraBits;
    if n > 0 {
      DistCost(lens, f, n - 1);
      Both(lens[n - 1], DistExtraBits(n - 1), f[n - 1]);
      if f[n - 1] == 0 { ZeroTimes(lens[n - 1]); }
    }
  }

  // -- what occurs has a code

  lemma {:induction false} SumUses(h: seq<nat>, a: nat, b: nat) returns (l: nat)
    requires a <= b <= |h| && Sum(h, a, b) > 0
    ensures a <= l < b && h[l] > 0
    decreases b
  {
    if h[b - 1] > 0 { l := b - 1; } else { l := SumUses(h, a, b - 1); }
  }

  lemma {:induction false} LLUsed(rs: seq<Record>, l: nat) returns (i: nat)
    requires LLCount(rs, l) > 0
    ensures i < |rs| && LLUses(rs[i], l) > 0
    decreases |rs|
  {
    var n := |rs| - 1;
    if LLUses(rs[n], l) > 0 { i := n; } else { i := LLUsed(rs[..n], l); }
  }

  lemma {:induction false} DUsed(rs: seq<Record>, t: nat) returns (i: nat)
    requires DCount(rs, t) > 0
    ensures i < |rs| && DUses(rs[i], t) > 0
    decreases |rs|
  {
    var n := |rs| - 1;
    if DUses(rs[n], t) > 0 { i := n; } else { i := DUsed(rs[..n], t); }
  }

  lemma SymbolOf(s: nat, l: nat)
    requires 265 <= s <= 284 && SymStart(s) <= l < SymStart(s + 1) && l < 512
    ensures 265 <= l && LenSymbol(l) == s
  {
    if s < 269 { } else if s < 273 { } else if s < 277 { } else if s < 281 { } else { }
  }

  /** An index of the symbol is used. */
  lemma SymbolUsed(h: seq<nat>, s: nat) returns (l: nat)
    requires |h| == 513 && s <= 285 && Folded(h, s) > 0
    ensures l < 513 && h[l] > 0 && (if s <= 256 then l == s else l >= 257 && LenSymbol(l) == s)
  {
    hide Sum;
    if s < 265 {
      l := s;
    } else if s == 285 {
      l := 512;
    } else {
      SymStarts(s);
      l := SumUses(h, SymStart(s), if s == 284 then 512 else SymStart(s + 1));
      SymbolOf(s, l);
    }
  }

  lemma UsedEncodable(c: Codes, r: Record, l: nat)
    requires c.Valid() && Encodable(c, r) && LLUses(r, l) > 0 && l < 513
    ensures |c.llens| >= 286 && c.llens[if l <= 256 then l else LenSymbol(l)] > 0
  {
    hide LenSymbol;
  }

  lemma UsedDist(c: Codes, r: Record, t: nat)
    requires c.Valid() && Encodable(c, r) && DUses(r, t) > 0 && t < 30
    ensures |c.dlens| == 30 && c.dlens[t] > 0
  {}

  /** Codes that can write the records have a code for every symbol that occurs. */
  lemma EncodablePositive(c: Codes, rs: seq<Record>)
    requires c.Valid() && AllEncodable(c, rs)
    ensures Positive(FoldedHist(rs), c.llens) && Positive(DHist(rs), c.dlens)
  {
    hide Codes.Valid, Encodable, Folded, LLCount, DCount;
    ValidSizes(c);
    var f, d := FoldedHist(rs), DHist(rs);
    forall s | 0 <= s < 286 && f[s] > 0 ensures c.llens[s] > 0 {
      var l := SymbolUsed(LLHist(rs), s);
      var i := LLUsed(rs, l);
      UsedEncodable(c, rs[i], l);
    }
    forall t | 0 <= t < 30 && d[t] > 0 ensures c.dlens[t] > 0 {
      var i := DUsed(rs, t);
      UsedDist(c, rs[i], t);
    }
  }

  lemma ValidKraft(c: Codes, f: seq<nat>, d: seq<nat>)
    requires c.Valid() && Positive(f, c.llens) && Positive(d, c.dlens)
    ensures Optimal.Coded(Occurring(f), c.llens, 15) && Optimal.Coded(Occurring(d), c.dlens, 15)
  {
    hide CountsMatch, Kraft, Optimal.Coded;
    ValidCoded(c.llens, c.lcount, Occurring(f));
    ValidCoded(c.dlens, c.dcount, Occurring(d));
  }

  /** The bits of the records: what the codes cost, and the extra bits. */
  lemma BodyCost(c: Codes, rs: seq<Record>)
    requires c.Valid() && AllEncodable(c, rs)
    ensures |RecordsBits(c, rs)| == Cost(Occurring(FoldedHist(rs)), FoldedHist(rs), c.llens) + ExtraCost(FoldedHist(rs), 286)
            + Cost(Occurring(DHist(rs)), DHist(rs), c.dlens) + DistExtra(DHist(rs), 30)
  {
    hide Codes.Valid, SumOf, SymbolBits, DistBits, RecordsBits, ExtraCost, DistExtra, Folded, AllEncodable;
    var f, d := FoldedHist(rs), DHist(rs);
    FoldedExactCost(c, rs, f);
    SymbolCost(c.llens, f, 286);
    SumBeyond(Occurring(f), Costs(f, c.llens), 286, |c.llens|);
    DistCost(c.dlens, d, 30);
  }

  /** No codes write the records in fewer bits. */
  ghost predicate Shortest(c: Codes, rs: seq<Record>)
    requires c.Valid() && AllEncodable(c, rs)
  {
    forall other: Codes :: other.Valid() && AllEncodable(other, rs) ==> |RecordsBits(c, rs)| <= |RecordsBits(other, rs)|
  }

  lemma FewestIsShortest(c: Codes, rs: seq<Record>)
    requires c.Valid() && AllEncodable(c, rs) && FewestBits(FoldedHist(rs), c.llens) && FewestBits(DHist(rs), c.dlens)
    ensures Shortest(c, rs)
  {
    hide Codes.Valid, AllEncodable, RecordsBits, Cost, Optimal.Coded, ExtraCost, DistExtra, Positive;
    forall other: Codes | other.Valid() && AllEncodable(other, rs) ensures |RecordsBits(c, rs)| <= |RecordsBits(other, rs)| {
      EncodablePositive(other, rs);
      ValidKraft(other, FoldedHist(rs), DHist(rs));
      BodyCost(c, rs);
      BodyCost(other, rs);
    }
  }
}
