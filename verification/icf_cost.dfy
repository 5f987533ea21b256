/** The size of a block: folding the counts of all lengths into the counts of length symbols, and what the counts cost. */
module IcfCost {
  import opened Bits
  import opened BitStream
  import opened LZ77
  import opened Icf
  import opened Canonical
  import opened IcfEncode

  // -- folding

  /** The sum of h from a up to b. */
  function Sum(h: seq<nat>, a: nat, b: nat): nat
    requires b <= |h|
    decreases b
  {
    if b <= a then 0 else Sum(h, a, b - 1) + h[b - 1]
  }

  /** The first length index of a length symbol. */
  function SymStart(s: nat): nat {
    if s < 265 then s else if s < 269 then 265 + (s - 265) * 2 else if s < 273 then 273 + (s - 269) * 4
    else if s < 277 then 289 + (s - 273) * 8 else if s < 281 then 321 + (s - 277) * 16 else 385 + (s - 281) * 32
  }

  /** The count of a symbol: the counts of all its lengths. Length 258 has a symbol of its own. */
  function Folded(h: seq<nat>, s: nat): nat
    requires |h| == 513 && s <= 285
  {
    if s < 265 then h[s] else if s == 285 then h[512] else if s == 284 then Sum(h, 481, 512) else Sum(h, SymStart(s), SymStart(s + 1))
  }

  /** The count before the one of length 258 is taken out. */
  function Gathered(h: seq<nat>, s: nat): nat
    requires |h| == 513 && s <= 284
  {
    if s < 265 then h[s] else Sum(h, SymStart(s), SymStart(s + 1))
  }

  lemma SymStarts(s: nat)
    requires s <= 284
    ensures SymStart(s) <= SymStart(s + 1) <= 513 && s <= SymStart(s) && (s >= 265 ==> s < SymStart(s + 1))
    ensures 273 <= s ==> s + 16 <= SymStart(s)
  {}

  lemma SumSame(h: seq<nat>, g: seq<nat>, a: nat, b: nat)
    requires a <= b <= |h| == |g| && h[a..b] == g[a..b]
    ensures Sum(h, a, b) == Sum(g, a, b)
    decreases b
  {
    if a < b {
      assert h[a..b - 1] == h[a..b][..b - 1 - a] && g[a..b - 1] == g[a..b][..b - 1 - a];
      assert h[b - 1] == h[a..b][b - 1 - a] && g[b - 1] == g[a..b][b - 1 - a];
      SumSame(h, g, a, b - 1);
    }
  }

  lemma ShortSums(h: seq<nat>, a: nat)
    requires a + 4 <= |h|
    ensures Sum(h, a, a + 2) == h[a] + h[a + 1] && Sum(h, a, a + 4) == h[a] + h[a + 1] + h[a + 2] + h[a + 3]
  {
    assert Sum(h, a, a) == 0 && Sum(h, a, a + 1) == h[a];
    assert Sum(h, a, a + 3) == Sum(h, a, a + 2) + h[a + 2];
  }

  /** The counts below index i are gathered, the others as they were. */
  ghost predicate FoldedTo(was: seq<nat>, now: seq<nat>, i: nat) {
    |was| == |now| == 513 && i <= 285 && (forall s :: 0 <= s < i ==> now[s] == Gathered(was, s)) && forall s :: i <= s < 513 ==> now[s] == was[s]
  }

  lemma FoldOne(was: seq<nat>, before: seq<nat>, now: seq<nat>, i: nat)
    requires FoldedTo(was, before, i) && i <= 284 && |now| == 513 && now == before[i := now[i]] && now[i] == Gathered(was, i)
    ensures FoldedTo(was, now, i + 1)
  {
    hide Gathered;
  }

  /** Adds up `size` counts for each of four symbols. */
  method FoldGroup(hist: array<nat>, first: nat, size: nat, ghost was: seq<nat>)
    requires hist.Length == 513 && ((first == 273 && size == 8) || (first == 277 && size == 16) || (first == 281 && size == 32))
    requires FoldedTo(was, hist[..], first)
    modifies hist
    ensures FoldedTo(was, hist[..], first + 4)
  {
    hide Gathered, Sum;
    var i := first;
    var p := SymStart(first);
    while i < first + 4
      invariant first <= i <= first + 4 && p == SymStart(i) && FoldedTo(was, hist[..], i)
    {
      SymStarts(i);
      GroupWidth(i, size, first);
      SumNone(was, p);
      ghost var before := hist[..];
      var x := 0;
      var j := 0;
      while j < size
        invariant 0 <= j <= size && p == SymStart(i) + j && x == Sum(was, SymStart(i), p) && hist[..] == before
      {
        SumNext(was, SymStart(i), p);
        x := x + hist[p];
        p := p + 1;
        j := j + 1;
      }
      GatheredIs(was, i);
      hist[i] := x;
      FoldOne(was, before, hist[..], i);
      i := i + 1;
    }
  }

  lemma GroupWidth(i: nat, size: nat, first: nat)
    requires (first == 273 && size == 8) || (first == 277 && size == 16) || (first == 281 && size == 32)
    requires first <= i < first + 4
    ensures SymStart(i + 1) == SymStart(i) + size && SymStart(i) + size <= 513
  {}

  lemma SumNone(h: seq<nat>, a: nat)
    requires a <= |h|
    ensures Sum(h, a, a) == 0
  {}

  lemma SumNext(h: seq<nat>, a: nat, b: nat)
    requires a <= b < |h|
    ensures Sum(h, a, b + 1) == Sum(h, a, b) + h[b]
  {}

  lemma GatheredIs(h: seq<nat>, s: nat)
    requires |h| == 513 && 265 <= s <= 284
    ensures SymStart(s) <= SymStart(s + 1) <= 513 && Gathered(h, s) == Sum(h, SymStart(s), SymStart(s + 1))
  {
    SymStarts(s);
  }

  lemma GatherTwo(h: seq<nat>, s: nat)
    requires |h| == 513 && 265 <= s <= 268
    ensures SymStart(s) == 2 * s - 265 && Gathered(h, s) == h[2 * s - 265] + h[2 * s - 264]
  {
    ShortSums(h, 2 * s - 265);
  }

  lemma GatherFour(h: seq<nat>, s: nat)
    requires |h| == 513 && 269 <= s <= 272
    ensures Gathered(h, s) == h[4 * s - 803] + h[4 * s - 802] + h[4 * s - 801] + h[4 * s - 800]
  {
    ShortSums(h, 4 * s - 803);
  }

  lemma FoldStart(h: seq<nat>)
    requires |h| == 513
    ensures FoldedTo(h, h, 265)
  {}

  /** Stores the gathered count of one symbol. */
  method Store(s: array<nat>, i: nat, v: nat, ghost was: seq<nat>)
    requires s.Length == 513 && i <= 284 && FoldedTo(was, s[..], i) && v == Gathered(was, i)
    modifies s
    ensures FoldedTo(was, s[..], i + 1)
  {
    hide Gathered;
    ghost var before := s[..];
    s[i] := v;
    FoldOne(was, before, s[..], i);
  }

  lemma NotYet(was: seq<nat>, now: seq<nat>, i: nat)
    requires FoldedTo(was, now, i)
    ensures |was| == |now| == 513 && forall k :: i <= k < 513 ==> now[k] == was[k]
  {}

  /** The first symbols with extra bits: four with one, four with two. */
  method FoldShort(s: array<nat>)
    requires s.Length == 513
    modifies s
    ensures FoldedTo(old(s[..]), s[..], 273)
  {
    hide *;
    ghost var was := s[..];
    FoldStart(was);
    GatherTwo(was, 265);
    Store(s, 265, s[265] + s[266], was);
    NotYet(was, s[..], 266);
    GatherTwo(was, 266);
    Store(s, 266, s[267] + s[268], was);
    NotYet(was, s[..], 267);
    GatherTwo(was, 267);
    Store(s, 267, s[269] + s[270], was);
    NotYet(was, s[..], 268);
    GatherTwo(was, 268);
    Store(s, 268, s[271] + s[272], was);
    NotYet(was, s[..], 269);
    GatherFour(was, 269);
    Store(s, 269, s[273] + s[274] + s[275] + s[276], was);
    NotYet(was, s[..], 270);
    GatherFour(was, 270);
    Store(s, 270, s[277] + s[278] + s[279] + s[280], was);
    NotYet(was, s[..], 271);
    GatherFour(was, 271);
    Store(s, 271, s[281] + s[282] + s[283] + s[284], was);
    NotYet(was, s[..], 272);
    GatherFour(was, 272);
    Store(s, 272, s[285] + s[286] + s[287] + s[288], was);
  }

  /** Folds the counts of the 513 literal and length indices into those of the 286 symbols, in place. */
  method FlattenLl(hist: array<nat>)
    requires hist.Length == 513
    modifies hist
    ensures forall s :: 0 <= s <= 285 ==> hist[s] == Folded(old(hist[..]), s)
  {
    hide Sum, Gathered, Folded;
    ghost var was := hist[..];
    FoldShort(hist);
    FoldGroup(hist, 273, 8, was);
    FoldGroup(hist, 277, 16, was);
    FoldGroup(hist, 281, 32, was);
    LastFolded(was);
    hist[284] := hist[284] - hist[512];
    hist[285] := hist[512];
    forall s: nat | s <= 285 ensures hist[s] == Folded(was, s) { if s < 284 { FoldedIs(was, s); } }
  }

  lemma LastFolded(h: seq<nat>)
    requires |h| == 513
    ensures Gathered(h, 284) == Folded(h, 284) + h[512] && Folded(h, 285) == h[512]
  {
    SumNext(h, 481, 512);
  }

  lemma FoldedIs(h: seq<nat>, s: nat)
    requires |h| == 513 && s < 284
    ensures Folded(h, s) == Gathered(h, s)
  {}

  // -- cost

  /** The bits of one length index or literal. */
  function IndexCost(llens: seq<nat>, l: nat): nat
    requires |llens| >= 286 && l <= 512
  {
    if l <= 256 then llens[l] else llens[LenSymbol(l)] + IndexExtra(l)
  }

  /** The cost of the first n indices. */
  function IndexBits(llens: seq<nat>, h: seq<nat>, n: nat): nat
    requires |llens| >= 286 && n <= 513 == |h|
  {
    if n == 0 then 0 else IndexBits(llens, h, n - 1) + IndexCost(llens, n - 1) * h[n - 1]
  }

  /** The cost of the first n symbols, as the source adds it up. */
  function SymbolBits(llens: seq<nat>, f: seq<nat>, n: nat): nat
    requires |llens| >= 286 && n <= 286 <= |f|
  {
    if n == 0 then 0 else SymbolBits(llens, f, n - 1) + (llens[n - 1] + LenExtraBits(n - 1)) * f[n - 1]
  }

  function DistBits(dlens: seq<nat>, h: seq<nat>, n: nat): nat
    requires n <= 30 == |dlens| <= |h|
  {
    if n == 0 then 0 else DistBits(dlens, h, n - 1) + (dlens[n - 1] + DistExtraBits(n - 1)) * h[n - 1]
  }

  lemma {:induction false} IndexBitsSegment(llens: seq<nat>, h: seq<nat>, a: nat, b: nat, k: nat)
    requires |llens| >= 286 && a <= b <= 513 == |h| && forall l :: a <= l < b ==> IndexCost(llens, l) == k
    ensures IndexBits(llens, h, b) == IndexBits(llens, h, a) + k * Sum(h, a, b)
    decreases b
  {
    hide IndexCost;
    if a < b {
      IndexBitsSegment(llens, h, a, b - 1, k);
      SumNext(h, a, b - 1);
      Times(k, Sum(h, a, b - 1), h[b - 1]);
    } else {
      SumNone(h, a);
    }
  }

  lemma Times(k: nat, x: nat, y: nat)
    ensures k * (x + y) == k * x + k * y
  {}

  lemma SegmentCost(llens: seq<nat>, s: nat, l: nat)
    requires |llens| >= 286 && 257 <= s <= 284 && SymStart(s) <= l < SymStart(s + 1) && l < 512
    ensures 257 <= l && IndexCost(llens, l) == llens[s] + LenExtraBits(s)
  {
    if s < 265 { } else if s < 269 { } else if s < 273 { } else if s < 277 { } else if s < 281 { } else { }
  }

  /** Counted by index or by symbol, the cost is the same. */
  lemma {:induction false} FoldedCost(llens: seq<nat>, h: seq<nat>, f: seq<nat>, s: nat)
    requires |llens| >= 286 && |h| == 513 && |f| >= 286 && (forall k: nat :: k <= 285 ==> f[k] == Folded(h, k)) && s <= 284
    ensures SymStart(s) <= 513 && SymbolBits(llens, f, s) == IndexBits(llens, h, SymStart(s))
  {
    hide IndexBits, Sum, LenExtraBits;
    if s == 0 {
      NoIndexBits(llens, h);
    } else {
      FoldedCost(llens, h, f, s - 1);
      SymStarts(s - 1);
      SymbolSegment(llens, h, f, s - 1);
    }
  }

  lemma NoIndexBits(llens: seq<nat>, h: seq<nat>)
    requires |llens| >= 286 && |h| == 513
    ensures IndexBits(llens, h, 0) == 0
  {}

  lemma SymbolSegment(llens: seq<nat>, h: seq<nat>, f: seq<nat>, s: nat)
    requires |llens| >= 286 && |h| == 513 && |f| >= 286 && s < 284 && f[s] == Folded(h, s)
    ensures SymStart(s) <= SymStart(s + 1) <= 513
    ensures IndexBits(llens, h, SymStart(s + 1)) == IndexBits(llens, h, SymStart(s)) + (llens[s] + LenExtraBits(s)) * f[s]
  {
    SymStarts(s);
    hide Sum, IndexBits, LenExtraBits;
    if s <= 256 {
      LiteralCost(llens, h, s);
    } else {
      hide IndexCost;
      forall l | SymStart(s) <= l < SymStart(s + 1) ensures IndexCost(llens, l) == llens[s] + LenExtraBits(s) { SegmentCost(llens, s, l); }
      IndexBitsSegment(llens, h, SymStart(s), SymStart(s + 1), llens[s] + LenExtraBits(s));
      FoldedSum(h, s);
    }
  }

  lemma LiteralCost(llens: seq<nat>, h: seq<nat>, s: nat)
    requires |llens| >= 286 && |h| == 513 && s <= 256
    ensures IndexBits(llens, h, s + 1) == IndexBits(llens, h, s) + (llens[s] + LenExtraBits(s)) * h[s]
  {}

  lemma FoldedSum(h: seq<nat>, s: nat)
    requires |h| == 513 && 257 <= s < 284
    ensures SymStart(s) <= SymStart(s + 1) <= 513 && Folded(h, s) == Sum(h, SymStart(s), SymStart(s + 1))
  {
    SymStarts(s);
    if s < 265 { SumNone(h, s); SumNext(h, s, s); }
  }

  lemma AllFoldedCost(llens: seq<nat>, h: seq<nat>, f: seq<nat>)
    requires |llens| >= 286 && |h| == 513 && |f| >= 286 && forall k: nat :: k <= 285 ==> f[k] == Folded(h, k)
    ensures SymbolBits(llens, f, 286) == IndexBits(llens, h, 513)
  {
    hide IndexBits, Sum, LenExtraBits, IndexCost, Folded;
    FoldedCost(llens, h, f, 284);
    forall l | 481 <= l < 512 ensures IndexCost(llens, l) == llens[284] + LenExtraBits(284) { SegmentCost(llens, 284, l); }
    IndexBitsSegment(llens, h, 481, 512, llens[284] + LenExtraBits(284));
    LastFolds(llens, h, f);
  }

  lemma LastFolds(llens: seq<nat>, h: seq<nat>, f: seq<nat>)
    requires |llens| >= 286 && |h| == 513 && |f| >= 286 && f[284] == Folded(h, 284) && f[285] == Folded(h, 285)
    ensures SymStart(284) == 481 && f[284] == Sum(h, 481, 512)
    ensures IndexBits(llens, h, 513) == IndexBits(llens, h, 512) + llens[285] * f[285]
    ensures SymbolBits(llens, f, 286) == SymbolBits(llens, f, 284) + (llens[284] + LenExtraBits(284)) * f[284] + llens[285] * f[285]
  {
    assert SymbolBits(llens, f, 286) == SymbolBits(llens, f, 285) + (llens[285] + LenExtraBits(285)) * f[285];
  }

  // -- the cost is the number of bits written

  ghost function LLHist(rs: seq<Record>): (h: seq<nat>)
    ensures |h| == 513 && forall l: nat :: l < 513 ==> h[l] == LLCount(rs, l)
  {
    seq(513, l requires 0 <= l < 513 => LLCount(rs, l))
  }

  ghost function DHist(rs: seq<Record>): (h: seq<nat>)
    ensures |h| == 30 && forall t: nat :: t < 30 ==> h[t] == DCount(rs, t)
  {
    seq(30, t requires 0 <= t < 30 => DCount(rs, t))
  }

  /** One more use of an index costs what the index costs. */
  lemma {:induction false} IndexBitsPlus(llens: seq<nat>, g: seq<nat>, h: seq<nat>, a: nat, n: nat)
    requires |llens| >= 286 && n <= 513 == |g| == |h| && a < 513 && forall l: nat :: l < 513 ==> h[l] == g[l] + if l == a then 1 else 0
    ensures IndexBits(llens, h, n) == IndexBits(llens, g, n) + if a < n then IndexCost(llens, a) else 0
  {
    hide IndexCost;
    if n > 0 {
      IndexBitsPlus(llens, g, h, a, n - 1);
      if n - 1 == a { Times(IndexCost(llens, a), g[a], 1); }
    }
  }

  lemma {:induction false} DistBitsPlus(dlens: seq<nat>, g: seq<nat>, h: seq<nat>, a: nat, n: nat)
    requires n <= 30 == |dlens| == |g| == |h| && a < 30 && forall t: nat :: t < 30 ==> h[t] == g[t] + if t == a then 1 else 0
    ensures DistBits(dlens, h, n) == DistBits(dlens, g, n) + if a < n then dlens[a] + DistExtraBits(a) else 0
  {
    hide DistExtraBits;
    if n > 0 {
      DistBitsPlus(dlens, g, h, a, n - 1);
      if n - 1 == a { Times(dlens[a] + DistExtraBits(a), g[a], 1); }
    }
  }

  /** The cost of all counted symbols. */
  ghost function CountedBits(c: Codes, ll: seq<nat>, d: seq<nat>): nat
    requires |c.llens| >= 286 && |c.dlens| == 30 == |d| && |ll| == 513
  {
    IndexBits(c.llens, ll, 513) + DistBits(c.dlens, d, 30)
  }

  lemma CostMore(c: Codes, rs: seq<Record>, r: Record)
    requires c.Valid() && Encodable(c, r)
    ensures |c.llens| >= 286 && |c.dlens| == 30
    ensures CountedBits(c, LLHist(rs + [r]), DHist(rs + [r])) == CountedBits(c, LLHist(rs), DHist(rs)) + |RecordBits(c, r)|
  {
    if r.litLen <= 256 { CostLiteral(c, rs, r); } else { CostMatch(c, rs, r); }
  }

  lemma UsesMore(rs: seq<Record>, r: Record, s: nat)
    ensures LLCount(rs + [r], s) == LLCount(rs, s) + LLUses(r, s) && DCount(rs + [r], s) == DCount(rs, s) + DUses(r, s)
  {
    assert (rs + [r])[..|rs|] == rs;
  }

  lemma CostLiteral(c: Codes, rs: seq<Record>, r: Record)
    requires c.Valid() && Encodable(c, r) && r.litLen <= 256
    ensures |c.llens| >= 286 && |c.dlens| == 30
    ensures CountedBits(c, LLHist(rs + [r]), DHist(rs + [r])) == CountedBits(c, LLHist(rs), DHist(rs)) + |RecordBits(c, r)|
  {
    hide IndexBits, DistBits, LLCount, DCount, Word, Codes.Valid;
    SizesOf(c, r);
    var g, h := LLHist(rs), LLHist(rs + [r]);
    forall l: nat ensures LLCount(rs + [r], l) == LLCount(rs, l) + LLUses(r, l) && DCount(rs + [r], l) == DCount(rs, l) + DUses(r, l) {
      UsesMore(rs, r, l);
    }
    assert DHist(rs + [r]) == DHist(rs);
    var mid := g[r.litLen := g[r.litLen] + 1];
    IndexBitsPlus(c.llens, g, mid, r.litLen, 513);
    if r.litDist == 30 {
      assert h == mid;
    } else {
      IndexBitsPlus(c.llens, mid, h, r.litDist - 31, 513);
    }
  }

  lemma SizesOf(c: Codes, r: Record)
    requires c.Valid() && Encodable(c, r)
    ensures |c.llens| >= 286 && |c.dlens| == 30 && |c.lcount| == |c.dcount| == 16 && r.litLen <= 512
    ensures forall s :: 0 <= s < |c.llens| ==> c.llens[s] <= 15
    ensures forall t :: 0 <= t < 30 ==> c.dlens[t] <= 15
  {
    hide Word;
  }

  lemma CostMatch(c: Codes, rs: seq<Record>, r: Record)
    requires c.Valid() && Encodable(c, r) && r.litLen > 256
    ensures |c.llens| >= 286 && |c.dlens| == 30
    ensures CountedBits(c, LLHist(rs + [r]), DHist(rs + [r])) == CountedBits(c, LLHist(rs), DHist(rs)) + |RecordBits(c, r)|
  {
    hide IndexBits, DistBits, LLCount, DCount, Word, Codes.Valid, LenSymbol, LenValue, IndexExtra, DistExtraBits;
    SizesOf(c, r);
    forall l: nat ensures LLCount(rs + [r], l) == LLCount(rs, l) + LLUses(r, l) && DCount(rs + [r], l) == DCount(rs, l) + DUses(r, l) {
      UsesMore(rs, r, l);
    }
    IndexBitsPlus(c.llens, LLHist(rs), LLHist(rs + [r]), r.litLen, 513);
    DistBitsPlus(c.dlens, DHist(rs), DHist(rs + [r]), r.litDist, 30);
  }

  /** The counts of records give the exact number of bits of their encoding. */
  lemma {:induction false} ExactCost(c: Codes, rs: seq<Record>)
    requires c.Valid() && AllEncodable(c, rs)
    ensures |c.llens| >= 286 && |c.dlens| == 30 && |RecordsBits(c, rs)| == CountedBits(c, LLHist(rs), DHist(rs))
  {
    hide RecordBits, Encodable, Codes.Valid;
    ValidSizes(c);
    if |rs| == 0 {
      NoCost(c, rs);
    } else {
      var n := |rs| - 1;
      ExactCost(c, rs[..n]);
      assert rs == rs[..n] + [rs[n]];
      RecordsBitsOne(c, rs[n]);
      RecordsBitsConcat(c, rs[..n], [rs[n]]);
      CostMore(c, rs[..n], rs[n]);
    }
  }

  lemma NoCost(c: Codes, rs: seq<Record>)
    requires rs == [] && |c.llens| >= 286 && |c.dlens| == 30
    ensures CountedBits(c, LLHist(rs), DHist(rs)) == 0
  {
    ZeroIndexBits(c.llens, LLHist(rs), 513);
    ZeroDistBits(c.dlens, DHist(rs), 30);
  }

  lemma {:induction false} ZeroIndexBits(llens: seq<nat>, h: seq<nat>, n: nat)
    requires |llens| >= 286 && n <= 513 == |h| && forall l: nat :: l < 513 ==> h[l] == 0
    ensures IndexBits(llens, h, n) == 0
  {
    if n > 0 { ZeroIndexBits(llens, h, n - 1); }
  }

  lemma {:induction false} ZeroDistBits(dlens: seq<nat>, h: seq<nat>, n: nat)
    requires n <= 30 == |dlens| == |h| && forall t: nat :: t < 30 ==> h[t] == 0
    ensures DistBits(dlens, h, n) == 0
  {
    if n > 0 { ZeroDistBits(dlens, h, n - 1); }
  }

  /** So do the folded counts. */
  lemma FoldedExactCost(c: Codes, rs: seq<Record>, f: seq<nat>)
    requires c.Valid() && AllEncodable(c, rs) && |f| >= 286 && forall k: nat :: k <= 285 ==> f[k] == Folded(LLHist(rs), k)
    ensures |c.llens| >= 286 && |c.dlens| == 30
    ensures |RecordsBits(c, rs)| == SymbolBits(c.llens, f, 286) + DistBits(c.dlens, DHist(rs), 30)
  {
    hide RecordsBits, Codes.Valid, SymbolBits, Folded, IndexBits, DistBits;
    ValidSizes(c);
    ExactCost(c, rs);
    AllFoldedCost(c.llens, LLHist(rs), f);
  }
}
