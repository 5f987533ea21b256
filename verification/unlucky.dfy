/** A histogram whose static Huffman tables pass the check of the source although they do not fit the bit buffer. */
module UnluckyHistogram {
  import opened Bits
  import opened Canonical
  import opened Dyadic
  import opened IcfEncode
  import opened Hufftables
  import opened LZ77
  import opened CreateHufftables
  import opened HuffTree
  import opened Weights

  /** Symbol s occurs 2^(15 - l) times, for the length l that it is to get. */
  ghost predicate Unlucky(litHist: seq<nat>, distHist: seq<nat>) {
    |litHist| == 286 && (forall s: nat :: s < 286 ==> litHist[s] == Pow2(15 - UnluckyLit(s)))
    && |distHist| == 30 && forall k: nat :: k < 30 ==> distHist[k] == Pow2(15 - UnluckyDist(k))
  }

  lemma {:induction false} SumRun(hist: seq<nat>, a: nat, b: nat, v: nat)
    requires a <= b <= |hist| && forall i :: a <= i < b ==> hist[i] == v
    ensures SumFirst(hist, b) == SumFirst(hist, a) + (b - a) * v
  {
    if a < b { SumRun(hist, a, b - 1, v); }
  }

  /** Doubling frequencies add up to twice the last one, less the first. */
  lemma {:induction false} SumRise(hist: seq<nat>, a: nat, b: nat, e: nat)
    requires a <= b <= |hist| && forall i :: a <= i < b ==> hist[i] == Pow2(e + i - a)
    ensures SumFirst(hist, b) + Pow2(e) == SumFirst(hist, a) + Pow2(e + b - a)
  {
    if a < b { SumRise(hist, a, b - 1, e); }
  }

  lemma LitSum(hist: seq<nat>)
    requires |hist| == 286 && forall s: nat :: s < 286 ==> hist[s] == Pow2(15 - UnluckyLit(s))
    ensures SumFirst(hist, 286) == Pow2(15)
  {
    hide Pow2;
    Values();
    SumRise(hist, 0, 6, 0);
    SumRun(hist, 6, 53, Pow2(6));
    SumRun(hist, 53, 285, Pow2(7));
    SumRun(hist, 285, 286, Pow2(0));
    assert SumFirst(hist, 0) == 0;
  }

  lemma DistSum(hist: seq<nat>)
    requires |hist| == 30 && forall k: nat :: k < 30 ==> hist[k] == Pow2(15 - UnluckyDist(k))
    ensures SumFirst(hist, 30) == Pow2(15)
  {
    hide Pow2;
    Values();
    SumRun(hist, 0, 12, Pow2(11));
    SumRun(hist, 12, 18, Pow2(10));
    SumRise(hist, 18, 28, 1);
    SumRun(hist, 28, 30, Pow2(0));
    assert SumFirst(hist, 0) == 0;
  }

  lemma Values()
    ensures Pow2(0) == 1 && Pow2(1) == 2 && Pow2(6) == 64 && Pow2(7) == 128 && Pow2(10) == 1024 && Pow2(11) == 2048 && Pow2(15) == 32768
  {}

  lemma LitForced(hist: seq<nat>, want: seq<nat>)
    requires |hist| == 286 == |want| && forall s: nat :: s < 286 ==> hist[s] == Pow2(15 - UnluckyLit(s)) && want[s] == UnluckyLit(s)
    ensures Forced(hist, want, 15) && Lengths(want, 15) && Light(hist)
  {
    hide Pow2, SumFirst;
    LitSum(hist);
    Values();
  }

  lemma DistForced(hist: seq<nat>, want: seq<nat>)
    requires |hist| == 30 == |want| && forall k: nat :: k < 30 ==> hist[k] == Pow2(15 - UnluckyDist(k)) && want[k] == UnluckyDist(k)
    ensures Forced(hist, want, 15) && Lengths(want, 15) && Light(hist)
  {
    hide Pow2, SumFirst;
    DistSum(hist);
    Values();
  }

  /** The lengths these histograms call for pass the check, and a literal, the length 258 and a distance take 58 bits. */
  lemma UnluckyLengths(litHist: seq<nat>, distHist: seq<nat>, c: Codes)
    requires Unlucky(litHist, distHist) && Compelled(litHist, distHist, c)
    ensures |c.llens| == 286 && |c.dlens| == 30 && Useable(c.llens, c.dlens) && !Fits(c.llens, c.dlens, 286)
    ensures c.llens[0] + (c.llens[285] + LenExtraBits(285)) + (c.dlens[29] + DistExtraBits(29)) == 58
  {
    hide Pow2, SumFirst, Forced, Light, MaxLit, MaxLen, MaxDist;
    var llens: seq<nat> := seq(286, s requires 0 <= s < 286 => UnluckyLit(s));
    var dlens: seq<nat> := seq(30, k requires 0 <= k < 30 => UnluckyDist(k));
    LitForced(litHist, llens);
    DistForced(distHist, dlens);
    var i := MaxLitReached(llens, 286);
    var j := MaxLenReached(llens, 285);
    var k := MaxDistReached(dlens, 30);
    assert Useable(llens, dlens);
    assert llens[0] + (llens[285] + LenExtraBits(285)) + (dlens[29] + DistExtraBits(29)) == 58;
  }

  /** Making the tables of such histograms gives codes that do not fit. */
  method MakeUnlucky(t: Tables) returns (litHist: seq<nat>, distHist: seq<nat>, ghost c: Codes)
    modifies t
    ensures Unlucky(litHist, distHist) && c.Valid() && t.Serves(c)
    ensures |c.llens| == 286 && |c.dlens| == 30 && Useable(c.llens, c.dlens) && !Fits(c.llens, c.dlens, 286)
  {
    hide Pow2, Compelled, Useable, Fits;
    litHist := seq(286, s requires 0 <= s < 286 => Pow2(15 - UnluckyLit(s)));
    distHist := seq(30, k requires 0 <= k < 30 => Pow2(15 - UnluckyDist(k)));
    c := t.Create(litHist, distHist, 30);
    UnluckyLengths(litHist, distHist, c);
  }
}
