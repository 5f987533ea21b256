/** Frequencies that are powers of two and add up to one: the code lengths of least cost are the ones they call for. */
module Dyadic {
  import opened Bits
  import opened Optimal
  import opened Weights

  /** Symbol s occurs 2^(total - want[s]) times, all together 2^total times. */
  ghost predicate Forced(hist: seq<nat>, want: seq<nat>, total: nat) {
    |want| == |hist| && SumFirst(hist, |hist|) == Pow2(total)
    && forall s :: 0 <= s < |hist| ==> want[s] <= total && hist[s] == Pow2(total - want[s])
  }

  lemma {:induction false} SumOfAll(hist: seq<nat>, names: set<nat>, m: nat)
    requires m <= |hist| && forall s :: 0 <= s < m ==> s in names
    ensures SumOf(names, hist, m) == SumFirst(hist, m)
  {
    if m > 0 { SumOfAll(hist, names, m - 1); }
  }

  /** The lengths called for are those of a code. */
  lemma ForcedCode(hist: seq<nat>, want: seq<nat>, total: nat, names: set<nat>)
    requires Forced(hist, want, total) && forall s :: s in names <==> 0 <= s < |hist|
    ensures Coded(names, want, total)
  {
    hide Pow2, SumFirst, SumOf;
    SumSame(names, hist, Shares(want, total), |hist|);
    SumOfAll(hist, names, |hist|);
  }

  lemma {:induction false} PowAbove(u: nat)
    ensures Pow2(u) >= 1 + u
  {
    if u > 0 { PowAbove(u - 1); }
  }

  /** 4 * 2^(want - l) is at least 4 - 3 * (l - want), and more unless both lengths are the same. */
  lemma Gap(total: nat, h: nat, want: nat, l: nat, w: nat)
    requires want <= total && l <= h && w == Pow2(total - want)
    ensures 4 * (Pow2(total) * Share(l, h)) + 3 * (Pow2(h) * (w * l)) >= 4 * (Pow2(h) * w) + 3 * (Pow2(h) * (w * want))
    ensures l != want ==> 4 * (Pow2(total) * Share(l, h)) + 3 * (Pow2(h) * (w * l)) > 4 * (Pow2(h) * w) + 3 * (Pow2(h) * (w * want))
  {
    hide *;
    ShareIs(l, h);
    Pow2Add(total, h - l);
    Pow2Add(h, total - want);
    var p, q := Pow2(h + (total - want)), Pow2(total + (h - l));
    Regroup(Pow2(h), w, l);
    Regroup(Pow2(h), w, want);
    GapCases(p, q, h + total, want, l);
  }

  lemma GapCases(p: nat, q: nat, n: nat, want: nat, l: nat)
    requires want <= n && l <= n && p == Pow2(n - want) && q == Pow2(n - l)
    ensures 4 * q + 3 * (p * l) >= 4 * p + 3 * (p * want)
    ensures l != want ==> 4 * q + 3 * (p * l) > 4 * p + 3 * (p * want)
  {
    hide *;
    PowPositive(n - want);
    PowPositive(n - l);
    if l >= want {
      Pow2Add(l - want, n - l);
      PowFirst(l - want);
      Longer(p, q, l - want, Pow2(l - want));
      Multiples(p, want, l);
    } else {
      Pow2Add(want - l, n - want);
      PowAbove(want - l);
      Shorter(p, q, want - l, Pow2(want - l));
      Multiples(p, l, want);
    }
  }

  lemma PowPositive(n: nat)
    ensures Pow2(n) >= 1
  {}

  lemma PowFirst(n: nat)
    ensures (n == 0 ==> Pow2(n) == 1) && (n == 1 ==> Pow2(n) == 2)
  {}

  lemma Regroup(a: nat, b: nat, c: nat)
    ensures a * (b * c) == (a * b) * c
  {}

  lemma Multiples(p: nat, a: nat, b: nat)
    requires a <= b
    ensures p * b == p * a + p * (b - a)
  {}

  lemma Longer(p: nat, q: nat, z: nat, t: nat)
    requires q >= 1 && p == t * q && (z == 0 ==> t == 1) && (z == 1 ==> t == 2)
    ensures 4 * q + 3 * (p * z) >= 4 * p && (z > 0 ==> 4 * q + 3 * (p * z) > 4 * p)
  {
    if z >= 2 { Scaled(p, 2, z); }
  }

  lemma Shorter(p: nat, q: nat, u: nat, t: nat)
    requires p >= 1 && q == t * p && t >= 1 + u && u >= 1
    ensures 4 * q > 4 * p + 3 * (p * u)
  {
    Monotone(1 + u, t, p);
    Distribute(1, u, p);
    Scaled(p, 1, u);
  }

  /** The gaps add up. */
  lemma {:induction false} GapSum(hist: seq<nat>, want: seq<nat>, total: nat, names: set<nat>, l: seq<nat>, h: nat, m: nat)
    requires Forced(hist, want, total) && |l| == |hist| && m <= |hist| && forall s :: 0 <= s < |hist| ==> s in names && l[s] <= h
    ensures 4 * (Pow2(total) * SumOf(names, Shares(l, h), m)) + 3 * (Pow2(h) * SumOf(names, Costs(hist, l), m))
            >= 4 * (Pow2(h) * SumOf(names, hist, m)) + 3 * (Pow2(h) * SumOf(names, Costs(hist, want), m))
    ensures (exists s :: 0 <= s < m && l[s] != want[s]) ==>
              4 * (Pow2(total) * SumOf(names, Shares(l, h), m)) + 3 * (Pow2(h) * SumOf(names, Costs(hist, l), m))
              > 4 * (Pow2(h) * SumOf(names, hist, m)) + 3 * (Pow2(h) * SumOf(names, Costs(hist, want), m))
  {
    hide Pow2, Share, SumFirst;
    if m > 0 {
      GapSum(hist, want, total, names, l, h, m - 1);
      Gap(total, h, want[m - 1], l[m - 1], hist[m - 1]);
      Split(Pow2(total), SumOf(names, Shares(l, h), m - 1), Share(l[m - 1], h));
      Split(Pow2(h), SumOf(names, Costs(hist, l), m - 1), hist[m - 1] * l[m - 1]);
      Split(Pow2(h), SumOf(names, hist, m - 1), hist[m - 1]);
      Split(Pow2(h), SumOf(names, Costs(hist, want), m - 1), hist[m - 1] * want[m - 1]);
    }
  }

  lemma Split(p: nat, a: nat, b: nat)
    ensures p * (a + b) == p * a + p * b
  {}

  /** Lengths of least cost are those the frequencies call for. */
  lemma MinimalIsForced(hist: seq<nat>, want: seq<nat>, total: nat, names: set<nat>, l: seq<nat>, h: nat)
    requires Forced(hist, want, total) && |l| == |hist| && (forall s :: s in names <==> 0 <= s < |hist|)
    requires Minimal(names, hist, l) && Coded(names, l, h)
    ensures l == want
  {
    hide Pow2, Shares, Costs, SumOf, SumFirst;
    ForcedCode(hist, want, total, names);
    assert Cost(names, hist, l) <= Cost(names, hist, want);
    GapSum(hist, want, total, names, l, h, |hist|);
    SumOfAll(hist, names, |hist|);
    Scaled(Pow2(total), SumOf(names, Shares(l, h), |hist|), Pow2(h));
    Scaled(Pow2(h), SumOf(names, Costs(hist, l), |hist|), SumOf(names, Costs(hist, want), |hist|));
    Commute(Pow2(total), Pow2(h));
  }

  lemma Commute(a: nat, b: nat)
    ensures a * b == b * a
  {}
}
