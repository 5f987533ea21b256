/** Code lengths from a Huffman tree, limited to a maximum while the Kraft sum stays 1. */
module CodeLengths {
  import opened Bits
  import opened Canonical

  // -- sums over counts of lengths

  /** How many codes have a length from 1 to d. */
  function Total(count: seq<nat>, d: nat): nat
    requires d < |count|
  {
    if d == 0 then 0 else Total(count, d - 1) + count[d]
  }

  lemma {:induction false} HornerSet(count: seq<nat>, i: nat, x: nat, d: nat)
    requires i < |count| && d < |count|
    ensures 1 <= i <= d ==> Horner(count[i := x], d) + count[i] * Pow2(d - i) == Horner(count, d) + x * Pow2(d - i)
    ensures i == 0 || i > d ==> Horner(count[i := x], d) == Horner(count, d)
    decreases d
  {
    if d > 0 {
      HornerSet(count, i, x, d - 1);
      if 1 <= i < d {
        DoubleProduct(count[i], Pow2(d - 1 - i));
        DoubleProduct(x, Pow2(d - 1 - i));
      }
    }
  }

  lemma {:induction false} TotalSet(count: seq<nat>, i: nat, x: nat, d: nat)
    requires i < |count| && d < |count|
    ensures 1 <= i <= d ==> Total(count[i := x], d) + count[i] == Total(count, d) + x
    ensures i == 0 || i > d ==> Total(count[i := x], d) == Total(count, d)
    decreases d
  {
    if d > 0 { TotalSet(count, i, x, d - 1); }
  }

  /** If no code is shorter than m, the Kraft sum is at most the number of codes over 2^m. */
  lemma {:induction false} NoShortCodes(count: seq<nat>, m: nat, d: nat)
    requires 1 <= m && d < |count| && forall k :: 1 <= k < m && k <= d ==> count[k] == 0
    ensures d < m ==> Horner(count, d) == 0
    ensures d >= m ==> Horner(count, d) <= Total(count, d) * Pow2(d - m)
    ensures d > m && count[d] > 0 ==> Horner(count, d) < Total(count, d) * Pow2(d - m)
    decreases d
  {
    hide Pow2;
    if d > 0 {
      NoShortCodes(count, m, d - 1);
      if d > m {
        DoubleAndAdd(Horner(count, d - 1), Total(count, d - 1), Pow2(d - 1 - m), count[d]);
        PowNext(d - 1 - m);
      } else if d == m {
        PowSmall();
      }
    }
  }

  lemma DoubleAndAdd(h: nat, t: nat, p: nat, c: nat)
    requires h <= t * p && p >= 1
    ensures 2 * h + c <= (t + c) * (2 * p) && (c > 0 ==> 2 * h + c < (t + c) * (2 * p))
  {
    assert (t + c) * (2 * p) == 2 * (t * p) + c * (2 * p);
    Scale(c, 2 * p);
  }

  lemma PowSmall()
    ensures Pow2(0) == 1 && Pow2(1) == 2
  {}

  lemma Scale(c: nat, q: nat)
    requires q >= 2
    ensures c * q >= c && (c > 0 ==> c * q > c)
  {}

  /** With a Kraft sum of 1, the longest codes come in pairs. */
  lemma LongestEven(count: seq<nat>, d: nat)
    requires 1 <= d < |count| && Horner(count, d) == Pow2(d)
    ensures count[d] % 2 == 0
  {}

  /** With at most 2^max codes, one of them longer than max, some code is shorter than max. */
  lemma ShortExists(count: seq<nat>, max: nat, d: nat)
    requires 1 <= max < d < |count| && Horner(count, d) == Pow2(d) && count[d] > 0 && Total(count, d) <= Pow2(max)
    ensures exists k :: 1 <= k < max && count[k] > 0
  {
    hide Pow2, Horner, Total;
    if forall k :: 1 <= k < max ==> count[k] == 0 {
      NoShortCodes(count, max, d);
      Pow2Add(max, d - max);
      ProductMonotone(Total(count, d), Pow2(max), Pow2(d - max));
    }
  }

  lemma ProductMonotone(a: nat, b: nat, p: nat)
    requires a <= b
    ensures a * p <= b * p
  {}

  /** One step of the limiting: a short code makes room for one of the two longest ones, the other moves up. */
  function Shortened(count: seq<nat>, i: nat, d: nat): seq<nat>
    requires 1 <= i && i + 1 < d < |count| && count[i] >= 1 && count[d] >= 2
  {
    MoveUp(MoveDown(count, i), d)
  }

  function MoveDown(count: seq<nat>, i: nat): (r: seq<nat>)
    requires i + 1 < |count| && count[i] >= 1
    ensures |r| == |count| && forall k :: i + 1 < k < |count| ==> r[k] == count[k]
  {
    count[i := count[i] - 1][i + 1 := count[i + 1] + 2]
  }

  function MoveUp(count: seq<nat>, d: nat): (r: seq<nat>)
    requires 1 <= d < |count| && count[d] >= 2
    ensures |r| == |count| && forall k :: d < k < |count| ==> r[k] == count[k]
  {
    count[d - 1 := count[d - 1] + 1][d := count[d] - 2]
  }

  lemma MoveDownKeeps(count: seq<nat>, i: nat, d: nat)
    requires 1 <= i && i + 1 <= d < |count| && count[i] >= 1
    ensures Horner(MoveDown(count, i), d) == Horner(count, d) && Total(MoveDown(count, i), d) == Total(count, d) + 1
  {
    hide Horner, Total;
    var one := count[i := count[i] - 1];
    HornerSet(count, i, count[i] - 1, d);
    HornerSet(one, i + 1, count[i + 1] + 2, d);
    TotalSet(count, i, count[i] - 1, d);
    TotalSet(one, i + 1, count[i + 1] + 2, d);
    Exchange(count[i], count[i + 1], Pow2(d - i - 1));
  }

  lemma Exchange(a: nat, b: nat, p: nat)
    requires a >= 1
    ensures (a - 1) * (2 * p) + (b + 2) * p == a * (2 * p) + b * p
  {}

  lemma MoveUpKeeps(count: seq<nat>, d: nat)
    requires 2 <= d < |count| && count[d] >= 2
    ensures Horner(MoveUp(count, d), d) == Horner(count, d) && Total(MoveUp(count, d), d) + 1 == Total(count, d)
  {
    hide *;
    SumsTop(count, d);
    SumsTop(MoveUp(count, d), d);
    MoveUpParts(count, d);
    MoveUpFront(count, d, d - 2);
  }

  lemma MoveUpParts(count: seq<nat>, d: nat)
    requires 2 <= d < |count| && count[d] >= 2
    ensures MoveUp(count, d)[d - 1] == count[d - 1] + 1 && MoveUp(count, d)[d] == count[d] - 2
  {}

  lemma MoveUpFront(count: seq<nat>, d: nat, e: nat)
    requires 2 <= d < |count| && count[d] >= 2 && e < d - 1
    ensures Horner(MoveUp(count, d), e) == Horner(count, e) && Total(MoveUp(count, d), e) == Total(count, e)
  {
    hide Horner, Total;
    var one := count[d - 1 := count[d - 1] + 1];
    HornerSet(count, d - 1, count[d - 1] + 1, e);
    HornerSet(one, d, count[d] - 2, e);
    TotalSet(count, d - 1, count[d - 1] + 1, e);
    TotalSet(one, d, count[d] - 2, e);
  }

  lemma SumsTop(count: seq<nat>, d: nat)
    requires 2 <= d < |count|
    ensures Horner(count, d) == 4 * Horner(count, d - 2) + 2 * count[d - 1] + count[d]
    ensures Total(count, d) == Total(count, d - 2) + count[d - 1] + count[d]
  {}

  lemma ShortenedKeeps(count: seq<nat>, i: nat, d: nat)
    requires 1 <= i && i + 1 < d < |count| && count[i] >= 1 && count[d] >= 2
    ensures Horner(Shortened(count, i, d), d) == Horner(count, d) && Total(Shortened(count, i, d), d) == Total(count, d)
    ensures Shortened(count, i, d)[d] == count[d] - 2 && Shortened(count, i, d)[d - 1] > 0
    ensures |Shortened(count, i, d)| == |count|
  {
    MoveDownKeeps(count, i, d);
    MoveUpKeeps(MoveDown(count, i), d);
  }

  /** When the longest length has become unused, the sums no longer need it. */
  lemma DropLongest(count: seq<nat>, d: nat)
    requires 1 <= d < |count| && Horner(count, d) == Pow2(d) && count[d] == 0
    ensures Horner(count, d - 1) == Pow2(d - 1) && Total(count, d - 1) == Total(count, d)
  {}

  /** The longest length below `top` that is in use, 0 if none is. */
  function NearestUsed(count: seq<nat>, top: nat): (i: nat)
    requires top <= |count|
    ensures i == 0 || (i < top && count[i] > 0)
    ensures forall k :: i < k < top ==> count[k] == 0
  {
    if top <= 1 then 0 else if count[top - 1] > 0 then top - 1 else NearestUsed(count, top - 1)
  }

  /** Which lengths give way: as long as some code is longer than the maximum, the code that is made longer is one of the
      longest below the maximum. */
  ghost function GivenWay(count: seq<nat>, d: nat, max: nat): (r: seq<nat>)
    requires d < |count| && 1 <= max
    ensures |r| == |count|
    decreases d, count[d]
  {
    if d <= max || count[d] < 2 || NearestUsed(count, max) == 0 then count
    else
      GivenWay(Shortened(count, NearestUsed(count, max), d), if count[d] == 2 then d - 1 else d, max)
  }

  lemma WayGiven(count: seq<nat>, i: nat, d: nat, max: nat)
    requires max < d < |count| && count[d] >= 2 && 1 <= i < max && count[i] > 0 && forall k :: i < k < max ==> count[k] == 0
    ensures |Shortened(count, i, d)| == |count| && Shortened(count, i, d)[d] == count[d] - 2
    ensures GivenWay(count, d, max) == GivenWay(Shortened(count, i, d), if count[d] == 2 then d - 1 else d, max)
  {
    ShortenedKeeps(count, i, d);
    hide Shortened;
    assert NearestUsed(count, max) == i;
  }

  lemma GivenEnough(count: seq<nat>, d: nat, max: nat)
    requires d < |count| && 1 <= max && d <= max
    ensures GivenWay(count, d, max) == count
  {}

  /** Moves codes up until none is longer than the maximum. The two assertions of the source never fail. */
  method LimitLengths(count: array<nat>, longest: nat, max: nat) returns (codeLen: nat)
    requires 1 <= max < longest < count.Length && count[longest] > 0
    requires Horner(count[..], longest) == Pow2(longest) && Total(count[..], longest) <= Pow2(max)
    modifies count
    ensures codeLen == max && Horner(count[..], max) == Pow2(max) && Total(count[..], max) == old(Total(count[..], longest))
    ensures count[max] > 0 && count[..] == GivenWay(old(count[..]), longest, max)
  {
    hide Horner, Total, Pow2, Shortened, GivenWay, NearestUsed;
    codeLen := longest;
    while codeLen > max
      invariant max <= codeLen <= longest && count[codeLen] > 0
      invariant Horner(count[..], codeLen) == Pow2(codeLen) && Total(count[..], codeLen) == old(Total(count[..], longest))
      invariant GivenWay(old(count[..]), longest, max) == GivenWay(count[..], codeLen, max)
      decreases codeLen, count[codeLen]
    {
      ghost var was := count[..];
      LongestEven(was, codeLen);
      assert count[codeLen] > 1;
      ShortExists(was, max, codeLen);
      var i := max - 1;
      while i != 0 && count[i] == 0
        invariant 0 <= i < max && forall k :: i < k < max ==> count[k] == 0
      {
        i := i - 1;
      }
      assert i != 0;
      ShortenedKeeps(was, i, codeLen);
      WayGiven(was, i, codeLen, max);
      count[i] := count[i] - 1;
      count[i + 1] := count[i + 1] + 2;
      count[codeLen - 1] := count[codeLen - 1] + 1;
      count[codeLen] := count[codeLen] - 2;
      ShortenedIs(was, i, codeLen);
      assert count[..] == Shortened(was, i, codeLen);
      if count[codeLen] == 0 {
        DropLongest(count[..], codeLen);
        codeLen := codeLen - 1;
      }
    }
    GivenEnough(count[..], codeLen, max);
  }

  lemma ShortenedIs(count: seq<nat>, i: nat, d: nat)
    requires 1 <= i && i + 1 < d < |count| && count[i] >= 1 && count[d] >= 2
    ensures var one := count[i := count[i] - 1]; var two := one[i + 1 := one[i + 1] + 2]; var three := two[d - 1 := two[d - 1] + 1];
            Shortened(count, i, d) == three[d := three[d] - 2]
  {}

  // -- counting lengths

  lemma {:induction false} RankPrefix(s: seq<nat>, t: seq<nat>, n: nat, l: nat)
    requires n <= |s| && n <= |t| && s[..n] == t[..n]
    ensures Rank(s, n, l) == Rank(t, n, l)
  {
    if n > 0 {
      assert s[..n][..n - 1] == s[..n - 1] && t[..n][..n - 1] == t[..n - 1];
      assert s[..n][n - 1] == t[..n][n - 1];
      RankPrefix(s, t, n - 1, l);
    }
  }

  lemma CountAppend(s: seq<nat>, v: nat, l: nat)
    ensures CountOf(s + [v], l) == CountOf(s, l) + if v == l then 1 else 0
  {
    RankPrefix(s + [v], s, |s|, l);
  }

  /** The counts of lengths 1 to d, for the codes whose lengths are given. */
  ghost predicate Counts(count: seq<nat>, lens: seq<nat>, d: nat) {
    d < |count| && forall l :: 1 <= l <= d ==> count[l] == CountOf(lens, l)
  }

  lemma {:induction false} TotalZero(count: seq<nat>, d: nat)
    requires d < |count| && Total(count, d) == 0
    ensures forall l :: 1 <= l <= d ==> count[l] == 0
  {
    if d > 0 { TotalZero(count, d - 1); }
  }

  /** What is still to be handed out, and what has been. */
  ghost predicate HandedOut(count0: seq<nat>, count: seq<nat>, lens: seq<nat>, d: nat, k: nat) {
    d < |count| == |count0| && (forall l :: 1 <= l <= d ==> count[l] + CountOf(lens, l) == count0[l])
    && (forall l :: 1 <= l < k && l <= d ==> count[l] == 0)
    && (forall i :: 0 <= i < |lens| ==> 1 <= lens[i] <= d)
  }

  lemma HandOne(count0: seq<nat>, count: seq<nat>, lens: seq<nat>, d: nat, k: nat)
    requires HandedOut(count0, count, lens, d, k) && 1 <= k <= d && count[k] > 0
    ensures HandedOut(count0, count[k := count[k] - 1], lens + [k], d, k)
  {
    forall l | 1 <= l <= d ensures count[k := count[k] - 1][l] + CountOf(lens + [k], l) == count0[l] {
      CountAppend(lens, k, l);
    }
  }

  lemma HandSkip(count0: seq<nat>, count: seq<nat>, lens: seq<nat>, d: nat, k: nat)
    requires HandedOut(count0, count, lens, d, k) && k <= d && count[k] == 0
    ensures HandedOut(count0, count, lens, d, k + 1)
  {}

  lemma HandStart(count: seq<nat>, d: nat)
    requires d < |count|
    ensures HandedOut(count, count, [], d, 1)
  {}

  lemma HandEnd(count0: seq<nat>, count: seq<nat>, lens: seq<nat>, d: nat, k: nat)
    requires HandedOut(count0, count, lens, d, k) && Total(count, d) == 0
    ensures Counts(count0, lens, d) && forall i :: 0 <= i < |lens| ==> 1 <= lens[i] <= d
  {
    TotalZero(count, d);
  }

  /** Hands the limited lengths out to the leaves, shortest first. The scan for the next length is bounded by the longest
      one; in the source it runs on after the last leaf, with no effect. */
  method AssignDepths(depth: array<nat>, count: array<nat>, root: nat, j: nat, codeLen: nat)
    requires depth != count && root < j <= depth.Length && codeLen < count.Length && Total(count[..], codeLen) == j - root
    modifies depth, count
    ensures Counts(old(count[..]), depth[root..j], codeLen)
    ensures forall i :: root <= i < j ==> 1 <= depth[i] <= codeLen
    ensures forall a, b :: root <= a <= b < j ==> depth[a] <= depth[b]
    ensures forall i :: 0 <= i < root || j <= i < depth.Length ==> depth[i] == old(depth[i])
  {
    hide Total, HandedOut, Counts;
    ghost var count0 := count[..];
    var k := 1;
    HandStart(count0, codeLen);
    k := NextLength(count, k, codeLen, count0, []);
    var i := root;
    assert depth[root..root] == [];
    while i < j
      invariant root <= i <= j && Total(count[..], codeLen) == j - i
      invariant HandedOut(count0, count[..], depth[root..i], codeLen, k) && 1 <= k
      invariant i < j ==> k <= codeLen && count[k] > 0
      invariant (forall a :: root <= a < i ==> depth[a] <= k) && forall a, b :: root <= a <= b < i ==> depth[a] <= depth[b]
      invariant forall i :: 0 <= i < root || j <= i < depth.Length ==> depth[i] == old(depth[i])
    {
      ghost var was, lens := count[..], depth[root..i];
      depth[i] := k;
      count[k] := count[k] - 1;
      HandOne(count0, was, lens, codeLen, k);
      TotalSet(was, k, was[k] - 1, codeLen);
      assert depth[root..i + 1] == lens + [k] && count[..] == was[k := was[k] - 1];
      k := NextLength(count, k, codeLen, count0, depth[root..i + 1]);
      i := i + 1;
    }
    HandEnd(count0, count[..], depth[root..j], codeLen, k);
    HandRange(count0, count[..], depth[root..j], codeLen, k);
    forall i | root <= i < j ensures 1 <= depth[i] <= codeLen {
      assert depth[i] == depth[root..j][i - root];
    }
  }

  lemma HandRange(count0: seq<nat>, count: seq<nat>, lens: seq<nat>, d: nat, k: nat)
    requires HandedOut(count0, count, lens, d, k)
    ensures forall i :: 0 <= i < |lens| ==> 1 <= lens[i] <= d
  {}

  lemma HandNone(count0: seq<nat>, count: seq<nat>, lens: seq<nat>, d: nat, k: nat)
    requires HandedOut(count0, count, lens, d, k) && d < k
    ensures d < |count| && Total(count, d) == 0
  {
    NothingLeft(count, d);
  }

  lemma {:induction false} NothingLeft(count: seq<nat>, d: nat)
    requires d < |count| && forall l :: 1 <= l <= d ==> count[l] == 0
    ensures Total(count, d) == 0
  {
    if d > 0 { NothingLeft(count, d - 1); }
  }

  method NextLength(count: array<nat>, from: nat, codeLen: nat, ghost count0: seq<nat>, ghost lens: seq<nat>) returns (k: nat)
    requires codeLen < count.Length && 1 <= from && HandedOut(count0, count[..], lens, codeLen, from)
    ensures from <= k && HandedOut(count0, count[..], lens, codeLen, k)
    ensures Total(count[..], codeLen) > 0 ==> k <= codeLen && count[k] > 0
  {
    hide Total, HandedOut;
    k := from;
    while k <= codeLen && count[k] == 0
      invariant from <= k && HandedOut(count0, count[..], lens, codeLen, k)
    {
      HandSkip(count0, count[..], lens, codeLen, k);
      k := k + 1;
    }
    if k > codeLen { HandNone(count0, count[..], lens, codeLen, k); }
  }

  // -- depths of a tree

  const MAX_SYMBOL: nat := 286

  /** Every node but the root has its parent in front of it. */
  ghost predicate Parents(par: seq<nat>, root: nat, last: nat) {
    root <= last < |par| && forall k :: root < k <= last ==> root <= par[k] < k
  }

  /** A full binary tree in the region from `root` to `last`: an inner node names the second of its two children, a leaf a
      symbol. Nothing is assumed about the order of the depths. */
  ghost predicate FullTree(child: seq<nat>, par: seq<nat>, root: nat, last: nat) {
    Parents(par, root, last) && last < |child|
    && (forall i :: root <= i <= last && child[i] > 286 ==> i + 1 < child[i] <= last && par[child[i]] == i && par[child[i] - 1] == i)
    && (forall k :: root < k <= last ==> child[par[k]] > 286 && (child[par[k]] == k || child[par[k]] == k + 1))
  }

  /** The node that owns place k as one of its two children's places. */
  function Owner(k: nat, last: nat): nat { if k <= last && (last - k) % 2 == 0 then k else k + 1 }

  function DepthOf(par: seq<nat>, root: nat, last: nat, k: nat): nat
    requires Parents(par, root, last) && root <= k <= last
    decreases k
  {
    if k == root then 0 else 1 + DepthOf(par, root, last, par[k])
  }

  lemma {:induction false} DepthBound(par: seq<nat>, root: nat, last: nat, k: nat)
    requires Parents(par, root, last) && root <= k <= last
    ensures DepthOf(par, root, last, k) <= k - root
    decreases k
  {
    if k > root { DepthBound(par, root, last, par[k]); }
  }

  /** The weight 2^-d of a node at depth d, as a multiple of 2^-h. */
  function Weight(h: nat, d: nat): nat { if d <= h then Pow2(h - d) else 0 }

  /** Node m has been reached but not visited when the scan is at i. */
  ghost predicate Waiting(par: seq<nat>, root: nat, i: nat, m: nat)
    requires m < |par|
  {
    m >= i && (m == root || par[m] < i)
  }

  ghost function Front(par: seq<nat>, root: nat, last: nat, i: nat, k: nat): nat
    requires Parents(par, root, last) && root <= k
    decreases last + 1 - k
  {
    if k > last then 0 else FrontTerm(par, root, last, i, k) + Front(par, root, last, i, k + 1)
  }

  ghost function FrontTerm(par: seq<nat>, root: nat, last: nat, i: nat, k: nat): nat
    requires Parents(par, root, last) && root <= k <= last
  {
    if Waiting(par, root, i, k) then Weight(last - root, DepthOf(par, root, last, k)) else 0
  }

  lemma TermLeaf(child: seq<nat>, par: seq<nat>, root: nat, last: nat, i: nat, k: nat)
    requires FullTree(child, par, root, last) && root <= i <= last && child[i] <= 286 && i < k <= last
    ensures FrontTerm(par, root, last, i + 1, k) == FrontTerm(par, root, last, i, k)
  {
    hide DepthOf, Weight;
  }

  lemma TermInner(child: seq<nat>, par: seq<nat>, root: nat, last: nat, i: nat, k: nat)
    requires FullTree(child, par, root, last) && root <= i <= last && child[i] > 286 && i < k <= last
    ensures FrontTerm(par, root, last, i + 1, k) == FrontTerm(par, root, last, i, k)
            + if k == child[i] || k == child[i] - 1 then Weight(last - root, DepthOf(par, root, last, k)) else 0
  {
    hide DepthOf, Weight;
  }

  lemma {:induction false} FrontEmpty(par: seq<nat>, root: nat, last: nat, k: nat)
    requires Parents(par, root, last) && root < k
    ensures Front(par, root, last, root, k) == 0
    decreases last + 1 - k
  {
    if k <= last { FrontEmpty(par, root, last, k + 1); }
  }

  lemma FrontStart(par: seq<nat>, root: nat, last: nat)
    requires Parents(par, root, last)
    ensures Front(par, root, last, root, root) == Pow2(last - root)
  {
    FrontEmpty(par, root, last, root + 1);
  }

  /** Visiting a leaf takes its weight out. */
  lemma {:induction false} FrontLeaf(child: seq<nat>, par: seq<nat>, root: nat, last: nat, i: nat, k: nat)
    requires FullTree(child, par, root, last) && root <= i <= last && child[i] <= 286 && i < k
    ensures Front(par, root, last, i + 1, k) == Front(par, root, last, i, k)
    decreases last + 1 - k
  {
    hide DepthOf, Weight, FrontTerm, FullTree;
    if k <= last {
      TermLeaf(child, par, root, last, i, k);
      FrontLeaf(child, par, root, last, i, k + 1);
    }
  }

  lemma InnerBound(child: seq<nat>, par: seq<nat>, root: nat, last: nat, i: nat)
    requires FullTree(child, par, root, last) && root <= i <= last && child[i] > 286
    ensures Parents(par, root, last) && i + 1 < child[i] <= last
  {}

  /** Visiting an inner node puts the weights of its children in. */
  lemma {:induction false} FrontInner(child: seq<nat>, par: seq<nat>, root: nat, last: nat, i: nat, k: nat)
    requires FullTree(child, par, root, last) && root <= i <= last && child[i] > 286 && i < k
    ensures Front(par, root, last, i + 1, k) ==
            Front(par, root, last, i, k) + (if k <= child[i] then Weight(last - root, DepthOf(par, root, last, child[i])) else 0)
            + (if k <= child[i] - 1 then Weight(last - root, DepthOf(par, root, last, child[i] - 1)) else 0)
    decreases last + 1 - k
  {
    hide DepthOf, Weight, FrontTerm, FullTree;
    InnerBound(child, par, root, last, i);
    if k <= last {
      TermInner(child, par, root, last, i, k);
      FrontInner(child, par, root, last, i, k + 1);
    }
  }

  lemma FrontVisit(child: seq<nat>, par: seq<nat>, root: nat, last: nat, i: nat)
    requires FullTree(child, par, root, last) && root <= i <= last
    requires i == root || par[i] < i
    ensures DepthOf(par, root, last, i) <= last - root
    ensures child[i] > 286 ==> Front(par, root, last, i + 1, i + 1) == Front(par, root, last, i, i)
    ensures child[i] <= 286 ==>
              Front(par, root, last, i + 1, i + 1) + Pow2(last - root - DepthOf(par, root, last, i)) == Front(par, root, last, i, i)
  {
    hide *;
    InnerBoundOrLeaf(child, par, root, last, i);
    DepthBound(par, root, last, i);
    FrontHere(par, root, last, i);
    if child[i] > 286 {
      FrontInner(child, par, root, last, i, i + 1);
      ChildDepths(child, par, root, last, i);
      DepthBound(par, root, last, child[i]);
      WeightHalf(last - root, DepthOf(par, root, last, i));
    } else {
      FrontLeaf(child, par, root, last, i, i + 1);
    }
  }

  lemma InnerBoundOrLeaf(child: seq<nat>, par: seq<nat>, root: nat, last: nat, i: nat)
    requires FullTree(child, par, root, last) && root <= i <= last
    ensures Parents(par, root, last) && last < |par| && last < |child| && (child[i] > 286 ==> i + 1 < child[i] <= last)
  {}

  /** The waiting node the scan has come to. */
  lemma FrontHere(par: seq<nat>, root: nat, last: nat, i: nat)
    requires Parents(par, root, last) && root <= i <= last && (i == root || par[i] < i)
    ensures DepthOf(par, root, last, i) <= last - root ==>
              Front(par, root, last, i, i) == Pow2(last - root - DepthOf(par, root, last, i)) + Front(par, root, last, i, i + 1)
    ensures Front(par, root, last, i, i) == Weight(last - root, DepthOf(par, root, last, i)) + Front(par, root, last, i, i + 1)
  {
    hide Pow2, DepthOf;
  }

  lemma ChildDepths(child: seq<nat>, par: seq<nat>, root: nat, last: nat, i: nat)
    requires FullTree(child, par, root, last) && root <= i <= last && child[i] > 286
    ensures i + 1 < child[i] <= last
    ensures DepthOf(par, root, last, child[i]) == DepthOf(par, root, last, child[i] - 1) == 1 + DepthOf(par, root, last, i)
  {}

  lemma WeightHalf(h: nat, d: nat)
    requires d < h
    ensures Weight(h, d) == 2 * Weight(h, d + 1)
  {}

  // -- what the scan has collected

  /** The symbols of the leaves before index i, in index order. */
  function Leaves(child: seq<nat>, root: nat, i: nat): seq<nat>
    requires root <= i <= |child|
    decreases i
  {
    if i == root then [] else Leaves(child, root, i - 1) + if child[i - 1] <= 286 then [child[i - 1]] else []
  }

  /** The depths of the leaves before index i, in index order. */
  ghost function LeafDepths(child: seq<nat>, par: seq<nat>, root: nat, last: nat, i: nat): seq<nat>
    requires Parents(par, root, last) && root <= i <= last + 1 <= |child|
    decreases i
  {
    if i == root then [] else LeafDepths(child, par, root, last, i - 1) + if child[i - 1] <= 286 then [DepthOf(par, root, last, i - 1)] else []
  }

  /** All waiting nodes have their depth. */
  ghost predicate DepthsKnown(depth: seq<nat>, par: seq<nat>, root: nat, last: nat, i: nat)
    requires Parents(par, root, last)
  {
    last < |depth| && forall m :: root <= m <= last && Waiting(par, root, i, m) ==> depth[m] == DepthOf(par, root, last, m)
  }

  lemma DepthsInner(child: seq<nat>, depth: seq<nat>, par: seq<nat>, root: nat, last: nat, i: nat, d: nat)
    requires FullTree(child, par, root, last) && root <= i <= last && child[i] > 286 && (i == root || par[i] < i)
    requires DepthsKnown(depth, par, root, last, i) && d == 1 + depth[i]
    ensures child[i] < |depth| && DepthsKnown(depth[child[i] := d][child[i] - 1 := d], par, root, last, i + 1)
  {
    ChildDepths(child, par, root, last, i);
    hide DepthOf;
  }

  lemma DepthsLeaf(child: seq<nat>, depth: seq<nat>, par: seq<nat>, root: nat, last: nat, i: nat, j: nat, d: nat)
    requires FullTree(child, par, root, last) && root <= i <= last && child[i] <= 286 && j <= i
    requires DepthsKnown(depth, par, root, last, i)
    ensures DepthsKnown(depth[j := d], par, root, last, i + 1)
  {
    hide DepthOf;
  }

  /** The counts describe the lengths, whose Kraft sum is completed to 1 by `rest`, a multiple of 2^-h. */
  ghost predicate Tally(count: seq<nat>, lens: seq<nat>, codeLen: nat, h: nat, rest: nat) {
    codeLen <= h && codeLen < |count| && Counts(count, lens, codeLen) && Total(count, codeLen) == |lens|
    && (forall k :: 0 <= k < |lens| ==> 1 <= lens[k] <= codeLen) && (codeLen > 0 ==> count[codeLen] > 0)
    && Horner(count, codeLen) * Pow2(h - codeLen) + rest == Pow2(h)
  }

  /** The same while the range of lengths is being widened. */
  ghost predicate Widened(count: seq<nat>, lens: seq<nat>, codeLen: nat, h: nat, rest: nat) {
    codeLen <= h && codeLen < |count| && Counts(count, lens, codeLen) && Total(count, codeLen) == |lens|
    && (forall k :: 0 <= k < |lens| ==> 1 <= lens[k] <= codeLen)
    && Horner(count, codeLen) * Pow2(h - codeLen) + rest == Pow2(h)
  }

  lemma TallyStart(count: seq<nat>, h: nat)
    requires |count| > 0
    ensures Tally(count, [], 0, h, Pow2(h))
  {}

  lemma WidenOne(count: seq<nat>, lens: seq<nat>, codeLen: nat, h: nat, rest: nat)
    requires Widened(count, lens, codeLen, h, rest) && codeLen < h && codeLen + 1 < |count|
    ensures Widened(count[codeLen + 1 := 0], lens, codeLen + 1, h, rest)
  {
    hide Pow2, Horner, Total;
    var now := count[codeLen + 1 := 0];
    HornerSet(count, codeLen + 1, 0, codeLen);
    TotalSet(count, codeLen + 1, 0, codeLen);
    SumsNext(now, codeLen + 1);
    PowNext(h - codeLen - 1);
    DoubleProduct(Horner(count, codeLen), Pow2(h - codeLen - 1));
    NoneOf(lens, |lens|, codeLen + 1);
    Associate(Horner(count, codeLen), Pow2(h - codeLen - 1));
  }

  lemma Associate(x: nat, p: nat)
    ensures (2 * x + 0) * p == 2 * (x * p)
  {}

  lemma SumsNext(count: seq<nat>, d: nat)
    requires 1 <= d < |count|
    ensures Horner(count, d) == 2 * Horner(count, d - 1) + count[d] && Total(count, d) == Total(count, d - 1) + count[d]
  {}

  lemma {:induction false} NoneOf(lens: seq<nat>, n: nat, l: nat)
    requires n <= |lens| && forall k :: 0 <= k < n ==> lens[k] < l
    ensures Rank(lens, n, l) == 0
  {
    if n > 0 { NoneOf(lens, n - 1, l); }
  }

  lemma TallyLeaf(count: seq<nat>, lens: seq<nat>, codeLen: nat, h: nat, rest: nat, rest': nat, d: nat)
    requires Widened(count, lens, codeLen, h, rest) && 1 <= d <= codeLen && (d == codeLen || count[codeLen] > 0)
    requires rest == rest' + Pow2(h - d)
    ensures Tally(count[d := count[d] + 1], lens + [d], codeLen, h, rest')
  {
    hide Pow2, Horner, Total;
    HornerSet(count, d, count[d] + 1, codeLen);
    TotalSet(count, d, count[d] + 1, codeLen);
    Pow2Add(codeLen - d, h - codeLen);
    OneMore(Horner(count, codeLen), Horner(count[d := count[d] + 1], codeLen), count[d], Pow2(codeLen - d), Pow2(h - codeLen));
    forall l | 1 <= l <= codeLen ensures count[d := count[d] + 1][l] == CountOf(lens + [d], l) {
      CountAppend(lens, d, l);
    }
  }

  lemma OneMore(a: nat, b: nat, c: nat, p: nat, q: nat)
    requires b + c * p == a + (c + 1) * p
    ensures b * q == a * q + p * q
  {
    assert b == a + p;
  }

  /** Enters the depth of one leaf, widening the range of lengths as needed. */
  method CountLeaf(count: array<nat>, longest: nat, d: nat, ghost lens: seq<nat>, ghost h: nat, ghost rest: nat, ghost rest': nat)
    returns (codeLen: nat)
    requires Tally(count[..], lens, longest, h, rest) && 1 <= d <= h < count.Length && rest == rest' + Pow2(h - d)
    modifies count
    ensures codeLen == (if d > longest then d else longest) && Tally(count[..], lens + [d], codeLen, h, rest')
  {
    hide Widened, Tally, Pow2;
    codeLen := longest;
    TallyWidened(count[..], lens, longest, h, rest);
    while codeLen < d
      invariant longest <= codeLen && (codeLen <= d || codeLen == longest) && Widened(count[..], lens, codeLen, h, rest)
      invariant codeLen == longest ==> codeLen == 0 || count[codeLen] > 0
    {
      WidenOne(count[..], lens, codeLen, h, rest);
      ghost var was := count[..];
      codeLen := codeLen + 1;
      count[codeLen] := 0;
      assert count[..] == was[codeLen := 0];
    }
    ghost var was := count[..];
    TallyLeaf(was, lens, codeLen, h, rest, rest', d);
    count[d] := count[d] + 1;
    assert count[..] == was[d := was[d] + 1];
  }

  lemma TallyWidened(count: seq<nat>, lens: seq<nat>, codeLen: nat, h: nat, rest: nat)
    requires Tally(count, lens, codeLen, h, rest)
    ensures codeLen < |count| && Widened(count, lens, codeLen, h, rest) && (codeLen > 0 ==> count[codeLen] > 0)
  {}

  /** Computes the depths of all leaves and how many there are of each, and moves the leaves to the front of the region. */
  method ScanTree(child: array<nat>, depth: array<nat>, count: array<nat>, root: nat, last: nat, ghost par: seq<nat>)
    returns (codeLen: nat, j: nat)
    requires child != depth && child != count && depth != count
    requires FullTree(child[..], par, root, last) && last < depth.Length && last - root < count.Length && depth[root] == 0 && child[root] > 286
    modifies child, depth, count
    ensures root <= j <= last + 1 <= child.Length && child[root..j] == Leaves(old(child[..]), root, last + 1)
    ensures Parents(par, root, last) && depth[root..j] == LeafDepths(old(child[..]), par, root, last, last + 1)
    ensures Tally(count[..], depth[root..j], codeLen, last - root, 0)
  {
    hide *;
    ghost var child0 := child[..];
    codeLen, j := 0, root;
    TreeParts(child0, par, root, last);
    TallyStart(count[..], last - root);
    FrontStart(par, root, last);
    DepthsStart(depth[..], par, root, last);
    NoLeaves(child0, par, root, last);
    assert child[root..root] == [] && depth[root..root] == [];
    var i := root;
    while i <= last
      invariant root <= j <= i <= last + 1 && child[i..] == child0[i..]
      invariant child[root..j] == Leaves(child0, root, i) && depth[root..j] == LeafDepths(child0, par, root, last, i)
      invariant DepthsKnown(depth[..], par, root, last, i)
      invariant Tally(count[..], depth[root..j], codeLen, last - root, Front(par, root, last, i, i))
      decreases last + 1 - i
    {
      ghost var depth1 := depth[..];
      TreeNode(child0, par, root, last, i);
      NodeKnown(depth1, par, root, last, i);
      FrontVisit(child0, par, root, last, i);
      LeavesNext(child0, par, root, last, i);
      assert child[i] == child[i..][0] == child0[i..][0];
      var c := child[i];
      if c > MAX_SYMBOL {
        DepthsInner(child0, depth1, par, root, last, i, 1 + depth1[i]);
        var d := 1 + depth[i];
        depth[c] := d;
        depth[c - 1] := d;
        assert depth[..] == depth1[c := d][c - 1 := d];
      } else {
        ghost var was, front := depth[root..j], Front(par, root, last, i, i);
        DepthsLeaf(child0, depth1, par, root, last, i, j, depth1[i]);
        codeLen := PlaceLeaf(child, depth, count, i, j, codeLen, was, last - root, front, Front(par, root, last, i + 1, i + 1));
        assert depth[root..j + 1] == was + [depth1[i]];
        j := j + 1;
      }
      i := i + 1;
    }
    FrontEnd(par, root, last);
  }

  /** Moves a leaf and its depth to place j, and counts the depth. */
  method PlaceLeaf(child: array<nat>, depth: array<nat>, count: array<nat>, i: nat, j: nat, longest: nat,
                   ghost lens: seq<nat>, ghost h: nat, ghost rest: nat, ghost rest': nat) returns (codeLen: nat)
    requires child != depth && child != count && depth != count && j <= i < child.Length && i < depth.Length
    requires Tally(count[..], lens, longest, h, rest) && 1 <= depth[i] <= h < count.Length && rest == rest' + Pow2(h - depth[i])
    modifies child, depth, count
    ensures child[..] == old(child[..])[j := old(child[i])] && depth[..] == old(depth[..])[j := old(depth[i])]
    ensures Tally(count[..], lens + [old(depth[i])], codeLen, h, rest')
  {
    hide *;
    child[j], depth[j] := child[i], depth[i];
    ghost var children, depths := child[..], depth[..];
    codeLen := CountLeaf(count, longest, depth[j], lens, h, rest, rest');
    assert child[..] == children && depth[..] == depths;
  }

  lemma TreeParts(child: seq<nat>, par: seq<nat>, root: nat, last: nat)
    requires FullTree(child, par, root, last)
    ensures Parents(par, root, last) && root <= last < |child| && MAX_SYMBOL == 286 && last < |par|
  {}

  lemma DepthsStart(depth: seq<nat>, par: seq<nat>, root: nat, last: nat)
    requires Parents(par, root, last) && last < |depth| && depth[root] == 0
    ensures DepthsKnown(depth, par, root, last, root)
  {}

  lemma NoLeaves(child: seq<nat>, par: seq<nat>, root: nat, last: nat)
    requires Parents(par, root, last) && last < |child|
    ensures Leaves(child, root, root) == [] && LeafDepths(child, par, root, last, root) == []
  {}

  lemma LeavesNext(child: seq<nat>, par: seq<nat>, root: nat, last: nat, i: nat)
    requires Parents(par, root, last) && last < |child| && root <= i <= last
    ensures Leaves(child, root, i + 1) == Leaves(child, root, i) + if child[i] <= 286 then [child[i]] else []
    ensures LeafDepths(child, par, root, last, i + 1) ==
            LeafDepths(child, par, root, last, i) + if child[i] <= 286 then [DepthOf(par, root, last, i)] else []
  {}

  lemma TreeNode(child: seq<nat>, par: seq<nat>, root: nat, last: nat, i: nat)
    requires FullTree(child, par, root, last) && root <= i <= last
    ensures Parents(par, root, last) && last < |child| && (i == root || par[i] < i) && i < |par|
    ensures child[i] > 286 ==> i + 1 < child[i] <= last
    ensures i != root ==> DepthOf(par, root, last, i) >= 1
  {}

  lemma NodeKnown(depth: seq<nat>, par: seq<nat>, root: nat, last: nat, i: nat)
    requires Parents(par, root, last) && DepthsKnown(depth, par, root, last, i) && root <= i <= last && (i == root || par[i] < i)
    ensures last < |depth| && depth[i] == DepthOf(par, root, last, i)
  {}

  lemma FrontEnd(par: seq<nat>, root: nat, last: nat)
    requires Parents(par, root, last)
    ensures Front(par, root, last, last + 1, last + 1) == 0
  {}

  // -- limited lengths

  /** The lengths fit, their Kraft sum is 1, and `blCount` counts them. */
  ghost predicate Limited(blCount: seq<nat>, lens: seq<nat>, max: nat) {
    max < |blCount| && blCount[0] == 0 && Counts(blCount, lens, max) && Horner(blCount, max) == Pow2(max)
    && forall k :: 0 <= k < |lens| ==> 1 <= lens[k] <= max
  }

  lemma {:induction false} HornerSame(a: seq<nat>, b: seq<nat>, d: nat)
    requires d < |a| && d < |b| && forall l :: 1 <= l <= d ==> a[l] == b[l]
    ensures Horner(a, d) == Horner(b, d)
  {
    if d > 0 { HornerSame(a, b, d - 1); }
  }

  lemma {:induction false} HornerZeros(a: seq<nat>, d: nat, e: nat)
    requires d <= e < |a| && Horner(a, d) == Pow2(d) && forall l :: d < l <= e ==> a[l] == 0
    ensures Horner(a, e) == Pow2(e)
    decreases e
  {
    if d < e { HornerZeros(a, d, e - 1); }
  }

  method CopyCounts(blCount: array<nat>, count: array<nat>, codeLen: nat, max: nat, ghost lens: seq<nat>)
    requires blCount != count && codeLen <= max < blCount.Length && codeLen < count.Length
    requires Counts(count[..], lens, codeLen) && Horner(count[..], codeLen) == Pow2(codeLen)
    requires forall k :: 0 <= k < |lens| ==> 1 <= lens[k] <= codeLen
    modifies blCount
    ensures Limited(blCount[..], lens, max)
  {
    hide Horner, Pow2, CountOf;
    blCount[0] := 0;
    var i := 1;
    while i <= codeLen
      invariant 1 <= i <= codeLen + 1 && blCount[0] == 0 && forall l :: 1 <= l < i ==> blCount[l] == count[l]
    {
      blCount[i] := count[i];
      i := i + 1;
    }
    while i <= max
      invariant codeLen < i <= max + 1 && blCount[0] == 0 && forall l :: 1 <= l <= codeLen ==> blCount[l] == count[l]
      invariant forall l :: codeLen < l < i ==> blCount[l] == 0
    {
      blCount[i] := 0;
      i := i + 1;
    }
    HornerSame(blCount[..], count[..], codeLen);
    HornerZeros(blCount[..], codeLen, max);
    forall l | codeLen < l <= max ensures CountOf(lens, l) == 0 { NoneAt(lens, l); }
  }

  lemma NoneAt(lens: seq<nat>, l: nat)
    requires forall k :: 0 <= k < |lens| ==> lens[k] < l
    ensures CountOf(lens, l) == 0
  {
    NoneOf(lens, |lens|, l);
  }

  lemma TallyDone(count: seq<nat>, lens: seq<nat>, codeLen: nat, h: nat)
    requires Tally(count, lens, codeLen, h, 0)
    ensures 1 <= codeLen < |count| && Counts(count, lens, codeLen) && Horner(count, codeLen) == Pow2(codeLen)
    ensures Total(count, codeLen) == |lens| > 0 && count[codeLen] > 0
    ensures forall k :: 0 <= k < |lens| ==> 1 <= lens[k] <= codeLen
  {
    Pow2Add(codeLen, h - codeLen);
    CancelPower(Horner(count, codeLen), Pow2(codeLen), Pow2(h - codeLen));
    if codeLen > 0 { SumsNext(count, codeLen); }
  }

  lemma CancelPower(x: nat, y: nat, p: nat)
    requires x * p == y * p && p > 0
    ensures x == y
  {
    if x < y { StrictProduct(x, y, p); } else if y < x { StrictProduct(y, x, p); }
  }

  /** Code lengths for the leaves of a tree: their depths, or, if some are too long, lengths that are not and still make a
      complete code. */
  method FixCodeLens(child: array<nat>, depth: array<nat>, count: array<nat>, root: nat, last: nat, blCount: array<nat>, maxCodeLen: nat,
                     ghost par: seq<nat>)
    returns (j: nat)
    requires child != depth && child != count && depth != count && blCount != child && blCount != depth && blCount != count
    requires FullTree(child[..], par, root, last) && last < depth.Length && last - root < count.Length && depth[root] == 0 && child[root] > 286
    requires 1 <= maxCodeLen < blCount.Length && |Leaves(child[..], root, last + 1)| <= Pow2(maxCodeLen)
    modifies child, depth, count, blCount
    ensures root < j <= last + 1 <= child.Length && child[root..j] == Leaves(old(child[..]), root, last + 1)
    ensures Limited(blCount[..], depth[root..j], maxCodeLen) && Parents(par, root, last)
    ensures Lengths(LeafDepths(old(child[..]), par, root, last, last + 1), maxCodeLen) || Lengths(depth[root..j], maxCodeLen - 1) ==>
              depth[root..j] == LeafDepths(old(child[..]), par, root, last, last + 1)
    ensures !Lengths(LeafDepths(old(child[..]), par, root, last, last + 1), maxCodeLen) ==>
              Sorted(depth[root..j]) && FromDepths(blCount[..], LeafDepths(old(child[..]), par, root, last, last + 1), maxCodeLen)
  {
    hide *;
    TreeParts(child[..], par, root, last);
    ghost var child0 := child[..];
    var codeLen;
    codeLen, j := ScanTree(child, depth, count, root, last, par);
    ghost var lens := depth[root..j];
    TallyDone(count[..], lens, codeLen, last - root);
    if codeLen > maxCodeLen {
      TooLong(count[..], lens, codeLen, maxCodeLen);
      ghost var counts, longest := count[..], codeLen;
      codeLen := LimitLengths(count, codeLen, maxCodeLen);
      ghost var limited := count[..];
      ghost var child1 := child[..];
      CopyLimited(blCount, count, codeLen);
      AssignDepths(depth, count, root, j, codeLen);
      assert child[..] == child1;
      NowLimited(blCount[..], limited, depth[root..j], codeLen);
      IsFromDepths(blCount[..], counts, limited, lens, longest, maxCodeLen);
      IsSorted(depth[..], root, j);
      TooLong(limited, depth[root..j], codeLen, codeLen - 1);
    } else {
      CopyCounts(blCount, count, codeLen, maxCodeLen, lens);
      WithinMax(blCount[..], lens, maxCodeLen);
    }
  }

  lemma WithinMax(blCount: seq<nat>, lens: seq<nat>, max: nat)
    requires Limited(blCount, lens, max)
    ensures Lengths(lens, max)
  {}

  ghost predicate Sorted(lens: seq<nat>) { forall a, b :: 0 <= a <= b < |lens| ==> lens[a] <= lens[b] }

  lemma IsSorted(depth: seq<nat>, root: nat, j: nat)
    requires root <= j <= |depth| && forall a, b :: root <= a <= b < j ==> depth[a] <= depth[b]
    ensures Sorted(depth[root..j])
  {}

  /** The limited counts are those of the depths, after the nearest lengths have given way. */
  ghost predicate FromDepths(blCount: seq<nat>, depths: seq<nat>, max: nat) {
    exists count: seq<nat>, d: nat :: LimitedFrom(blCount, depths, max, count, d)
  }

  ghost predicate LimitedFrom(blCount: seq<nat>, depths: seq<nat>, max: nat, count: seq<nat>, d: nat) {
    1 <= max < d < |count| && max < |blCount| && Counts(count, depths, d) && count[d] > 0
    && forall l :: 1 <= l <= max ==> blCount[l] == GivenWay(count, d, max)[l]
  }

  lemma IsFromDepths(blCount: seq<nat>, count: seq<nat>, limited: seq<nat>, depths: seq<nat>, d: nat, max: nat)
    requires 1 <= max < d < |count| && max < |blCount| && Counts(count, depths, d) && count[d] > 0 && limited == GivenWay(count, d, max)
    requires forall l :: 1 <= l <= max ==> blCount[l] == limited[l]
    ensures FromDepths(blCount, depths, max)
  {
    hide GivenWay, Counts;
    assert LimitedFrom(blCount, depths, max, count, d);
  }

  lemma TooLong(count: seq<nat>, lens: seq<nat>, codeLen: nat, max: nat)
    requires max < codeLen < |count| && Counts(count, lens, codeLen) && count[codeLen] > 0
    ensures !Lengths(lens, max)
  {
    if forall k :: 0 <= k < |lens| ==> lens[k] < codeLen {
      NoneAt(lens, codeLen);
    }
  }

  method CopyLimited(blCount: array<nat>, count: array<nat>, codeLen: nat)
    requires blCount != count && codeLen < blCount.Length && codeLen < count.Length
    modifies blCount
    ensures blCount[0] == 0 && forall l :: 1 <= l <= codeLen ==> blCount[l] == count[l]
  {
    blCount[0] := 0;
    var i := 1;
    while i <= codeLen
      invariant 1 <= i <= codeLen + 1 && blCount[0] == 0 && forall l :: 1 <= l < i ==> blCount[l] == count[l]
    {
      blCount[i] := count[i];
      i := i + 1;
    }
  }

  lemma NowLimited(blCount: seq<nat>, count: seq<nat>, lens: seq<nat>, max: nat)
    requires max < |blCount| && max < |count| && blCount[0] == 0 && (forall l :: 1 <= l <= max ==> blCount[l] == count[l])
    requires Counts(count, lens, max) && Horner(count, max) == Pow2(max)
    requires forall k :: 0 <= k < |lens| ==> 1 <= lens[k] <= max
    ensures Limited(blCount, lens, max)
  {
    HornerSame(blCount, count, max);
  }
}
