/** What a Huffman tree costs: the weights of its leaves, each times its depth, add up to the weights of all places but the
    root's. */
module TreeCost {
  import opened Bits
  import opened CodeLengths
  import opened Optimal
  import opened Weights

  function ListSum(vals: seq<nat>): nat {
    if |vals| == 0 then 0 else ListSum(vals[..|vals| - 1]) + vals[|vals| - 1]
  }

  lemma ListAppend(vals: seq<nat>, v: nat)
    ensures ListSum(vals + [v]) == ListSum(vals) + v
  {
    assert (vals + [v])[..|vals|] == vals;
  }

  /** Values listed by name add up the same in the table. */
  lemma {:induction false} ListIsSum(list: seq<nat>, vals: seq<nat>, f: seq<nat>, names: set<nat>)
    requires |list| == |vals| && (forall k :: 0 <= k < |list| ==> list[k] < |f| && f[list[k]] == vals[k])
    requires (forall a, b :: 0 <= a < b < |list| ==> list[a] != list[b]) && forall s :: s in list <==> s in names
    ensures SumOf(names, f, |f|) == ListSum(vals)
    decreases |list|
  {
    if |list| == 0 {
      assert names == {};
      NoSum(f, |f|);
    } else {
      var n := |list| - 1;
      var x := list[n];
      forall s | true ensures s in list[..n] <==> s in names - {x} {
        if s in names && s != x { assert s in list; }
        if s in list[..n] {
          var k :| 0 <= k < n && list[k] == s;
          assert list[k] in list;
        }
      }
      ListIsSum(list[..n], vals[..n], f, names - {x});
      assert x in list;
      SumWithout(names, f, |f|, x);
    }
  }

  /** The weight of what is put in place k. */
  function At(child: seq<nat>, wt: seq<nat>, k: nat): nat
    requires k < |child|
  {
    if child[k] < |wt| then wt[child[k]] else 0
  }

  function PlaceSum(child: seq<nat>, wt: seq<nat>, i: nat, last: nat): nat
    requires last < |child|
    decreases last + 1 - i
  {
    if i > last then 0 else At(child, wt, i) + PlaceSum(child, wt, i + 1, last)
  }

  lemma {:induction false} PlaceSame(child: seq<nat>, wt: seq<nat>, child': seq<nat>, wt': seq<nat>, i: nat, last: nat)
    requires last < |child| && last < |child'| && forall k :: i <= k <= last ==> At(child, wt, k) == At(child', wt', k)
    ensures PlaceSum(child, wt, i, last) == PlaceSum(child', wt', i, last)
    decreases last + 1 - i
  {
    hide At;
    if i <= last { PlaceSame(child, wt, child', wt', i + 1, last); }
  }

  /** A node weighs as much as its two children. */
  ghost predicate Adds(child: seq<nat>, wt: seq<nat>, root: nat, last: nat) {
    last < |child| && forall i :: root <= i <= last && child[i] > 286 ==> child[i] <= last && At(child, wt, i) == At(child, wt, child[i]) + At(child, wt, child[i] - 1)
  }

  // -- the scan: leaves visited, nodes reached, nodes not reached yet

  ghost function PendTerm(child: seq<nat>, par: seq<nat>, wt: seq<nat>, root: nat, last: nat, i: nat, k: nat): nat
    requires Parents(par, root, last) && last < |child| && root <= k <= last
  {
    if Waiting(par, root, i, k) then At(child, wt, k) * DepthOf(par, root, last, k) else At(child, wt, k)
  }

  ghost function Pending(child: seq<nat>, par: seq<nat>, wt: seq<nat>, root: nat, last: nat, i: nat, k: nat): nat
    requires Parents(par, root, last) && last < |child| && root <= k
    decreases last + 1 - k
  {
    if k > last then 0 else PendTerm(child, par, wt, root, last, i, k) + Pending(child, par, wt, root, last, i, k + 1)
  }

  lemma TermAfterLeaf(child: seq<nat>, par: seq<nat>, wt: seq<nat>, root: nat, last: nat, i: nat, k: nat)
    requires FullTree(child, par, root, last) && root <= i <= last && child[i] <= 286 && i < k <= last
    ensures PendTerm(child, par, wt, root, last, i + 1, k) == PendTerm(child, par, wt, root, last, i, k)
  {
    hide DepthOf, At;
  }

  lemma TermAfterNode(child: seq<nat>, par: seq<nat>, wt: seq<nat>, root: nat, last: nat, i: nat, k: nat)
    requires FullTree(child, par, root, last) && root <= i <= last && child[i] > 286 && i < k <= last
    ensures PendTerm(child, par, wt, root, last, i + 1, k) == PendTerm(child, par, wt, root, last, i, k)
            + if k == child[i] || k == child[i] - 1 then At(child, wt, k) * DepthOf(par, root, last, i) else 0
  {
    hide DepthOf, At;
    ChildDepths(child, par, root, last, i);
    if k == child[i] || k == child[i] - 1 {
      OneDeeper(At(child, wt, k), DepthOf(par, root, last, i));
    }
  }

  lemma OneDeeper(w: nat, d: nat)
    ensures w * (1 + d) == w + w * d
  {}

  lemma {:induction false} AfterLeaf(child: seq<nat>, par: seq<nat>, wt: seq<nat>, root: nat, last: nat, i: nat, k: nat)
    requires FullTree(child, par, root, last) && root <= i <= last && child[i] <= 286 && i < k
    ensures Pending(child, par, wt, root, last, i + 1, k) == Pending(child, par, wt, root, last, i, k)
    decreases last + 1 - k
  {
    hide PendTerm, FullTree;
    if k <= last {
      TermAfterLeaf(child, par, wt, root, last, i, k);
      AfterLeaf(child, par, wt, root, last, i, k + 1);
    }
  }

  lemma {:induction false} AfterNode(child: seq<nat>, par: seq<nat>, wt: seq<nat>, root: nat, last: nat, i: nat, k: nat)
    requires FullTree(child, par, root, last) && root <= i <= last && child[i] > 286 && i < k
    ensures Pending(child, par, wt, root, last, i + 1, k) == Pending(child, par, wt, root, last, i, k)
            + (if k <= child[i] then At(child, wt, child[i]) * DepthOf(par, root, last, i) else 0)
            + (if k <= child[i] - 1 then At(child, wt, child[i] - 1) * DepthOf(par, root, last, i) else 0)
    decreases last + 1 - k
  {
    hide PendTerm, FullTree, DepthOf, At;
    InnerBound(child, par, root, last, i);
    if k <= last {
      TermAfterNode(child, par, wt, root, last, i, k);
      AfterNode(child, par, wt, root, last, i, k + 1);
    }
  }

  lemma PendHere(child: seq<nat>, par: seq<nat>, wt: seq<nat>, root: nat, last: nat, i: nat)
    requires Parents(par, root, last) && last < |child| && root <= i <= last
    ensures Pending(child, par, wt, root, last, i, i) == At(child, wt, i) * DepthOf(par, root, last, i) + Pending(child, par, wt, root, last, i, i + 1)
  {
    hide DepthOf, At;
  }

  /** Visiting a leaf takes its cost out; visiting a node hands its cost on to its children. */
  lemma Visit(child: seq<nat>, par: seq<nat>, wt: seq<nat>, root: nat, last: nat, i: nat)
    requires FullTree(child, par, root, last) && Adds(child, wt, root, last) && root <= i <= last
    ensures Pending(child, par, wt, root, last, i, i) == Pending(child, par, wt, root, last, i + 1, i + 1)
            + if child[i] <= 286 then At(child, wt, i) * DepthOf(par, root, last, i) else 0
  {
    hide *;
    InnerBoundOrLeaf(child, par, root, last, i);
    PendHere(child, par, wt, root, last, i);
    if child[i] > 286 {
      AfterNode(child, par, wt, root, last, i, i + 1);
      AddsAt(child, wt, root, last, i);
      Distribute(At(child, wt, child[i]), At(child, wt, child[i] - 1), DepthOf(par, root, last, i));
    } else {
      AfterLeaf(child, par, wt, root, last, i, i + 1);
    }
  }

  lemma AddsAt(child: seq<nat>, wt: seq<nat>, root: nat, last: nat, i: nat)
    requires Adds(child, wt, root, last) && root <= i <= last && child[i] > 286
    ensures child[i] <= last && At(child, wt, i) == At(child, wt, child[i]) + At(child, wt, child[i] - 1)
  {}

  lemma {:induction false} NotReached(child: seq<nat>, par: seq<nat>, wt: seq<nat>, root: nat, last: nat, k: nat)
    requires Parents(par, root, last) && last < |child| && root < k
    ensures Pending(child, par, wt, root, last, root, k) == PlaceSum(child, wt, k, last)
    decreases last + 1 - k
  {
    hide DepthOf, At;
    if k <= last { NotReached(child, par, wt, root, last, k + 1); }
  }

  /** The weights of the leaves before index i, in index order. */
  function LeafWeights(child: seq<nat>, wt: seq<nat>, root: nat, i: nat): seq<nat>
    requires root <= i <= |child|
    decreases i
  {
    if i == root then [] else LeafWeights(child, wt, root, i - 1) + if child[i - 1] <= 286 then [At(child, wt, i - 1)] else []
  }

  lemma {:induction false} LeafWeightsAre(child: seq<nat>, wt: seq<nat>, root: nat, i: nat)
    requires root <= i <= |child|
    ensures |LeafWeights(child, wt, root, i)| == |Leaves(child, root, i)|
    ensures forall k :: 0 <= k < |Leaves(child, root, i)| ==>
                          LeafWeights(child, wt, root, i)[k] == if Leaves(child, root, i)[k] < |wt| then wt[Leaves(child, root, i)[k]] else 0
    decreases i
  {
    if i > root { LeafWeightsAre(child, wt, root, i - 1); }
  }

  lemma CostsAppend(wt: seq<nat>, l: seq<nat>, w: nat, d: nat)
    requires |wt| == |l|
    ensures ListSum(Costs(wt + [w], l + [d])) == ListSum(Costs(wt, l)) + w * d
  {
    ListAppend(Costs(wt, l), w * d);
    assert Costs(wt + [w], l + [d]) == Costs(wt, l) + [w * d];
  }

  lemma SharesAppend(l: seq<nat>, d: nat, h: nat)
    ensures ListSum(Shares(l + [d], h)) == ListSum(Shares(l, h)) + Share(d, h)
  {
    hide Share;
    ListAppend(Shares(l, h), Share(d, h));
    assert Shares(l + [d], h) == Shares(l, h) + [Share(d, h)];
  }

  lemma {:induction false} CostSoFar(child: seq<nat>, par: seq<nat>, wt: seq<nat>, root: nat, last: nat, i: nat)
    requires FullTree(child, par, root, last) && Adds(child, wt, root, last) && root <= i <= last + 1
    ensures Parents(par, root, last) && last < |child| && |LeafWeights(child, wt, root, i)| == |LeafDepths(child, par, root, last, i)|
    ensures ListSum(Costs(LeafWeights(child, wt, root, i), LeafDepths(child, par, root, last, i)))
            + Pending(child, par, wt, root, last, i, i) == PlaceSum(child, wt, root + 1, last)
    decreases i
  {
    hide *;
    TreeParts(child, par, root, last);
    if i == root {
      NothingSoFar(child, par, wt, root, last);
      PendHere(child, par, wt, root, last, root);
      NotReached(child, par, wt, root, last, root + 1);
    } else {
      CostSoFar(child, par, wt, root, last, i - 1);
      Visit(child, par, wt, root, last, i - 1);
      WeightsNext(child, par, wt, root, last, i - 1);
      if child[i - 1] <= 286 {
        CostsAppend(LeafWeights(child, wt, root, i - 1), LeafDepths(child, par, root, last, i - 1), At(child, wt, i - 1), DepthOf(par, root, last, i - 1));
      }
    }
  }

  lemma NothingSoFar(child: seq<nat>, par: seq<nat>, wt: seq<nat>, root: nat, last: nat)
    requires Parents(par, root, last) && last < |child|
    ensures LeafWeights(child, wt, root, root) == [] && LeafDepths(child, par, root, last, root) == [] && ListSum(Costs([], [])) == 0
    ensures DepthOf(par, root, last, root) == 0
  {}

  lemma WeightsNext(child: seq<nat>, par: seq<nat>, wt: seq<nat>, root: nat, last: nat, i: nat)
    requires Parents(par, root, last) && last < |child| && root <= i <= last
    ensures child[i] <= 286 ==> LeafWeights(child, wt, root, i + 1) == LeafWeights(child, wt, root, i) + [At(child, wt, i)]
    ensures child[i] <= 286 ==> LeafDepths(child, par, root, last, i + 1) == LeafDepths(child, par, root, last, i) + [DepthOf(par, root, last, i)]
    ensures child[i] > 286 ==> LeafWeights(child, wt, root, i + 1) == LeafWeights(child, wt, root, i)
    ensures child[i] > 286 ==> LeafDepths(child, par, root, last, i + 1) == LeafDepths(child, par, root, last, i)
  {}

  /** The cost of the leaves is the weight of all places but the root's. */
  lemma CostOfLeaves(child: seq<nat>, par: seq<nat>, wt: seq<nat>, root: nat, last: nat)
    requires FullTree(child, par, root, last) && Adds(child, wt, root, last)
    ensures Parents(par, root, last) && last < |child|
    ensures ListSum(Costs(LeafWeights(child, wt, root, last + 1), LeafDepths(child, par, root, last, last + 1))) == PlaceSum(child, wt, root + 1, last)
  {
    hide *;
    TreeParts(child, par, root, last);
    CostSoFar(child, par, wt, root, last, last + 1);
    NonePending(child, par, wt, root, last);
  }

  lemma NonePending(child: seq<nat>, par: seq<nat>, wt: seq<nat>, root: nat, last: nat)
    requires Parents(par, root, last) && last < |child|
    ensures Pending(child, par, wt, root, last, last + 1, last + 1) == 0
  {}

  /** The shares of the leaves make up the whole. */
  lemma {:induction false} SharesSoFar(child: seq<nat>, par: seq<nat>, root: nat, last: nat, i: nat)
    requires FullTree(child, par, root, last) && root <= i <= last + 1
    ensures Parents(par, root, last) && last < |child|
    ensures ListSum(Shares(LeafDepths(child, par, root, last, i), last - root)) + Front(par, root, last, i, i) == Pow2(last - root)
    decreases i
  {
    hide *;
    TreeParts(child, par, root, last);
    if i == root {
      NoLeaves(child, par, root, last);
      NoShares(last - root);
      FrontStart(par, root, last);
    } else {
      SharesSoFar(child, par, root, last, i - 1);
      TreeNode(child, par, root, last, i - 1);
      FrontVisit(child, par, root, last, i - 1);
      WeightsNext(child, par, [], root, last, i - 1);
      if child[i - 1] <= 286 {
        SharesAppend(LeafDepths(child, par, root, last, i - 1), DepthOf(par, root, last, i - 1), last - root);
        ShareIs(DepthOf(par, root, last, i - 1), last - root);
      }
    }
  }

  lemma NoShares(h: nat)
    ensures ListSum(Shares([], h)) == 0
  {}

  lemma SharesOfLeaves(child: seq<nat>, par: seq<nat>, root: nat, last: nat)
    requires FullTree(child, par, root, last)
    ensures Parents(par, root, last) && last < |child|
    ensures ListSum(Shares(LeafDepths(child, par, root, last, last + 1), last - root)) == Pow2(last - root)
  {
    hide *;
    TreeParts(child, par, root, last);
    SharesSoFar(child, par, root, last, last + 1);
    FrontEnd(par, root, last);
  }
}
