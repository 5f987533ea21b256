/** The Huffman tree: a heap of weighted symbols, the tree built from it, and the code lengths the tree gives. */
module HuffTree {
  import opened Bits
  import opened Canonical
  import opened CodeLengths
  import opened HeapOrder
  import opened Optimal
  import opened TreeCost
  import opened Weights

  lemma Swapped(heap: seq<nat>, n: nat, names: set<nat>, a: nat, b: nat)
    requires Holds(heap, n, names) && 1 <= a <= n && 1 <= b <= n
    ensures Holds(heap[a := heap[b]][b := heap[a]], n, names)
  {
    hide Name;
    var now := heap[a := heap[b]][b := heap[a]];
    forall x | x in names ensures Occurs(now, n, x) {
      assert Occurs(heap, n, x);
      var c :| 1 <= c <= n && Name(heap[c]) == x;
      var c' := if c == a then b else if c == b then a else c;
      assert Name(now[c']) == x;
    }
  }

  /** Restores the heap order at one entry, if it holds behind it; the entries stay the same. */
  method Heapify(heap: array<nat>, heapSize: nat, from: nat, ghost names: set<nat>)
    requires 1 <= from && Holds(heap[..], heapSize, names)
    modifies heap
    ensures Holds(heap[..], heapSize, names)
    ensures heapSize == 1 ==> heap[..] == old(heap[..])
    ensures SameEntries(old(heap[..]), heap[..], heapSize)
    ensures old(OrderedFrom(heap[..], heapSize, from + 1)) ==> OrderedFrom(heap[..], heapSize, from)
  {
    hide *;
    HoldsSize(heap[..], heapSize, names);
    ghost var heap0, ordered := heap[..], OrderedFrom(heap[..], heapSize, from + 1);
    SameSelf(heap0, heapSize);
    if ordered { SiftStart(heap0, heapSize, from); }
    var index := from;
    var child := 2 * index;
    ghost var settled := false;
    while child <= heapSize
      invariant 1 <= index && child == 2 * index && Holds(heap[..], heapSize, names)
      invariant heapSize == 1 ==> heap[..] == heap0
      invariant SameEntries(heap0, heap[..], heapSize)
      invariant ordered ==> OrderedBut(heap[..], heapSize, from, index)
      decreases heapSize - index
    {
      HoldsSize(heap[..], heapSize, names);
      child := if heap[child] <= heap[child + 1] then child else child + 1;
      SmallestChild(heap[..], heapSize, index, child);
      if heap[index] > heap[child] {
        ghost var was := heap[..];
        Swapped(was, heapSize, names, index, child);
        ExchangeSame(was, heapSize, index, child);
        SameTogether(heap0, was, Exchanged(was, index, child), heapSize);
        if ordered { SiftStep(was, heapSize, from, index, child); }
        var tmp := heap[index];
        heap[index] := heap[child];
        heap[child] := tmp;
        ExchangedIs(was, index, child);
        assert heap[..] == was[index := was[child]][child := was[index]];
        index := child;
        child := 2 * index;
      } else {
        if ordered { SiftDone(heap[..], heapSize, from, index); }
        return;
      }
    }
    if ordered { SiftDone(heap[..], heapSize, from, index); }
  }

  lemma ExchangedIs(heap: seq<nat>, a: nat, b: nat)
    requires a < |heap| && b < |heap|
    ensures Exchanged(heap, a, b) == heap[a := heap[b]][b := heap[a]]
  {}

  lemma SameSelf(heap: seq<nat>, n: nat)
    requires n < |heap|
    ensures SameEntries(heap, heap, n)
  {}

  /** The sentinel makes the comparison with a missing second child come out right. */
  lemma SmallestChild(heap: seq<nat>, n: nat, index: nat, child: nat)
    requires n + 1 < |heap| && heap[n + 1] == SENTINEL && (forall a :: 1 <= a <= n ==> heap[a] <= SENTINEL) && 1 <= index && 2 * index <= n
    requires child == if heap[2 * index] <= heap[2 * index + 1] then 2 * index else 2 * index + 1
    ensures heap[child] <= heap[2 * index] && (child <= n || heap[2 * index] == SENTINEL)
    ensures child <= n
    ensures forall j :: 2 <= j <= n && j / 2 == index ==> heap[child] <= heap[j]
  {}

  /** Orders the whole heap. */
  method BuildHeap(heap: array<nat>, heapSize: nat, ghost names: set<nat>)
    requires heapSize + 1 < heap.Length && Holds(heap[..][heapSize + 1 := SENTINEL], heapSize, names)
    modifies heap
    ensures Holds(heap[..], heapSize, names) && OrderedFrom(heap[..], heapSize, 1) && SameEntries(old(heap[..]), heap[..], heapSize)
  {
    hide Holds, OrderedFrom, SameEntries;
    ghost var was := heap[..];
    heap[heapSize + 1] := SENTINEL;
    assert heap[..] == was[heapSize + 1 := SENTINEL];
    SameBefore(was, heap[..], heapSize);
    NoOrder(heap[..], heapSize);
    var i: nat := heapSize / 2;
    while i > 0
      invariant Holds(heap[..], heapSize, names) && OrderedFrom(heap[..], heapSize, i + 1) && SameEntries(was, heap[..], heapSize)
    {
      ghost var mid := heap[..];
      Heapify(heap, heapSize, i, names);
      SameTogether(was, mid, heap[..], heapSize);
      i := i - 1;
    }
  }

  lemma SameBefore(heap: seq<nat>, now: seq<nat>, n: nat)
    requires n < |heap| && n < |now| && forall a :: 1 <= a <= n ==> heap[a] == now[a]
    ensures SameEntries(heap, now, n)
  {
    forall e ensures Among(heap, n, e) <==> Among(now, n, e) {
      if Among(heap, n, e) { var c :| 1 <= c <= n && heap[c] == e; assert now[c] == e; }
      if Among(now, n, e) { var c :| 1 <= c <= n && now[c] == e; assert heap[c] == e; }
    }
  }

  /** Taking the first entry out: the last one takes its place, the sentinel its old one. */
  lemma Popped(heap: seq<nat>, n: nat, names: set<nat>)
    requires Holds(heap, n, names) && n >= 2
    ensures Name(heap[1]) in names && Holds(heap[1 := heap[n]][n := SENTINEL], n - 1, names - {Name(heap[1])})
  {
    hide Name;
    var now, rest := heap[1 := heap[n]][n := SENTINEL], names - {Name(heap[1])};
    forall x | x in rest ensures Occurs(now, n - 1, x) {
      assert Occurs(heap, n, x);
      var c :| 1 <= c <= n && Name(heap[c]) == x;
      var c' := if c == n then 1 else c;
      assert Name(now[c']) == x;
    }
  }

  lemma Renamed(heap: seq<nat>, n: nat, names: set<nat>, e: nat)
    requires Holds(heap, n, names) && n >= 1 && e <= SENTINEL && Name(e) !in names
    ensures Name(heap[1]) in names && Holds(heap[1 := e], n, names - {Name(heap[1])} + {Name(e)})
  {
    hide Name;
    var now, all := heap[1 := e], names - {Name(heap[1])} + {Name(e)};
    forall x | x in all ensures Occurs(now, n, x) {
      if x == Name(e) {
        assert Name(now[1]) == x;
      } else {
        assert Occurs(heap, n, x);
        var c :| 1 <= c <= n && Name(heap[c]) == x;
        assert Name(now[c]) == x;
      }
    }
  }

  // -- the forest while it is being built

  /** A node made so far: the upper one of its two children's places. */
  predicate Made(p: nat, last: nat, c: nat) { p < c <= last && (last - c) % 2 == 0 }

  /** The places above p are filled: every symbol and every node made is either still in the heap or in exactly one place,
      and a node is placed in front of its children. */
  ghost predicate Forest(child: seq<nat>, pos: seq<nat>, symbols: set<nat>, names: set<nat>, p: nat, last: nat) {
    last < |child| && last < |pos| && (forall s :: s in symbols ==> s < 286) && 286 < p <= last
    && (forall i :: p < i <= last ==> PlaceOk(child, pos, symbols, names, p, last, i))
    && (forall x :: x in symbols || Made(p, last, x) ==> x in names || Placed(child, pos, p, last, x))
    && (forall x :: x in names ==> x in symbols || Made(p, last, x))
  }

  ghost predicate PlaceOk(child: seq<nat>, pos: seq<nat>, symbols: set<nat>, names: set<nat>, p: nat, last: nat, i: nat)
    requires i < |child|
  {
    child[i] < |pos| && pos[child[i]] == i && child[i] !in names
    && (child[i] in symbols || (Made(p, last, child[i]) && i + 1 < child[i]))
  }

  ghost predicate Placed(child: seq<nat>, pos: seq<nat>, p: nat, last: nat, x: nat) {
    x < |pos| && p < pos[x] <= last < |child| && child[pos[x]] == x
  }

  /** Two entries of the heap become the children of a new node. */
  lemma Joined(child: seq<nat>, pos: seq<nat>, symbols: set<nat>, names: set<nat>, p: nat, last: nat, a: nat, b: nat)
    requires Forest(child, pos, symbols, names, p, last) && a in names && b in names && a != b && 286 < p - 2 && (last - p) % 2 == 0
    ensures a < |pos| && b < |pos| && a != p && b != p && p !in names
    ensures Forest(child[p := a][p - 1 := b], pos[a := p][b := p - 1], symbols, names - {a} - {b} + {p}, p - 2, last)
  {
    hide Forest;
    ForestNames(child, pos, symbols, names, p, last, a);
    ForestNames(child, pos, symbols, names, p, last, b);
    NewName(child, pos, symbols, names, p, last);
    var child', pos', names' := child[p := a][p - 1 := b], pos[a := p][b := p - 1], names - {a} - {b} + {p};
    var q := p - 2;
    forall i | q < i <= last ensures i < |child'| && PlaceOk(child', pos', symbols, names', q, last, i) {
      if i > p { ForestPlace(child, pos, symbols, names, p, last, i); }
    }
    forall x | x in symbols || Made(q, last, x) ensures x in names' || Placed(child', pos', q, last, x) {
      if x != p && x != a && x != b { ForestKept(child, pos, symbols, names, p, last, x); }
    }
    forall x | x in names' ensures x in symbols || Made(q, last, x) {
      if x != p { ForestNames(child, pos, symbols, names, p, last, x); }
    }
    ForestIs(child', pos', symbols, names', q, last);
  }

  lemma ForestNames(child: seq<nat>, pos: seq<nat>, symbols: set<nat>, names: set<nat>, p: nat, last: nat, x: nat)
    requires Forest(child, pos, symbols, names, p, last) && x in names
    ensures (x in symbols && x < 286) || Made(p, last, x)
    ensures x < |pos| && p <= last < |child| && 286 < p && forall s :: s in symbols ==> s < 286
  {}

  lemma NewName(child: seq<nat>, pos: seq<nat>, symbols: set<nat>, names: set<nat>, p: nat, last: nat)
    requires Forest(child, pos, symbols, names, p, last)
    ensures p !in names && p !in symbols && last < |pos| && last < |child|
  {}

  lemma ForestPlace(child: seq<nat>, pos: seq<nat>, symbols: set<nat>, names: set<nat>, p: nat, last: nat, i: nat)
    requires Forest(child, pos, symbols, names, p, last) && p < i <= last
    ensures i < |child| && PlaceOk(child, pos, symbols, names, p, last, i)
  {}

  lemma ForestKept(child: seq<nat>, pos: seq<nat>, symbols: set<nat>, names: set<nat>, p: nat, last: nat, x: nat)
    requires Forest(child, pos, symbols, names, p, last) && (x in symbols || Made(p, last, x))
    ensures x in names || Placed(child, pos, p, last, x)
  {}

  lemma ForestIs(child: seq<nat>, pos: seq<nat>, symbols: set<nat>, names: set<nat>, p: nat, last: nat)
    requires last < |child| && last < |pos| && (forall s :: s in symbols ==> s < 286) && 286 < p <= last
    requires forall i :: p < i <= last ==> PlaceOk(child, pos, symbols, names, p, last, i)
    requires forall x :: x in symbols || Made(p, last, x) ==> x in names || Placed(child, pos, p, last, x)
    requires forall x :: x in names ==> x in symbols || Made(p, last, x)
    ensures Forest(child, pos, symbols, names, p, last)
  {}

  lemma ForestStart(child: seq<nat>, pos: seq<nat>, symbols: set<nat>, p: nat)
    requires p < |child| && p < |pos| && (forall s :: s in symbols ==> s < 286) && 286 < p
    ensures Forest(child, pos, symbols, symbols, p, p)
  {}

  // -- the finished tree

  /** Symbols and nodes are each in exactly one place, nodes in front of their children. */
  ghost predicate Tree(child: seq<nat>, pos: seq<nat>, symbols: set<nat>, root: nat, last: nat) {
    last < |child| && last < |pos| && (forall s :: s in symbols ==> s < 286) && 286 < root <= last
    && (forall i :: root <= i <= last ==> child[i] < |pos| && pos[child[i]] == i
                                          && (child[i] in symbols || (Made(root, last, child[i]) && i + 1 < child[i])))
    && (forall x: nat :: x in symbols || Made(root, last, x) ==> x < |pos| && root <= pos[x] <= last && child[pos[x]] == x)
  }

  /** The last entry of the heap is the root. */
  lemma RootPlaced(child: seq<nat>, pos: seq<nat>, symbols: set<nat>, x: nat, p: nat, last: nat)
    requires Forest(child, pos, symbols, {x}, p, last)
    requires x in symbols || x > p + 1
    ensures x < |pos| && p < |child| && Tree(child[p := x], pos[x := p], symbols, p, last)
  {
    hide Forest;
    ForestNames(child, pos, symbols, {x}, p, last, x);
    NewName(child, pos, symbols, {x}, p, last);
    var child', pos' := child[p := x], pos[x := p];
    forall i | p <= i <= last
      ensures child'[i] < |pos'| && pos'[child'[i]] == i && (child'[i] in symbols || (Made(p, last, child'[i]) && i + 1 < child'[i]))
    {
      if i > p { ForestPlace(child, pos, symbols, {x}, p, last, i); }
    }
    forall y: nat | y in symbols || Made(p, last, y) ensures y < |pos'| && p <= pos'[y] <= last && child'[pos'[y]] == y {
      if y != x { ForestKept(child, pos, symbols, {x}, p, last, y); }
    }
  }

  ghost function ParentSeq(pos: seq<nat>, root: nat, last: nat): (par: seq<nat>)
    ensures |par| == last + 1 && forall k: nat :: k <= last ==> par[k] == if Owner(k, last) < |pos| then pos[Owner(k, last)] else 0
  {
    seq(last + 1, k requires 0 <= k <= last => if Owner(k, last) < |pos| then pos[Owner(k, last)] else 0)
  }

  lemma TreeIsFull(child: seq<nat>, pos: seq<nat>, symbols: set<nat>, root: nat, last: nat)
    requires Tree(child, pos, symbols, root, last)
    ensures FullTree(child, ParentSeq(pos, root, last), root, last)
  {
    var par := ParentSeq(pos, root, last);
    forall k: nat | root < k <= last ensures root <= par[k] < k && child[par[k]] > 286 && (child[par[k]] == k || child[par[k]] == k + 1) {
      assert Made(root, last, Owner(k, last));
    }
    forall i | root <= i <= last && child[i] > 286 ensures i + 1 < child[i] <= last && par[child[i]] == i && par[child[i] - 1] == i {
      assert Owner(child[i], last) == child[i] && Owner(child[i] - 1, last) == child[i];
    }
  }

  /** A list of distinct symbols, exactly the given ones. */
  ghost predicate Lists(leaves: seq<nat>, symbols: set<nat>) {
    (forall a, b :: 0 <= a < b < |leaves| ==> leaves[a] != leaves[b]) && forall s :: s in leaves <==> s in symbols
  }

  ghost predicate ListsBefore(leaves: seq<nat>, pos: seq<nat>, symbols: set<nat>, i: nat) {
    (forall a, b :: 0 <= a < b < |leaves| ==> leaves[a] != leaves[b])
    && forall s :: s in leaves <==> s in symbols && s < |pos| && pos[s] < i
  }

  lemma {:induction false} LeavesListed(child: seq<nat>, pos: seq<nat>, symbols: set<nat>, root: nat, last: nat, i: nat)
    requires Tree(child, pos, symbols, root, last) && root <= i <= last + 1
    ensures ListsBefore(Leaves(child, root, i), pos, symbols, i)
    decreases i
  {
    hide Tree, ListsBefore;
    TreeSize(child, pos, symbols, root, last);
    if i == root {
      ListNone(child, pos, symbols, root, last);
    } else {
      LeavesListed(child, pos, symbols, root, last, i - 1);
      ListMore(Leaves(child, root, i - 1), child, pos, symbols, root, last, i - 1);
    }
  }

  lemma TreeSize(child: seq<nat>, pos: seq<nat>, symbols: set<nat>, root: nat, last: nat)
    requires Tree(child, pos, symbols, root, last)
    ensures root <= last < |child| && last < |pos| && 286 < root
  {}

  lemma ListNone(child: seq<nat>, pos: seq<nat>, symbols: set<nat>, root: nat, last: nat)
    requires Tree(child, pos, symbols, root, last)
    ensures ListsBefore([], pos, symbols, root)
  {}

  lemma ListMore(leaves: seq<nat>, child: seq<nat>, pos: seq<nat>, symbols: set<nat>, root: nat, last: nat, i: nat)
    requires Tree(child, pos, symbols, root, last) && root <= i <= last && ListsBefore(leaves, pos, symbols, i)
    ensures ListsBefore(leaves + if child[i] <= 286 then [child[i]] else [], pos, symbols, i + 1)
  {
    var more := leaves + if child[i] <= 286 then [child[i]] else [];
    forall s | true ensures s in more <==> s in symbols && s < |pos| && pos[s] < i + 1 {
      if s in symbols && s < |pos| && pos[s] == i { assert child[i] == s; }
    }
  }

  lemma TreeLeaves(child: seq<nat>, pos: seq<nat>, symbols: set<nat>, root: nat, last: nat)
    requires Tree(child, pos, symbols, root, last)
    ensures Lists(Leaves(child, root, last + 1), symbols)
  {
    LeavesListed(child, pos, symbols, root, last, last + 1);
  }

  lemma {:induction false} ListSize(leaves: seq<nat>, symbols: set<nat>)
    requires Lists(leaves, symbols)
    ensures |leaves| == |symbols|
  {
    if |leaves| > 0 {
      var n := |leaves| - 1;
      var x := leaves[n];
      forall s | true ensures s in leaves[..n] <==> s in symbols - {x} {
        if s in symbols && s != x { assert s in leaves; }
      }
      ListSize(leaves[..n], symbols - {x});
      assert x in leaves;
    }
  }

  /** Takes the two first entries out and puts their node in. */
  method JoinFirst(heap: array<nat>, size: nat, nodePtr: nat, ghost names: set<nat>, ghost wt: seq<nat>) returns (h1: nat, h2: nat)
    requires 2 <= size && Holds(heap[..], size, names) && nodePtr !in names && nodePtr < 65536
    modifies heap
    ensures Name(h1) in names && Name(h2) in names && Name(h1) != Name(h2) && size < heap.Length
    ensures Holds(heap[..], size - 1, names - {Name(h1)} - {Name(h2)} + {nodePtr}) && (size == 2 ==> Name(heap[1]) == nodePtr)
    ensures old(Loaded(heap[..], size, names, wt)) && nodePtr < |wt| ==>
              LeastTwo(names, wt, Name(h1), Name(h2)) && Name(h1) < |wt| && Name(h2) < |wt|
              && Loaded(heap[..], size - 1, names - {Name(h1)} - {Name(h2)} + {nodePtr}, wt[nodePtr := wt[Name(h1)] + wt[Name(h2)]])
  {
    hide *;
    ghost var was: seq<nat> := heap[..];
    HoldsSize(was, size, names);
    Popped(was, size, names);
    h1 := heap[1];
    heap[1] := heap[size];
    heap[size] := SENTINEL;
    ghost var popped: seq<nat>, rest := was[1 := was[size]][size := SENTINEL], names - {Name(h1)};
    assert heap[..] == popped;
    Heapify(heap, size - 1, 1, rest);
    HoldsSize(heap[..], size - 1, rest);
    ghost var mid: seq<nat> := heap[..];
    h2 := heap[1];
    var joined := JoinedEntry(h1, h2, nodePtr);
    JoinedName(h1, h2, nodePtr);
    Renamed(mid, size - 1, rest, joined);
    heap[1] := joined;
    assert heap[..] == mid[1 := joined];
    Heapify(heap, size - 1, 1, rest - {Name(h2)} + {nodePtr});
    if Loaded(was, size, names, wt) && nodePtr < |wt| {
      PoppedLoaded(was, size, names, wt);
      WeightedSame(popped, mid, size - 1, wt);
      ReplaceOrder(mid, size - 1, joined);
      JoinStep(was, size, names, wt, mid, heap[..], nodePtr);
    }
  }

  /** What is known of the heap when its first entry has been taken out. */
  lemma PoppedLoaded(heap: seq<nat>, n: nat, names: set<nat>, wt: seq<nat>)
    requires n >= 2 && Loaded(heap, n, names, wt)
    ensures Weighted(heap[1 := heap[n]][n := SENTINEL], n - 1, wt) && OrderedFrom(heap[1 := heap[n]][n := SENTINEL], n - 1, 2)
  {
    hide Weighted, OrderedFrom, Holds, SumOf;
    PopWeights(heap, n, wt);
    PopOrder(heap, n, SENTINEL);
  }

  // -- what the tree costs

  /** The symbols have kept their weights, and a node made so far weighs as much as what is in its two children's places. */
  ghost predicate Summed(child: seq<nat>, wt: seq<nat>, wt0: seq<nat>, symbols: set<nat>, p: nat, last: nat) {
    last < |child| && |wt| == |wt0| == last + 1 && (forall s :: s in symbols ==> s < |wt0| && wt[s] == wt0[s])
    && forall c: nat :: Made(p, last, c) ==> wt[c] == At(child, wt, c) + At(child, wt, c - 1)
  }

  /** While the tree is built: the heap is in order, what has been joined weighs as much as all places filled, and no code for
      the symbols costs less than that and a code for the names left. */
  ghost predicate Grown(heap: seq<nat>, n: nat, names: set<nat>, child: seq<nat>, wt: seq<nat>, wt0: seq<nat>, symbols: set<nat>, p: nat, last: nat) {
    Loaded(heap, n, names, wt) && Summed(child, wt, wt0, symbols, p, last) && last < |child|
    && Reducible(symbols, wt0, names, wt, PlaceSum(child, wt, p + 1, last))
  }

  /** The tree costs no more than any code for the symbols. */
  ghost predicate Priced(child: seq<nat>, wt: seq<nat>, wt0: seq<nat>, symbols: set<nat>, root: nat, last: nat) {
    Adds(child, wt, root, last) && last < |child| && |wt| == |wt0| && (forall s :: s in symbols ==> s < |wt0| && wt[s] == wt0[s])
    && forall l: seq<nat>, h: nat :: |l| == |wt0| && Coded(symbols, l, h) ==> PlaceSum(child, wt, root + 1, last) <= Cost(symbols, wt0, l)
  }

  /** Repeatedly joins the two first entries of the heap. Frequencies may wrap around; the shape of the tree does not
      depend on them. Where they do not, the tree is one of least cost. */
  method BuildHuffTree(heap: array<nat>, child: array<nat>, size: nat, last: nat, ghost symbols: set<nat>, ghost wt0: seq<nat>)
    returns (root: nat, ghost pos: seq<nat>, ghost wt: seq<nat>)
    requires heap != child && 2 <= size && Holds(heap[..], size, symbols) && (forall s :: s in symbols ==> s < 286)
    requires last < child.Length && last < 65536 && 286 + 2 * (size - 1) < last
    modifies heap, child
    ensures root + 2 * (size - 1) == last && Tree(child[..], pos, symbols, root, last) && child[root] > 286
    ensures old(|wt0| == last + 1 && Loaded(heap[..], size, symbols, wt0)) ==> Priced(child[..], wt, wt0, symbols, root, last)
  {
    hide *;
    pos, wt := seq(last + 1, _ => 0), wt0;
    ghost var names: set<nat>, weighed := symbols, |wt0| == last + 1 && Loaded(heap[..], size, symbols, wt0);
    ForestStart(child[..], pos, symbols, last);
    HoldsSize(heap[..], size, symbols);
    if weighed { GrownStart(heap[..], size, child[..], wt0, symbols, last); }
    var heapSize, nodePtr := size, last;
    while heapSize > 1
      invariant 1 <= heapSize <= size && nodePtr + 2 * (size - heapSize) == last && heapSize + 1 < heap.Length && |pos| == last + 1
      invariant Holds(heap[..], heapSize, names) && Forest(child[..], pos, symbols, names, nodePtr, last)
      invariant heapSize == 1 ==> Name(heap[1]) == nodePtr + 2
      invariant weighed ==> Grown(heap[..], heapSize, names, child[..], wt, wt0, symbols, nodePtr, last)
    {
      ghost var before: seq<nat>, names0: set<nat>, wt1 := child[..], names, wt;
      NewName(before, pos, symbols, names0, nodePtr, last);
      if weighed { GrownParts(heap[..], heapSize, names0, before, wt1, wt0, symbols, nodePtr, last); }
      var h1, h2 := JoinFirst(heap, heapSize, nodePtr, names0, wt1);
      heapSize := heapSize - 1;
      names := names0 - {Name(h1)} - {Name(h2)} + {nodePtr};
      Joined(before, pos, symbols, names0, nodePtr, last, Name(h1), Name(h2));
      if weighed {
        wt := wt1[nodePtr := wt1[Name(h1)] + wt1[Name(h2)]];
        GrownStep(heap[..], heapSize, names0, before, pos, wt1, wt0, symbols, nodePtr, last, Name(h1), Name(h2));
      }
      child[nodePtr] := Name(h1);
      child[nodePtr - 1] := Name(h2);
      assert child[..] == before[nodePtr := Name(h1)][nodePtr - 1 := Name(h2)];
      pos := pos[Name(h1) := nodePtr][Name(h2) := nodePtr - 1];
      nodePtr := nodePtr - 2;
    }
    OneLeft(heap[..], names);
    ghost var before: seq<nat> := child[..];
    RootPlaced(before, pos, symbols, Name(heap[1]), nodePtr, last);
    if weighed { GrownRoot(heap[..], names, before, pos, wt, wt0, symbols, nodePtr, last, Name(heap[1])); }
    child[nodePtr] := Name(heap[1]);
    assert child[..] == before[nodePtr := Name(heap[1])];
    pos := pos[Name(heap[1]) := nodePtr];
    root := nodePtr;
  }

  lemma OneLeft(heap: seq<nat>, names: set<nat>)
    requires Holds(heap, 1, names)
    ensures names == {Name(heap[1])}
  {
    forall x | x in names ensures x == Name(heap[1]) { assert Occurs(heap, 1, x); }
  }

  lemma GrownStart(heap: seq<nat>, n: nat, child: seq<nat>, wt: seq<nat>, symbols: set<nat>, last: nat)
    requires Loaded(heap, n, symbols, wt) && last < |child| && |wt| == last + 1
    ensures Grown(heap, n, symbols, child, wt, wt, symbols, last, last)
  {
    hide Weighted, OrderedFrom, Holds, SumOf, Reducible;
    NamesBound(heap, n, symbols, wt);
    ReduceStart(symbols, wt);
  }

  lemma GrownParts(heap: seq<nat>, n: nat, names: set<nat>, child: seq<nat>, wt: seq<nat>, wt0: seq<nat>, symbols: set<nat>, p: nat, last: nat)
    requires Grown(heap, n, names, child, wt, wt0, symbols, p, last)
    ensures |wt| == last + 1 && Loaded(heap, n, names, wt) && Summed(child, wt, wt0, symbols, p, last) && last < |child|
    ensures Reducible(symbols, wt0, names, wt, PlaceSum(child, wt, p + 1, last))
  {}

  lemma GrownStep(heap: seq<nat>, n: nat, names: set<nat>, child: seq<nat>, pos: seq<nat>, wt: seq<nat>, wt0: seq<nat>, symbols: set<nat>,
                  p: nat, last: nat, a: nat, b: nat)
    requires Forest(child, pos, symbols, names, p, last) && (last - p) % 2 == 0 && p - 2 > 286 && a != p && b != p && LeastTwo(names, wt, a, b)
    requires last < |child| && Summed(child, wt, wt0, symbols, p, last) && Reducible(symbols, wt0, names, wt, PlaceSum(child, wt, p + 1, last))
    requires a < |wt| && b < |wt| && p < |wt| && Loaded(heap, n, names - {a} - {b} + {p}, wt[p := wt[a] + wt[b]])
    ensures p <= last && Grown(heap, n, names - {a} - {b} + {p}, child[p := a][p - 1 := b], wt[p := wt[a] + wt[b]], wt0, symbols, p - 2, last)
  {
    hide *;
    NewName(child, pos, symbols, names, p, last);
    ForestBound(child, pos, symbols, names, p, last);
    var child', wt' := child[p := a][p - 1 := b], wt[p := wt[a] + wt[b]];
    forall k | p < k <= last ensures At(child', wt', k) == At(child, wt, k) {
      NotPlaced(child, pos, symbols, names, p, last, k);
      AtSame(child, wt, child', wt', p, k);
    }
    PlaceSame(child, wt, child', wt', p + 1, last);
    AtNew(child', wt, wt', p, a, p);
    AtNew(child', wt, wt', p, b, p - 1);
    TwoPlaces(child', wt', p, last);
    SummedStep(child, wt, child', wt', wt0, symbols, p, last, a, b);
    ReduceStep(symbols, wt0, names, wt, PlaceSum(child, wt, p + 1, last), a, b, p);
    GrownIs(heap, n, names - {a} - {b} + {p}, child', wt', wt0, symbols, p - 2, last);
  }

  lemma GrownIs(heap: seq<nat>, n: nat, names: set<nat>, child: seq<nat>, wt: seq<nat>, wt0: seq<nat>, symbols: set<nat>, p: nat, last: nat)
    requires Loaded(heap, n, names, wt) && Summed(child, wt, wt0, symbols, p, last) && last < |child|
    requires Reducible(symbols, wt0, names, wt, PlaceSum(child, wt, p + 1, last))
    ensures Grown(heap, n, names, child, wt, wt0, symbols, p, last)
  {}

  lemma AtSame(child: seq<nat>, wt: seq<nat>, child': seq<nat>, wt': seq<nat>, p: nat, k: nat)
    requires k < |child| && k < |child'| && child[k] == child'[k] != p && p < |wt| == |wt'| && wt' == wt[p := wt'[p]]
    ensures At(child', wt', k) == At(child, wt, k)
  {}

  lemma AtNew(child: seq<nat>, wt: seq<nat>, wt': seq<nat>, p: nat, a: nat, k: nat)
    requires k < |child| && child[k] == a != p && a < |wt| == |wt'| && p < |wt| && wt' == wt[p := wt'[p]]
    ensures At(child, wt', k) == wt[a]
  {}

  lemma TwoPlaces(child: seq<nat>, wt: seq<nat>, p: nat, last: nat)
    requires 1 <= p <= last < |child|
    ensures PlaceSum(child, wt, p - 1, last) == At(child, wt, p - 1) + At(child, wt, p) + PlaceSum(child, wt, p + 1, last)
  {}

  lemma SummedStep(child: seq<nat>, wt: seq<nat>, child': seq<nat>, wt': seq<nat>, wt0: seq<nat>, symbols: set<nat>, p: nat, last: nat, a: nat, b: nat)
    requires Summed(child, wt, wt0, symbols, p, last) && p !in symbols && 2 <= p <= last && (last - p) % 2 == 0 && last < |child'|
    requires a < |wt| && b < |wt| && p < |wt| && wt' == wt[p := wt[a] + wt[b]] && At(child', wt', p) == wt[a] && At(child', wt', p - 1) == wt[b]
    requires forall k :: p < k <= last ==> At(child', wt', k) == At(child, wt, k)
    ensures Summed(child', wt', wt0, symbols, p - 2, last)
  {
    hide At;
    forall c: nat | Made(p - 2, last, c) ensures wt'[c] == At(child', wt', c) + At(child', wt', c - 1) {
      if c > p {
        assert Made(p, last, c);
        assert At(child', wt', c - 1) == At(child, wt, c - 1);
      }
    }
  }

  /** The node to be made is not in any place yet. */
  lemma NotPlaced(child: seq<nat>, pos: seq<nat>, symbols: set<nat>, names: set<nat>, p: nat, last: nat, i: nat)
    requires Forest(child, pos, symbols, names, p, last) && p < i <= last
    ensures i < |child| && child[i] != p
  {
    assert PlaceOk(child, pos, symbols, names, p, last, i);
  }

  lemma ForestBound(child: seq<nat>, pos: seq<nat>, symbols: set<nat>, names: set<nat>, p: nat, last: nat)
    requires Forest(child, pos, symbols, names, p, last)
    ensures 286 < p <= last < |child|
  {}

  lemma GrownRoot(heap: seq<nat>, names: set<nat>, child: seq<nat>, pos: seq<nat>, wt: seq<nat>, wt0: seq<nat>, symbols: set<nat>, p: nat, last: nat, x: nat)
    requires Grown(heap, 1, names, child, wt, wt0, symbols, p, last) && p <= last && x < |pos|
    requires Tree(child[p := x], pos[x := p], symbols, p, last)
    ensures Priced(child[p := x], wt, wt0, symbols, p, last)
  {
    hide Loaded, Reducible, Coded, Cost, Tree, Made;
    var child' := child[p := x];
    forall k | p < k <= last ensures At(child', wt, k) == At(child, wt, k) {}
    PlaceSame(child, wt, child', wt, p + 1, last);
    forall l: seq<nat>, h: nat | |l| == |wt0| && Coded(symbols, l, h) ensures PlaceSum(child', wt, p + 1, last) <= Cost(symbols, wt0, l) {
      ReduceEnd(symbols, wt0, names, wt, PlaceSum(child, wt, p + 1, last), l, h);
    }
    forall i | p <= i <= last && child'[i] > 286
      ensures child'[i] <= last && At(child', wt, i) == At(child', wt, child'[i]) + At(child', wt, child'[i] - 1)
    {
      NodeMade(child', pos[x := p], symbols, p, last, i);
    }
  }

  lemma NodeMade(child: seq<nat>, pos: seq<nat>, symbols: set<nat>, root: nat, last: nat, i: nat)
    requires Tree(child, pos, symbols, root, last) && root <= i <= last && i < |child| && child[i] > 286
    ensures Made(root, last, child[i]) && i + 1 < child[i] <= last
  {}

  // -- from a histogram to code lengths

  ghost function Occurring(hist: seq<nat>): (names: set<nat>)
    ensures forall s :: s in names <==> 0 <= s < |hist| && hist[s] != 0
  {
    set s: nat | s < |hist| && hist[s] != 0
  }

  /** The heap of a histogram: one entry for every symbol that occurs, and at least two. */
  ghost predicate HeapOf(hist: seq<nat>, symbols: set<nat>) {
    (forall i :: 0 <= i < |hist| && hist[i] != 0 ==> i in symbols) && (|Occurring(hist)| >= 2 ==> symbols == Occurring(hist))
    && (|Occurring(hist)| < 2 ==> |symbols| == 2)
    && |symbols| >= 2 && forall s :: s in symbols ==> s < 2 || (s < |hist| && hist[s] != 0)
  }

  /** A symbol with its frequency, cut to 64 bits. */
  function Entry(freq: nat, i: nat): nat { freq * 65536 % 0x1_0000_0000_0000_0000 + i }

  lemma EntryName(freq: nat, i: nat)
    requires i < 286
    ensures Name(Entry(freq, i)) == i && Entry(freq, i) <= SENTINEL
  {}

  /** The entries put so far. */
  ghost predicate Filling(heap: seq<nat>, n: nat, names: set<nat>) {
    n < |heap| && |names| == n
    && (forall a :: 1 <= a <= n ==> heap[a] <= SENTINEL && Name(heap[a]) in names)
    && (forall a, b :: 1 <= a < b <= n ==> Name(heap[a]) != Name(heap[b]))
    && forall x :: x in names ==> Occurs(heap, n, x)
  }

  lemma FillMore(heap: seq<nat>, n: nat, names: set<nat>, e: nat)
    requires Filling(heap, n, names) && n + 1 < |heap| && e <= SENTINEL && Name(e) !in names
    ensures Filling(heap[n + 1 := e], n + 1, names + {Name(e)})
  {
    hide Name;
    var now, all := heap[n + 1 := e], names + {Name(e)};
    forall x | x in all ensures Occurs(now, n + 1, x) {
      if x in names {
        assert Occurs(heap, n, x);
        var c :| 1 <= c <= n && Name(heap[c]) == x;
        assert Name(now[c]) == x;
      } else {
        assert Name(now[n + 1]) == x;
      }
    }
  }

  lemma FillDone(heap: seq<nat>, n: nat, names: set<nat>)
    requires Filling(heap, n, names) && n + 1 < |heap|
    ensures Holds(heap[n + 1 := SENTINEL], n, names)
  {
    var now := heap[n + 1 := SENTINEL];
    forall x | x in names ensures Occurs(now, n, x) {
      assert Occurs(heap, n, x);
      var c :| 1 <= c <= n && Name(heap[c]) == x;
      assert Name(now[c]) == x;
    }
  }

  method Add(heap: array<nat>, n: nat, freq: nat, i: nat, ghost names: set<nat>, ghost wt: seq<nat>)
    requires Filling(heap[..], n, names) && n + 1 < heap.Length && i < 286 && i !in names
    modifies heap
    ensures Filling(heap[..], n + 1, names + {i})
    ensures old(Weighted(heap[..], n, wt)) && i < |wt| && wt[i] == freq < 0x1_0000_0000_0000 ==> Weighted(heap[..], n + 1, wt)
  {
    hide Filling, Weighted, Entry;
    ghost var was: seq<nat> := heap[..];
    EntryName(freq, i);
    FillMore(was, n, names, Entry(freq, i));
    heap[n + 1] := Entry(freq, i);
    assert heap[..] == was[n + 1 := Entry(freq, i)];
    if Weighted(was, n, wt) && i < |wt| && wt[i] == freq < 0x1_0000_0000_0000 { WeightedMore(was, n, wt, freq, i); }
  }

  lemma WeightedMore(heap: seq<nat>, n: nat, wt: seq<nat>, freq: nat, i: nat)
    requires Weighted(heap, n, wt) && n + 1 < |heap| && i < 286 && i < |wt| && wt[i] == freq < 0x1_0000_0000_0000
    ensures Weighted(heap[n + 1 := Entry(freq, i)], n + 1, wt)
  {
    hide Entry, Name;
    EntryName(freq, i);
    NoWrap(freq, i);
  }

  lemma NoWrap(freq: nat, i: nat)
    requires freq < 0x1_0000_0000_0000
    ensures Entry(freq, i) == freq * 65536 + i
  {}

  /** The weights of a histogram, none below `least`, up to the size of the tree. */
  ghost function AtLeast(hist: seq<nat>, least: nat): (wt: seq<nat>)
    ensures |wt| == 859 && forall s: nat :: s < 859 ==> wt[s] == if s < |hist| then (if hist[s] < least then least else hist[s]) else 0
  {
    seq(859, s requires 0 <= s < 859 => if s < |hist| then (if hist[s] < least then least else hist[s]) else 0)
  }

  /** So few occurrences that their sums fit 48 bits. */
  ghost predicate Light(hist: seq<nat>) { SumFirst(hist, |hist|) + 2 < 0x1_0000_0000_0000 }

  lemma {:induction false} FirstBound(hist: seq<nat>, m: nat, i: nat)
    requires i < m <= |hist|
    ensures hist[i] <= SumFirst(hist, m)
  {
    if i < m - 1 { FirstBound(hist, m - 1, i); }
  }

  lemma LightAt(hist: seq<nat>, least: nat, i: nat)
    requires Light(hist) && i < |hist| <= 859 && least <= 1
    ensures AtLeast(hist, least)[i] < 0x1_0000_0000_0000
  {
    hide SumFirst;
    FirstBound(hist, |hist|, i);
  }

  lemma {:induction false} PaddedSum(hist: seq<nat>, least: nat, names: set<nat>, m: nat)
    requires m <= 859 && least <= 1 && forall s :: s in names ==> s < 2 || (s < |hist| && hist[s] >= least)
    ensures SumOf(names, AtLeast(hist, least), m) <= SumFirst(hist, if m < |hist| then m else |hist|) + if m < 2 then m else 2
  {
    if m > 0 { PaddedSum(hist, least, names, m - 1); }
  }

  lemma HeapLoaded(hist: seq<nat>, least: nat, filled: seq<nat>, heap: seq<nat>, n: nat, symbols: set<nat>)
    requires Light(hist) && |hist| <= 859 && least <= 1 && (forall s :: s in symbols ==> s < 2 || (s < |hist| && hist[s] >= least))
    requires Weighted(filled, n, AtLeast(hist, least)) && SameEntries(filled, heap, n) && OrderedFrom(heap, n, 1) && Holds(heap, n, symbols)
    ensures Loaded(heap, n, symbols, AtLeast(hist, least))
  {
    hide Weighted, SameEntries, OrderedFrom, Holds, SumOf, SumFirst;
    WeightedSame(filled, heap, n, AtLeast(hist, least));
    PaddedSum(hist, least, symbols, 859);
  }

  lemma FillSize(heap: seq<nat>, n: nat, names: set<nat>)
    requires Filling(heap, n, names)
    ensures |names| == n && n < |heap|
  {}

  /** Builds the heap of the symbols that occur; where fewer than two do, the first symbols fill up. */
  method InitHeap(heap: array<nat>, hist: seq<nat>) returns (heapSize: nat, ghost symbols: set<nat>)
    requires 2 <= |hist| <= 286 && |hist| + 2 < heap.Length
    modifies heap
    ensures Holds(heap[..], heapSize, symbols) && heapSize == |symbols| >= 2 && heapSize <= |hist| && HeapOf(hist, symbols)
    ensures forall s :: s in symbols ==> s < |hist|
    ensures Light(hist) ==> Loaded(heap[..], heapSize, symbols, AtLeast(hist, 1))
  {
    hide Filling, Holds, Weighted, Loaded, Light, OrderedFrom, SameEntries;
    heapSize, symbols := 0, {};
    FillStart(heap[..], AtLeast(hist, 1));
    var i := 0;
    while i < |hist|
      invariant 0 <= i <= |hist| && heapSize <= i && Filling(heap[..], heapSize, symbols)
      invariant forall s :: s in symbols <==> 0 <= s < i && hist[s] != 0
      invariant Light(hist) ==> Weighted(heap[..], heapSize, AtLeast(hist, 1))
    {
      if hist[i] != 0 {
        if Light(hist) { LightAt(hist, 1, i); }
        Add(heap, heapSize, hist[i], i, symbols, AtLeast(hist, 1));
        heapSize := heapSize + 1;
        symbols := symbols + {i};
      }
      i := i + 1;
    }
    FillSize(heap[..], heapSize, symbols);
    heapSize, symbols := AtLeastTwo(heap, hist, heapSize, symbols);
    FillDone(heap[..], heapSize, symbols);
    ghost var filled := heap[..];
    BuildHeap(heap, heapSize, symbols);
    if Light(hist) { HeapLoaded(hist, 1, filled, heap[..], heapSize, symbols); }
  }

  /** Adds symbols 0 and 1, as far as needed for two entries. */
  method AtLeastTwo(heap: array<nat>, hist: seq<nat>, size: nat, ghost names: set<nat>) returns (heapSize: nat, ghost symbols: set<nat>)
    requires 2 <= |hist| <= 859 && |hist| + 2 < heap.Length && Filling(heap[..], size, names) && |names| == size <= |hist|
    requires forall s :: s in names <==> 0 <= s < |hist| && hist[s] != 0
    modifies heap
    ensures Filling(heap[..], heapSize, symbols) && heapSize == |symbols| >= 2 && heapSize <= |hist| && HeapOf(hist, symbols)
    ensures forall s :: s in symbols ==> s < |hist|
    ensures old(Weighted(heap[..], size, AtLeast(hist, 1))) ==> Weighted(heap[..], heapSize, AtLeast(hist, 1))
  {
    hide *;
    heapSize, symbols := size, names;
    if heapSize < 2 {
      if heapSize == 0 {
        assert names == {};
        Add(heap, 0, 1, 0, names, AtLeast(hist, 1));
        Add(heap, 1, 1, 1, names + {0}, AtLeast(hist, 1));
        symbols := names + {0} + {1};
      } else if hist[0] == 0 {
        Add(heap, 1, 1, 0, names, AtLeast(hist, 1));
        symbols := names + {0};
      } else {
        ZeroOnly(names);
        Add(heap, 1, 1, 1, names, AtLeast(hist, 1));
        symbols := names + {1};
      }
      heapSize := 2;
      FillSize(heap[..], heapSize, symbols);
    }
    assert names == Occurring(hist);
    PaddedHeap(hist, names, symbols);
  }

  lemma PaddedHeap(hist: seq<nat>, names: set<nat>, symbols: set<nat>)
    requires 2 <= |hist| && names <= symbols && |symbols| >= 2 && names == Occurring(hist) && (|names| >= 2 ==> symbols == names)
    requires |names| < 2 ==> |symbols| == 2
    requires forall s :: s in symbols ==> s in names || s < 2
    ensures HeapOf(hist, symbols) && forall s :: s in symbols ==> s < |hist|
  {}

  lemma ZeroOnly(names: set<nat>)
    requires |names| == 1 && 0 in names
    ensures 1 !in names
  {
    var rest := names - {0};
    assert |rest| == 0;
    assert 1 !in rest;
  }

  lemma FillStart(heap: seq<nat>, wt: seq<nat>)
    requires |heap| > 0
    ensures Filling(heap, 0, {}) && Weighted(heap, 0, wt)
  {}

  /** Builds the heap of all symbols, whether they occur or not. */
  method InitHeapComplete(heap: array<nat>, hist: seq<nat>) returns (heapSize: nat, ghost symbols: set<nat>)
    requires 2 <= |hist| <= 286 && |hist| + 2 < heap.Length
    modifies heap
    ensures Holds(heap[..], heapSize, symbols) && heapSize == |symbols| == |hist|
    ensures forall s :: s in symbols <==> 0 <= s < |hist|
    ensures Light(hist) ==> Loaded(heap[..], heapSize, symbols, AtLeast(hist, 0))
  {
    hide Filling, Holds, Weighted, Loaded, Light, OrderedFrom, SameEntries;
    heapSize, symbols := 0, {};
    FillStart(heap[..], AtLeast(hist, 0));
    var i := 0;
    while i < |hist|
      invariant 0 <= i == heapSize <= |hist| && Filling(heap[..], heapSize, symbols)
      invariant forall s :: s in symbols <==> 0 <= s < i
      invariant Light(hist) ==> Weighted(heap[..], heapSize, AtLeast(hist, 0))
    {
      if Light(hist) { LightAt(hist, 0, i); }
      Add(heap, heapSize, hist[i], i, symbols, AtLeast(hist, 0));
      heapSize := heapSize + 1;
      symbols := symbols + {i};
      i := i + 1;
    }
    FillSize(heap[..], heapSize, symbols);
    FillDone(heap[..], heapSize, symbols);
    ghost var filled := heap[..];
    BuildHeap(heap, heapSize, symbols);
    if Light(hist) { HeapLoaded(hist, 0, filled, heap[..], heapSize, symbols); }
  }

  // -- code lengths in a table

  function Zeros(n: nat): (z: seq<nat>)
    ensures |z| == n && forall i :: 0 <= i < n ==> z[i] == 0
  {
    seq(n, _ => 0)
  }

  /** The first m listed symbols have their lengths, the others 0. */
  function Scatter(syms: seq<nat>, ds: seq<nat>, m: nat, n: nat): (lens: seq<nat>)
    requires m <= |syms| == |ds| && forall k :: 0 <= k < |syms| ==> syms[k] < n
    ensures |lens| == n
  {
    if m == 0 then Zeros(n) else Scatter(syms, ds, m - 1, n)[syms[m - 1] := ds[m - 1]]
  }

  lemma {:induction false} ScatterOther(syms: seq<nat>, ds: seq<nat>, m: nat, n: nat, x: nat)
    requires m <= |syms| == |ds| && (forall k :: 0 <= k < |syms| ==> syms[k] < n) && x < n
    ensures (forall k :: 0 <= k < m ==> syms[k] != x) ==> Scatter(syms, ds, m, n)[x] == 0
    ensures (forall k :: 0 <= k < |ds| ==> ds[k] >= 1) && Scatter(syms, ds, m, n)[x] == 0 ==> forall k :: 0 <= k < m ==> syms[k] != x
  {
    if m > 0 { ScatterOther(syms, ds, m - 1, n, x); }
  }

  lemma {:induction false} RankSet(s: seq<nat>, i: nat, v: nat, n: nat, l: nat)
    requires i < |s| && n <= |s|
    ensures Rank(s[i := v], n, l) + (if i < n && s[i] == l then 1 else 0) == Rank(s, n, l) + (if i < n && v == l then 1 else 0)
  {
    if n > 0 { RankSet(s, i, v, n - 1, l); }
  }

  lemma {:induction false} RankZeros(n: nat, m: nat, l: nat)
    requires m <= n && l >= 1
    ensures Rank(Zeros(n), m, l) == 0
  {
    if m > 0 { RankZeros(n, m - 1, l); }
  }

  /** The table has as many codes of each length as the list. */
  lemma {:induction false} ScatterCounts(syms: seq<nat>, ds: seq<nat>, m: nat, n: nat, l: nat)
    requires m <= |syms| == |ds| && (forall k :: 0 <= k < |syms| ==> syms[k] < n) && l >= 1
    requires forall a, b :: 0 <= a < b < |syms| ==> syms[a] != syms[b]
    ensures CountOf(Scatter(syms, ds, m, n), l) == Rank(ds, m, l)
  {
    if m == 0 {
      RankZeros(n, n, l);
    } else {
      var was := Scatter(syms, ds, m - 1, n);
      ScatterCounts(syms, ds, m - 1, n, l);
      ScatterOther(syms, ds, m - 1, n, syms[m - 1]);
      RankSet(was, syms[m - 1], ds[m - 1], n, l);
    }
  }

  lemma {:induction false} ScatterAtMost(syms: seq<nat>, ds: seq<nat>, m: nat, n: nat, max: nat)
    requires m <= |syms| == |ds| && (forall k :: 0 <= k < |syms| ==> syms[k] < n) && forall k :: 0 <= k < |ds| ==> ds[k] <= max
    ensures Lengths(Scatter(syms, ds, m, n), max)
  {
    if m > 0 { ScatterAtMost(syms, ds, m - 1, n, max); }
  }

  /** Code lengths: exactly the given symbols have one, none is longer than `max`, `blCount` counts them, and the Kraft sum
      is 1. */
  ghost predicate GoodLengths(lens: seq<nat>, symbols: set<nat>, blCount: seq<nat>, max: nat) {
    max < |blCount| && Lengths(lens, max) && (forall s :: 0 <= s < |lens| ==> (lens[s] != 0 <==> s in symbols))
    && blCount[0] == 0 && Counts(blCount, lens, max) && Horner(blCount, max) == Pow2(max)
  }

  lemma ScatterGood(syms: seq<nat>, ds: seq<nat>, n: nat, symbols: set<nat>, blCount: seq<nat>, max: nat)
    requires |syms| == |ds| && Lists(syms, symbols) && Limited(blCount, ds, max) && forall s :: s in symbols ==> s < n
    ensures forall k :: 0 <= k < |syms| ==> syms[k] < n
    ensures GoodLengths(Scatter(syms, ds, |syms|, n), symbols, blCount, max)
  {
    hide Scatter, Horner, Pow2;
    forall k | 0 <= k < |syms| ensures syms[k] < n { assert syms[k] in symbols; }
    var lens := Scatter(syms, ds, |syms|, n);
    ScatterAtMost(syms, ds, |syms|, n, max);
    forall s: nat | s < n ensures lens[s] != 0 <==> s in symbols {
      ScatterOther(syms, ds, |syms|, n, s);
    }
    forall l | 1 <= l <= max ensures blCount[l] == CountOf(lens, l) {
      ScatterCounts(syms, ds, |syms|, n, l);
    }
  }

  /** The table while lengths are being entered: listed and cleared symbols are as they should be. */
  ghost predicate Entered(codes: seq<HuffCode>, syms: seq<nat>, ds: seq<nat>, m: nat, cleared: nat, n: nat) {
    m <= |syms| == |ds| && (forall k :: 0 <= k < |syms| ==> syms[k] < n) && n <= |codes|
    && (forall s :: 0 <= s < n && (s < cleared || s in syms[..m]) ==> codes[s].length == Scatter(syms, ds, m, n)[s])
    && (forall s :: 0 <= s < n && s < cleared ==> codes[s].code == 0 && codes[s].extraBitCount == 0)
  }

  lemma EnterMore(codes: seq<HuffCode>, syms: seq<nat>, ds: seq<nat>, m: nat, cleared: nat, n: nat)
    requires Entered(codes, syms, ds, m, cleared, n) && m < |syms|
    ensures Entered(codes[syms[m] := codes[syms[m]].(length := ds[m])], syms, ds, m + 1, cleared, n)
  {
    var now := codes[syms[m] := codes[syms[m]].(length := ds[m])];
    assert syms[..m + 1] == syms[..m] + [syms[m]];
  }

  lemma EnterStart(codes: seq<HuffCode>, syms: seq<nat>, ds: seq<nat>, cleared: nat, n: nat)
    requires |syms| == |ds| && (forall k :: 0 <= k < |syms| ==> syms[k] < n) && n <= |codes|
    requires forall s :: 0 <= s < cleared && s < n ==> codes[s] == HuffCode(0, 0, 0)
    ensures Entered(codes, syms, ds, 0, cleared, n)
  {}

  lemma EnterDone(codes: seq<HuffCode>, syms: seq<nat>, ds: seq<nat>, cleared: nat, n: nat, symbols: set<nat>)
    requires Entered(codes, syms, ds, |syms|, cleared, n) && Lists(syms, symbols)
    requires forall s :: cleared <= s < n ==> s in symbols
    ensures LengthsOf(codes[..n]) == Scatter(syms, ds, |syms|, n)
  {
    assert syms[..|syms|] == syms;
    var lens, want := LengthsOf(codes[..n]), Scatter(syms, ds, |syms|, n);
    forall s: nat | s < n ensures lens[s] == want[s] {
      if s >= cleared { assert s in symbols; }
    }
  }

  lemma {:induction false} ScatterAt(syms: seq<nat>, ds: seq<nat>, m: nat, n: nat, k: nat)
    requires m <= |syms| == |ds| && (forall k :: 0 <= k < |syms| ==> syms[k] < n) && k < m
    requires forall a, b :: 0 <= a < b < |syms| ==> syms[a] != syms[b]
    ensures Scatter(syms, ds, m, n)[syms[k]] == ds[k]
  {
    if k < m - 1 { ScatterAt(syms, ds, m - 1, n, k); }
  }

  /** Lengths of a code of least cost. */
  ghost predicate Cheapest(symbols: set<nat>, wt: seq<nat>, l: seq<nat>) {
    Minimal(symbols, wt, l) && exists h: nat :: Coded(symbols, l, h)
  }

  /** There is a code of least cost whose lengths have been taken, if they are not above `max`, and certainly if none of the
      lengths taken reaches `max`. */
  ghost predicate CheapIfShort(symbols: set<nat>, hist: seq<nat>, max: nat, lens: seq<nat>) {
    exists free: seq<nat> :: Free(symbols, hist, max, lens, free)
  }

  ghost predicate Free(symbols: set<nat>, hist: seq<nat>, max: nat, lens: seq<nat>, free: seq<nat>) {
    |free| == |lens| && Cheapest(symbols, hist, free) && (Lengths(free, max) || (max >= 1 && Lengths(lens, max - 1)) ==> lens == free)
  }

  lemma CheapBelow(symbols: set<nat>, hist: seq<nat>, max: nat, lens: seq<nat>)
    requires CheapIfShort(symbols, hist, max, lens) && max >= 1 && Lengths(lens, max - 1)
    ensures Cheapest(symbols, hist, lens)
  {
    hide Cheapest;
  }

  /** The weights in the heap are the frequencies, where these are not padded. */
  lemma PaddedCheap(symbols: set<nat>, hist: seq<nat>, least: nat, max: nat, lens: seq<nat>, free: seq<nat>)
    requires Cheapest(symbols, AtLeast(hist, least), free) && |free| == |lens| == |hist| <= 859 && max >= 1
    requires Lengths(free, max) || Lengths(lens, max - 1) ==> lens == free
    requires forall s :: s in symbols ==> s < |hist| && hist[s] >= least
    ensures CheapIfShort(symbols, hist, max, lens)
  {
    hide Coded, Lengths;
    PaddedCost(symbols, hist, least, free);
    forall other: seq<nat>, h: nat | |other| == |free| && Coded(symbols, other, h) ensures Cost(symbols, hist, free) <= Cost(symbols, hist, other) {
      PaddedCost(symbols, hist, least, other);
    }
    assert Free(symbols, hist, max, lens, free);
  }

  lemma PaddedCost(symbols: set<nat>, hist: seq<nat>, least: nat, l: seq<nat>)
    requires |l| == |hist| <= 859 && forall s :: s in symbols ==> s < |hist| && hist[s] >= least
    ensures Cost(symbols, AtLeast(hist, least), l) == Cost(symbols, hist, l)
  {
    hide SumOf;
    SumSame(symbols, Costs(AtLeast(hist, least), l), Costs(hist, l), |l|);
  }

  /** The depths of the leaves, entered in a table, cost what the tree costs. */
  lemma TableCost(leaves: seq<nat>, depths: seq<nat>, weights: seq<nat>, wt: seq<nat>, symbols: set<nat>, n: nat)
    requires |leaves| == |depths| == |weights| && Lists(leaves, symbols) && (forall k :: 0 <= k < |leaves| ==> leaves[k] < n)
    requires forall k :: 0 <= k < |leaves| ==> weights[k] == if leaves[k] < |wt| then wt[leaves[k]] else 0
    ensures Cost(symbols, wt, Scatter(leaves, depths, |leaves|, n)) == ListSum(Costs(weights, depths))
  {
    hide Scatter, SumOf, ListSum;
    var table := Scatter(leaves, depths, |leaves|, n);
    forall k | 0 <= k < |leaves| ensures Costs(wt, table)[leaves[k]] == Costs(weights, depths)[k] {
      ScatterAt(leaves, depths, |leaves|, n, k);
    }
    ListIsSum(leaves, Costs(weights, depths), Costs(wt, table), symbols);
  }

  /** They are the lengths of a code. */
  lemma TableCode(leaves: seq<nat>, depths: seq<nat>, symbols: set<nat>, n: nat, h: nat)
    requires |leaves| == |depths| && Lists(leaves, symbols) && (forall k :: 0 <= k < |leaves| ==> leaves[k] < n && depths[k] <= h)
    requires ListSum(Shares(depths, h)) <= Pow2(h)
    ensures Coded(symbols, Scatter(leaves, depths, |leaves|, n), h)
  {
    hide Scatter, SumOf, ListSum, Share, Pow2;
    var table := Scatter(leaves, depths, |leaves|, n);
    forall k | 0 <= k < |leaves| ensures table[leaves[k]] == depths[k] && Shares(table, h)[leaves[k]] == Shares(depths, h)[k] {
      ScatterAt(leaves, depths, |leaves|, n, k);
    }
    ListIsSum(leaves, Shares(depths, h), Shares(table, h), symbols);
    forall x | x in symbols ensures x < |table| && table[x] <= h {
      assert x in leaves;
      var k :| 0 <= k < |leaves| && leaves[k] == x;
    }
  }

  lemma {:induction false} DepthsBound(child: seq<nat>, par: seq<nat>, root: nat, last: nat, i: nat)
    requires Parents(par, root, last) && root <= i <= last + 1 <= |child|
    ensures |LeafDepths(child, par, root, last, i)| == |Leaves(child, root, i)|
    ensures forall k :: 0 <= k < |LeafDepths(child, par, root, last, i)| ==> LeafDepths(child, par, root, last, i)[k] <= last - root
    decreases i
  {
    hide DepthOf, Parents;
    if i > root {
      DepthsBound(child, par, root, last, i - 1);
      DepthBound(par, root, last, i - 1);
    }
  }

  /** A shorter table is as good as one with entries that are not used. */
  lemma Extended(symbols: set<nat>, wt: seq<nat>, l: seq<nat>, more: seq<nat>, h: nat)
    requires forall s :: s in symbols ==> s < |l|
    ensures (Coded(symbols, l + more, h) <==> Coded(symbols, l, h)) && Cost(symbols, wt, l + more) == Cost(symbols, wt, l)
  {
    hide SumOf, Pow2, Share;
    var all, n := l + more, |l|;
    SumBeyond(symbols, Shares(all, h), n, |all|);
    SumSame(symbols, Shares(all, h), Shares(l, h), n);
    SumBeyond(symbols, Costs(wt, all), n, |all|);
    SumSame(symbols, Costs(wt, all), Costs(wt, l), n);
  }

  lemma PricedMinimal(child: seq<nat>, wt: seq<nat>, wt0: seq<nat>, symbols: set<nat>, root: nat, last: nat, table: seq<nat>)
    requires Priced(child, wt, wt0, symbols, root, last) && last < |child| && |table| <= |wt0|
    requires Cost(symbols, wt0, table) == PlaceSum(child, wt, root + 1, last)
    ensures Minimal(symbols, wt0, table)
  {
    hide Coded, Cost, PlaceSum, Adds;
    forall other: seq<nat>, h: nat | |other| == |table| && Coded(symbols, other, h) ensures Cost(symbols, wt0, table) <= Cost(symbols, wt0, other) {
      CodedBound(symbols, other, h);
      Extended(symbols, wt0, other, Zeros(|wt0| - |other|), h);
    }
  }

  lemma PricedKeeps(child: seq<nat>, wt: seq<nat>, wt0: seq<nat>, symbols: set<nat>, root: nat, last: nat)
    requires Priced(child, wt, wt0, symbols, root, last)
    ensures Adds(child, wt, root, last) && last < |child| && |wt| == |wt0| && forall s :: s in symbols ==> s < |wt0| && wt[s] == wt0[s]
  {}

  lemma SameWeights(leaves: seq<nat>, weights: seq<nat>, wt: seq<nat>, wt0: seq<nat>, symbols: set<nat>)
    requires |weights| == |leaves| && Lists(leaves, symbols) && |wt| == |wt0| && forall s :: s in symbols ==> s < |wt0| && wt[s] == wt0[s]
    requires forall k :: 0 <= k < |leaves| ==> weights[k] == if leaves[k] < |wt| then wt[leaves[k]] else 0
    ensures forall k :: 0 <= k < |leaves| ==> weights[k] == if leaves[k] < |wt0| then wt0[leaves[k]] else 0
  {
    forall k | 0 <= k < |leaves| ensures weights[k] == if leaves[k] < |wt0| then wt0[leaves[k]] else 0 { assert leaves[k] in symbols; }
  }

  lemma CheapestIs(symbols: set<nat>, wt: seq<nat>, l: seq<nat>, h: nat)
    requires Minimal(symbols, wt, l) && Coded(symbols, l, h)
    ensures Cheapest(symbols, wt, l)
  {
    hide Minimal, Coded;
  }

  /** The depths of a tree of least cost are the lengths of a code of least cost. */
  lemma LeastDepths(child: seq<nat>, par: seq<nat>, wt: seq<nat>, wt0: seq<nat>, symbols: set<nat>, root: nat, last: nat, leaves: seq<nat>, depths: seq<nat>, n: nat)
    requires Priced(child, wt, wt0, symbols, root, last) && FullTree(child, par, root, last) && Lists(leaves, symbols) && n <= |wt0|
    requires Parents(par, root, last) && root <= last < |child| && leaves == Leaves(child, root, last + 1) && depths == LeafDepths(child, par, root, last, last + 1)
    requires |leaves| == |depths| && forall k :: 0 <= k < |leaves| ==> leaves[k] < n
    ensures Cheapest(symbols, wt0, Scatter(leaves, depths, |leaves|, n))
  {
    hide *;
    PricedKeeps(child, wt, wt0, symbols, root, last);
    CostOfLeaves(child, par, wt, root, last);
    LeafWeightsAre(child, wt, root, last + 1);
    var weights := LeafWeights(child, wt, root, last + 1);
    SameWeights(leaves, weights, wt, wt0, symbols);
    TableCost(leaves, depths, weights, wt0, symbols, n);
    PricedMinimal(child, wt, wt0, symbols, root, last, Scatter(leaves, depths, |leaves|, n));
    DepthsBound(child, par, root, last, last + 1);
    SharesOfLeaves(child, par, root, last);
    TableCode(leaves, depths, symbols, n, last - root);
    CheapestIs(symbols, wt0, Scatter(leaves, depths, |leaves|, n), last - root);
  }

  lemma ListBound(leaves: seq<nat>, symbols: set<nat>, n: nat)
    requires Lists(leaves, symbols) && forall s :: s in symbols ==> s < n
    ensures forall k :: 0 <= k < |leaves| ==> leaves[k] < n
  {
    forall k | 0 <= k < |leaves| ensures leaves[k] < n { assert leaves[k] in symbols; }
  }

  /** Builds the tree of a heap and enters the limited depths of its leaves as code lengths. `codesCount` entries are
      cleared; the symbols behind them must all have a code. The depths themselves make a code of least cost; they are the
      lengths if none is too long, and certainly if no length reaches the maximum. */
  method GenHuffCodeLens(heap: array<nat>, child: array<nat>, depth: array<nat>, count: array<nat>, heapSize: nat, blCount: array<nat>,
                         codes: array<HuffCode>, codesCount: nat, maxCodeLen: nat, ghost symbols: set<nat>, ghost n: nat, ghost wt: seq<nat>)
    returns (ghost free: seq<nat>)
    requires heap != child && heap != depth && heap != count && heap != blCount && child != depth && child != count && child != blCount
    requires depth != count && depth != blCount && count != blCount
    requires 2 <= heapSize <= 286 && Holds(heap[..], heapSize, symbols) && heapSize == |symbols|
    requires child.Length == depth.Length == count.Length == 859 && (forall i :: 0 <= i < 859 ==> depth[i] == 0)
    requires 1 <= maxCodeLen < blCount.Length && |symbols| <= Pow2(maxCodeLen)
    requires codesCount <= n <= codes.Length && n <= 286 && (forall s :: s in symbols ==> s < n) && forall s :: codesCount <= s < n ==> s in symbols
    modifies heap, child, depth, count, blCount, codes
    ensures GoodLengths(LengthsOf(codes[..n]), symbols, blCount[..], maxCodeLen)
    ensures codes[n..] == old(codes[n..])
    ensures forall s :: 0 <= s < codesCount ==> codes[s].code == 0 && codes[s].extraBitCount == 0
    ensures |free| == n && (Lengths(free, maxCodeLen) || Lengths(LengthsOf(codes[..n]), maxCodeLen - 1) ==> LengthsOf(codes[..n]) == free)
    ensures old(|wt| == 859 && Loaded(heap[..], heapSize, symbols, wt)) ==> Cheapest(symbols, wt, free)
  {
    hide *;
    ghost var pos, wt1;
    var root, last := 0, 858;
    root, pos, wt1 := BuildHuffTree(heap, child, heapSize, last, symbols, wt);
    ghost var par := ParentSeq(pos, root, last);
    TreeIsFull(child[..], pos, symbols, root, last);
    TreeParts(child[..], par, root, last);
    TreeLeaves(child[..], pos, symbols, root, last);
    ListSize(Leaves(child[..], root, last + 1), symbols);
    ghost var leaves, child0 := Leaves(child[..], root, last + 1), child[..];
    ListBound(leaves, symbols, n);
    ghost var depths := LeafDepths(child0, par, root, last, last + 1);
    DepthsBound(child0, par, root, last, last + 1);
    free := Scatter(leaves, depths, |leaves|, n);
    if old(|wt| == 859 && Loaded(heap[..], heapSize, symbols, wt)) {
      LeastDepths(child0, par, wt1, wt, symbols, root, last, leaves, depths, n);
    }
    var endNode := FixCodeLens(child, depth, count, root, last, blCount, maxCodeLen, par);
    ghost var lens, counted := depth[root..endNode], blCount[..];
    ScatterGood(leaves, lens, n, symbols, blCount[..], maxCodeLen);
    ScatterFits(leaves, depths, n, maxCodeLen, symbols);
    ScatterFits(leaves, lens, n, maxCodeLen - 1, symbols);
    EnterLengths(child, depth, root, endNode, codes, codesCount, symbols, n);
  }

  /** No depth is too long if none in the table is. */
  lemma ScatterFits(leaves: seq<nat>, depths: seq<nat>, n: nat, max: nat, symbols: set<nat>)
    requires |leaves| == |depths| && (forall k :: 0 <= k < |leaves| ==> leaves[k] < n) && Lists(leaves, symbols)
    ensures Lengths(Scatter(leaves, depths, |leaves|, n), max) ==> Lengths(depths, max)
  {
    hide Scatter;
    forall k | 0 <= k < |leaves| ensures Scatter(leaves, depths, |leaves|, n)[leaves[k]] == depths[k] { ScatterAt(leaves, depths, |leaves|, n, k); }
  }

  /** Clears the table and enters the lengths of the listed symbols. */
  method EnterLengths(child: array<nat>, depth: array<nat>, root: nat, endNode: nat, codes: array<HuffCode>, codesCount: nat,
                      ghost symbols: set<nat>, ghost n: nat)
    requires child != depth && root <= endNode <= child.Length && endNode <= depth.Length && codesCount <= n <= codes.Length
    requires Lists(child[root..endNode], symbols) && (forall k :: 0 <= k < endNode - root ==> child[root..endNode][k] < n)
    requires forall s :: codesCount <= s < n ==> s in symbols
    modifies codes
    ensures LengthsOf(codes[..n]) == Scatter(child[root..endNode], depth[root..endNode], endNode - root, n) && codes[n..] == old(codes[n..])
    ensures forall s :: 0 <= s < codesCount ==> codes[s].code == 0 && codes[s].extraBitCount == 0
  {
    hide *;
    ghost var leaves, lens := child[root..endNode], depth[root..endNode];
    ClearCodes(codes, codesCount);
    assert codes[n..] == codes[codesCount..][n - codesCount..];
    assert old(codes[n..]) == old(codes[codesCount..])[n - codesCount..];
    EnterStart(codes[..], leaves, lens, codesCount, n);
    var node := root;
    while node < endNode
      invariant root <= node <= endNode && codes[n..] == old(codes[n..])
      invariant Entered(codes[..], leaves, lens, node - root, codesCount, n)
    {
      ghost var was := codes[..];
      EnterMore(was, leaves, lens, node - root, codesCount, n);
      assert child[node] == leaves[node - root] && depth[node] == lens[node - root];
      codes[child[node]] := codes[child[node]].(length := depth[node]);
      assert codes[..] == was[leaves[node - root] := was[leaves[node - root]].(length := lens[node - root])];
      node := node + 1;
    }
    EnterDone(codes[..], leaves, lens, codesCount, n, symbols);
    ClearedCodes(codes[..], leaves, lens, codesCount, n);
  }

  lemma ClearedCodes(codes: seq<HuffCode>, syms: seq<nat>, ds: seq<nat>, cleared: nat, n: nat)
    requires Entered(codes, syms, ds, |syms|, cleared, n) && cleared <= n
    ensures n <= |codes| && forall s :: 0 <= s < cleared ==> codes[s].code == 0 && codes[s].extraBitCount == 0
  {}

  method ClearCodes(codes: array<HuffCode>, n: nat)
    requires n <= codes.Length
    modifies codes
    ensures codes[n..] == old(codes[n..]) && forall s :: 0 <= s < n ==> codes[s] == HuffCode(0, 0, 0)
  {
    var i := 0;
    while i < n
      invariant 0 <= i <= n && codes[n..] == old(codes[n..]) && forall s :: 0 <= s < i ==> codes[s] == HuffCode(0, 0, 0)
    {
      codes[i] := HuffCode(0, 0, 0);
      i := i + 1;
    }
  }

  /** Good lengths meet what the assignment of codes asks for; the counts above the maximum are taken as zero. */
  ghost function FullCounts(blCount: seq<nat>, max: nat): (count: seq<nat>)
    requires max < |blCount|
    ensures |count| == 16 && forall l: nat :: l < 16 ==> count[l] == if l <= max then blCount[l] else 0
  {
    seq(16, l requires 0 <= l < 16 => if l <= max then blCount[l] else 0)
  }

  lemma GoodIsCanonical(lens: seq<nat>, symbols: set<nat>, blCount: seq<nat>, max: nat)
    requires GoodLengths(lens, symbols, blCount, max) && max <= 15 && |blCount| >= 16
    ensures Agree(blCount, FullCounts(blCount, max), max) && CountsMatch(lens, FullCounts(blCount, max)) && Kraft(FullCounts(blCount, max))
    ensures Horner(FullCounts(blCount, max), 15) == Pow2(15)
  {
    var count := FullCounts(blCount, max);
    hide Horner, Pow2, CountOf;
    HornerSame(count, blCount, max);
    HornerZeros(count, max, 15);
    forall l | max < l <= 15 ensures CountOf(lens, l) == 0 { NoneAt(lens, l); }
  }
}
