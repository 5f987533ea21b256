/** Weights on a heap: what the entries weigh together, and that the two first ones weigh least. */
module Weights {
  import opened HeapOrder

  /** The heap entry of x. */
  function Value(wt: seq<nat>, x: nat): nat
    requires x < |wt|
  {
    wt[x] * 65536 + x
  }

  ghost predicate WeighedAs(e: nat, wt: seq<nat>) { Name(e) < |wt| && e == Value(wt, Name(e)) }

  ghost predicate Weighted(heap: seq<nat>, n: nat, wt: seq<nat>) {
    n < |heap| && forall a :: 1 <= a <= n ==> WeighedAs(heap[a], wt)
  }

  lemma WeightedSame(heap: seq<nat>, now: seq<nat>, n: nat, wt: seq<nat>)
    requires Weighted(heap, n, wt) && SameEntries(heap, now, n)
    ensures Weighted(now, n, wt)
  {
    hide WeighedAs;
    forall a | 1 <= a <= n ensures WeighedAs(now[a], wt) {
      assert Among(now, n, now[a]);
      assert Among(heap, n, now[a]);
      var c :| 1 <= c <= n && heap[c] == now[a];
    }
  }

  // -- sums over sets of names

  function SumOf(names: set<nat>, f: seq<nat>, m: nat): nat
    requires m <= |f|
  {
    if m == 0 then 0 else SumOf(names, f, m - 1) + if m - 1 in names then f[m - 1] else 0
  }

  lemma {:induction false} SumWithout(names: set<nat>, f: seq<nat>, m: nat, x: nat)
    requires x in names && m <= |f| && x < |f|
    ensures SumOf(names, f, m) == SumOf(names - {x}, f, m) + if x < m then f[x] else 0
  {
    if m > 0 { SumWithout(names, f, m - 1, x); }
  }

  lemma {:induction false} SumSame(names: set<nat>, f: seq<nat>, g: seq<nat>, m: nat)
    requires m <= |f| && m <= |g| && forall x :: x in names && x < m ==> f[x] == g[x]
    ensures SumOf(names, f, m) == SumOf(names, g, m)
  {
    if m > 0 { SumSame(names, f, g, m - 1); }
  }

  /** Nothing is added where there are no names. */
  lemma {:induction false} SumBeyond(names: set<nat>, f: seq<nat>, n: nat, m: nat)
    requires n <= m <= |f| && forall x :: x in names ==> x < n
    ensures SumOf(names, f, m) == SumOf(names, f, n)
    decreases m
  {
    if m > n { SumBeyond(names, f, n, m - 1); }
  }

  lemma {:induction false} NoSum(f: seq<nat>, m: nat)
    requires m <= |f|
    ensures SumOf({}, f, m) == 0
  {
    if m > 0 { NoSum(f, m - 1); }
  }

  lemma SumTwo(names: set<nat>, f: seq<nat>, x: nat, y: nat)
    requires x in names && y in names && x != y && x < |f| && y < |f|
    ensures SumOf(names, f, |f|) == SumOf(names - {x} - {y}, f, |f|) + f[x] + f[y]
  {
    SumWithout(names, f, |f|, x);
    SumWithout(names - {x}, f, |f|, y);
  }

  /** Putting p in the place of x and y. */
  lemma SumJoined(names: set<nat>, f: seq<nat>, x: nat, y: nat, p: nat, v: nat)
    requires x in names && y in names && x != y && x < |f| && y < |f| && p !in names && p < |f|
    ensures SumOf(names - {x} - {y} + {p}, f[p := v], |f|) + f[x] + f[y] == SumOf(names, f, |f|) + v
  {
    var rest := names - {x} - {y};
    SumTwo(names, f, x, y);
    SumWithout(rest + {p}, f[p := v], |f|, p);
    assert rest + {p} - {p} == rest;
    SumSame(rest, f, f[p := v], |f|);
  }

  function SumFirst(hist: seq<nat>, m: nat): nat
    requires m <= |hist|
  {
    if m == 0 then 0 else SumFirst(hist, m - 1) + hist[m - 1]
  }

  // -- the heap

  /** An ordered heap whose entries are names with their weights; together they weigh less than 2^48. */
  ghost predicate Loaded(heap: seq<nat>, n: nat, names: set<nat>, wt: seq<nat>) {
    Weighted(heap, n, wt) && OrderedFrom(heap, n, 1) && Holds(heap, n, names) && |wt| <= 1000 && SumOf(names, wt, |wt|) < 0x1_0000_0000_0000
  }

  lemma NamesBound(heap: seq<nat>, n: nat, names: set<nat>, wt: seq<nat>)
    requires Weighted(heap, n, wt) && Holds(heap, n, names)
    ensures forall y :: y in names ==> y < |wt|
  {
    forall y | y in names ensures y < |wt| {
      assert Occurs(heap, n, y);
      var c :| 1 <= c <= n && Name(heap[c]) == y;
      assert WeighedAs(heap[c], wt);
    }
  }

  /** The first entry weighs least. */
  lemma LeastWeight(heap: seq<nat>, n: nat, names: set<nat>, wt: seq<nat>, y: nat)
    requires n >= 1 && Weighted(heap, n, wt) && OrderedFrom(heap, n, 1) && Holds(heap, n, names) && y in names && |wt| <= 65536
    ensures Name(heap[1]) < |wt| && y < |wt| && wt[Name(heap[1])] <= wt[y]
  {
    assert Occurs(heap, n, y);
    var c :| 1 <= c <= n && Name(heap[c]) == y;
    FirstIsLeast(heap, n, c);
    assert WeighedAs(heap[1], wt) && WeighedAs(heap[c], wt);
  }

  /** No name weighs less than x, and none but x less than y. */
  ghost predicate LeastTwo(names: set<nat>, wt: seq<nat>, x: nat, y: nat) {
    x in names && y in names && x != y && forall u :: u in names ==> u < |wt| && x < |wt| && y < |wt| && wt[x] <= wt[u] && (u != x ==> wt[y] <= wt[u])
  }

  lemma PickTwo(heap: seq<nat>, n: nat, names: set<nat>, wt: seq<nat>, mid: seq<nat>)
    requires 2 <= n < |heap| && n <= |mid| && Loaded(heap, n, names, wt) && Name(heap[1]) in names
    requires Holds(mid, n - 1, names - {Name(heap[1])}) && Weighted(mid, n - 1, wt) && OrderedFrom(mid, n - 1, 1) && Name(mid[1]) in names - {Name(heap[1])}
    ensures LeastTwo(names, wt, Name(heap[1]), Name(mid[1]))
  {
    hide Holds, OrderedFrom, Weighted, SumOf;
    var x, y := Name(heap[1]), Name(mid[1]);
    forall u | u in names ensures u < |wt| && x < |wt| && y < |wt| && wt[x] <= wt[u] && (u != x ==> wt[y] <= wt[u]) {
      LeastWeight(heap, n, names, wt, u);
      LeastWeight(heap, n, names, wt, y);
      if u != x { LeastWeight(mid, n - 1, names - {x}, wt, u); }
    }
  }

  lemma JoinedValue(wt: seq<nat>, x: nat, y: nat, p: nat)
    requires x < |wt| <= 1000 && y < |wt| && p < |wt| && wt[x] + wt[y] < 0x1_0000_0000_0000
    ensures JoinedEntry(Value(wt, x), Value(wt, y), p) == Value(wt[p := wt[x] + wt[y]], p)
  {
    Carries(wt[x], wt[y], x, y);
  }

  lemma Carries(v: nat, w: nat, x: nat, y: nat)
    requires x < 1000 && y < 1000 && v + w < 0x1_0000_0000_0000
    ensures (v * 65536 + x + (w * 65536 + y)) % 0x1_0000_0000_0000_0000 / 65536 == v + w
  {}

  lemma PopWeights(heap: seq<nat>, n: nat, wt: seq<nat>)
    requires n >= 2 && Weighted(heap, n, wt)
    ensures Weighted(heap[1 := heap[n]][n := SENTINEL], n - 1, wt)
  {
    hide WeighedAs;
  }

  lemma JoinWeights(heap: seq<nat>, n: nat, names: set<nat>, wt: seq<nat>, p: nat, v: nat)
    requires n >= 1 && Weighted(heap, n, wt) && Holds(heap, n, names) && p !in names && p < |wt| && p < 65536
    ensures Weighted(heap[1 := Value(wt[p := v], p)], n, wt[p := v])
  {
    var wt' := wt[p := v];
    var now := heap[1 := Value(wt', p)];
    forall a | 1 <= a <= n ensures WeighedAs(now[a], wt') {
      if a == 1 { ValueName(wt', p); } else { assert WeighedAs(heap[a], wt) && Name(heap[a]) in names; }
    }
  }

  lemma ValueName(wt: seq<nat>, x: nat)
    requires x < |wt| && x < 65536
    ensures Name(Value(wt, x)) == x
  {
    RemainderIs(wt[x], x);
  }

  lemma RemainderIs(w: nat, x: nat)
    requires x < 65536
    ensures (w * 65536 + x) % 65536 == x
  {}

  lemma FirstValue(heap: seq<nat>, n: nat, wt: seq<nat>)
    requires n >= 1 && Weighted(heap, n, wt)
    ensures Name(heap[1]) < |wt| && heap[1] == Value(wt, Name(heap[1]))
  {
    assert WeighedAs(heap[1], wt);
  }

  /** One joining step takes the two least weights, and the node weighs as much as both. */
  lemma JoinStep(heap: seq<nat>, n: nat, names: set<nat>, wt: seq<nat>, mid: seq<nat>, now: seq<nat>, p: nat)
    requires 2 <= n < |heap| && n <= |mid| && Loaded(heap, n, names, wt) && Name(heap[1]) in names && p < |wt| && p !in names
    requires Holds(mid, n - 1, names - {Name(heap[1])}) && Weighted(mid, n - 1, wt) && OrderedFrom(mid, n - 1, 1) && Name(mid[1]) in names - {Name(heap[1])}
    requires SameEntries(mid[1 := JoinedEntry(heap[1], mid[1], p)], now, n - 1) && OrderedFrom(now, n - 1, 1)
    requires Holds(now, n - 1, names - {Name(heap[1])} - {Name(mid[1])} + {p})
    ensures LeastTwo(names, wt, Name(heap[1]), Name(mid[1])) && Name(heap[1]) < |wt| && Name(mid[1]) < |wt|
    ensures Loaded(now, n - 1, names - {Name(heap[1])} - {Name(mid[1])} + {p}, wt[p := wt[Name(heap[1])] + wt[Name(mid[1])]])
  {
    var x, y := Name(heap[1]), Name(mid[1]);
    PickTwo(heap, n, names, wt, mid);
    FirstValue(heap, n, wt);
    FirstValue(mid, n - 1, wt);
    hide Holds, OrderedFrom, SumOf, WeighedAs, JoinedEntry, Value, Weighted, SameEntries, LeastTwo;
    SumTwo(names, wt, x, y);
    JoinedValue(wt, x, y, p);
    JoinWeights(mid, n - 1, names - {x}, wt, p, wt[x] + wt[y]);
    WeightedSame(mid[1 := JoinedEntry(heap[1], mid[1], p)], now, n - 1, wt[p := wt[x] + wt[y]]);
    SumJoined(names, wt, x, y, p, wt[x] + wt[y]);
  }
}
