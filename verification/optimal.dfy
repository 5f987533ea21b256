/** Codes of least cost: joining the two least weights never costs anything that a better code would not cost as well. */
module Optimal {
  import opened Bits
  import opened Weights

  /** The share 2^-n of a code of length n, as a multiple of 2^-h. */
  function Share(n: nat, h: nat): nat { if n <= h then Pow2(h - n) else 0 }

  function Shares(l: seq<nat>, h: nat): (t: seq<nat>)
    ensures |t| == |l| && forall x: nat :: x < |l| ==> t[x] == Share(l[x], h)
  {
    seq(|l|, x requires 0 <= x < |l| => Share(l[x], h))
  }

  function Costs(wt: seq<nat>, l: seq<nat>): (c: seq<nat>)
    ensures |c| == |l| && forall x: nat :: x < |l| ==> c[x] == if x < |wt| then wt[x] * l[x] else 0
  {
    seq(|l|, x requires 0 <= x < |l| => if x < |wt| then wt[x] * l[x] else 0)
  }

  /** The lengths, none above h, meet the Kraft inequality: there is a prefix code with them. */
  ghost predicate Coded(names: set<nat>, l: seq<nat>, h: nat) {
    (forall x :: x in names ==> x < |l| && l[x] <= h) && SumOf(names, Shares(l, h), |l|) <= Pow2(h)
  }

  /** The total number of bits, when x occurs wt[x] times. */
  function Cost(names: set<nat>, wt: seq<nat>, l: seq<nat>): nat { SumOf(names, Costs(wt, l), |l|) }

  /** No prefix code for these names takes fewer bits. */
  ghost predicate Minimal(names: set<nat>, wt: seq<nat>, l: seq<nat>) {
    forall other: seq<nat>, h: nat :: |other| == |l| && Coded(names, other, h) ==> Cost(names, wt, l) <= Cost(names, wt, other)
  }

  // -- the two least weights can be given the two longest codes, of the same length

  /** At least as good a code. */
  ghost predicate Better(names: set<nat>, wt: seq<nat>, h: nat, l: seq<nat>, l': seq<nat>) {
    |l'| == |l| && Coded(names, l', h) && Cost(names, wt, l') <= Cost(names, wt, l)
  }

  function Swap(l: seq<nat>, x: nat, u: nat): (r: seq<nat>)
    requires x < |l| && u < |l|
    ensures |r| == |l|
  {
    l[x := l[u]][u := l[x]]
  }

  /** The lighter one may have the longer code. */
  lemma SwapBetter(names: set<nat>, wt: seq<nat>, l: seq<nat>, h: nat, x: nat, u: nat)
    requires Coded(names, l, h) && x in names && u in names && |wt| == |l| && wt[x] <= wt[u] && l[x] <= l[u]
    ensures Better(names, wt, h, l, Swap(l, x, u))
  {
    hide Pow2, SumOf;
    var l' := Swap(l, x, u);
    if x == u {
      assert l' == l;
    } else {
      var m, rest := |l|, names - {x} - {u};
      SumTwo(names, Shares(l, h), x, u);
      SumTwo(names, Shares(l', h), x, u);
      SumSame(rest, Shares(l, h), Shares(l', h), m);
      SumTwo(names, Costs(wt, l), x, u);
      SumTwo(names, Costs(wt, l'), x, u);
      SumSame(rest, Costs(wt, l), Costs(wt, l'), m);
      Rearranged(wt[x], wt[u], l[x], l[u]);
    }
  }

  lemma Rearranged(a: nat, b: nat, c: nat, d: nat)
    requires a <= b && c <= d
    ensures a * d + b * c <= a * c + b * d
  {
    assert (b - a) * (d - c) >= 0;
    assert (b - a) * (d - c) == b * d - b * c - (a * d - a * c);
  }

  lemma {:induction false} Longest(names: set<nat>, l: seq<nat>) returns (u: nat)
    requires names != {} && forall x :: x in names ==> x < |l|
    ensures u in names && forall x :: x in names ==> l[x] <= l[u]
    decreases |names|
  {
    var z :| z in names;
    var rest := names - {z};
    if rest == {} {
      u := z;
      forall x | x in names ensures l[x] <= l[u] { assert x == z || x in rest; }
    } else {
      u := Longest(rest, l);
      if l[u] < l[z] { u := z; }
      forall x | x in names ensures l[x] <= l[u] { assert x == z || x in rest; }
    }
  }

  lemma BetterTwice(names: set<nat>, wt: seq<nat>, h: nat, l: seq<nat>, l': seq<nat>, l'': seq<nat>)
    requires Better(names, wt, h, l, l') && Better(names, wt, h, l', l'')
    ensures Better(names, wt, h, l, l'')
  {
    hide Coded, Cost;
  }

  /** x has the longest code, and no other name a longer one than y. */
  ghost predicate LastTwo(names: set<nat>, l: seq<nat>, x: nat, y: nat) {
    x < |l| && y < |l| && l[y] <= l[x] && forall u :: u in names && u != x ==> u < |l| && l[u] <= l[y]
  }

  lemma BetterCode(names: set<nat>, wt: seq<nat>, h: nat, l: seq<nat>, l': seq<nat>)
    requires Better(names, wt, h, l, l')
    ensures |l'| == |l| && Coded(names, l', h)
  {}

  lemma CodedBound(names: set<nat>, l: seq<nat>, h: nat)
    requires Coded(names, l, h)
    ensures forall x :: x in names ==> x < |l| && l[x] <= h
  {}

  lemma LeastLast(names: set<nat>, wt: seq<nat>, l: seq<nat>, h: nat, x: nat, y: nat) returns (l': seq<nat>)
    requires Coded(names, l, h) && |wt| == |l| && LeastTwo(names, wt, x, y)
    ensures Better(names, wt, h, l, l') && LastTwo(names, l', x, y)
  {
    hide Coded, Better;
    CodedBound(names, l, h);
    var u := Longest(names, l);
    SwapBetter(names, wt, l, h, x, u);
    var l1 := Swap(l, x, u);
    BetterCode(names, wt, h, l, l1);
    CodedBound(names, l1, h);
    assert y in names - {x};
    var v := Longest(names - {x}, l1);
    SwapBetter(names, wt, l1, h, y, v);
    l' := Swap(l1, y, v);
    BetterTwice(names, wt, h, l, l1, l');
  }

  // -- a single longest code can be shortened

  /** Shares of codes no longer than d add up to a multiple of its share. */
  lemma {:induction false} SharesDivide(names: set<nat>, l: seq<nat>, m: nat, h: nat, d: nat) returns (q: nat)
    requires m <= |l| && d <= h && forall x :: x in names && x < m ==> l[x] <= d
    ensures SumOf(names, Shares(l, h), m) == q * Pow2(h - d)
  {
    hide Pow2;
    if m == 0 {
      q := 0;
    } else {
      q := SharesDivide(names, l, m - 1, h, d);
      if m - 1 in names {
        var n := l[m - 1];
        Pow2Add(d - n, h - d);
        Distribute(q, Pow2(d - n), Pow2(h - d));
        q := q + Pow2(d - n);
      }
    }
  }

  lemma Distribute(a: nat, b: nat, p: nat)
    ensures (a + b) * p == a * p + b * p
  {}

  /** Multiples of p that are not p * t and below it leave room for p. */
  lemma RoomFor(q: nat, t: nat, p: nat, s: nat)
    requires q * p + s <= t * p && s >= 1
    ensures (q + 1) * p <= t * p
  {
    if q >= t { Monotone(t, q, p); } else { Monotone(q + 1, t, p); }
  }

  lemma Monotone(a: nat, b: nat, p: nat)
    requires a <= b
    ensures a * p <= b * p
  {}

  lemma ShareIs(n: nat, h: nat)
    requires n <= h
    ensures Share(n, h) == Pow2(h - n) >= 1
  {}

  lemma Level(names: set<nat>, wt: seq<nat>, l: seq<nat>, h: nat, x: nat, y: nat)
    requires Coded(names, l, h) && |wt| == |l| && x in names && y in names && x != y && LastTwo(names, l, x, y)
    ensures Better(names, wt, h, l, l[x := l[y]])
  {
    hide Pow2, SumOf, Share;
    var l', m, rest := l[x := l[y]], |l|, names - {x};
    var q := SharesDivide(rest, l, m, h, l[y]);
    SumWithout(names, Shares(l, h), m, x);
    SumWithout(names, Shares(l', h), m, x);
    SumSame(rest, Shares(l, h), Shares(l', h), m);
    Pow2Add(l[y], h - l[y]);
    ShareIs(l[x], h);
    ShareIs(l[y], h);
    RoomFor(q, Pow2(l[y]), Pow2(h - l[y]), Share(l[x], h));
    Distribute(q, 1, Pow2(h - l[y]));
    SumWithout(names, Costs(wt, l), m, x);
    SumWithout(names, Costs(wt, l'), m, x);
    SumSame(rest, Costs(wt, l), Costs(wt, l'), m);
    Scaled(wt[x], l[y], l[x]);
  }

  lemma Scaled(w: nat, a: nat, b: nat)
    requires a <= b
    ensures w * a <= w * b
  {}

  // -- joining

  /** Two codes of the same length give way to one that is shorter by a bit. */
  lemma JoinCode(names: set<nat>, wt: seq<nat>, l: seq<nat>, h: nat, x: nat, y: nat, p: nat)
    requires Coded(names, l, h) && |wt| == |l| && x in names && y in names && x != y && p !in names && p < |l| && l[x] == l[y]
    ensures x < |l| && y < |l| && l[x] >= 1
    ensures Coded(names - {x} - {y} + {p}, l[p := l[x] - 1], h)
    ensures Cost(names - {x} - {y} + {p}, wt[p := wt[x] + wt[y]], l[p := l[x] - 1]) + wt[x] + wt[y] == Cost(names, wt, l)
  {
    hide Pow2, SumOf, Share;
    var d := l[x];
    CodedBound(names, l, h);
    SumTwo(names, Shares(l, h), x, y);
    HalfShare(d, h);
    ShareIs(d, h);
    if d == 0 { assert false; }
    var l', wt', names' := l[p := d - 1], wt[p := wt[x] + wt[y]], names - {x} - {y} + {p};
    SumJoined(names, Shares(l, h), x, y, p, Share(d - 1, h));
    assert Shares(l', h) == Shares(l, h)[p := Share(d - 1, h)];
    SumJoined(names, Costs(wt, l), x, y, p, (wt[x] + wt[y]) * (d - 1));
    assert Costs(wt', l') == Costs(wt, l)[p := (wt[x] + wt[y]) * (d - 1)];
    OneLess(wt[x], wt[y], d);
  }

  lemma HalfShare(d: nat, h: nat)
    requires d <= h
    ensures d >= 1 ==> Share(d - 1, h) == 2 * Share(d, h)
    ensures d == 0 ==> Share(d, h) == Pow2(h)
  {}

  lemma OneLess(a: nat, b: nat, d: nat)
    requires d >= 1
    ensures (a + b) * (d - 1) + a + b == a * d + b * d
  {}

  /** Whatever a code for the names costs, one for the names after the joining costs less by the two least weights. */
  lemma Shrink(names: set<nat>, wt: seq<nat>, l: seq<nat>, h: nat, x: nat, y: nat, p: nat) returns (l': seq<nat>)
    requires Coded(names, l, h) && |wt| == |l| && LeastTwo(names, wt, x, y) && p !in names && p < |l|
    ensures x < |wt| && y < |wt| && |l'| == |l| && Coded(names - {x} - {y} + {p}, l', h)
    ensures Cost(names - {x} - {y} + {p}, wt[p := wt[x] + wt[y]], l') + wt[x] + wt[y] <= Cost(names, wt, l)
  {
    hide Coded, Cost, Better;
    var l1 := LeastLast(names, wt, l, h, x, y);
    BetterCode(names, wt, h, l, l1);
    Level(names, wt, l1, h, x, y);
    var l2 := l1[x := l1[y]];
    BetterTwice(names, wt, h, l, l1, l2);
    BetterCode(names, wt, h, l, l2);
    BetterCost(names, wt, h, l, l2);
    JoinCode(names, wt, l2, h, x, y, p);
    l' := l2[p := l2[x] - 1];
  }

  lemma BetterCost(names: set<nat>, wt: seq<nat>, h: nat, l: seq<nat>, l': seq<nat>)
    requires Better(names, wt, h, l, l')
    ensures Cost(names, wt, l') <= Cost(names, wt, l)
  {}

  // -- from step to step

  ghost predicate Left(names: set<nat>, wt: seq<nat>, h: nat, l: seq<nat>, joined: nat, cost: nat) {
    |l| == |wt| && Coded(names, l, h) && Cost(names, wt, l) + joined <= cost
  }

  /** Every code for the symbols costs at least what the joinings so far have cost, and a code for the names left. */
  ghost predicate Reducible(symbols: set<nat>, wt0: seq<nat>, names: set<nat>, wt: seq<nat>, joined: nat) {
    |wt| == |wt0|
    && forall l: seq<nat>, h: nat :: |l| == |wt0| && Coded(symbols, l, h) ==> exists l': seq<nat> :: Left(names, wt, h, l', joined, Cost(symbols, wt0, l))
  }

  lemma ReduceStart(symbols: set<nat>, wt: seq<nat>)
    ensures Reducible(symbols, wt, symbols, wt, 0)
  {
    hide Coded, Cost;
    forall l: seq<nat>, h: nat | |l| == |wt| && Coded(symbols, l, h) ensures exists l': seq<nat> :: Left(symbols, wt, h, l', 0, Cost(symbols, wt, l)) {
      assert Left(symbols, wt, h, l, 0, Cost(symbols, wt, l));
    }
  }

  lemma ReduceStep(symbols: set<nat>, wt0: seq<nat>, names: set<nat>, wt: seq<nat>, joined: nat, x: nat, y: nat, p: nat)
    requires Reducible(symbols, wt0, names, wt, joined) && LeastTwo(names, wt, x, y) && p !in names && p < |wt|
    ensures x < |wt| && y < |wt|
    ensures Reducible(symbols, wt0, names - {x} - {y} + {p}, wt[p := wt[x] + wt[y]], joined + wt[x] + wt[y])
  {
    hide Coded, Cost;
    var names', wt', more := names - {x} - {y} + {p}, wt[p := wt[x] + wt[y]], joined + wt[x] + wt[y];
    forall l: seq<nat>, h: nat | |l| == |wt0| && Coded(symbols, l, h)
      ensures exists l': seq<nat> :: Left(names', wt', h, l', more, Cost(symbols, wt0, l))
    {
      var l1: seq<nat> :| Left(names, wt, h, l1, joined, Cost(symbols, wt0, l));
      var l' := Shrink(names, wt, l1, h, x, y, p);
      assert Left(names', wt', h, l', more, Cost(symbols, wt0, l));
    }
  }

  /** At the end, every code costs at least as much as all joinings. */
  lemma ReduceEnd(symbols: set<nat>, wt0: seq<nat>, names: set<nat>, wt: seq<nat>, joined: nat, l: seq<nat>, h: nat)
    requires Reducible(symbols, wt0, names, wt, joined) && |l| == |wt0| && Coded(symbols, l, h)
    ensures joined <= Cost(symbols, wt0, l)
  {
    hide Coded, Cost;
    var l': seq<nat> :| Left(names, wt, h, l', joined, Cost(symbols, wt0, l));
  }
}
