/** The search for a singular square submatrix, and what it says about an erasure code. */
module Singular {
  import opened Bits
  import opened BitStream
  import opened GF256
  import opened Linear
  import opened Invert
  import opened Cauchy
  import opened Generators
  import opened Subsets

  /** The elements of a set below n, in increasing order. */
  function Members(x: nat, n: nat): (ms: seq<nat>)
    ensures |ms| <= n && forall i :: 0 <= i < |ms| ==> ms[i] < n && Has(x, ms[i])
    ensures forall i, j :: 0 <= i < j < |ms| ==> ms[i] < ms[j]
    ensures forall i :: 0 <= i < n && Has(x, i) ==> i in ms
  {
    if n == 0 then [] else Members(x, n - 1) + if Has(x, n - 1) then [n - 1] else []
  }

  /** A set of s numbers below n. */
  ghost predicate IsSubset(x: nat, n: nat, s: nat) { x < Pow2(n) && Pop(x) == s }

  lemma {:induction false} MembersHalf(x: nat, n: nat)
    requires n > 0
    ensures |Members(x, n)| == x % 2 + |Members(x / 2, n - 1)|
  {
    if n > 1 { MembersHalf(x, n - 1); }
  }

  lemma {:induction false} MembersCount(x: nat, n: nat)
    requires x < Pow2(n)
    ensures |Members(x, n)| == Pop(x)
  {
    if n > 0 {
      MembersHalf(x, n);
      MembersCount(x / 2, n - 1);
    }
  }

  lemma {:induction false} BitTest(x: nat, i: nat)
    ensures And(x, Pow2(i)) != 0 <==> Has(x, i)
  {
    if x == 0 {
      NothingIn(i);
    } else if i > 0 {
      BitTest(x / 2, i - 1);
    } else {
      AndZero(x / 2);
    }
  }

  lemma AndZero(a: nat)
    ensures And(a, 0) == 0
  {}

  lemma {:induction false} NothingIn(i: nat)
    ensures !Has(0, i)
  {
    if i > 0 { NothingIn(i - 1); }
  }

  lemma MembersStep(x: nat, n: nat)
    requires n > 0
    ensures Members(x, n) == Members(x, n - 1) + if Has(x, n - 1) then [n - 1] else []
  {}

  /** Member number |Members(x, i)| is i, when i is one. */
  lemma {:induction false} MembersPrefix(x: nat, i: nat, n: nat)
    requires i < n
    ensures |Members(x, i)| <= |Members(x, i + 1)| <= |Members(x, n)|
    ensures Has(x, i) ==> |Members(x, i)| < |Members(x, n)| && Members(x, n)[|Members(x, i)|] == i
    ensures |Members(x, i + 1)| == |Members(x, i)| + (if Has(x, i) then 1 else 0)
  {
    hide Members, Has;
    MembersStep(x, i + 1);
    MembersStep(x, n);
    if i < n - 1 { MembersPrefix(x, i, n - 1); }
  }

  /** The entries in the chosen rows and columns. */
  function Sub(a: Matrix, rows: nat, cols: nat, rs: seq<nat>, cs: seq<nat>): (b: Matrix)
    requires IsMatrix(a, rows, cols) && (forall i :: 0 <= i < |rs| ==> rs[i] < rows) && (forall j :: 0 <= j < |cs| ==> cs[j] < cols)
    ensures IsMatrix(b, |rs|, |cs|) && forall i, j :: 0 <= i < |rs| && 0 <= j < |cs| ==> b[i][j] == a[rs[i]][cs[j]]
  {
    seq(|rs|, i requires 0 <= i < |rs| => Choose(a[rs[i]], cs))
  }

  /** The submatrix that two sets select. */
  function Selected(a: Matrix, rows: nat, cols: nat, r: nat, c: nat): (b: Matrix)
    requires IsMatrix(a, rows, cols)
    ensures IsMatrix(b, |Members(r, rows)|, |Members(c, cols)|)
  {
    Sub(a, rows, cols, Members(r, rows), Members(c, cols))
  }

  lemma SelectedAt(a: Matrix, rows: nat, cols: nat, r: nat, c: nat, i: nat, j: nat)
    requires IsMatrix(a, rows, cols) && i < rows && j < cols && Has(r, i) && Has(c, j)
    ensures |Members(r, i)| < |Members(r, rows)| && |Members(c, j)| < |Members(c, cols)|
    ensures Selected(a, rows, cols, r, c)[|Members(r, i)|][|Members(c, j)|] == a[i][j]
  {
    hide Members;
    MembersPrefix(r, i, rows);
    MembersPrefix(c, j, cols);
  }

  /** Gathers the submatrix that the two sets select. */
  method GenSubMatrix(out: array<Byte>, dim: nat, in_: array<Byte>, rows: nat, cols: nat, r: nat, c: nat)
    requires out.Length == dim * dim && in_.Length == rows * cols && out != in_
    requires IsSubset(r, rows, dim) && IsSubset(c, cols, dim)
    modifies out
    ensures |Members(r, rows)| == |Members(c, cols)| == dim
    ensures Rows(out[..], dim, dim) == Selected(Rows(in_[..], rows, cols), rows, cols, r, c)
  {
    hide *;
    Counts(r, rows, dim);
    Counts(c, cols, dim);
    ghost var goal := Selected(Rows(in_[..], rows, cols), rows, cols, r, c);
    NothingFilled(Rows(out[..], dim, dim), goal, dim);
    MembersNone(r);
    var i, p := 0, 0;
    while i < rows
      invariant i <= rows && p == |Members(r, i)|
      invariant Filled(Rows(out[..], dim, dim), goal, dim, dim, p, 0)
    {
      MembersPrefix(r, i, rows);
      BitTest(r, i);
      if And(r, Pow2(i)) != 0 {
        GenSubRow(out, dim, in_, rows, cols, r, c, i, p);
        p := p + 1;
      }
      i := i + 1;
    }
    FilledAll(Rows(out[..], dim, dim), goal, dim, dim);
  }

  method GenSubRow(out: array<Byte>, dim: nat, in_: array<Byte>, rows: nat, cols: nat, r: nat, c: nat, i: nat, p: nat)
    requires out.Length == dim * dim && in_.Length == rows * cols && out != in_
    requires |Members(r, rows)| == |Members(c, cols)| == dim && i < rows && Has(r, i) && p == |Members(r, i)| < dim
    requires Filled(Rows(out[..], dim, dim), Selected(Rows(in_[..], rows, cols), rows, cols, r, c), dim, dim, p, 0)
    modifies out
    ensures Filled(Rows(out[..], dim, dim), Selected(Rows(in_[..], rows, cols), rows, cols, r, c), dim, dim, p + 1, 0)
  {
    hide *;
    ghost var a := Rows(in_[..], rows, cols);
    ghost var goal := Selected(a, rows, cols, r, c);
    MembersNone(c);
    var j, q := 0, 0;
    while j < cols
      invariant j <= cols && q == |Members(c, j)|
      invariant Filled(Rows(out[..], dim, dim), goal, dim, dim, p, q)
    {
      MembersPrefix(c, j, cols);
      BitTest(c, j);
      if And(c, Pow2(j)) != 0 {
        SelectedAt(a, rows, cols, r, c, i, j);
        ghost var was := Rows(out[..], dim, dim);
        var b := Get(in_, rows, cols, i, j);
        Set(out, dim, dim, p, q, b);
        FilledStep(was, goal, dim, dim, p, q, b);
        q := q + 1;
      }
      j := j + 1;
    }
    FilledRow(Rows(out[..], dim, dim), goal, dim, dim, p);
  }

  lemma Counts(x: nat, n: nat, s: nat)
    requires IsSubset(x, n, s)
    ensures |Members(x, n)| == s
  {
    MembersCount(x, n);
  }

  lemma MembersNone(x: nat)
    ensures |Members(x, 0)| == 0
  {}

  lemma NothingFilled(a: Matrix, goal: Matrix, n: nat)
    requires IsMatrix(a, n, n) && IsMatrix(goal, n, n)
    ensures Filled(a, goal, n, n, 0, 0)
  {}

  // -- the search

  /** The submatrix is nonsingular, if the sets select a square one. */
  ghost predicate Nonsingular(a: Matrix, rows: nat, cols: nat, s: nat, r: nat, c: nat)
    requires IsMatrix(a, rows, cols)
  {
    IsSubset(r, rows, s) && IsSubset(c, cols, s) ==> Independent(Selected(a, rows, cols, r, c), |Members(c, cols)|)
  }

  ghost predicate NonsingularRows(a: Matrix, rows: nat, cols: nat, s: nat, c: nat)
    requires IsMatrix(a, rows, cols)
  {
    forall r: nat :: Nonsingular(a, rows, cols, s, r, c)
  }

  ghost predicate NonsingularSize(a: Matrix, rows: nat, cols: nat, s: nat)
    requires IsMatrix(a, rows, cols)
  {
    forall c: nat :: NonsingularRows(a, rows, cols, s, c)
  }

  /** Every square submatrix is nonsingular. */
  ghost predicate AllNonsingular(a: Matrix, rows: nat, cols: nat)
    requires IsMatrix(a, rows, cols)
  {
    forall s: nat :: 0 < s <= rows && s <= cols ==> NonsingularSize(a, rows, cols, s)
  }

  ghost predicate RowsBelow(a: Matrix, rows: nat, cols: nat, s: nat, c: nat, r: nat)
    requires IsMatrix(a, rows, cols)
  {
    forall z: nat :: z < r ==> Nonsingular(a, rows, cols, s, z, c)
  }

  ghost predicate ColumnsBelow(a: Matrix, rows: nat, cols: nat, s: nat, c: nat)
    requires IsMatrix(a, rows, cols)
  {
    forall z: nat :: z < c ==> NonsingularRows(a, rows, cols, s, z)
  }

  /** Tries one submatrix. */
  method Try(v: array<Byte>, rows: nat, cols: nat, s: nat, r: nat, c: nat) returns (singular: bool)
    requires v.Length == rows * cols && IsSubset(r, rows, s) && IsSubset(c, cols, s)
    ensures singular <==> !Nonsingular(Rows(v[..], rows, cols), rows, cols, s, r, c)
  {
    hide Selected, Rows, Independent, IsIdentity, IsInverse, Members, Pop, Pow2;
    var matrix, inverse := new Byte[s * s](_ => 0), new Byte[s * s](_ => 0);
    GenSubMatrix(matrix, s, v, rows, cols, r, c);
    var ret := GfInvertMatrix(matrix, inverse, s);
    singular := ret != 0;
  }

  /** Tries the chosen columns with every set of rows. */
  method TryRows(v: array<Byte>, rows: nat, cols: nat, s: nat, c: nat) returns (singular: bool)
    requires v.Length == rows * cols && IsSubset(c, cols, s) && 0 < s <= rows < WORD
    ensures singular <==> !NonsingularRows(Rows(v[..], rows, cols), rows, cols, s, c)
  {
    hide Rows, Nonsingular, Follows, Pow2, Pop;
    ghost var a := Rows(v[..], rows, cols);
    FirstSubset(rows, s);
    var r := Pow2(s) - 1;
    RowsStart(a, rows, cols, s, c);
    while true
      invariant IsSubset(r, rows, s) && RowsBelow(a, rows, cols, s, c, r)
      decreases Pow2(rows) - r
    {
      singular := Try(v, rows, cols, s, r, c);
      if singular { return; }
      SubsetPositive(r, rows, s);
      var next, ret := NextSubset(r, rows, s);
      if ret != 0 {
        RowsEnd(a, rows, cols, s, c, r);
        return;
      }
      RowsNext(a, rows, cols, s, c, r, next);
      r := next;
    }
  }

  /** Tries every set of columns. */
  method TryColumns(v: array<Byte>, rows: nat, cols: nat, s: nat) returns (singular: bool)
    requires v.Length == rows * cols && 0 < s <= rows < WORD && s <= cols < WORD
    ensures singular <==> !NonsingularSize(Rows(v[..], rows, cols), rows, cols, s)
  {
    hide Rows, NonsingularRows, Follows, Pow2, Pop;
    ghost var a := Rows(v[..], rows, cols);
    FirstSubset(cols, s);
    var c := Pow2(s) - 1;
    ColumnsStart(a, rows, cols, s);
    while true
      invariant IsSubset(c, cols, s) && ColumnsBelow(a, rows, cols, s, c)
      decreases Pow2(cols) - c
    {
      singular := TryRows(v, rows, cols, s, c);
      if singular { return; }
      SubsetPositive(c, cols, s);
      var next, ret := NextSubset(c, cols, s);
      if ret != 0 {
        ColumnsEnd(a, rows, cols, s, c);
        return;
      }
      ColumnsNext(a, rows, cols, s, c, next);
      c := next;
    }
  }

  /** 0 exactly when no square submatrix is singular. */
  method AreSubmatricesSingular(v: array<Byte>, rows: nat, cols: nat) returns (ret: int)
    requires v.Length == rows * cols && rows < WORD && cols < WORD
    ensures ret == 0 || ret == 1
    ensures ret == 0 <==> AllNonsingular(Rows(v[..], rows, cols), rows, cols)
  {
    hide Rows, NonsingularSize;
    ghost var a := Rows(v[..], rows, cols);
    var s := 1;
    while s <= (if rows <= cols then rows else cols)
      invariant s > 0
      invariant forall t: nat :: 0 < t < s && t <= rows && t <= cols ==> NonsingularSize(a, rows, cols, t)
    {
      var singular := TryColumns(v, rows, cols, s);
      if singular { return 1; }
      s := s + 1;
    }
    return 0;
  }

  lemma FirstSubset(n: nat, s: nat)
    requires 0 < s <= n
    ensures IsSubset(Pow2(s) - 1, n, s)
  {
    hide Pow2, Pop;
    FirstIsLeast(s, 0);
    Pow2Monotone(s, n);
  }

  lemma SubsetPositive(x: nat, n: nat, s: nat)
    requires IsSubset(x, n, s) && s > 0
    ensures x > 0
  {}

  lemma RowsStart(a: Matrix, rows: nat, cols: nat, s: nat, c: nat)
    requires IsMatrix(a, rows, cols)
    ensures RowsBelow(a, rows, cols, s, c, Pow2(s) - 1)
  {
    hide Pop, Pow2;
    forall z: nat | z < Pow2(s) - 1 ensures Nonsingular(a, rows, cols, s, z, c) { FirstIsLeast(s, z); }
  }

  lemma RowsNext(a: Matrix, rows: nat, cols: nat, s: nat, c: nat, r: nat, next: nat)
    requires IsMatrix(a, rows, cols) && RowsBelow(a, rows, cols, s, c, r) && Nonsingular(a, rows, cols, s, r, c)
    requires Follows(r, next) && Pop(r) == s
    ensures RowsBelow(a, rows, cols, s, c, next) && r < next
  {
    hide Pop, Pow2;
    forall z: nat | z < next ensures Nonsingular(a, rows, cols, s, z, c) {
      if r < z { assert Pop(z) != s; }
    }
  }

  lemma RowsEnd(a: Matrix, rows: nat, cols: nat, s: nat, c: nat, r: nat)
    requires IsMatrix(a, rows, cols) && RowsBelow(a, rows, cols, s, c, r) && Nonsingular(a, rows, cols, s, r, c)
    requires forall z {:trigger Pop(z)} :: r < z < Pow2(rows) ==> Pop(z) != s
    ensures NonsingularRows(a, rows, cols, s, c)
  {
    hide Pop, Pow2;
    forall z: nat ensures Nonsingular(a, rows, cols, s, z, c) {
      if r < z < Pow2(rows) { assert Pop(z) != s; }
    }
  }

  lemma ColumnsStart(a: Matrix, rows: nat, cols: nat, s: nat)
    requires IsMatrix(a, rows, cols)
    ensures ColumnsBelow(a, rows, cols, s, Pow2(s) - 1)
  {
    hide Pop, Pow2;
    forall z: nat | z < Pow2(s) - 1 ensures NonsingularRows(a, rows, cols, s, z) {
      FirstIsLeast(s, z);
      NotColumns(a, rows, cols, s, z);
    }
  }

  lemma NotColumns(a: Matrix, rows: nat, cols: nat, s: nat, c: nat)
    requires IsMatrix(a, rows, cols) && !IsSubset(c, cols, s)
    ensures NonsingularRows(a, rows, cols, s, c)
  {}

  lemma ColumnsNext(a: Matrix, rows: nat, cols: nat, s: nat, c: nat, next: nat)
    requires IsMatrix(a, rows, cols) && ColumnsBelow(a, rows, cols, s, c) && NonsingularRows(a, rows, cols, s, c)
    requires Follows(c, next) && Pop(c) == s
    ensures ColumnsBelow(a, rows, cols, s, next) && c < next
  {
    hide Pop, Pow2, NonsingularRows;
    forall z: nat | z < next ensures NonsingularRows(a, rows, cols, s, z) {
      if c < z {
        assert Pop(z) != s;
        NotColumns(a, rows, cols, s, z);
      }
    }
  }

  lemma ColumnsEnd(a: Matrix, rows: nat, cols: nat, s: nat, c: nat)
    requires IsMatrix(a, rows, cols) && ColumnsBelow(a, rows, cols, s, c) && NonsingularRows(a, rows, cols, s, c)
    requires forall z {:trigger Pop(z)} :: c < z < Pow2(cols) ==> Pop(z) != s
    ensures NonsingularSize(a, rows, cols, s)
  {
    hide Pop, Pow2, NonsingularRows;
    forall z: nat ensures NonsingularRows(a, rows, cols, s, z) {
      if c < z {
        assert z < Pow2(cols) ==> Pop(z) != s;
        NotColumns(a, rows, cols, s, z);
      }
    }
  }

  // -- what it says about a code

  /** The parity rows of a generator. */
  function Parity(a: Matrix, m: nat, k: nat): (b: Matrix)
    requires IsMatrix(a, m, k) && k <= m
    ensures IsMatrix(b, m - k, k)
  {
    a[k..]
  }

  /** Independence of the columns depends only on which rows there are. */
  lemma SameRows(a: Matrix, b: Matrix, n: nat)
    requires IsMatrix(a, |a|, n) && IsMatrix(b, |b|, n)
    requires forall r :: 0 <= r < |a| ==> a[r] in b
    requires Independent(a, n)
    ensures Independent(b, n)
  {
    hide Dot;
    forall v: Vec | |v| == n ensures NullOnlyIfZero(b, v) {
      if IsZero(Apply(b, v)) {
        forall r | 0 <= r < |a| ensures Apply(a, v)[r] == 0 {
          var q :| 0 <= q < |b| && b[q] == a[r];
          assert Apply(b, v)[q] == 0;
        }
        assert NullOnlyIfZero(a, v);
      }
    }
  }

  lemma ValueStep(bs: seq<bool>)
    requires |bs| > 0
    ensures ValueOf(bs) % 2 == (if bs[0] then 1 else 0) && ValueOf(bs) / 2 == ValueOf(bs[1..])
  {}

  /** The set of the positions that hold. */
  lemma {:induction false} HasValue(bs: seq<bool>, i: nat)
    requires i < |bs|
    ensures Has(ValueOf(bs), i) == bs[i]
  {
    hide ValueOf;
    ValueStep(bs);
    if i > 0 { HasValue(bs[1..], i - 1); }
  }

  lemma {:induction false} MissingMembers(rows: seq<nat>, x: nat, k: nat)
    requires forall i :: 0 <= i < k ==> (Has(x, i) <==> i !in rows)
    ensures Members(x, k) == MissingColumns(rows, k)
  {
    if k > 0 { MissingMembers(rows, x, k - 1); }
  }

  /** The identity rows outside a set of columns. */
  function Outside(x: nat, k: nat): (rs: seq<nat>)
    ensures |rs| + |Members(x, k)| == k
    ensures forall i :: 0 <= i < |rs| ==> rs[i] < k && !Has(x, rs[i])
    ensures forall i, j :: 0 <= i < j < |rs| ==> rs[i] < rs[j]
    ensures forall i :: 0 <= i < k && !Has(x, i) ==> i in rs
  {
    if k == 0 then [] else Outside(x, k - 1) + if Has(x, k - 1) then [] else [k - 1]
  }

  function Shifted(s: seq<nat>, k: nat): (t: seq<nat>)
    ensures |t| == |s| && forall i :: 0 <= i < |s| ==> t[i] == s[i] + k
  {
    seq(|s|, i requires 0 <= i < |s| => s[i] + k)
  }

  lemma ParityLast(rows: seq<nat>, r: nat, k: nat)
    ensures ParityRows(rows + [r], k) == ParityRows(rows, k) + if r >= k then [r] else []
  {
    assert (rows + [r])[..|rows + [r]| - 1] == rows;
  }

  lemma {:induction false} ParityOnly(rows: seq<nat>, more: seq<nat>, k: nat)
    requires (forall i :: 0 <= i < |rows| ==> rows[i] < k) && (forall i :: 0 <= i < |more| ==> more[i] >= k)
    ensures ParityRows(rows + more, k) == more
  {
    hide ParityRows;
    if |more| > 0 {
      var n := |more| - 1;
      ParityOnly(rows, more[..n], k);
      ParityLast(rows + more[..n], more[n], k);
      assert rows + more == (rows + more[..n]) + [more[n]];
      assert more == more[..n] + [more[n]];
    } else {
      NoParity(rows, k);
      assert rows + more == rows;
    }
  }

  /** The choice of rows whose deciding block two sets select. */
  function ChoiceFor(m: nat, k: nat, r: nat, c: nat): seq<nat>
    requires k <= m
  {
    Outside(c, k) + Shifted(Members(r, m - k), k)
  }

  /** The deciding block of a choice whose parity rows and missing columns are known. */
  lemma MinorIs(a: Matrix, m: nat, k: nat, rows: seq<nat>, rs: seq<nat>, cs: seq<nat>)
    requires k <= m && IsMatrix(a, m, k) && IsSelection(rows, m, k) && ParityRows(rows, k) == Shifted(rs, k) && MissingColumns(rows, k) == cs
    requires (forall i :: 0 <= i < |rs| ==> rs[i] < m - k) && forall j :: 0 <= j < |cs| ==> cs[j] < k
    ensures DecidingMinor(a, m, k, rows) == Sub(Parity(a, m, k), m - k, k, rs, cs)
  {
    hide ParityRows, MissingColumns;
    ParityCount(rows, k);
    MissingCount(rows, k);
    var d, b := DecidingMinor(a, m, k, rows), Sub(Parity(a, m, k), m - k, k, rs, cs);
    forall i | 0 <= i < |rs| ensures d[i] == b[i] { assert a[rs[i] + k] == Parity(a, m, k)[rs[i]]; }
    assert d == b;
  }

  lemma ChosenRows(out: seq<nat>, more: seq<nat>, k: nat)
    requires (forall i :: 0 <= i < |out| ==> out[i] < k) && (forall i :: 0 <= i < |more| ==> more[i] >= k)
    requires (forall i, j :: 0 <= i < j < |out| ==> out[i] < out[j]) && (forall i, j :: 0 <= i < j < |more| ==> more[i] < more[j])
    ensures Distinct(out + more)
  {}

  lemma ChoiceIs(a: Matrix, m: nat, k: nat, r: nat, c: nat)
    requires Systematic(a, m, k) && |Members(r, m - k)| == |Members(c, k)|
    ensures IsSelection(ChoiceFor(m, k, r, c), m, k)
    ensures MissingColumns(ChoiceFor(m, k, r, c), k) == Members(c, k)
    ensures DecidingMinor(a, m, k, ChoiceFor(m, k, r, c)) == Selected(Parity(a, m, k), m - k, k, r, c)
  {
    hide Members, Outside, Shifted, Has, ParityRows, MissingColumns;
    var rs, cs, out := Members(r, m - k), Members(c, k), Outside(c, k);
    var rows := ChoiceFor(m, k, r, c);
    assert rows == out + Shifted(rs, k);
    MissingMembers(rows, c, k);
    ParityOnly(out, Shifted(rs, k), k);
    ChosenRows(out, Shifted(rs, k), k);
    MinorIs(a, m, k, rows, rs, cs);
  }

  /** The sets of the missing columns and of the chosen parity rows. */
  function MissingSet(rows: seq<nat>, k: nat): nat { ValueOf(seq(k, i requires 0 <= i < k => i !in rows)) }

  function ParitySet(rows: seq<nat>, m: nat, k: nat): nat
    requires k <= m
  {
    ValueOf(seq(m - k, i requires 0 <= i < m - k => i + k in rows))
  }

  lemma SetsHave(rows: seq<nat>, m: nat, k: nat)
    requires k <= m
    ensures MissingSet(rows, k) < Pow2(k) && ParitySet(rows, m, k) < Pow2(m - k)
    ensures forall i :: 0 <= i < k ==> (Has(MissingSet(rows, k), i) <==> i !in rows)
    ensures forall i :: 0 <= i < m - k ==> (Has(ParitySet(rows, m, k), i) <==> i + k in rows)
  {
    var bs, cs := seq(k, i requires 0 <= i < k => i !in rows), seq(m - k, i requires 0 <= i < m - k => i + k in rows);
    hide ValueOf, Has, Pow2;
    BitsOfValue(bs);
    BitsOfValue(cs);
    forall i | 0 <= i < k ensures Has(MissingSet(rows, k), i) <==> i !in rows { HasValue(bs, i); }
    forall i | 0 <= i < m - k ensures Has(ParitySet(rows, m, k), i) <==> i + k in rows { HasValue(cs, i); }
  }

  ghost function Range(s: seq<nat>): set<nat> { set x | x in s }

  lemma {:induction false} RangeSize(s: seq<nat>)
    requires Distinct(s)
    ensures |Range(s)| == |s|
  {
    if |s| > 0 {
      var n := |s| - 1;
      RangeSize(s[..n]);
      assert Range(s) == Range(s[..n]) + {s[n]};
    } else {
      assert Range(s) == {};
    }
  }

  lemma SameLength(s: seq<nat>, t: seq<nat>)
    requires Distinct(s) && Distinct(t) && (forall i :: 0 <= i < |s| ==> s[i] in t) && (forall i :: 0 <= i < |t| ==> t[i] in s)
    ensures |s| == |t|
  {
    RangeSize(s);
    RangeSize(t);
    assert Range(s) == Range(t);
  }

  /** The members of the parity set, as rows of the generator, are the chosen parity rows. */
  lemma ParityMembers(rows: seq<nat>, m: nat, k: nat)
    requires k <= m && IsSelection(rows, m, k)
    ensures |Members(ParitySet(rows, m, k), m - k)| == |ParityRows(rows, k)|
    ensures forall y :: y in Shifted(Members(ParitySet(rows, m, k), m - k), k) ==> y in ParityRows(rows, k)
  {
    var x := ParitySet(rows, m, k);
    var ms, ps := Members(x, m - k), ParityRows(rows, k);
    var rs := Shifted(ms, k);
    SetsHave(rows, m, k);
    hide ParitySet, ParityRows, Members, Has, Pow2, Shifted;
    ParityRowsDistinct(rows, k);
    forall i | 0 <= i < |rs| ensures rs[i] in ps { ParityRowsComplete(rows, k, rs[i]); }
    forall q | 0 <= q < |ps| ensures ps[q] in rs {
      assert ps[q] in rows && Has(x, ps[q] - k);
      var i := IndexOf(ms, ps[q] - k);
      assert rs[i] == ps[q];
    }
    SameLength(rs, ps);
  }

  lemma ParityIndex(rows: seq<nat>, m: nat, k: nat, i: nat) returns (q: nat)
    requires k <= m && IsSelection(rows, m, k) && i < |Members(ParitySet(rows, m, k), m - k)|
    ensures q < |ParityRows(rows, k)| && ParityRows(rows, k)[q] == Members(ParitySet(rows, m, k), m - k)[i] + k
  {
    ParityMembers(rows, m, k);
    hide ParityRows, Members, ParitySet;
    var ms := Members(ParitySet(rows, m, k), m - k);
    assert Shifted(ms, k)[i] in Shifted(ms, k);
    assert Shifted(ms, k)[i] in ParityRows(rows, k);
    q := IndexOf(ParityRows(rows, k), Shifted(ms, k)[i]);
  }

  lemma IndexOf(s: seq<nat>, y: nat) returns (q: nat)
    requires y in s
    ensures q < |s| && s[q] == y
  {
    q :| 0 <= q < |s| && s[q] == y;
  }

  /** The deciding block of a choice has the rows of the submatrix that its two sets select. */
  lemma SelectedDecides(a: Matrix, m: nat, k: nat, rows: seq<nat>)
    requires Systematic(a, m, k) && IsSelection(rows, m, k)
    ensures |Members(MissingSet(rows, k), k)| == |Members(ParitySet(rows, m, k), m - k)| == |MissingColumns(rows, k)|
    ensures Independent(Selected(Parity(a, m, k), m - k, k, ParitySet(rows, m, k), MissingSet(rows, k)), |MissingColumns(rows, k)|)
        ==> Independent(DecidingMinor(a, m, k, rows), |MissingColumns(rows, k)|)
  {
    var r, c := ParitySet(rows, m, k), MissingSet(rows, k);
    SetsHave(rows, m, k);
    MissingMembers(rows, c, k);
    ParityMembers(rows, m, k);
    ParityCount(rows, k);
    MissingCount(rows, k);
    hide ParitySet, MissingSet, ParityRows, Members, MissingColumns, Has, Pow2, Independent, Shifted;
    var b, d := Selected(Parity(a, m, k), m - k, k, r, c), DecidingMinor(a, m, k, rows);
    var ms, ps := Members(r, m - k), ParityRows(rows, k);
    forall i | 0 <= i < |b| ensures b[i] in d {
      var q := ParityIndex(rows, m, k, i);
      assert Parity(a, m, k)[ms[i]] == a[ps[q]];
      assert d[q] == b[i];
    }
    if Independent(b, |MissingColumns(rows, k)|) { SameRows(b, d, |MissingColumns(rows, k)|); }
  }

  /** A systematic code recovers from every choice of rows exactly when no square submatrix of its parity rows is singular. */
  lemma SubmatricesDecide(a: Matrix, m: nat, k: nat)
    requires Systematic(a, m, k)
    ensures EveryChoiceIndependent(a, m, k) <==> AllNonsingular(Parity(a, m, k), m - k, k)
  {
    hide EveryChoiceIndependent, AllNonsingular, Parity, Selected, DecidingMinor, Independent, Pick, Members, MissingColumns, Pow2, Pop;
    if EveryChoiceIndependent(a, m, k) {
      var p, n := Parity(a, m, k), m - k;
      forall s: nat, r: nat, c: nat ensures Nonsingular(p, n, k, s, r, c) {
        if IsSubset(r, m - k, s) && IsSubset(c, k, s) { MinorNonsingular(a, m, k, s, r, c); }
      }
      AllIs(p, n, k);
    }
    if AllNonsingular(Parity(a, m, k), m - k, k) {
      forall rows: seq<nat> | IsSelection(rows, m, k) ensures Independent(Pick(a, rows), k) {
        ChoiceIndependent(a, m, k, rows);
      }
      EveryIs(a, m, k);
    }
  }

  lemma AllIs(a: Matrix, rows: nat, cols: nat)
    requires IsMatrix(a, rows, cols) && forall s: nat, r: nat, c: nat :: Nonsingular(a, rows, cols, s, r, c)
    ensures AllNonsingular(a, rows, cols)
  {
    hide Nonsingular;
  }

  lemma EveryIs(a: Matrix, m: nat, k: nat)
    requires IsMatrix(a, m, k) && forall rows: seq<nat> :: IsSelection(rows, m, k) ==> Independent(Pick(a, rows), k)
    ensures EveryChoiceIndependent(a, m, k)
  {
    hide Independent, Pick;
  }

  lemma MinorNonsingular(a: Matrix, m: nat, k: nat, s: nat, r: nat, c: nat)
    requires Systematic(a, m, k) && EveryChoiceIndependent(a, m, k) && IsSubset(r, m - k, s) && IsSubset(c, k, s)
    ensures Nonsingular(Parity(a, m, k), m - k, k, s, r, c)
  {
    hide Independent, Pick, Members, MissingColumns, DecidingMinor, Selected, Parity, ChoiceFor, Pow2, Pop;
    Counts(r, m - k, s);
    Counts(c, k, s);
    ChoiceIs(a, m, k, r, c);
    MinorDecides(a, m, k, ChoiceFor(m, k, r, c));
  }

  lemma ChoiceIndependent(a: Matrix, m: nat, k: nat, rows: seq<nat>)
    requires Systematic(a, m, k) && AllNonsingular(Parity(a, m, k), m - k, k) && IsSelection(rows, m, k)
    ensures Independent(Pick(a, rows), k)
  {
    hide Independent, Pick, Members, MissingColumns, ParityRows, DecidingMinor, Selected, ParitySet, MissingSet, AllNonsingular;
    hide Has, Pow2, Pop, Parity, Distinct;
    var r, c, s := ParitySet(rows, m, k), MissingSet(rows, k), |MissingColumns(rows, k)|;
    SelectedDecides(a, m, k, rows);
    MinorDecides(a, m, k, rows);
    SetsHave(rows, m, k);
    MembersCount(r, m - k);
    MembersCount(c, k);
    if s == 0 {
      EmptyIndependent(DecidingMinor(a, m, k, rows));
    } else {
      AllUnfold(Parity(a, m, k), m - k, k, s, r, c);
    }
  }

  lemma AllUnfold(a: Matrix, rows: nat, cols: nat, s: nat, r: nat, c: nat)
    requires IsMatrix(a, rows, cols) && AllNonsingular(a, rows, cols) && 0 < s <= rows && s <= cols
    requires r < Pow2(rows) && c < Pow2(cols) && Pop(r) == Pop(c) == s
    ensures Independent(Selected(a, rows, cols, r, c), |Members(c, cols)|)
  {
    hide Independent, Selected, Pow2, Pop, Members;
    assert NonsingularSize(a, rows, cols, s);
    assert NonsingularRows(a, rows, cols, s, c);
    assert Nonsingular(a, rows, cols, s, r, c);
  }
}
