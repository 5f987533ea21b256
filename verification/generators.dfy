/** The generator matrices of the erasure codes and which of their row selections are invertible. */
module Generators {
  import opened Bits
  import opened GF256
  import opened GFTables
  import opened Linear
  import opened Invert
  import opened Cauchy

  // -- any k rows of a systematic matrix

  /** The chosen rows of a matrix. */
  function Pick(a: Matrix, rows: seq<nat>): (b: Matrix)
    requires forall i :: 0 <= i < |rows| ==> rows[i] < |a|
    ensures |b| == |rows| && forall i :: 0 <= i < |rows| ==> b[i] == a[rows[i]]
  {
    seq(|rows|, i requires 0 <= i < |rows| => a[rows[i]])
  }

  /** The elements of `u` at the chosen positions. */
  function Choose(u: Vec, cols: seq<nat>): (w: Vec)
    requires forall j :: 0 <= j < |cols| ==> cols[j] < |u|
    ensures |w| == |cols| && forall j :: 0 <= j < |cols| ==> w[j] == u[cols[j]]
  {
    seq(|cols|, j requires 0 <= j < |cols| => u[cols[j]])
  }

  ghost predicate Systematic(a: Matrix, m: nat, k: nat) {
    k <= m && IsMatrix(a, m, k)
    && forall r, c :: 0 <= r < k && 0 <= c < k ==> a[r][c] == if r == c then 1 else 0
  }

  ghost predicate IsSelection(rows: seq<nat>, m: nat, k: nat) {
    |rows| == k && Distinct(rows) && forall i :: 0 <= i < k ==> rows[i] < m
  }

  /** The maximum-distance property: every choice of k rows determines the data. */
  ghost predicate EveryChoiceIndependent(a: Matrix, m: nat, k: nat)
    requires IsMatrix(a, m, k)
  {
    forall rows: seq<nat> :: IsSelection(rows, m, k) ==> Independent(Pick(a, rows), k)
  }

  /** The chosen rows below the identity part. */
  function ParityRows(rows: seq<nat>, k: nat): (ts: seq<nat>)
    ensures forall i :: 0 <= i < |ts| ==> ts[i] >= k && ts[i] in rows
  {
    if |rows| == 0 then []
    else ParityRows(rows[..|rows| - 1], k) + if rows[|rows| - 1] >= k then [rows[|rows| - 1]] else []
  }

  /** The columns below n whose identity row was not chosen. */
  function MissingColumns(rows: seq<nat>, n: nat): (cs: seq<nat>)
    ensures forall j :: 0 <= j < |cs| ==> cs[j] < n && cs[j] !in rows
    ensures forall c :: 0 <= c < n && c !in rows ==> c in cs
    ensures forall i, j :: 0 <= i < j < |cs| ==> cs[i] < cs[j]
  {
    if n == 0 then [] else MissingColumns(rows, n - 1) + if n - 1 in rows then [] else [n - 1]
  }

  lemma {:induction false} ParityRowsDistinct(rows: seq<nat>, k: nat)
    requires Distinct(rows)
    ensures Distinct(ParityRows(rows, k))
  {
    if |rows| > 0 { ParityRowsDistinct(rows[..|rows| - 1], k); }
  }

  ghost function ChosenBelow(rows: seq<nat>, n: nat): set<nat> { set r | r in rows && r < n }

  lemma {:induction false} MissingCount(rows: seq<nat>, n: nat)
    ensures |MissingColumns(rows, n)| + |ChosenBelow(rows, n)| == n
  {
    if n == 0 {
      assert ChosenBelow(rows, 0) == {};
    } else {
      MissingCount(rows, n - 1);
      if n - 1 in rows {
        assert ChosenBelow(rows, n) == ChosenBelow(rows, n - 1) + {n - 1};
      } else {
        assert ChosenBelow(rows, n) == ChosenBelow(rows, n - 1);
      }
    }
  }

  lemma {:induction false} ParityCount(rows: seq<nat>, k: nat)
    requires Distinct(rows)
    ensures |ParityRows(rows, k)| + |ChosenBelow(rows, k)| == |rows|
  {
    if |rows| == 0 {
      assert ChosenBelow(rows, k) == {};
    } else {
      var n := |rows| - 1;
      ParityCount(rows[..n], k);
      ChosenLast(rows, k);
      hide ChosenBelow, Distinct;
    }
  }

  lemma ChosenLast(rows: seq<nat>, k: nat)
    requires Distinct(rows) && |rows| > 0
    ensures |ChosenBelow(rows, k)| == |ChosenBelow(rows[..|rows| - 1], k)| + if rows[|rows| - 1] < k then 1 else 0
  {
    var n := |rows| - 1;
    if rows[n] < k {
      assert ChosenBelow(rows, k) == ChosenBelow(rows[..n], k) + {rows[n]};
    } else {
      assert ChosenBelow(rows, k) == ChosenBelow(rows[..n], k);
    }
  }

  /** The square block that decides whether the chosen rows are independent. */
  function DecidingMinor(a: Matrix, m: nat, k: nat, rows: seq<nat>): (b: Matrix)
    requires IsMatrix(a, m, k) && IsSelection(rows, m, k)
    ensures IsMatrix(b, |MissingColumns(rows, k)|, |MissingColumns(rows, k)|)
  {
    ParityCount(rows, k); MissingCount(rows, k);
    seq(|ParityRows(rows, k)|, i requires 0 <= i < |ParityRows(rows, k)| => Choose(a[ParityRows(rows, k)[i]], MissingColumns(rows, k)))
  }

  /** A dot product only sees the columns where the right operand may be nonzero. */
  lemma {:induction false} DotMissing(u: Vec, v: Vec, rows: seq<nat>)
    requires |u| == |v| && forall c :: 0 <= c < |v| && c in rows ==> v[c] == 0
    ensures Dot(u, v) == Dot(Choose(u, MissingColumns(rows, |u|)), Choose(v, MissingColumns(rows, |u|)))
  {
    hide Add, Product, Choose, Dot, MissingColumns;
    if |u| == 0 {
      NothingMissing(u, v, rows);
    } else {
      var n := |u| - 1;
      var cs := MissingColumns(rows, n);
      DotMissing(u[..n], v[..n], rows);
      MissingUnfold(rows, |u|);
      ChoosePrefix(u, cs, n);
      ChoosePrefix(v, cs, n);
      DotLast(u, v);
      if n in rows {
        ProductZero(u[n]);
        AddZero(Dot(u[..n], v[..n]));
      } else {
        ChooseLast(u, cs, n);
        ChooseLast(v, cs, n);
        DotLast(Choose(u, cs + [n]), Choose(v, cs + [n]));
      }
    }
  }

  lemma NothingMissing(u: Vec, v: Vec, rows: seq<nat>)
    requires |u| == |v| == 0
    ensures Dot(u, v) == Dot(Choose(u, MissingColumns(rows, 0)), Choose(v, MissingColumns(rows, 0)))
  {}

  lemma ChoosePrefix(u: Vec, cs: seq<nat>, n: nat)
    requires n <= |u| && forall j :: 0 <= j < |cs| ==> cs[j] < n
    ensures Choose(u[..n], cs) == Choose(u, cs)
  {}

  lemma ChooseLast(u: Vec, cs: seq<nat>, n: nat)
    requires n < |u| && forall j :: 0 <= j < |cs| ==> cs[j] < n
    ensures Choose(u, cs + [n])[..|cs|] == Choose(u, cs) && Choose(u, cs + [n])[|cs|] == u[n]
  {}

  /** An identity row reads off one element. */
  lemma IdentityRow(a: Matrix, m: nat, k: nat, r: nat, v: Vec)
    requires Systematic(a, m, k) && r < k && |v| == k
    ensures Dot(a[r], v) == v[r]
  {
    hide Dot;
    DotUnit(a[r], v, r);
  }

  ghost predicate ZeroAt(v: Vec, rows: seq<nat>) {
    forall c :: 0 <= c < |v| && c in rows ==> v[c] == 0
  }

  /** Every chosen row below the identity part appears in the deciding block. */
  lemma {:induction false} ParityRowsComplete(rows: seq<nat>, k: nat, r: nat)
    requires r in rows && r >= k
    ensures r in ParityRows(rows, k)
  {
    var n := |rows| - 1;
    if r != rows[n] { ParityRowsComplete(rows[..n], k, r); }
  }

  /** A null vector of the chosen rows is zero at the chosen identity columns; elsewhere the deciding block sees it. */
  lemma NullsAgree(a: Matrix, m: nat, k: nat, rows: seq<nat>, v: Vec)
    requires Systematic(a, m, k) && IsSelection(rows, m, k) && |v| == k
    ensures IsZero(Apply(Pick(a, rows), v)) <==>
            ZeroAt(v, rows) && IsZero(Apply(DecidingMinor(a, m, k, rows), Choose(v, MissingColumns(rows, k))))
  {
    hide Dot, Choose;
    var b, d := Pick(a, rows), DecidingMinor(a, m, k, rows);
    var ts, w := ParityRows(rows, k), Choose(v, MissingColumns(rows, k));
    if IsZero(Apply(b, v)) {
      forall c | 0 <= c < k && c in rows ensures v[c] == 0 {
        var i :| 0 <= i < |rows| && rows[i] == c;
        assert Apply(b, v)[i] == Dot(a[c], v);
        IdentityRow(a, m, k, c, v);
      }
      forall i | 0 <= i < |ts| ensures Dot(d[i], w) == 0 {
        var j :| 0 <= j < |rows| && rows[j] == ts[i];
        assert Apply(b, v)[j] == Dot(a[ts[i]], v);
        DotMissing(a[ts[i]], v, rows);
      }
    }
    if ZeroAt(v, rows) && IsZero(Apply(d, w)) {
      forall i | 0 <= i < |rows| ensures Dot(a[rows[i]], v) == 0 {
        if rows[i] < k {
          IdentityRow(a, m, k, rows[i], v);
        } else {
          ParityRowsComplete(rows, k, rows[i]);
          var j :| 0 <= j < |ts| && ts[j] == rows[i];
          assert Apply(d, w)[j] == Dot(d[j], w);
          DotMissing(a[rows[i]], v, rows);
        }
      }
    }
  }

  /** Spreads a vector over the missing columns, zero elsewhere. */
  function Spread(w: Vec, rows: seq<nat>, k: nat): (v: Vec)
    requires |w| == |MissingColumns(rows, k)|
    ensures |v| == k
  {
    MissingUnfold(rows, k);
    if k == 0 then []
    else if k - 1 in rows then Spread(w, rows, k - 1) + [0]
    else Spread(w[..|w| - 1], rows, k - 1) + [w[|w| - 1]]
  }

  lemma MissingUnfold(rows: seq<nat>, k: nat)
    ensures k > 0 && k - 1 in rows ==> MissingColumns(rows, k) == MissingColumns(rows, k - 1)
    ensures k > 0 && k - 1 !in rows ==> MissingColumns(rows, k) == MissingColumns(rows, k - 1) + [k - 1]
  {}

  lemma SpreadChosen(w: Vec, rows: seq<nat>, k: nat)
    requires k > 0 && k - 1 in rows && |w| == |MissingColumns(rows, k)| == |MissingColumns(rows, k - 1)|
    ensures Spread(w, rows, k) == Spread(w, rows, k - 1) + [0]
  {
    hide MissingColumns;
  }

  lemma SpreadMissing(w: Vec, rows: seq<nat>, k: nat)
    requires k > 0 && k - 1 !in rows && |w| == |MissingColumns(rows, k)| == |MissingColumns(rows, k - 1)| + 1
    ensures Spread(w, rows, k) == Spread(w[..|w| - 1], rows, k - 1) + [w[|w| - 1]]
  {
    hide MissingColumns;
  }

  lemma {:induction false} SpreadZero(w: Vec, rows: seq<nat>, k: nat)
    requires |w| == |MissingColumns(rows, k)|
    ensures ZeroAt(Spread(w, rows, k), rows)
  {
    hide Spread, MissingColumns;
    if k > 0 {
      MissingUnfold(rows, k);
      if k - 1 in rows {
        SpreadChosen(w, rows, k);
        SpreadZero(w, rows, k - 1);
      } else {
        SpreadMissing(w, rows, k);
        SpreadZero(w[..|w| - 1], rows, k - 1);
      }
    }
  }

  lemma {:induction false} SpreadChoose(w: Vec, rows: seq<nat>, k: nat)
    requires |w| == |MissingColumns(rows, k)|
    ensures Choose(Spread(w, rows, k), MissingColumns(rows, k)) == w
  {
    hide Spread, MissingColumns, Choose;
    if k > 0 {
      MissingUnfold(rows, k);
      var cs := MissingColumns(rows, k - 1);
      if k - 1 in rows {
        SpreadChosen(w, rows, k);
        SpreadChoose(w, rows, k - 1);
        ChoosePrefix(Spread(w, rows, k), cs, k - 1);
      } else {
        SpreadMissing(w, rows, k);
        SpreadChoose(w[..|w| - 1], rows, k - 1);
        ChoosePrefix(Spread(w, rows, k), cs, k - 1);
        ChooseLast(Spread(w, rows, k), cs, k - 1);
      }
    }
  }

  /** The chosen rows of a systematic matrix are independent exactly when the deciding block is. */
  lemma MinorDecides(a: Matrix, m: nat, k: nat, rows: seq<nat>)
    requires Systematic(a, m, k) && IsSelection(rows, m, k)
    ensures Independent(Pick(a, rows), k) <==> Independent(DecidingMinor(a, m, k, rows), |MissingColumns(rows, k)|)
  {
    hide Apply, Choose, Spread, Pick, DecidingMinor, MissingColumns;
    var d, cs := DecidingMinor(a, m, k, rows), MissingColumns(rows, k);
    if Independent(d, |cs|) {
      forall v: Vec | |v| == k ensures NullOnlyIfZero(Pick(a, rows), v) {
        if IsZero(Apply(Pick(a, rows), v)) {
          NullsAgree(a, m, k, rows, v);
          assert NullOnlyIfZero(d, Choose(v, cs));
          ChosenZero(v, rows, k);
        }
      }
    }
    if Independent(Pick(a, rows), k) {
      forall w: Vec | |w| == |cs| ensures NullOnlyIfZero(d, w) {
        if IsZero(Apply(d, w)) {
          var v := Spread(w, rows, k);
          SpreadZero(w, rows, k);
          SpreadChoose(w, rows, k);
          NullsAgree(a, m, k, rows, v);
          assert NullOnlyIfZero(Pick(a, rows), v);
          ChosenZero(v, rows, k);
        }
      }
    }
  }

  lemma ChosenZero(v: Vec, rows: seq<nat>, k: nat)
    requires |v| == k && ZeroAt(v, rows)
    ensures IsZero(v) <==> IsZero(Choose(v, MissingColumns(rows, k)))
  {
    var cs := MissingColumns(rows, k);
    if IsZero(Choose(v, cs)) {
      forall c | 0 <= c < k ensures v[c] == 0 {
        if c !in rows {
          assert c in cs;
          var j :| 0 <= j < |cs| && cs[j] == c;
          assert Choose(v, cs)[j] == 0;
        }
      }
    }
  }

  // -- the Cauchy generator

  function IdentityEntry(r: nat, c: nat): Byte { if r == c then 1 else 0 }

  /** 1 / (r + c) on the low bytes of the indices, as the unsigned char argument of the inverse truncates them. */
  function CauchyEntry(r: nat, c: nat): Byte { GfInv(Xor(r, c) % 256) }

  function CauchyMatrixRow(k: nat, r: nat): (u: Vec)
    ensures |u| == k
  {
    seq(k, c requires 0 <= c < k => if r < k then IdentityEntry(r, c) else CauchyEntry(r, c))
  }

  function CauchyMatrix(m: nat, k: nat): (a: Matrix)
    ensures IsMatrix(a, m, k)
  {
    seq(m, r requires 0 <= r < m => CauchyMatrixRow(k, r))
  }

  /** Ones on the first i places of the diagonal, zero elsewhere. */
  ghost predicate DiagonalTo(a: Matrix, m: nat, k: nat, i: nat)
    requires IsMatrix(a, m, k)
  {
    forall r, c :: 0 <= r < m && 0 <= c < k ==> a[r][c] == if r == c && r < i then 1 else 0
  }

  /** Clears a flat matrix and writes ones on the diagonal of its top square. */
  method IdentityTop(a: array<Byte>, m: nat, k: nat)
    requires k <= m && a.Length == m * k
    modifies a
    ensures DiagonalTo(Rows(a[..], m, k), m, k, k)
  {
    hide *;
    var i := 0;
    while i < a.Length
      invariant 0 <= i <= a.Length
      invariant forall j :: 0 <= j < i ==> a[j] == 0
    {
      a[i] := 0;
      i := i + 1;
    }
    DiagonalStart(a[..], m, k);
    i := 0;
    while i < k
      invariant 0 <= i <= k
      invariant DiagonalTo(Rows(a[..], m, k), m, k, i)
    {
      DiagonalStep(Rows(a[..], m, k), m, k, i);
      Set(a, m, k, i, i, 1);
      i := i + 1;
    }
  }

  lemma DiagonalStart(s: seq<Byte>, m: nat, k: nat)
    requires |s| == m * k && forall j :: 0 <= j < |s| ==> s[j] == 0
    ensures DiagonalTo(Rows(s, m, k), m, k, 0)
  {
    hide Rows;
    AllZero(s, m, k);
  }

  lemma DiagonalStep(a: Matrix, m: nat, k: nat, i: nat)
    requires IsMatrix(a, m, k) && i < m && i < k && DiagonalTo(a, m, k, i)
    ensures IsMatrix(SetEntry(a, i, i, 1), m, k) && DiagonalTo(SetEntry(a, i, i, 1), m, k, i + 1)
  {
    hide SetEntry;
    EntrySet(a, m, k, i, i, 1);
  }

  lemma EntrySet(a: Matrix, m: nat, k: nat, r: nat, c: nat, b: Byte)
    requires IsMatrix(a, m, k) && r < m && c < k
    ensures IsMatrix(SetEntry(a, r, c, b), m, k)
    ensures forall q, d :: 0 <= q < m && 0 <= d < k ==> SetEntry(a, r, c, b)[q][d] == if q == r && d == c then b else a[q][d]
  {}

  /** The rows of the generator that are finished before element c of row r. */
  ghost predicate Filled(a: Matrix, goal: Matrix, m: nat, k: nat, r: nat, c: nat)
    requires IsMatrix(a, m, k) && IsMatrix(goal, m, k)
  {
    forall q, d :: 0 <= q < m && 0 <= d < k && (q < r || (q == r && d < c)) ==> a[q][d] == goal[q][d]
  }

  method GfGenCauchy1Matrix(a: array<Byte>, m: nat, k: nat)
    requires k <= m && a.Length == m * k
    modifies a
    ensures Rows(a[..], m, k) == CauchyMatrix(m, k)
  {
    hide *;
    IdentityTop(a, m, k);
    TopFilled(Rows(a[..], m, k), CauchyMatrix(m, k), m, k);
    var i := k;
    while i < m
      invariant k <= i <= m
      invariant Filled(Rows(a[..], m, k), CauchyMatrix(m, k), m, k, i, 0)
    {
      var j := 0;
      while j < k
        invariant 0 <= j <= k
        invariant Filled(Rows(a[..], m, k), CauchyMatrix(m, k), m, k, i, j)
      {
        ghost var was := Rows(a[..], m, k);
        Set(a, m, k, i, j, GfInv(Xor(i, j) % 256));
        CauchyAt(m, k, i, j);
        FilledStep(was, CauchyMatrix(m, k), m, k, i, j, GfInv(Xor(i, j) % 256));
        j := j + 1;
      }
      FilledRow(Rows(a[..], m, k), CauchyMatrix(m, k), m, k, i);
      i := i + 1;
    }
    FilledAll(Rows(a[..], m, k), CauchyMatrix(m, k), m, k);
  }

  lemma CauchyAt(m: nat, k: nat, r: nat, c: nat)
    requires k <= r < m && c < k
    ensures CauchyMatrix(m, k)[r][c] == GfInv(Xor(r, c) % 256)
  {
    hide GfInv, Xor;
  }

  lemma TopFilled(a: Matrix, goal: Matrix, m: nat, k: nat)
    requires IsMatrix(a, m, k) && IsMatrix(goal, m, k) && k <= m
    requires DiagonalTo(a, m, k, k)
    requires goal == CauchyMatrix(m, k) || goal == RsMatrix(m, k)
    ensures Filled(a, goal, m, k, k, 0)
  {
    hide GfInv, Exp, Xor;
  }

  lemma FilledStep(a: Matrix, goal: Matrix, m: nat, k: nat, r: nat, c: nat, b: Byte)
    requires IsMatrix(a, m, k) && IsMatrix(goal, m, k) && r < m && c < k && b == goal[r][c]
    requires Filled(a, goal, m, k, r, c)
    ensures IsMatrix(SetEntry(a, r, c, b), m, k) && Filled(SetEntry(a, r, c, b), goal, m, k, r, c + 1)
  {
    EntrySet(a, m, k, r, c, b);
    hide SetEntry;
  }

  lemma FilledRow(a: Matrix, goal: Matrix, m: nat, k: nat, r: nat)
    requires IsMatrix(a, m, k) && IsMatrix(goal, m, k) && Filled(a, goal, m, k, r, k)
    ensures Filled(a, goal, m, k, r + 1, 0)
  {}

  lemma FilledAll(a: Matrix, goal: Matrix, m: nat, k: nat)
    requires IsMatrix(a, m, k) && IsMatrix(goal, m, k) && Filled(a, goal, m, k, m, 0)
    ensures a == goal
  {
    forall q | 0 <= q < m ensures a[q] == goal[q] {
      assert forall d :: 0 <= d < k ==> a[q][d] == goal[q][d];
    }
  }

  // -- the Reed-Solomon generator

  function RsEntry(r: nat, c: nat): Byte { Exp(r * c) }

  function RsRow(k: nat, r: nat): (u: Vec)
    ensures |u| == k
  {
    seq(k, c requires 0 <= c < k => if r < k then IdentityEntry(r, c) else RsEntry(r - k, c))
  }

  /** Row k + i holds the powers 0 to k - 1 of the i-th power of the generator. */
  function RsMatrix(m: nat, k: nat): (a: Matrix)
    ensures IsMatrix(a, m, k)
  {
    seq(m, r requires 0 <= r < m => RsRow(k, r))
  }

  method GfGenRsMatrix(a: array<Byte>, m: nat, k: nat)
    requires k <= m && a.Length == m * k
    modifies a
    ensures Rows(a[..], m, k) == RsMatrix(m, k)
  {
    hide *;
    IdentityTop(a, m, k);
    TopFilled(Rows(a[..], m, k), RsMatrix(m, k), m, k);
    var gen: Byte := 1;
    ExpZero();
    var i := k;
    while i < m
      invariant k <= i <= m && gen == Exp(i - k)
      invariant Filled(Rows(a[..], m, k), RsMatrix(m, k), m, k, i, 0)
    {
      var p: Byte := 1;
      var j := 0;
      PowerStep(i - k, 0);
      while j < k
        invariant 0 <= j <= k && p == RsEntry(i - k, j)
        invariant Filled(Rows(a[..], m, k), RsMatrix(m, k), m, k, i, j)
      {
        ghost var was := Rows(a[..], m, k);
        Set(a, m, k, i, j, p);
        RsAt(m, k, i, j);
        FilledStep(was, RsMatrix(m, k), m, k, i, j, p);
        PowerStep(i - k, j);
        p := GfMul(p, gen);
        j := j + 1;
      }
      FilledRow(Rows(a[..], m, k), RsMatrix(m, k), m, k, i);
      ExpAdd(i - k, 1);
      gen := GfMul(gen, 2);
      i := i + 1;
    }
    FilledAll(Rows(a[..], m, k), RsMatrix(m, k), m, k);
  }

  lemma ExpZero()
    ensures Exp(0) == 1 && Exp(1) == 2
  {}

  lemma RsEntryIs(r: nat, c: nat, e: nat)
    requires e == r * c
    ensures RsEntry(r, c) == Exp(e)
  {
    hide Exp;
  }

  lemma PowerStep(g: nat, j: nat)
    ensures Product(RsEntry(g, j), Exp(g)) == RsEntry(g, j + 1) && RsEntry(g, 0) == 1
  {
    hide *;
    RsEntryIs(g, j, g * j);
    RsEntryIs(g, j + 1, g * j + g);
    RsEntryIs(g, 0, 0);
    ExpAdd(g * j, g);
    ExpZero();
  }

  lemma RsAt(m: nat, k: nat, r: nat, c: nat)
    requires k <= r < m && c < k
    ensures RsMatrix(m, k)[r][c] == RsEntry(r - k, c)
  {
    hide RsEntry;
  }

  // -- the Cauchy code recovers from every erasure

  function Bytes(s: seq<nat>): (v: Vec)
    requires forall i :: 0 <= i < |s| ==> s[i] < 256
    ensures |v| == |s| && forall i :: 0 <= i < |s| ==> v[i] == s[i]
  {
    seq(|s|, i requires 0 <= i < |s| => s[i])
  }

  lemma CauchySystematic(m: nat, k: nat)
    requires k <= m
    ensures Systematic(CauchyMatrix(m, k), m, k) && Systematic(RsMatrix(m, k), m, k)
  {
    hide GfInv, Exp, Xor;
  }

  lemma MinorEntry(a: Matrix, m: nat, k: nat, rows: seq<nat>, i: nat, j: nat)
    requires IsMatrix(a, m, k) && IsSelection(rows, m, k) && i < |MissingColumns(rows, k)| && j < |MissingColumns(rows, k)|
    ensures |ParityRows(rows, k)| == |MissingColumns(rows, k)|
    ensures k <= ParityRows(rows, k)[i] < m && ParityRows(rows, k)[i] in rows
    ensures DecidingMinor(a, m, k, rows)[i][j] == a[ParityRows(rows, k)[i]][MissingColumns(rows, k)[j]]
  {
    hide ParityRows, MissingColumns;
    ParityCount(rows, k);
    MissingCount(rows, k);
  }

  lemma CauchyMinorRow(m: nat, k: nat, rows: seq<nat>, i: nat)
    requires k <= m <= 256 && IsSelection(rows, m, k) && i < |MissingColumns(rows, k)|
    ensures |ParityRows(rows, k)| == |MissingColumns(rows, k)| && ParityRows(rows, k)[i] < m
    ensures DecidingMinor(CauchyMatrix(m, k), m, k, rows)[i] == CauchyRow(ParityRows(rows, k)[i], Bytes(MissingColumns(rows, k)))
  {
    hide CauchyMatrix, DecidingMinor, ParityRows, MissingColumns, GfInv, Xor;
    MinorEntry(CauchyMatrix(m, k), m, k, rows, i, 0);
    var t := ParityRows(rows, k)[i];
    forall j | 0 <= j < |MissingColumns(rows, k)|
      ensures DecidingMinor(CauchyMatrix(m, k), m, k, rows)[i][j] == GfInv(Add(t, MissingColumns(rows, k)[j]))
    {
      MinorEntry(CauchyMatrix(m, k), m, k, rows, i, j);
      CauchyAt(m, k, t, MissingColumns(rows, k)[j]);
    }
  }

  lemma CauchyMinorIndependent(m: nat, k: nat, rows: seq<nat>)
    requires k <= m <= 256 && IsSelection(rows, m, k)
    ensures Independent(DecidingMinor(CauchyMatrix(m, k), m, k, rows), |MissingColumns(rows, k)|)
  {
    hide CauchyMatrix, DecidingMinor, ParityRows, MissingColumns, CauchyRow, Dot, Product;
    var d, ts, cs := DecidingMinor(CauchyMatrix(m, k), m, k, rows), ParityRows(rows, k), MissingColumns(rows, k);
    ParityCount(rows, k);
    MissingCount(rows, k);
    ParityRowsDistinct(rows, k);
    forall i | 0 <= i < |ts| ensures ts[i] < m { CauchyMinorRow(m, k, rows, i); }
    forall w: Vec | |w| == |cs| ensures NullOnlyIfZero(d, w) {
      if IsZero(Apply(d, w)) {
        forall i | 0 <= i < |ts| ensures Dot(CauchyRow(Bytes(ts)[i], Bytes(cs)), w) == 0 {
          CauchyMinorRow(m, k, rows, i);
          assert Apply(d, w)[i] == Dot(d[i], w);
        }
        CauchyNull(Bytes(ts), Bytes(cs), w);
      }
    }
  }

  /** Up to 256 rows, every choice of k rows of the Cauchy matrix is invertible. */
  lemma CauchyEveryChoice(m: nat, k: nat)
    requires k <= m <= 256
    ensures EveryChoiceIndependent(CauchyMatrix(m, k), m, k)
  {
    hide CauchyMatrix, DecidingMinor, MissingColumns, Independent, Pick;
    CauchySystematic(m, k);
    forall rows: seq<nat> | IsSelection(rows, m, k) ensures Independent(Pick(CauchyMatrix(m, k), rows), k) {
      CauchyMinorIndependent(m, k, rows);
      MinorDecides(CauchyMatrix(m, k), m, k, rows);
    }
  }

  /** The identity rows with row c replaced by row r. */
  function ReplaceRow(k: nat, c: nat, r: nat): (rows: seq<nat>)
    ensures |rows| == k
  {
    seq(k, i requires 0 <= i < k => if i == c then r else i)
  }

  /** A parity row with a zero in column c cannot stand in for identity row c. */
  lemma ZeroEntrySingular(a: Matrix, m: nat, k: nat, r: nat, c: nat)
    requires Systematic(a, m, k) && k <= r < m && c < k && a[r][c] == 0
    ensures !EveryChoiceIndependent(a, m, k)
  {
    hide Dot;
    var rows := ReplaceRow(k, c, r);
    assert IsSelection(rows, m, k);
    var v: Vec := seq(k, i requires 0 <= i < k => IdentityEntry(i, c));
    forall i | 0 <= i < k ensures Dot(Pick(a, rows)[i], v) == 0 {
      DotComm(a[rows[i]], v);
      DotUnit(v, a[rows[i]], c);
    }
    assert IsZero(Apply(Pick(a, rows), v)) && v[c] == 1;
    assert !NullOnlyIfZero(Pick(a, rows), v);
    assert !Independent(Pick(a, rows), k);
  }

  /** Past 256 rows two indices share their low byte, their sum is zero and so is the matrix entry: the code is
      maximum-distance exactly up to 256 rows (or without parity or data). */
  lemma CauchyLimit(m: nat, k: nat)
    requires k <= m
    ensures EveryChoiceIndependent(CauchyMatrix(m, k), m, k) <==> m <= 256 || m == k || k == 0
  {
    hide CauchyMatrix, EveryChoiceIndependent, Independent, Pick, Xor;
    CauchySystematic(m, k);
    if m <= 256 {
      CauchyEveryChoice(m, k);
    } else if m == k || k == 0 {
      AllRowsChosen(CauchyMatrix(m, k), m, k);
    } else {
      var r := if k < 256 then 256 else k;
      var c := r - 256;
      CauchyAt(m, k, r, c);
      SharedLowByte(r, c);
      ZeroEntrySingular(CauchyMatrix(m, k), m, k, r, c);
    }
  }

  lemma SharedLowByte(r: nat, c: nat)
    requires r == c + 256
    ensures GfInv(Xor(r, c) % 256) == 0
  {
    hide *;
    XorParts(r, c);
    AddZero(c % 256);
    assert r % 256 == c % 256;
  }

  lemma {:induction false} NoParity(rows: seq<nat>, k: nat)
    requires forall i :: 0 <= i < |rows| ==> rows[i] < k
    ensures |ParityRows(rows, k)| == 0
  {
    if |rows| > 0 { NoParity(rows[..|rows| - 1], k); }
  }

  /** Without parity or without data there is nothing to lose. */
  lemma AllRowsChosen(a: Matrix, m: nat, k: nat)
    requires Systematic(a, m, k) && (m == k || k == 0)
    ensures EveryChoiceIndependent(a, m, k)
  {
    hide Independent, Pick, DecidingMinor;
    forall rows: seq<nat> | IsSelection(rows, m, k) ensures Independent(Pick(a, rows), k) {
      MinorDecides(a, m, k, rows);
      ParityCount(rows, k);
      MissingCount(rows, k);
      NoParity(rows, k);
      EmptyIndependent(DecidingMinor(a, m, k, rows));
    }
  }

  lemma EmptyIndependent(d: Matrix)
    requires |d| == 0
    ensures Independent(d, 0)
  {}

  // -- short dot products and powers

  lemma Dot1(u: Vec, v: Vec)
    requires |u| == |v| == 1
    ensures Dot(u, v) == Product(u[0], v[0])
  {
    hide Add, Product;
    DotLast(u, v);
    AddZero(Product(u[0], v[0]));
  }

  lemma Dot2(u: Vec, v: Vec)
    requires |u| == |v| == 2
    ensures Dot(u, v) == Add(Product(u[0], v[0]), Product(u[1], v[1]))
  {
    hide *;
    DotLast(u, v);
    Dot1(u[..1], v[..1]);
  }

  lemma Dot3(u: Vec, v: Vec)
    requires |u| == |v| == 3
    ensures Dot(u, v) == Add(Add(Product(u[0], v[0]), Product(u[1], v[1])), Product(u[2], v[2]))
  {
    hide *;
    DotLast(u, v);
    Dot2(u[..2], v[..2]);
  }

  lemma SquaresDiffer(y: Byte, z: Byte)
    requires y != z
    ensures Product(y, y) != Product(z, z)
  {
    hide *;
    var s := Add(y, z);
    AddCancel(y, z);
    ProductNonzero(s, s);
    ProductAddLeft(y, z, s);
    ProductAddRight(y, y, z);
    ProductAddRight(z, y, z);
    ProductComm(y, z);
    var p := Product(y, z);
    AddComm(p, Product(z, z));
    AddSwap(Product(y, y), p, Product(z, z), p);
    AddZero(p);
    AddZero(Add(Product(y, y), Product(z, z)));
    AddCancel(Product(y, y), Product(z, z));
  }

  /** The d-th powers of the points of the chosen columns. */
  function RsPowers(d: nat, cs: seq<nat>): (u: Vec)
    ensures |u| == |cs|
  {
    seq(|cs|, j requires 0 <= j < |cs| => RsEntry(d, cs[j]))
  }

  lemma PointsDiffer(i: nat, j: nat)
    requires i != j && i < 255 && j < 255
    ensures Exp(i) != Exp(j)
  {
    hide *;
    ExpPeriod(i);
    ExpPeriod(j);
    var a, b := if i == 0 then 255 else i, if j == 0 then 255 else j;
    if a < b { ExpInjective(a, b); } else { ExpInjective(b, a); }
  }

  lemma AtMost(ds: seq<nat>, n: nat)
    requires Distinct(ds) && forall i :: 0 <= i < |ds| ==> ds[i] < n
    ensures |ds| <= n
  {
    NoParity(ds, n);
    ParityCount(ds, n);
    MissingCount(ds, n);
  }

  /** Squaring 1 + z in characteristic two. */
  lemma SquareOnePlus(z: Byte)
    ensures Product(Add(1, z), Add(1, z)) == Add(1, Product(z, z))
  {
    hide *;
    var s := Add(1, z);
    ProductAddLeft(1, z, s);
    ProductOne(s);
    ProductAddRight(z, 1, z);
    ProductOne(z);
    AddAssoc(1, z, Add(z, Product(z, z)));
    AddAssoc(z, z, Product(z, z));
    AddZero(z);
    AddZero(Product(z, z));
  }
}
