/** Encoding, incremental encoding and erasure recovery with the table-driven kernels. */
module Erasure {
  import opened Bits
  import opened GF256
  import opened GFTables
  import opened Linear
  import opened Invert
  import opened Cauchy
  import opened Generators

  // -- coefficient tables

  /** Where the table of coefficient (i, j) starts. */
  function TableOffset(k: nat, i: nat, j: nat): nat { (i * k + j) * 32 }

  lemma TableOffsetBound(k: nat, rows: nat, i: nat, j: nat)
    requires i < rows && j < k
    ensures TableOffset(k, i, j) + 32 <= 32 * (rows * k)
    ensures TableOffset(k, i, j) == 32 * (i * k + j)
    ensures TableOffset(k, i, j) == j * 32 + i * k * 32
  {
    IndexBound(rows, k, i, j);
    assert (i * k + j) * 32 == 32 * (i * k + j);
  }

  /** The element of the table that the scalar kernels read: the coefficient itself. */
  function Coefficient(tbls: seq<Byte>, k: nat, l: nat, j: nat): Byte
    requires TableOffset(k, l, j) + 32 <= |tbls|
  {
    tbls[TableOffset(k, l, j) + 1]
  }

  /** All tables of the first coefficients, in row-major order, are in place. */
  ghost predicate TablesUpTo(tbls: seq<Byte>, a: seq<Byte>, count: nat) {
    32 * count <= |tbls| && count <= |a|
    && forall e, x :: 0 <= e < count && 0 <= x < 32 ==> tbls[32 * e + x] == TableEntry(a[e], x)
  }

  /** Expands `rows` rows of k coefficients, starting at `a[start]`. */
  method EcInitTables(k: nat, rows: nat, a: array<Byte>, start: nat, tbls: array<Byte>)
    requires start + rows * k <= a.Length && tbls.Length >= 32 * (rows * k) && a != tbls
    modifies tbls
    ensures TablesUpTo(tbls[..], a[start..start + rows * k], rows * k)
  {
    hide *;
    ghost var s := a[start..start + rows * k];
    var i, next := 0, start;
    TablesNone(tbls[..], s);
    while i < rows
      invariant 0 <= i <= rows && next == start + i * k && a[start..start + rows * k] == s
      invariant TablesUpTo(tbls[..], s, i * k)
    {
      var j := 0;
      RowBound(i, rows, k);
      while j < k
        invariant 0 <= j <= k && next == start + i * k + j && a[start..start + rows * k] == s
        invariant TablesUpTo(tbls[..], s, i * k + j)
      {
        ghost var was := tbls[..];
        GfVectMulInit(a[next], tbls, 32 * (i * k + j));
        TablesStep(was, tbls[..], s, i * k + j);
        next := next + 1;
        j := j + 1;
      }
      assert (i + 1) * k == i * k + k;
      i := i + 1;
    }
  }

  lemma TablesNone(tbls: seq<Byte>, a: seq<Byte>)
    ensures TablesUpTo(tbls, a, 0)
  {}

  lemma TablesStep(was: seq<Byte>, now: seq<Byte>, a: seq<Byte>, e: nat)
    requires TablesUpTo(was, a, e) && e < |a| && 32 * e + 32 <= |was| == |now|
    requires forall x :: 0 <= x < 32 ==> now[32 * e + x] == TableEntry(a[e], x)
    requires forall i :: 0 <= i < 32 * e ==> now[i] == was[i]
    ensures TablesUpTo(now, a, e + 1)
  {
    hide TableEntry;
  }

  // -- blocks

  /** The first `len` bytes of every block. */
  ghost function Contents(blocks: seq<array<Byte>>, len: nat): (data: seq<Vec>)
    requires forall j :: 0 <= j < |blocks| ==> blocks[j].Length >= len
    reads blocks
    ensures |data| == |blocks| && forall j :: 0 <= j < |blocks| ==> data[j] == blocks[j][..len]
  {
    seq(|blocks|, j requires 0 <= j < |blocks| reads blocks => blocks[j][..len])
  }

  /** One byte position across all blocks. */
  ghost function Column(data: seq<Vec>, p: nat): (v: Vec)
    requires forall j :: 0 <= j < |data| ==> p < |data[j]|
    ensures |v| == |data| && forall j :: 0 <= j < |data| ==> v[j] == data[j][p]
  {
    seq(|data|, j requires 0 <= j < |data| => data[j][p])
  }

  ghost predicate AllLength(data: seq<Vec>, len: nat) {
    forall j :: 0 <= j < |data| ==> |data[j]| == len
  }

  /** The coefficients of output l, as the scalar kernels read them from the tables. */
  function CoefficientRow(tbls: seq<Byte>, k: nat, rows: nat, l: nat): (u: Vec)
    requires l < rows && |tbls| >= 32 * (rows * k)
    ensures |u| == k
  {
    seq(k, j requires 0 <= j < k => TableOffsetBound(k, rows, l, j); Coefficient(tbls, k, l, j))
  }

  /** Initialized tables hold the coefficient matrix. */
  lemma CoefficientRowIs(tbls: seq<Byte>, a: seq<Byte>, k: nat, rows: nat, l: nat)
    requires l < rows && |a| == rows * k && TablesUpTo(tbls, a, rows * k)
    ensures |tbls| >= 32 * (rows * k) && CoefficientRow(tbls, k, rows, l) == RowOf(a, rows, k, l)
  {
    hide TablesUpTo, Coefficient, RowOf, TableOffset;
    TablesLength(tbls, a, rows * k);
    forall j | 0 <= j < k
      ensures TableOffset(k, l, j) + 32 <= |tbls| && Coefficient(tbls, k, l, j) == RowOf(a, rows, k, l)[j]
    {
      CoefficientIs(tbls, a, k, rows, l, j);
    }
  }

  lemma TablesLength(tbls: seq<Byte>, a: seq<Byte>, count: nat)
    requires TablesUpTo(tbls, a, count)
    ensures 32 * count <= |tbls|
  {}

  lemma CoefficientIs(tbls: seq<Byte>, a: seq<Byte>, k: nat, rows: nat, l: nat, j: nat)
    requires l < rows && j < k && |a| == rows * k && TablesUpTo(tbls, a, rows * k)
    ensures TableOffset(k, l, j) + 32 <= |tbls| && Coefficient(tbls, k, l, j) == RowOf(a, rows, k, l)[j]
  {
    hide TableEntry, TableOffset, Rows;
    IndexBound(rows, k, l, j);
    TableOffsetBound(k, rows, l, j);
    FirstEntry(a[l * k + j]);
    RowBound(l, rows, k);
    assert RowOf(a, rows, k, l)[j] == a[l * k + j];
  }

  lemma FirstEntry(c: Byte)
    ensures TableEntry(c, 1) == c
  {
    hide Product;
    ProductOne(c);
  }

  lemma DotStep(u: Vec, v: Vec, j: nat)
    requires |u| == |v| && j < |u|
    ensures Dot(u[..j + 1], v[..j + 1]) == Add(Dot(u[..j], v[..j]), Product(u[j], v[j]))
  {
    hide Dot, Add, Product;
    DotLast(u[..j + 1], v[..j + 1]);
    assert u[..j + 1][..j] == u[..j] && v[..j + 1][..j] == v[..j];
  }

  /** What output l of the encoder holds at one position. */
  ghost predicate Encodes(out: Vec, row: Vec, data: seq<Vec>, len: nat)
    requires |row| == |data| && AllLength(data, len)
  {
    |out| >= len && forall p :: 0 <= p < len ==> out[p] == Dot(row, Column(data, p))
  }

  /** The dot product of a coefficient row with one byte position of the sources. */
  method DotColumn(len: nat, srcs: nat, rows: nat, l: nat, v: array<Byte>, src: seq<array<Byte>>, i: nat) returns (s: Byte)
    requires |src| == srcs && l < rows && v.Length >= 32 * (rows * srcs) && i < len
    requires forall j :: 0 <= j < srcs ==> src[j].Length >= len
    ensures s == Dot(CoefficientRow(v[..], srcs, rows, l), Column(Contents(src, len), i))
  {
    hide Dot, Product, Add, Xor, GfMul, CoefficientRow, Coefficient, TableOffset;
    ghost var u, col := CoefficientRow(v[..], srcs, rows, l), Column(Contents(src, len), i);
    var j := 0;
    s := 0;
    DotNone(u, col);
    while j < srcs
      invariant 0 <= j <= srcs && s == Dot(u[..j], col[..j])
    {
      ReadCoefficient(v[..], srcs, rows, l, j);
      DotStep(u, col, j);
      ProductComm(col[j], u[j]);
      s := Add(s, GfMul(src[j][i], v[j * 32 + l * srcs * 32 + 1]));
      j := j + 1;
    }
    assert u[..srcs] == u && col[..srcs] == col;
  }

  /** One output block: the dot product of a coefficient row with every column of the sources. */
  method EncodeBlock(len: nat, srcs: nat, rows: nat, l: nat, v: array<Byte>, src: seq<array<Byte>>, out: array<Byte>)
    requires |src| == srcs && l < rows && v.Length >= 32 * (rows * srcs) && out.Length >= len
    requires forall j :: 0 <= j < srcs ==> src[j].Length >= len && src[j] != out
    requires v != out
    modifies out
    ensures Encodes(out[..], CoefficientRow(v[..], srcs, rows, l), Contents(src, len), len)
    ensures out[len..] == old(out[len..])
  {
    hide Dot, CoefficientRow;
    ghost var data, u := Contents(src, len), CoefficientRow(v[..], srcs, rows, l);
    var i := 0;
    while i < len
      invariant 0 <= i <= len
      invariant Contents(src, len) == data
      invariant u == CoefficientRow(v[..], srcs, rows, l)
      invariant forall p :: 0 <= p < i ==> out[p] == Dot(u, Column(data, p))
      invariant out[len..] == old(out[len..])
    {
      var s := DotColumn(len, srcs, rows, l, v, src, i);
      out[i] := s;
      i := i + 1;
    }
  }

  lemma DotNone(u: Vec, v: Vec)
    requires |u| == |v|
    ensures Dot(u[..0], v[..0]) == 0
  {}

  lemma ReadCoefficient(tbls: seq<Byte>, k: nat, rows: nat, l: nat, j: nat)
    requires l < rows && j < k && |tbls| >= 32 * (rows * k)
    ensures j * 32 + l * k * 32 + 1 < |tbls|
    ensures tbls[j * 32 + l * k * 32 + 1] == CoefficientRow(tbls, k, rows, l)[j]
  {
    TableOffsetBound(k, rows, l, j);
    hide TableOffset;
  }

  /** The buffers of one call do not overlap. */
  ghost predicate Separate(v: array<Byte>, src: seq<array<Byte>>, dest: seq<array<Byte>>, len: nat) {
    (forall j :: 0 <= j < |src| ==> src[j].Length >= len)
    && (forall l :: 0 <= l < |dest| ==> dest[l].Length >= len && dest[l] != v)
    && (forall l, j :: 0 <= l < |dest| && 0 <= j < |src| ==> src[j] != dest[l])
    && (forall l, q :: 0 <= l < q < |dest| ==> dest[l] != dest[q])
  }

  /** Every output block is the matrix-vector product at every byte position. */
  method EcEncodeDataBase(len: nat, srcs: nat, dests: nat, v: array<Byte>, src: seq<array<Byte>>, dest: seq<array<Byte>>)
    requires |src| == srcs && |dest| == dests && v.Length >= 32 * (dests * srcs) && Separate(v, src, dest, len)
    modifies dest
    ensures v[..] == old(v[..]) && Contents(src, len) == old(Contents(src, len))
    ensures forall l :: 0 <= l < dests ==> Encodes(dest[l][..], CoefficientRow(v[..], srcs, dests, l), Contents(src, len), len)
  {
    hide Dot, CoefficientRow, Encodes;
    ghost var data, t := Contents(src, len), v[..];
    var l := 0;
    while l < dests
      invariant 0 <= l <= dests && Contents(src, len) == data && v[..] == t
      invariant forall q :: 0 <= q < l ==> Encodes(dest[q][..], CoefficientRow(t, srcs, dests, q), data, len)
    {
      EncodeBlock(len, srcs, dests, l, v, src, dest[l]);
      l := l + 1;
    }
  }

  // -- incremental encoding, one source at a time

  /** The sum of the chosen terms, in the order given. */
  function SumAt(terms: Vec, order: seq<nat>): Byte
    requires forall i :: 0 <= i < |order| ==> order[i] < |terms|
  {
    if |order| == 0 then 0 else Add(SumAt(terms, order[..|order| - 1]), terms[order[|order| - 1]])
  }

  /** The products that a dot product adds up. */
  function Terms(u: Vec, v: Vec): (t: Vec)
    requires |u| == |v|
    ensures |t| == |u| && forall j :: 0 <= j < |u| ==> t[j] == Product(u[j], v[j])
  {
    seq(|u|, j requires 0 <= j < |u| => Product(u[j], v[j]))
  }

  lemma {:induction false} SumWithout(terms: Vec, order: seq<nat>, i: nat)
    requires i < |order| && forall q :: 0 <= q < |order| ==> order[q] < |terms|
    ensures SumAt(terms, order) == Add(SumAt(terms, order[..i] + order[i + 1..]), terms[order[i]])
  {
    hide Add;
    var n := |order| - 1;
    var rest := order[..i] + order[i + 1..];
    if i == n {
      assert rest == order[..n];
    } else {
      SumWithout(terms, order[..n], i);
      assert order[..n][..i] == order[..i];
      assert rest[..n - 1] == order[..n][..i] + order[..n][i + 1..];
      assert rest[n - 1] == order[n];
      var s, x, y := SumAt(terms, rest[..n - 1]), terms[order[i]], terms[order[n]];
      AddAssoc(s, x, y);
      AddComm(x, y);
      AddAssoc(s, y, x);
    }
  }

  /** Whatever the order of the sources, the sum of all products is the dot product. */
  lemma {:induction false} SumAnyOrder(u: Vec, v: Vec, order: seq<nat>)
    requires |u| == |v| && IsSelection(order, |u|, |u|)
    ensures SumAt(Terms(u, v), order) == Dot(u, v)
  {
    hide Add, Product, Dot, SumAt, Terms;
    var n := |u| - 1;
    if |u| == 0 {
      EmptySums(u, v, order);
    } else {
      AllChosen(order, |u|, n);
      var i :| 0 <= i < |order| && order[i] == n;
      var rest := order[..i] + order[i + 1..];
      SumWithout(Terms(u, v), order, i);
      forall q | 0 <= q < |rest| ensures rest[q] < n {
        var p := if q < i then q else q + 1;
        assert rest[q] == order[p] && order[p] != order[i];
      }
      assert Distinct(rest);
      SumPrefix(Terms(u, v), rest, n);
      assert Terms(u, v)[..n] == Terms(u[..n], v[..n]);
      SumAnyOrder(u[..n], v[..n], rest);
      DotLast(u, v);
    }
  }

  lemma EmptySums(u: Vec, v: Vec, order: seq<nat>)
    requires |u| == |v| == |order| == 0
    ensures SumAt(Terms(u, v), order) == Dot(u, v)
  {}

  lemma {:induction false} SumPrefix(terms: Vec, order: seq<nat>, n: nat)
    requires n <= |terms| && forall q :: 0 <= q < |order| ==> order[q] < n
    ensures SumAt(terms, order) == SumAt(terms[..n], order)
  {
    hide Add;
    if |order| > 0 { SumPrefix(terms, order[..|order| - 1], n); }
  }

  /** n distinct numbers below n include every number below n. */
  lemma AllChosen(order: seq<nat>, n: nat, x: nat)
    requires IsSelection(order, n, n) && x < n
    ensures x in order
  {
    NoParity(order, n);
    ParityCount(order, n);
    MissingCount(order, n);
    assert |MissingColumns(order, n)| == 0;
  }

  /** A parity block after adding the chosen sources to what it held before. */
  ghost predicate Accumulated(out: Vec, before: Vec, row: Vec, data: seq<Vec>, order: seq<nat>, len: nat)
    requires |row| == |data| && AllLength(data, len) && forall i :: 0 <= i < |order| ==> order[i] < |data|
  {
    |out| >= len && |before| >= len
    && forall p :: 0 <= p < len ==> out[p] == Add(before[p], SumAt(Terms(row, Column(data, p)), order))
  }

  /** One source block, times a coefficient, has been added to a parity block. */
  ghost predicate AddsBlock(out: Vec, before: Vec, c: Byte, data: Vec, len: nat) {
    |out| >= len && |before| >= len && |data| >= len
    && forall p :: 0 <= p < len ==> out[p] == Add(before[p], Product(c, data[p]))
  }

  method UpdateBlock(len: nat, k: nat, rows: nat, l: nat, vecI: nat, v: array<Byte>, data: array<Byte>, out: array<Byte>)
    requires l < rows && vecI < k && v.Length >= 32 * (rows * k) && out.Length >= len && data.Length >= len
    requires data != out && v != out
    modifies out
    ensures AddsBlock(out[..], old(out[..]), CoefficientRow(v[..], k, rows, l)[vecI], data[..], len)
    ensures out[len..] == old(out[len..])
  {
    hide Add, Xor, Product, GfMul, CoefficientRow;
    ghost var t := v[..];
    var i := 0;
    while i < len
      invariant 0 <= i <= len && v[..] == t && data[..] == old(data[..])
      invariant forall p :: 0 <= p < i ==> out[p] == Add(old(out[p]), Product(CoefficientRow(t, k, rows, l)[vecI], data[p]))
      invariant out[i..] == old(out[i..])
    {
      ReadCoefficient(v[..], k, rows, l, vecI);
      var s := out[i];
      assert s == old(out[i..])[0];
      ProductComm(data[i], CoefficientRow(t, k, rows, l)[vecI]);
      s := Add(s, GfMul(data[i], v[vecI * 32 + l * k * 32 + 1]));
      out[i] := s;
      i := i + 1;
    }
  }

  /** Adds source `vecI`, times its coefficients, to all parity blocks. */
  method EcEncodeDataUpdateBase(len: nat, k: nat, rows: nat, vecI: nat, v: array<Byte>, data: array<Byte>, dest: seq<array<Byte>>)
    requires vecI < k && |dest| == rows && v.Length >= 32 * (rows * k) && Separate(v, [data], dest, len)
    modifies dest
    ensures v[..] == old(v[..]) && data[..] == old(data[..])
    ensures forall l :: 0 <= l < rows ==>
              AddsBlock(dest[l][..], old(dest[l][..]), CoefficientRow(v[..], k, rows, l)[vecI], data[..], len)
  {
    hide Add, Xor, Product, CoefficientRow, AddsBlock;
    assert [data][0] == data;
    ghost var t := v[..];
    var l := 0;
    while l < rows
      invariant 0 <= l <= rows && v[..] == t && data[..] == old(data[..])
      invariant forall q :: 0 <= q < l ==> AddsBlock(dest[q][..], old(dest[q][..]), CoefficientRow(t, k, rows, q)[vecI], data[..], len)
      invariant forall q :: l <= q < rows ==> dest[q][..] == old(dest[q][..])
    {
      UpdateBlock(len, k, rows, l, vecI, v, data, dest[l]);
      l := l + 1;
    }
  }

  lemma AccumulatedNone(before: Vec, row: Vec, data: seq<Vec>, len: nat)
    requires |row| == |data| && AllLength(data, len) && |before| >= len
    ensures Accumulated(before, before, row, data, [], len)
  {
    forall p | 0 <= p < len ensures before[p] == Add(before[p], 0) { AddZero(before[p]); }
  }

  lemma AccumulatedStep(out: Vec, mid: Vec, before: Vec, row: Vec, data: seq<Vec>, order: seq<nat>, x: nat, len: nat)
    requires |row| == |data| && AllLength(data, len) && x < |data| && forall i :: 0 <= i < |order| ==> order[i] < |data|
    requires Accumulated(mid, before, row, data, order, len) && AddsBlock(out, mid, row[x], data[x], len)
    ensures Accumulated(out, before, row, data, order + [x], len)
  {
    hide Add, Product, Terms, Column;
    forall p | 0 <= p < len ensures out[p] == Add(before[p], SumAt(Terms(row, Column(data, p)), order + [x])) {
      var t := Terms(row, Column(data, p));
      assert (order + [x])[..|order|] == order;
      AddAssoc(before[p], SumAt(t, order), t[x]);
    }
  }

  lemma AccumulatedAll(out: Vec, before: Vec, row: Vec, data: seq<Vec>, order: seq<nat>, len: nat)
    requires |row| == |data| && AllLength(data, len) && IsSelection(order, |data|, |data|)
    requires Accumulated(out, before, row, data, order, len) && forall p :: 0 <= p < len ==> before[p] == 0
    ensures Encodes(out, row, data, len)
  {
    hide Add, Product, Terms, Column, Dot, SumAt;
    forall p | 0 <= p < len ensures out[p] == Dot(row, Column(data, p)) {
      SumAnyOrder(row, Column(data, p), order);
      AddZero(Dot(row, Column(data, p)));
    }
  }

  ghost predicate AllAccumulated(now: seq<Vec>, before: seq<Vec>, rows: seq<Vec>, data: seq<Vec>, order: seq<nat>, len: nat) {
    |now| == |before| == |rows| && AllLength(data, len) && (forall i :: 0 <= i < |order| ==> order[i] < |data|)
    && forall l :: 0 <= l < |rows| ==> |rows[l]| == |data| && Accumulated(now[l], before[l], rows[l], data, order, len)
  }

  ghost predicate AllAdded(now: seq<Vec>, mid: seq<Vec>, rows: seq<Vec>, data: seq<Vec>, x: nat, len: nat) {
    |now| == |mid| == |rows| && x < |data|
    && forall l :: 0 <= l < |rows| ==> |rows[l]| == |data| && AddsBlock(now[l], mid[l], rows[l][x], data[x], len)
  }

  lemma AllAccumulatedStep(now: seq<Vec>, mid: seq<Vec>, before: seq<Vec>, rows: seq<Vec>, data: seq<Vec>, order: seq<nat>, x: nat, len: nat)
    requires AllAccumulated(mid, before, rows, data, order, len) && AllAdded(now, mid, rows, data, x, len)
    ensures AllAccumulated(now, before, rows, data, order + [x], len)
  {
    hide Accumulated, AddsBlock;
    forall l | 0 <= l < |rows| ensures Accumulated(now[l], before[l], rows[l], data, order + [x], len) {
      AccumulatedStep(now[l], mid[l], before[l], rows[l], data, order, x, len);
    }
  }

  lemma AllAccumulatedNone(before: seq<Vec>, rows: seq<Vec>, data: seq<Vec>, len: nat)
    requires |before| == |rows| && AllLength(data, len)
    requires forall l :: 0 <= l < |rows| ==> |rows[l]| == |data| && |before[l]| >= len
    ensures AllAccumulated(before, before, rows, data, [], len)
  {
    hide Accumulated;
    forall l | 0 <= l < |rows| ensures Accumulated(before[l], before[l], rows[l], data, [], len) {
      AccumulatedNone(before[l], rows[l], data, len);
    }
  }

  ghost predicate AllEncode(now: seq<Vec>, rows: seq<Vec>, data: seq<Vec>, len: nat) {
    |now| == |rows| && AllLength(data, len)
    && forall l :: 0 <= l < |rows| ==> |rows[l]| == |data| && Encodes(now[l], rows[l], data, len)
  }

  ghost predicate AllZeroed(blocks: seq<Vec>, len: nat) {
    forall l :: 0 <= l < |blocks| ==> |blocks[l]| >= len && forall p :: 0 <= p < len ==> blocks[l][p] == 0
  }

  lemma AllAccumulatedAll(now: seq<Vec>, before: seq<Vec>, rows: seq<Vec>, data: seq<Vec>, order: seq<nat>, len: nat)
    requires AllAccumulated(now, before, rows, data, order, len) && IsSelection(order, |data|, |data|) && AllZeroed(before, len)
    ensures AllEncode(now, rows, data, len)
  {
    hide Accumulated, Encodes;
    forall l | 0 <= l < |rows| ensures Encodes(now[l], rows[l], data, len) {
      AccumulatedAll(now[l], before[l], rows[l], data, order, len);
    }
  }

  ghost function Snapshot(blocks: seq<array<Byte>>): (s: seq<Vec>)
    reads blocks
    ensures |s| == |blocks| && forall l :: 0 <= l < |blocks| ==> s[l] == blocks[l][..]
  {
    seq(|blocks|, l requires 0 <= l < |blocks| reads blocks => blocks[l][..])
  }

  /** One update, seen on all parity blocks at once. */
  method UpdateStep(len: nat, k: nat, rows: nat, x: nat, tbls: array<Byte>, src: seq<array<Byte>>, dest: seq<array<Byte>>,
                    ghost coefs: seq<Byte>, ghost data: seq<Vec>)
    requires |src| == k && |dest| == rows && |coefs| == rows * k && x < k && tbls.Length >= 32 * (rows * k)
    requires Separate(tbls, src, dest, len) && TablesUpTo(tbls[..], coefs, rows * k) && Contents(src, len) == data
    modifies dest
    ensures tbls[..] == old(tbls[..]) && Contents(src, len) == data
    ensures AllAdded(Snapshot(dest), old(Snapshot(dest)), Rows(coefs, rows, k), data, x, len)
  {
    hide TablesUpTo, RowOf, CoefficientRow, AddsBlock;
    ghost var mid := Snapshot(dest);
    EcEncodeDataUpdateBase(len, k, rows, x, tbls, src[x], dest);
    forall l | 0 <= l < rows ensures AddsBlock(dest[l][..], mid[l], RowOf(coefs, rows, k, l)[x], data[x], len) {
      CoefficientRowIs(tbls[..], coefs, k, rows, l);
      TrimBlock(dest[l][..], mid[l], RowOf(coefs, rows, k, l)[x], src[x][..], len);
    }
  }

  lemma TrimBlock(out: Vec, before: Vec, c: Byte, data: Vec, len: nat)
    requires AddsBlock(out, before, c, data, len)
    ensures AddsBlock(out, before, c, data[..len], len)
  {
    hide Add, Product;
  }

  /** The coefficients that are stored from `start` on. */
  ghost function CoefficientsAt(a: array<Byte>, start: nat, rows: nat, k: nat): (c: Matrix)
    requires start + rows * k <= a.Length
    reads a
    ensures |c| == rows && IsMatrix(c, rows, k)
  {
    Rows(a[start..start + rows * k], rows, k)
  }

  /** Parity built from zeroed blocks by one update per source, in any order of the sources, is the parity that the
      one-shot encoder computes. */
  method EncodeByUpdates(len: nat, k: nat, rows: nat, a: array<Byte>, start: nat, tbls: array<Byte>, src: seq<array<Byte>>,
                         dest: seq<array<Byte>>, order: seq<nat>)
    requires |src| == k && |dest| == rows && start + rows * k <= a.Length && tbls.Length >= 32 * (rows * k)
    requires Separate(tbls, src, dest, len) && a != tbls && tbls !in src
    requires IsSelection(order, k, k) && AllZeroed(Snapshot(dest), len)
    modifies tbls, dest
    ensures Contents(src, len) == old(Contents(src, len))
    ensures AllEncode(Snapshot(dest), old(CoefficientsAt(a, start, rows, k)), Contents(src, len), len)
  {
    hide TablesUpTo, AllAccumulated, AllAdded, AllEncode, AllZeroed, Encodes, RowOf;
    ghost var coefs, data, before := a[start..start + rows * k], Contents(src, len), Snapshot(dest);
    EcInitTables(k, rows, a, start, tbls);
    ZeroedLengths(before, len);
    AllAccumulatedNone(before, Rows(coefs, rows, k), data, len);
    var i := 0;
    assert order[..0] == [];
    while i < k
      invariant 0 <= i <= k && Contents(src, len) == data
      invariant TablesUpTo(tbls[..], coefs, rows * k)
      invariant AllAccumulated(Snapshot(dest), before, Rows(coefs, rows, k), data, order[..i], len)
    {
      ghost var mid := Snapshot(dest);
      UpdateStep(len, k, rows, order[i], tbls, src, dest, coefs, data);
      AllAccumulatedStep(Snapshot(dest), mid, before, Rows(coefs, rows, k), data, order[..i], order[i], len);
      assert order[..i + 1] == order[..i] + [order[i]];
      i := i + 1;
    }
    assert order[..k] == order;
    AllAccumulatedAll(Snapshot(dest), before, Rows(coefs, rows, k), data, order, len);
  }

  lemma ZeroedLengths(blocks: seq<Vec>, len: nat)
    requires AllZeroed(blocks, len)
    ensures forall l :: 0 <= l < |blocks| ==> |blocks[l]| >= len
  {}

  /** The one-shot encoder on freshly expanded tables. */
  method EncodeAtOnce(len: nat, k: nat, rows: nat, a: array<Byte>, start: nat, tbls: array<Byte>, src: seq<array<Byte>>, dest: seq<array<Byte>>)
    requires |src| == k && |dest| == rows && start + rows * k <= a.Length && tbls.Length >= 32 * (rows * k)
    requires Separate(tbls, src, dest, len) && a != tbls && tbls !in src
    modifies tbls, dest
    ensures Contents(src, len) == old(Contents(src, len))
    ensures AllEncode(Snapshot(dest), old(CoefficientsAt(a, start, rows, k)), Contents(src, len), len)
  {
    hide TablesUpTo, Encodes, RowOf, CoefficientRow;
    ghost var coefs := a[start..start + rows * k];
    EcInitTables(k, rows, a, start, tbls);
    EcEncodeDataBase(len, k, rows, tbls, src, dest);
    forall l | 0 <= l < rows ensures CoefficientRow(tbls[..], k, rows, l) == RowOf(coefs, rows, k, l) {
      CoefficientRowIs(tbls[..], coefs, k, rows, l);
    }
  }

  // -- erasure recovery

  /** The rows that are not flagged as lost, in order. */
  function Surviving(lost: seq<bool>): (rows: seq<nat>)
    ensures forall i :: 0 <= i < |rows| ==> rows[i] < |lost| && !lost[rows[i]]
    ensures forall i, j :: 0 <= i < j < |rows| ==> rows[i] < rows[j]
    ensures forall r :: 0 <= r < |lost| && !lost[r] ==> r in rows
  {
    if |lost| == 0 then [] else
      Surviving(lost[..|lost| - 1]) + if lost[|lost| - 1] then [] else [|lost| - 1]
  }

  lemma {:induction false} SurvivingPrefix(lost: seq<bool>, r: nat)
    requires r <= |lost|
    ensures Surviving(lost[..r]) <= Surviving(lost)
  {
    if r < |lost| {
      SurvivingPrefix(lost[..|lost| - 1], r);
      assert lost[..|lost| - 1][..r] == lost[..r];
    } else {
      assert lost[..r] == lost;
    }
  }

  lemma SurvivingNext(lost: seq<bool>, r: nat)
    requires r < |lost|
    ensures Surviving(lost[..r + 1]) == Surviving(lost[..r]) + if lost[r] then [] else [r]
  {
    assert lost[..r + 1][..r] == lost[..r];
  }

  /** Copies a row of one flat matrix to a row of another. */
  method CopyRow(from: array<Byte>, fromRows: nat, r: nat, to: array<Byte>, toRows: nat, i: nat, k: nat)
    requires from.Length >= fromRows * k && to.Length == toRows * k && r < fromRows && i < toRows && from != to
    modifies to
    ensures Rows(to[..], toRows, k) == old(Rows(to[..], toRows, k))[i := RowOf(from[..fromRows * k], fromRows, k, r)]
  {
    hide *;
    ghost var a, row := Rows(to[..], toRows, k), RowOf(from[..fromRows * k], fromRows, k, r);
    RowsShape(to[..], toRows, k);
    PartialEnds(a, i, row);
    var j := 0;
    while j < k
      invariant 0 <= j <= k && from[..] == old(from[..])
      invariant Rows(to[..], toRows, k) == Partial(a, i, row, j)
    {
      ReadRow(from[..], fromRows, k, r, j);
      PartialStep(a, i, row, j);
      Set(to, toRows, k, i, j, from[k * r + j]);
      j := j + 1;
    }
  }

  lemma ReadRow(s: seq<Byte>, rows: nat, k: nat, r: nat, j: nat)
    requires |s| >= rows * k && r < rows && j < k
    ensures k * r + j < rows * k && RowOf(s[..rows * k], rows, k, r)[j] == s[k * r + j]
  {
    IndexBound(rows, k, r, j);
    RowBound(r, rows, k);
    assert k * r == r * k;
  }

  /** Moves past lost rows to the next surviving one. */
  method SkipLost(lost: seq<bool>, start: nat) returns (r: nat)
    requires start <= |lost| && |Surviving(lost[..start])| < |Surviving(lost)|
    ensures start <= r < |lost| && !lost[r]
    ensures Surviving(lost[..r]) == Surviving(lost[..start])
    ensures Surviving(lost[..r + 1]) == Surviving(lost[..start]) + [r] && Surviving(lost[..r + 1]) <= Surviving(lost)
  {
    hide Surviving;
    r := start;
    NotAllSeen(lost, r);
    while lost[r]
      invariant start <= r < |lost| && Surviving(lost[..r]) == Surviving(lost[..start])
      decreases |lost| - r
    {
      SurvivingNext(lost, r);
      r := r + 1;
      NotAllSeen(lost, r);
    }
    SurvivingNext(lost, r);
    SurvivingPrefix(lost, r + 1);
  }

  lemma NotAllSeen(lost: seq<bool>, r: nat)
    requires r <= |lost| && |Surviving(lost[..r])| < |Surviving(lost)|
    ensures r < |lost|
  {
    hide Surviving;
    assert lost[..|lost|] == lost;
  }

  lemma RowsArePicked(b: seq<Byte>, gen: seq<Byte>, m: nat, k: nat, rows: seq<nat>)
    requires |b| == k * k && |gen| == m * k && |rows| == k && forall q :: 0 <= q < k ==> rows[q] < m
    requires forall q :: 0 <= q < k ==> Rows(b, k, k)[q] == RowOf(gen, m, k, rows[q])
    ensures Rows(b, k, k) == Pick(Rows(gen, m, k), rows)
  {
    hide RowOf;
  }

  /** Collects the first k surviving blocks and the matching rows of the generator. */
  method GatherSurvivors(m: nat, k: nat, a: array<Byte>, buffs: seq<array<Byte>>, lost: seq<bool>, b: array<Byte>)
    returns (recov: seq<array<Byte>>)
    requires a.Length >= m * k && |buffs| == m && |lost| == m && k <= |Surviving(lost)| && b.Length == k * k && a != b
    modifies b
    ensures |recov| == k && forall i :: 0 <= i < k ==> recov[i] == buffs[Surviving(lost)[i]]
    ensures Rows(b[..], k, k) == Pick(Rows(old(a[..m * k]), m, k), Surviving(lost)[..k])
  {
    hide Rows, RowOf, Surviving;
    ghost var gen, rows := a[..m * k], Surviving(lost)[..k];
    recov := [];
    var i, r := 0, 0;
    assert lost[..0] == [];
    NoSurvivors();
    while i < k
      invariant 0 <= i <= k && r <= m && a[..m * k] == gen
      invariant |Surviving(lost[..r])| == i && Surviving(lost[..r]) <= Surviving(lost)
      invariant |recov| == i && forall q :: 0 <= q < i ==> recov[q] == buffs[rows[q]]
      invariant forall q :: 0 <= q < i ==> Rows(b[..], k, k)[q] == RowOf(gen, m, k, rows[q])
    {
      r := SkipLost(lost, r);
      TheNext(lost, r, i, k);
      assert rows[i] == r;
      recov := recov + [buffs[r]];
      CopyRow(a, m, r, b, k, i, k);
      i, r := i + 1, r + 1;
    }
    RowsArePicked(b[..], gen, m, k, rows);
  }

  /** The survivor found is the one to take next. */
  lemma TheNext(lost: seq<bool>, r: nat, i: nat, k: nat)
    requires r < |lost| && i < k <= |Surviving(lost)| && |Surviving(lost[..r + 1])| == i + 1 && Surviving(lost[..r + 1]) <= Surviving(lost)
    requires Surviving(lost[..r + 1])[i] == r
    ensures Surviving(lost)[..k][i] == r
  {
    hide Surviving;
  }

  lemma NoSurvivors()
    ensures Surviving([]) == []
  {}

  // -- what recovery computes

  /** Row `row` of the inverse applied to the surviving bytes gives back the lost data byte. */
  lemma RecoveredByte(inv: Matrix, sub: Matrix, k: nat, e: nat, x: Vec, y: Vec)
    requires IsInverse(inv, sub, k) && e < k && |x| == k && |y| == k
    requires forall i :: 0 <= i < k ==> y[i] == Dot(sub[i], x)
    ensures Dot(inv[e], y) == x[e]
  {
    hide Dot;
    assert Undoes(inv, sub, x);
    assert Apply(sub, x) == y;
    assert Apply(inv, y)[e] == Dot(inv[e], y);
  }

  /** The blocks hold what the generator makes of the data, at the listed rows. */
  ghost predicate Consistent(blocks: seq<Vec>, gen: Matrix, rows: seq<nat>, data: seq<Vec>, len: nat) {
    AllLength(data, len) && |blocks| == |rows|
    && forall i :: 0 <= i < |rows| ==> rows[i] < |gen| && |gen[rows[i]]| == |data| && Encodes(blocks[i], gen[rows[i]], data, len)
  }

  lemma RecoveredBlock(out: Vec, inv: Matrix, gen: Matrix, m: nat, k: nat, rows: seq<nat>, e: nat, blocks: seq<Vec>, data: seq<Vec>, len: nat)
    requires IsMatrix(gen, m, k) && IsSelection(rows, m, k) && IsInverse(inv, Pick(gen, rows), k) && e < k && |data| == k
    requires Consistent(blocks, gen, rows, data, len) && AllLength(blocks, len)
    requires Encodes(out, inv[e], blocks, len)
    ensures out[..len] == data[e]
  {
    hide Dot, IsInverse;
    forall p | 0 <= p < len ensures out[p] == data[e][p] {
      RecoveredByte(inv, Pick(gen, rows), k, e, Column(data, p), Column(blocks, p));
    }
  }

  lemma SurvivorsAreSelection(lost: seq<bool>, m: nat, k: nat)
    requires |lost| == m && k <= |Surviving(lost)|
    ensures IsSelection(Surviving(lost)[..k], m, k)
  {}

  /** Row q of the recovery matrix is row errList[q] of the inverse. */
  ghost predicate SelectsRows(c: seq<Byte>, inv: seq<Byte>, k: nat, errList: seq<nat>, upTo: nat) {
    |c| == |errList| * k && |inv| == k * k && upTo <= |errList| && (forall q :: 0 <= q < |errList| ==> errList[q] < k)
    && forall q :: 0 <= q < upTo ==> Rows(c, |errList|, k)[q] == Rows(inv, k, k)[errList[q]]
  }

  method SelectRows(d: array<Byte>, k: nat, errList: seq<nat>, c: array<Byte>)
    requires d.Length == k * k && c.Length == |errList| * k && c != d && forall q :: 0 <= q < |errList| ==> errList[q] < k
    modifies c
    ensures Rows(c[..], |errList|, k) == Pick(Rows(d[..], k, k), errList)
  {
    hide Rows, RowOf;
    ghost var inv := d[..];
    var i := 0;
    while i < |errList|
      invariant 0 <= i <= |errList| && d[..] == inv
      invariant SelectsRows(c[..], inv, k, errList, i)
    {
      assert d[..k * k] == inv;
      RowIs(inv, k, k, errList[i]);
      CopyRow(d, k, errList[i], c, |errList|, i, k);
      i := i + 1;
    }
    assert Rows(c[..], |errList|, k) == Pick(Rows(inv, k, k), errList);
  }

  lemma RowIs(s: seq<Byte>, rows: nat, n: nat, r: nat)
    requires |s| == rows * n && r < rows
    ensures Rows(s, rows, n)[r] == RowOf(s, rows, n, r)
  {
    hide RowOf;
  }

  /** Everything recovered. */
  lemma AllRecovered(outs: seq<Vec>, inv: Matrix, gen: Matrix, m: nat, k: nat, rows: seq<nat>, errList: seq<nat>,
                     blocks: seq<Vec>, data: seq<Vec>, len: nat)
    requires IsMatrix(gen, m, k) && IsSelection(rows, m, k) && forall q :: 0 <= q < |errList| ==> errList[q] < k
    requires IsInverse(inv, Pick(gen, rows), k) && |data| == k && |blocks| == k
    requires Consistent(blocks, gen, rows, data, len) && AllLength(blocks, len)
    requires AllEncode(outs, Pick(inv, errList), blocks, len)
    ensures Recovered(outs, errList, data, len)
  {
    hide Consistent, Encodes;
    forall q | 0 <= q < |errList| ensures |outs[q]| >= len && outs[q][..len] == data[errList[q]] {
      RecoveredBlock(outs[q], inv, gen, m, k, rows, errList[q], blocks, data, len);
      EncodesLength(outs[q], inv[errList[q]], blocks, len);
    }
  }

  lemma EncodesLength(out: Vec, row: Vec, data: seq<Vec>, len: nat)
    requires |row| == |data| && AllLength(data, len) && Encodes(out, row, data, len)
    ensures |out| >= len
  {}

  /** Encodes the survivors with the wanted rows of the inverse. */
  method RecoverBlocks(len: nat, m: nat, k: nat, d: array<Byte>, tbls: array<Byte>, recov: seq<array<Byte>>, errList: seq<nat>,
                       temp: seq<array<Byte>>, ghost gen: Matrix, ghost rows: seq<nat>, ghost data: seq<Vec>)
    requires d.Length == k * k && |recov| == k && |temp| == |errList| && forall q :: 0 <= q < |errList| ==> errList[q] < k
    requires tbls.Length >= 32 * (|errList| * k) && Separate(tbls, recov, temp, len) && tbls !in recov
    requires IsMatrix(gen, m, k) && IsSelection(rows, m, k) && IsInverse(Rows(d[..], k, k), Pick(gen, rows), k)
    modifies tbls, temp
    ensures |data| == k && Consistent(old(Contents(recov, len)), gen, rows, data, len) ==> Recovered(Snapshot(temp), errList, data, len)
  {
    hide *;
    SeparateLengths(tbls, recov, temp, len);
    ghost var inv, blocks := Rows(d[..], k, k), Contents(recov, len);
    var c := new Byte[|errList| * k];
    SelectRows(d, k, errList, c);
    CoefficientsWhole(c, |errList|, k);
    EncodeAtOnce(len, k, |errList|, c, 0, tbls, recov, temp);
    if |data| == k && Consistent(blocks, gen, rows, data, len) {
      ContentsLength(recov, len);
      AllRecovered(Snapshot(temp), inv, gen, m, k, rows, errList, blocks, data, len);
    }
  }

  lemma CoefficientsWhole(a: array<Byte>, rows: nat, k: nat)
    requires a.Length == rows * k
    ensures 0 + rows * k <= a.Length && CoefficientsAt(a, 0, rows, k) == Rows(a[..], rows, k)
  {
    assert a[0..0 + rows * k] == a[..];
  }

  lemma ContentsLength(blocks: seq<array<Byte>>, len: nat)
    requires forall j :: 0 <= j < |blocks| ==> blocks[j].Length >= len
    ensures AllLength(Contents(blocks, len), len)
  {}

  /** The outputs hold the lost data blocks. */
  ghost predicate Recovered(outs: seq<Vec>, errList: seq<nat>, data: seq<Vec>, len: nat) {
    |outs| == |errList|
    && forall q :: 0 <= q < |errList| ==> |outs[q]| >= len && errList[q] < |data| && outs[q][..len] == data[errList[q]]
  }

  /** Recovers the lost data blocks from the first k surviving ones; -1 exactly when those do not determine the data. */
  method EcDecodePerf(len: nat, m: nat, k: nat, a: array<Byte>, tbls: array<Byte>, buffs: seq<array<Byte>>, lost: seq<bool>,
                      errList: seq<nat>, temp: seq<array<Byte>>, ghost data: seq<Vec>) returns (ret: int)
    requires a.Length >= m * k && |buffs| == m && |lost| == m && k <= |Surviving(lost)|
    requires |temp| == |errList| && forall q :: 0 <= q < |errList| ==> errList[q] < k
    requires tbls.Length >= 32 * (|errList| * k) && Separate(tbls, buffs, temp, len) && tbls !in buffs
    modifies tbls, temp
    ensures ret == 0 || ret == -1
    ensures ret == 0 <==> Independent(Pick(Rows(old(a[..m * k]), m, k), Surviving(lost)[..k]), k)
    ensures EveryChoiceIndependent(Rows(old(a[..m * k]), m, k), m, k) ==> ret == 0
    ensures ret == 0 && |data| == k && Consistent(old(Survivors(buffs, lost, k, len)), Rows(old(a[..m * k]), m, k), Surviving(lost)[..k], data, len) ==>
              Recovered(Snapshot(temp), errList, data, len)
  {
    hide *;
    SeparateLengths(tbls, buffs, temp, len);
    ghost var gen, rows, blocks := Rows(a[..m * k], m, k), Surviving(lost)[..k], Survivors(buffs, lost, k, len);
    SurvivorsAreSelection(lost, m, k);
    var b, d := new Byte[k * k], new Byte[k * k];
    var recov := GatherSurvivors(m, k, a, buffs, lost, b);
    ChoiceApplies(gen, m, k, rows);
    ret := GfInvertMatrix(b, d, k);
    if ret < 0 {
      return -1;
    }
    RecoverySeparate(tbls, buffs, temp, len, recov);
    SeparateLengths(tbls, recov, temp, len);
    GatheredContents(buffs, lost, k, len, recov);
    RecoverBlocks(len, m, k, d, tbls, recov, errList, temp, gen, rows, data);
    return 0;
  }

  /** The surviving blocks that recovery reads. */
  ghost function Survivors(buffs: seq<array<Byte>>, lost: seq<bool>, k: nat, len: nat): (blocks: seq<Vec>)
    requires |buffs| == |lost| && k <= |Surviving(lost)| && forall i :: 0 <= i < |buffs| ==> buffs[i].Length >= len
    reads buffs
    ensures |blocks| == k
  {
    seq(k, i requires 0 <= i < k reads buffs => buffs[Surviving(lost)[i]][..len])
  }

  lemma SeparateLengths(v: array<Byte>, src: seq<array<Byte>>, dest: seq<array<Byte>>, len: nat)
    requires Separate(v, src, dest, len)
    ensures forall i :: 0 <= i < |src| ==> src[i].Length >= len
    ensures forall l :: 0 <= l < |dest| ==> dest[l].Length >= len
  {}

  lemma ChoiceApplies(gen: Matrix, m: nat, k: nat, rows: seq<nat>)
    requires IsMatrix(gen, m, k) && IsSelection(rows, m, k)
    ensures forall i :: 0 <= i < |rows| ==> rows[i] < |gen|
    ensures EveryChoiceIndependent(gen, m, k) ==> Independent(Pick(gen, rows), k)
  {
    hide Independent, Pick;
  }

  lemma RecoverySeparate(tbls: array<Byte>, buffs: seq<array<Byte>>, temp: seq<array<Byte>>, len: nat, recov: seq<array<Byte>>)
    requires Separate(tbls, buffs, temp, len) && tbls !in buffs && forall i :: 0 <= i < |recov| ==> recov[i] in buffs
    ensures Separate(tbls, recov, temp, len) && tbls !in recov
  {}

  lemma GatheredContents(buffs: seq<array<Byte>>, lost: seq<bool>, k: nat, len: nat, recov: seq<array<Byte>>)
    requires |buffs| == |lost| && k <= |Surviving(lost)| && forall i :: 0 <= i < |buffs| ==> buffs[i].Length >= len
    requires |recov| == k && forall i :: 0 <= i < k ==> recov[i] == buffs[Surviving(lost)[i]]
    ensures Contents(recov, len) == Survivors(buffs, lost, k, len)
  {
    hide Surviving;
  }

  /** A data block is consistent with its identity row, so the unlost data blocks always are. */
  lemma DataBlockEncodes(gen: Matrix, m: nat, k: nat, data: seq<Vec>, r: nat, len: nat)
    requires Systematic(gen, m, k) && |data| == k && AllLength(data, len) && r < k
    ensures Encodes(data[r], gen[r], data, len)
  {
    hide Dot;
    forall p | 0 <= p < len ensures data[r][p] == Dot(gen[r], Column(data, p)) {
      IdentityRow(gen, m, k, r, Column(data, p));
    }
  }
}
