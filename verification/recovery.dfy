/** Encoding, losing blocks and decoding, with the Cauchy code. */
module Recovery {
  import opened Bits
  import opened GF256
  import opened Linear
  import opened Invert
  import opened Generators
  import opened Erasure

  /** Every block is what the generator makes of the data. */
  ghost predicate Encoded(blocks: seq<Vec>, gen: Matrix, m: nat, k: nat, data: seq<Vec>, len: nat) {
    IsMatrix(gen, m, k) && |data| == k && AllLength(data, len) && |blocks| == m
    && forall r :: 0 <= r < m ==> Encodes(blocks[r], gen[r], data, len)
  }

  /** The rows behind the identity are the stored coefficients from k * k on. */
  lemma ParityCoefficients(a: array<Byte>, m: nat, k: nat)
    requires k <= m && a.Length == m * k
    ensures k * k + (m - k) * k <= a.Length
    ensures CoefficientsAt(a, k * k, m - k, k) == Rows(a[..], m, k)[k..]
  {
    assert k * k + (m - k) * k == m * k;
    var s := a[k * k..k * k + (m - k) * k];
    var c, d := CoefficientsAt(a, k * k, m - k, k), Rows(a[..], m, k)[k..];
    forall l | 0 <= l < m - k ensures c[l] == d[l] { ShiftedRow(a[..], s, m, k, l); }
  }

  lemma ShiftedRow(all: seq<Byte>, s: seq<Byte>, m: nat, k: nat, l: nat)
    requires k <= m && l < m - k && |all| == m * k && |s| == (m - k) * k && k * k + |s| <= |all| && s == all[k * k..k * k + |s|]
    ensures RowOf(s, m - k, k, l) == RowOf(all, m, k, k + l)
  {
    hide *;
    SumTimes(k, l, k);
    SameSlice(all, s, m, k, l, m - k, k + l, k * k, l * k);
  }

  lemma SumTimes(a: nat, b: nat, k: nat)
    ensures (a + b) * k == a * k + b * k
  {}

  lemma SameSlice(all: seq<Byte>, s: seq<Byte>, m: nat, k: nat, l: nat, rows: nat, r: nat, off: nat, lo: nat)
    requires |all| == m * k && |s| == rows * k && l < rows && r < m && off + |s| <= |all| && s == all[off..off + |s|]
    requires lo == l * k && r * k == off + lo
    ensures RowOf(s, rows, k, l) == RowOf(all, m, k, r)
  {
    hide *;
    RowIsSlice(s, rows, k, l, lo);
    RowIsSlice(all, m, k, r, off + lo);
    SliceOfPart(all, off, |s|, lo, k);
  }

  lemma SliceOfPart(all: seq<Byte>, off: nat, n: nat, lo: nat, k: nat)
    requires off + n <= |all| && lo + k <= n
    ensures all[off..off + n][lo..lo + k] == all[off + lo..off + lo + k]
  {
    var s, t := all[off..off + n][lo..lo + k], all[off + lo..off + lo + k];
    forall i | 0 <= i < k ensures s[i] == t[i] { assert s[i] == all[off + lo + i]; }
  }

  /** Data and freshly encoded parity together are encoded. */
  lemma WholeEncoded(blocks: seq<Vec>, parity: seq<Vec>, coefs: Matrix, gen: Matrix, m: nat, k: nat, data: seq<Vec>, len: nat)
    requires Systematic(gen, m, k) && |data| == k && AllLength(data, len) && |blocks| == m && |parity| == m - k && IsMatrix(coefs, m - k, k)
    requires (forall r :: 0 <= r < k ==> |blocks[r]| >= len && blocks[r][..len] == data[r]) && blocks[k..] == parity
    requires coefs == gen[k..] && AllEncode(parity, coefs, data, len)
    ensures Encoded(blocks, gen, m, k, data, len)
  {
    hide Encodes, Systematic;
    SystematicShape(gen, m, k);
    forall r | 0 <= r < m ensures Encodes(blocks[r], gen[r], data, len) {
      if r < k {
        DataBlockEncodes(gen, m, k, data, r, len);
        LongerEncodes(blocks[r], data[r], gen[r], data, len);
      } else {
        assert blocks[k..][r - k] == blocks[r] && gen[k..][r - k] == gen[r];
        assert Encodes(parity[r - k], coefs[r - k], data, len);
      }
    }
  }

  lemma SystematicShape(gen: Matrix, m: nat, k: nat)
    requires Systematic(gen, m, k)
    ensures k <= m && IsMatrix(gen, m, k)
  {}

  /** Only the first bytes of a block count. */
  lemma LongerEncodes(block: Vec, out: Vec, row: Vec, data: seq<Vec>, len: nat)
    requires |row| == |data| && AllLength(data, len) && Encodes(out, row, data, len) && |out| == len && |block| >= len && block[..len] == out
    ensures Encodes(block, row, data, len)
  {
    forall p | 0 <= p < len ensures block[p] == Dot(row, Column(data, p)) { assert block[..len][p] == out[p]; }
  }

  /** The blocks that are left are consistent with the generator. */
  lemma SurvivorsConsistent(buffs: seq<array<Byte>>, lost: seq<bool>, blocks: seq<Vec>, gen: Matrix, m: nat, k: nat, data: seq<Vec>, len: nat)
    requires Encoded(blocks, gen, m, k, data, len) && |buffs| == |lost| == m && k <= |Surviving(lost)|
    requires forall i :: 0 <= i < m ==> buffs[i].Length >= len && (!lost[i] ==> buffs[i][..] == blocks[i])
    ensures Consistent(Survivors(buffs, lost, k, len), gen, Surviving(lost)[..k], data, len)
  {
    hide Encodes, Surviving;
    var rows := Surviving(lost)[..k];
    forall i | 0 <= i < k ensures rows[i] < |gen| && |gen[rows[i]]| == |data| && Encodes(Survivors(buffs, lost, k, len)[i], gen[rows[i]], data, len) {
      var r := rows[i];
      assert r < m && !lost[r];
      assert Survivors(buffs, lost, k, len)[i] == blocks[r][..len];
      FrontEncodes(blocks[r], gen[r], data, len);
    }
  }

  lemma FrontEncodes(block: Vec, row: Vec, data: seq<Vec>, len: nat)
    requires |row| == |data| && AllLength(data, len) && Encodes(block, row, data, len)
    ensures |block| >= len && Encodes(block[..len], row, data, len)
  {}

  /** Losing a block leaves anything in its buffer. */
  method Lose(buffs: seq<array<Byte>>, lost: seq<bool>)
    requires |buffs| == |lost| && forall i, j :: 0 <= i < j < |buffs| ==> buffs[i] != buffs[j]
    modifies buffs
    ensures forall i :: 0 <= i < |buffs| && !lost[i] ==> buffs[i][..] == old(buffs[i][..])
  {
    var i := 0;
    while i < |buffs|
      invariant 0 <= i <= |buffs| && forall r :: 0 <= r < |buffs| && !lost[r] ==> buffs[r][..] == old(buffs[r][..])
    {
      if lost[i] {
        Scramble(buffs[i]);
      }
      i := i + 1;
    }
  }

  method Scramble(a: array<Byte>)
    modifies a
  {
    var i := 0;
    while i < a.Length
      invariant 0 <= i <= a.Length
    {
      a[i] := *;
      i := i + 1;
    }
  }

  /** The buffers of a round: m blocks, the outputs of the decoder and the tables, all apart. */
  ghost predicate Apart(a: array<Byte>, tbls: array<Byte>, buffs: seq<array<Byte>>, temp: seq<array<Byte>>, len: nat) {
    a != tbls && a !in buffs && a !in temp && tbls !in buffs && tbls !in temp && Separate(tbls, buffs, temp, len)
    && forall i, j :: 0 <= i < j < |buffs| ==> buffs[i] != buffs[j]
  }

  lemma ApartParts(a: array<Byte>, tbls: array<Byte>, buffs: seq<array<Byte>>, temp: seq<array<Byte>>, len: nat, k: nat)
    requires Apart(a, tbls, buffs, temp, len) && k <= |buffs|
    ensures Separate(tbls, buffs, temp, len) && Separate(tbls, buffs[..k], buffs[k..], len) && a != tbls && tbls !in buffs && tbls !in buffs[..k]
    ensures a !in buffs && a !in temp && a !in buffs[k..] && (forall i :: 0 <= i < |buffs| ==> buffs[i].Length >= len)
    ensures forall i, j :: 0 <= i < j < |buffs| ==> buffs[i] != buffs[j]
  {}

  /** Generates the code and encodes. */
  method EncodeCauchy(len: nat, m: nat, k: nat, a: array<Byte>, tbls: array<Byte>, buffs: seq<array<Byte>>)
    requires k <= m && a.Length == m * k && |buffs| == m && tbls.Length >= 32 * ((m - k) * k)
    requires Separate(tbls, buffs[..k], buffs[k..], len) && a != tbls && tbls !in buffs[..k] && a !in buffs
    requires forall i :: 0 <= i < m ==> buffs[i].Length >= len
    modifies a, tbls, buffs[k..]
    ensures Rows(a[..], m, k) == CauchyMatrix(m, k) && Contents(buffs[..k], len) == old(Contents(buffs[..k], len))
    ensures Encoded(Snapshot(buffs), CauchyMatrix(m, k), m, k, Contents(buffs[..k], len), len)
  {
    hide *;
    GfGenCauchy1Matrix(a, m, k);
    ParityCoefficients(a, m, k);
    ghost var coefs := CoefficientsAt(a, k * k, m - k, k);
    EncodeAtOnce(len, k, m - k, a, k * k, tbls, buffs[..k], buffs[k..]);
    AfterEncoding(buffs, coefs, CauchyMatrix(m, k), m, k, Contents(buffs[..k], len), len);
  }

  /** Loses blocks and decodes from those that are left. */
  method LoseAndDecode(len: nat, m: nat, k: nat, a: array<Byte>, tbls: array<Byte>, buffs: seq<array<Byte>>, lost: seq<bool>,
                       errList: seq<nat>, temp: seq<array<Byte>>, ghost data: seq<Vec>) returns (ret: int)
    requires k <= m <= 256 && a.Length == m * k && |buffs| == |lost| == m && k <= |Surviving(lost)|
    requires |temp| == |errList| && forall q :: 0 <= q < |errList| ==> errList[q] < k
    requires tbls.Length >= 32 * (|errList| * k) && Apart(a, tbls, buffs, temp, len) && (forall i :: 0 <= i < m ==> buffs[i].Length >= len)
    requires Rows(a[..], m, k) == CauchyMatrix(m, k) && Encoded(Snapshot(buffs), CauchyMatrix(m, k), m, k, data, len)
    modifies tbls, buffs, temp
    ensures ret == 0 && Recovered(Snapshot(temp), errList, data, len)
  {
    hide *;
    ApartParts(a, tbls, buffs, temp, len, k);
    ghost var blocks := Snapshot(buffs);
    EncodedShape(blocks, CauchyMatrix(m, k), m, k, data, len);
    Lose(buffs, lost);
    SurvivorsConsistent(buffs, lost, blocks, CauchyMatrix(m, k), m, k, data, len);
    CauchyEveryChoice(m, k);
    WholeRows(a, m, k);
    ret := EcDecodePerf(len, m, k, a, tbls, buffs, lost, errList, temp, data);
  }

  lemma WholeRows(a: array<Byte>, m: nat, k: nat)
    requires a.Length == m * k
    ensures a[..m * k] == a[..]
  {}

  lemma EncodedShape(blocks: seq<Vec>, gen: Matrix, m: nat, k: nat, data: seq<Vec>, len: nat)
    requires Encoded(blocks, gen, m, k, data, len)
    ensures |data| == k && |blocks| == m && AllLength(data, len)
  {}

  /** Whatever at most m - k of the m blocks of the Cauchy code are lost, decoding gives all wanted data blocks back. */
  method EncodeLoseDecode(len: nat, m: nat, k: nat, a: array<Byte>, tbls: array<Byte>, buffs: seq<array<Byte>>, lost: seq<bool>,
                          errList: seq<nat>, temp: seq<array<Byte>>) returns (ret: int)
    requires k <= m <= 256 && a.Length == m * k && |buffs| == |lost| == m && k <= |Surviving(lost)|
    requires |temp| == |errList| && forall q :: 0 <= q < |errList| ==> errList[q] < k
    requires tbls.Length >= 32 * ((m - k) * k) && tbls.Length >= 32 * (|errList| * k) && Apart(a, tbls, buffs, temp, len)
    requires forall i :: 0 <= i < m ==> buffs[i].Length >= len
    modifies a, tbls, buffs, temp
    ensures ret == 0 && Recovered(Snapshot(temp), errList, old(Contents(buffs[..k], len)), len)
  {
    hide *;
    ApartParts(a, tbls, buffs, temp, len, k);
    EncodeCauchy(len, m, k, a, tbls, buffs);
    ret := LoseAndDecode(len, m, k, a, tbls, buffs, lost, errList, temp, Contents(buffs[..k], len));
  }

  lemma AfterEncoding(buffs: seq<array<Byte>>, coefs: Matrix, gen: Matrix, m: nat, k: nat, data: seq<Vec>, len: nat)
    requires k <= m == |buffs| && gen == CauchyMatrix(m, k) && IsMatrix(coefs, m - k, k) && coefs == gen[k..]
    requires (forall i :: 0 <= i < m ==> buffs[i].Length >= len) && data == Contents(buffs[..k], len)
    requires AllEncode(Snapshot(buffs[k..]), coefs, data, len)
    ensures Encoded(Snapshot(buffs), gen, m, k, data, len)
  {
    hide AllEncode, Systematic, CauchyMatrix;
    CauchySystematic(m, k);
    ContentsLength(buffs[..k], len);
    WholeEncoded(Snapshot(buffs), Snapshot(buffs[k..]), coefs, gen, m, k, data, len);
  }
}
