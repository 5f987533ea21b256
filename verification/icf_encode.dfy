/** From the intermediate format to bits: the expanded code tables, the encoder, and a decoder that gives the tokens back. */
module IcfEncode {
  import opened Bits
  import opened BitStream
  import opened LZ77
  import opened Icf
  import opened Canonical

  // -- length symbols, section 3.2.5 of RFC 1951

  /** The number of extra bits of a length symbol. */
  function LenExtraBits(s: nat): nat {
    if s < 265 then 0 else if s < 269 then 1 else if s < 273 then 2 else if s < 277 then 3 else if s < 281 then 4 else if s < 285 then 5 else 0
  }

  /** The smallest length of a length symbol. */
  function LenBase(s: nat): nat {
    if s < 257 then 0 else if s < 265 then s - 254 else if s >= 285 then 258 else 3 + (4 + (s - 261) % 4) * Pow2(LenExtraBits(s))
  }

  /** The number of extra bits for a length index, which is the length plus 254. */
  function IndexExtra(l: nat): nat {
    if l < 265 || l >= 512 then 0 else if l < 273 then 1 else if l < 289 then 2 else if l < 321 then 3 else if l < 385 then 4 else 5
  }

  function LenSymbol(l: nat): (s: nat)
    requires 257 <= l <= 512
    ensures 257 <= s <= 285
  {
    if l < 265 then l else if l == 512 then 285
    else if l < 273 then 265 + (l - 265) / 2 else if l < 289 then 269 + (l - 273) / 4 else if l < 321 then 273 + (l - 289) / 8
    else if l < 385 then 277 + (l - 321) / 16 else 281 + (l - 385) / 32
  }

  function LenValue(l: nat): nat
    requires 257 <= l <= 512
  {
    if l < 265 || l == 512 then 0
    else if l < 273 then (l - 265) % 2 else if l < 289 then (l - 273) % 4 else if l < 321 then (l - 289) % 8
    else if l < 385 then (l - 321) % 16 else (l - 385) % 32
  }

  /** Every length is given by its symbol and extra bits, which are in range. */
  lemma LengthRoundTrip(l: nat)
    requires 257 <= l <= 512
    ensures LenBase(LenSymbol(l)) + LenValue(l) == l - 254
    ensures LenExtraBits(LenSymbol(l)) == IndexExtra(l) && LenValue(l) < Pow2(IndexExtra(l))
  {
    hide Pow2;
    if l < 265 || l == 512 {
      Pow2Values();
    } else {
      var eb, k := LengthGroup(l);
      GroupPower(eb);
      LenBaseAt(eb, k);
    }
  }

  /** Where a length index lies in its group. */
  lemma LengthGroup(l: nat) returns (eb: nat, k: nat)
    requires 265 <= l < 512
    ensures 1 <= eb <= 5 && k < 4 && IndexExtra(l) == eb && LenSymbol(l) == 261 + 4 * eb + k
    ensures l == GroupStart(eb) + k * GroupSize(eb) + LenValue(l) && LenValue(l) < GroupSize(eb)
  {
    if l < 273 {
      eb, k := 1, (l - 265) / 2;
      GroupIs(l, 1, k);
    } else if l < 289 {
      eb, k := 2, (l - 273) / 4;
      GroupIs(l, 2, k);
    } else if l < 321 {
      eb, k := 3, (l - 289) / 8;
      GroupIs(l, 3, k);
    } else if l < 385 {
      eb, k := 4, (l - 321) / 16;
      GroupIs(l, 4, k);
    } else {
      eb, k := 5, (l - 385) / 32;
      GroupIs(l, 5, k);
    }
  }

  lemma GroupIs(l: nat, eb: nat, k: nat)
    requires 265 <= l < 512 && 1 <= eb <= 5 && IndexExtra(l) == eb && k == (l - GroupStart(eb)) / GroupSize(eb)
    ensures k < 4 && LenSymbol(l) == 261 + 4 * eb + k
    ensures l == GroupStart(eb) + k * GroupSize(eb) + LenValue(l) && LenValue(l) < GroupSize(eb)
  {
    if eb == 1 { } else if eb == 2 { } else if eb == 3 { } else if eb == 4 { } else { }
  }

  lemma LenBaseAt(eb: nat, k: nat)
    requires 1 <= eb <= 5 && k < 4
    ensures LenBase(261 + 4 * eb + k) + 254 == GroupStart(eb) + k * GroupSize(eb) && LenExtraBits(261 + 4 * eb + k) == eb
  {
    Pow2Values();
    hide Pow2;
    if eb == 1 { } else if eb == 2 { } else if eb == 3 { } else if eb == 4 { } else { }
  }

  // -- the expanded table

  /** The 24 bits that hold a code and the extra bits behind it. */
  function CodeAndExtra(c: HuffCode): nat { c.code + 65536 * c.extraBitCount }

  function WithExtra(v: nat, length: nat): HuffCode { HuffCode(v % 65536, v / 65536, length) }

  /** The entry of a length index: the code of its symbol followed by the extra bits. */
  function ExpandedCode(ll: seq<HuffCode>, l: nat): HuffCode
    requires |ll| >= 286 && l <= 512
  {
    if l < 265 then ll[l] else if l == 512 then ll[285]
    else WithExtra(Or(ll[LenSymbol(l)].code, LenValue(l) * Pow2(ll[LenSymbol(l)].length)), ll[LenSymbol(l)].length + IndexExtra(l))
  }

  /** Expands the code of each length symbol into one entry for every length, in place. */
  method ExpandHufftablesIcf(ll: array<HuffCode>, d: array<HuffCode>)
    requires ll != d && ll.Length == 513 && d.Length == 31
    modifies ll, d
    ensures forall l :: 0 <= l <= 512 ==> ll[l] == ExpandedCode(old(ll[..]), l)
    ensures d[..30] == old(d[..30]) && d[30] == HuffCode(0, 0, 0)
  {
    hide ExpandedCode, Or, Pow2, LenSymbol, LenValue, IndexExtra, WithExtra;
    ghost var was := ll[..];
    var orig := new HuffCode[21](_ => HuffCode(0, 0, 0));
    var m := 0;
    while m < 21
      invariant 0 <= m <= 21 && ll[..] == was && d[..] == old(d[..]) && forall k :: 0 <= k < m ==> orig[k] == was[265 + k]
    {
      orig[m] := ll[m + 265];
      m := m + 1;
    }
    var p, i, eb := 265, 0, 1;
    ExpandedStart(was);
    while eb < 6
      invariant 1 <= eb <= 6 && i == 4 * (eb - 1) && p == GroupStart(eb)
      invariant Kept(orig[..], was) && d[..] == old(d[..]) && ExpandedTo(was, ll[..], p)
    {
      var k := 0;
      while k < 4
        invariant 0 <= k <= 4 && i == 4 * (eb - 1) + k && p == GroupStart(eb) + k * GroupSize(eb)
        invariant Kept(orig[..], was) && d[..] == old(d[..]) && ExpandedTo(was, ll[..], p)
      {
        KeptAt(orig[..], was, i);
        var len, code := orig[i].length, orig[i].code;
        i := i + 1;
        var j := 0;
        GroupPower(eb);
        while j < GroupSize(eb)
          invariant 0 <= j <= GroupSize(eb) && p == GroupStart(eb) + k * GroupSize(eb) + j
          invariant Kept(orig[..], was) && d[..] == old(d[..]) && ExpandedTo(was, ll[..], p)
        {
          ghost var before := ll[..];
          GroupBound(eb, k, j);
          GroupEntry(was, eb, k, j, p);
          ll[p] := WithExtra(Or(code, j * Pow2(len)), len + eb);
          ExpandedMore(was, before, ll[..], p);
          p := p + 1;
          j := j + 1;
        }
        k := k + 1;
      }
      GroupNext(eb);
      eb := eb + 1;
    }
    KeptAt(orig[..], was, i);
    ghost var before := ll[..];
    ll[p - 1] := orig[i];
    d[30] := HuffCode(0, 0, 0);
    forall l | 0 <= l <= 512 ensures ll[l] == ExpandedCode(was, l) { ExpandedAt(was, before, l); }
  }

  /** Where the entries with eb extra bits start, and how many a symbol has. */
  function GroupStart(eb: nat): nat { if eb <= 1 then 265 else if eb == 2 then 273 else if eb == 3 then 289 else if eb == 4 then 321 else if eb == 5 then 385 else 513 }

  function GroupSize(eb: nat): nat { if eb == 0 then 1 else if eb == 1 then 2 else if eb == 2 then 4 else if eb == 3 then 8 else if eb == 4 then 16 else 32 }

  lemma GroupPower(eb: nat)
    requires eb <= 5
    ensures GroupSize(eb) == Pow2(eb)
  {
    Pow2Values();
  }

  lemma GroupNext(eb: nat)
    requires 1 <= eb <= 5
    ensures GroupStart(eb) + 4 * GroupSize(eb) == GroupStart(eb + 1)
  {}

  lemma GroupBound(eb: nat, k: nat, j: nat)
    requires 1 <= eb <= 5 && k < 4 && j < GroupSize(eb)
    ensures 265 <= GroupStart(eb) + k * GroupSize(eb) + j < 513
  {}

  /** The length index of the j-th entry of symbol k in a group. */
  lemma GroupEntry(was: seq<HuffCode>, eb: nat, k: nat, j: nat, p: nat)
    requires |was| == 513 && 1 <= eb <= 5 && k < 4 && j < GroupSize(eb) && p == GroupStart(eb) + k * GroupSize(eb) + j
    ensures p < 512 ==> ExpandedCode(was, p) == WithExtra(Or(was[261 + 4 * eb + k].code, j * Pow2(was[261 + 4 * eb + k].length)), was[261 + 4 * eb + k].length + eb)
  {
    hide Or, Pow2, WithExtra;
    if p < 512 { GroupSymbol(eb, k, j, p); }
  }

  lemma GroupSymbol(eb: nat, k: nat, j: nat, p: nat)
    requires 1 <= eb <= 5 && k < 4 && j < GroupSize(eb) && p == GroupStart(eb) + k * GroupSize(eb) + j && p < 512
    ensures 265 <= p && LenSymbol(p) == 261 + 4 * eb + k && LenValue(p) == j && IndexExtra(p) == eb
  {
    if eb == 1 { } else if eb == 2 { } else if eb == 3 { } else if eb == 4 { } else { }
  }

  ghost predicate Kept(orig: seq<HuffCode>, was: seq<HuffCode>) {
    |orig| == 21 && |was| == 513 && forall k :: 0 <= k < 21 ==> orig[k] == was[265 + k]
  }

  lemma KeptAt(orig: seq<HuffCode>, was: seq<HuffCode>, k: nat)
    requires Kept(orig, was) && k < 21
    ensures |orig| == 21 && |was| == 513 && orig[k] == was[265 + k]
  {}

  /** The table is expanded up to index p. */
  ghost predicate ExpandedTo(was: seq<HuffCode>, now: seq<HuffCode>, p: nat) {
    |was| == |now| == 513 && forall l :: 0 <= l < p && l < 512 ==> now[l] == ExpandedCode(was, l)
  }

  lemma ExpandedStart(was: seq<HuffCode>)
    requires |was| == 513
    ensures ExpandedTo(was, was, 265)
  {}

  lemma ExpandedMore(was: seq<HuffCode>, before: seq<HuffCode>, now: seq<HuffCode>, p: nat)
    requires ExpandedTo(was, before, p) && p < 513 && |now| == 513 && now == before[p := now[p]] && (p < 512 ==> now[p] == ExpandedCode(was, p))
    ensures ExpandedTo(was, now, p + 1)
  {
    hide ExpandedCode;
  }

  lemma ExpandedAt(was: seq<HuffCode>, now: seq<HuffCode>, l: nat)
    requires ExpandedTo(was, now, 513) && l <= 512
    ensures l < 512 ==> now[l] == ExpandedCode(was, l)
    ensures ExpandedCode(was, 512) == was[285]
  {}

  // -- the bits of records

  /** The codes of a block: lengths and counts for literals and lengths, and for distances. */
  datatype Codes = Codes(llens: seq<nat>, lcount: seq<nat>, dlens: seq<nat>, dcount: seq<nat>) {
    ghost predicate Valid() {
      |llens| >= 286 && |dlens| == 30 && |lcount| == |dcount| == 16 && Lengths(llens, 15) && Lengths(dlens, 15)
      && CountsMatch(llens, lcount) && CountsMatch(dlens, dcount) && Kraft(lcount) && Kraft(dcount)
    }
  }

  /** The tables hold the code words, expanded for lengths, and the numbers of extra bits of distances. */
  ghost predicate Tables(c: Codes, ll: seq<HuffCode>, d: seq<HuffCode>) {
    c.Valid() && |ll| == 513 && |d| == 31 && d[30] == HuffCode(0, 0, 0)
    && (forall s: nat :: s <= 256 && c.llens[s] > 0 ==> LitEntry(c, ll[s], s))
    && (forall l: nat :: 257 <= l <= 512 && c.llens[LenSymbol(l)] > 0 ==> LenEntry(c, ll[l], l))
    && (forall t: nat :: t < 30 && c.dlens[t] > 0 ==> DistEntry(c, d[t], t))
  }

  ghost predicate LitEntry(c: Codes, e: HuffCode, s: nat)
    requires c.Valid() && s <= 256 && c.llens[s] > 0
  {
    e.length == c.llens[s] <= 15 && e.extraBitCount == 0 && e.code < Pow2(e.length) && BitsOf(e.code, e.length) == Word(c.llens, c.lcount, s)
  }

  ghost predicate LenEntry(c: Codes, e: HuffCode, l: nat)
    requires c.Valid() && 257 <= l <= 512 && c.llens[LenSymbol(l)] > 0
  {
    e.length == c.llens[LenSymbol(l)] + IndexExtra(l) <= 20 && CodeAndExtra(e) < Pow2(e.length)
    && BitsOf(CodeAndExtra(e), e.length) == Word(c.llens, c.lcount, LenSymbol(l)) + BitsOf(LenValue(l), IndexExtra(l))
  }

  ghost predicate DistEntry(c: Codes, e: HuffCode, t: nat)
    requires c.Valid() && t < 30 && c.dlens[t] > 0
  {
    e.length == c.dlens[t] <= 15 && e.extraBitCount == DistExtraBits(t) <= 13 && e.code < Pow2(e.length)
    && BitsOf(e.code, e.length) == Word(c.dlens, c.dcount, t)
  }

  /** The end-of-block record. */
  const EOB := Record(256, 30, 0)

  /** All symbols of the record have codes. */
  ghost predicate Encodable(c: Codes, r: Record)
    requires c.Valid()
  {
    if r.litLen <= 256 then
      c.llens[r.litLen] > 0 && r.distExtra == 0 && (r.litDist == 30 || (r.litLen < 256 && 31 <= r.litDist < 287 && c.llens[r.litDist - 31] > 0))
    else r.IsMatch() && c.llens[LenSymbol(r.litLen)] > 0 && c.dlens[r.litDist] > 0
  }

  ghost function RecordBits(c: Codes, r: Record): seq<bool>
    requires c.Valid() && Encodable(c, r)
  {
    if r.litLen <= 256 then
      Word(c.llens, c.lcount, r.litLen) + if r.litDist == 30 then [] else Word(c.llens, c.lcount, r.litDist - 31)
    else
      Word(c.llens, c.lcount, LenSymbol(r.litLen)) + BitsOf(LenValue(r.litLen), IndexExtra(r.litLen))
      + Word(c.dlens, c.dcount, r.litDist) + BitsOf(r.distExtra, DistExtraBits(r.litDist))
  }

  ghost predicate AllEncodable(c: Codes, rs: seq<Record>)
    requires c.Valid()
  {
    forall i :: 0 <= i < |rs| ==> Encodable(c, rs[i])
  }

  ghost function RecordsBits(c: Codes, rs: seq<Record>): seq<bool>
    requires c.Valid() && AllEncodable(c, rs)
    decreases |rs|
  {
    if |rs| == 0 then [] else RecordBits(c, rs[0]) + RecordsBits(c, rs[1..])
  }

  lemma {:induction false} RecordsBitsConcat(c: Codes, rs: seq<Record>, ss: seq<Record>)
    requires c.Valid() && AllEncodable(c, rs) && AllEncodable(c, ss)
    ensures AllEncodable(c, rs + ss) && RecordsBits(c, rs + ss) == RecordsBits(c, rs) + RecordsBits(c, ss)
    decreases |rs|
  {
    hide RecordBits, Encodable, Codes.Valid;
    if |rs| == 0 {
      assert rs + ss == ss;
    } else {
      RecordsBitsConcat(c, rs[1..], ss);
      assert (rs + ss)[1..] == rs[1..] + ss;
    }
  }

  lemma RecordsBitsOne(c: Codes, r: Record)
    requires c.Valid() && Encodable(c, r)
    ensures AllEncodable(c, [r]) && RecordsBits(c, [r]) == RecordBits(c, r)
  {
    assert [r][1..] == [];
  }

  /** The entry a literal or distance symbol stands for: distances come first, then the null distance, then literals. */
  function DistLit(ll: seq<HuffCode>, d: seq<HuffCode>, x: nat): HuffCode
    requires |ll| == 513 && |d| == 31 && x < 288
  {
    if x < 31 then d[x] else ll[x - 31]
  }

  /** The three pieces the encoder writes for a record make up its bits. */
  lemma RecordPieces(c: Codes, ll: seq<HuffCode>, d: seq<HuffCode>, r: Record)
    requires c.Valid() && Tables(c, ll, d) && Encodable(c, r)
    ensures r.litLen <= 512 && r.litDist < 288 && |ll| == 513 && |d| == 31
    ensures ll[r.litLen].length <= 20 && CodeAndExtra(ll[r.litLen]) < Pow2(ll[r.litLen].length)
    ensures var e := DistLit(ll, d, r.litDist); e.length <= 15 && e.code < Pow2(e.length) && r.distExtra < Pow2(e.extraBitCount) && e.extraBitCount <= 13
    ensures RecordBits(c, r) == BitsOf(CodeAndExtra(ll[r.litLen]), ll[r.litLen].length)
                                + BitsOf(DistLit(ll, d, r.litDist).code, DistLit(ll, d, r.litDist).length)
                                + BitsOf(r.distExtra, DistLit(ll, d, r.litDist).extraBitCount)
  {
    if r.litLen <= 256 { LiteralPieces(c, ll, d, r); } else { MatchPieces(c, ll, d, r); }
  }

  lemma LiteralPieces(c: Codes, ll: seq<HuffCode>, d: seq<HuffCode>, r: Record)
    requires c.Valid() && Tables(c, ll, d) && Encodable(c, r) && r.litLen <= 256
    ensures r.litDist < 288 && |ll| == 513 && |d| == 31
    ensures ll[r.litLen].length <= 15 && CodeAndExtra(ll[r.litLen]) < Pow2(ll[r.litLen].length)
    ensures DistLit(ll, d, r.litDist).length <= 15 && DistLit(ll, d, r.litDist).code < Pow2(DistLit(ll, d, r.litDist).length)
    ensures DistLit(ll, d, r.litDist).extraBitCount == 0 && r.distExtra == 0
    ensures RecordBits(c, r) == BitsOf(CodeAndExtra(ll[r.litLen]), ll[r.litLen].length)
                                + BitsOf(DistLit(ll, d, r.litDist).code, DistLit(ll, d, r.litDist).length)
                                + BitsOf(r.distExtra, DistLit(ll, d, r.litDist).extraBitCount)
  {
    hide Word, Codes.Valid;
    assert LitEntry(c, ll[r.litLen], r.litLen);
    assert BitsOf(0, 0) == [];
    if r.litDist != 30 {
      assert LitEntry(c, ll[r.litDist - 31], r.litDist - 31);
    }
  }

  lemma MatchPieces(c: Codes, ll: seq<HuffCode>, d: seq<HuffCode>, r: Record)
    requires c.Valid() && Tables(c, ll, d) && Encodable(c, r) && r.litLen > 256
    ensures 257 <= r.litLen <= 512 && r.litDist < 30 && |ll| == 513 && |d| == 31
    ensures ll[r.litLen].length <= 20 && CodeAndExtra(ll[r.litLen]) < Pow2(ll[r.litLen].length)
    ensures d[r.litDist].length <= 15 && d[r.litDist].code < Pow2(d[r.litDist].length)
    ensures d[r.litDist].extraBitCount <= 13 && r.distExtra < Pow2(d[r.litDist].extraBitCount)
    ensures RecordBits(c, r) == BitsOf(CodeAndExtra(ll[r.litLen]), ll[r.litLen].length) + BitsOf(d[r.litDist].code, d[r.litDist].length)
                                + BitsOf(r.distExtra, d[r.litDist].extraBitCount)
  {
    hide Word, Codes.Valid, BitsOf, Pow2, LenSymbol, LenValue, IndexExtra, DistExtraBits;
    assert LenEntry(c, ll[r.litLen], r.litLen);
    assert DistEntry(c, d[r.litDist], r.litDist);
  }

  /** A record takes at most 48 bits. */
  lemma {:induction false} RecordsBound(c: Codes, ll: seq<HuffCode>, d: seq<HuffCode>, rs: seq<Record>)
    requires c.Valid() && Tables(c, ll, d) && AllEncodable(c, rs)
    ensures |RecordsBits(c, rs)| <= 48 * |rs|
    decreases |rs|
  {
    hide *;
    if |rs| == 0 {
      NoRecords(c, rs);
    } else {
      EncodableRest(c, rs, 1);
      RecordsBound(c, ll, d, rs[1..]);
      EncodableAt(c, rs, 0);
      RecordPieces(c, ll, d, rs[0]);
      RecordsBitsOne(c, rs[0]);
      RecordsBitsConcat(c, [rs[0]], rs[1..]);
      assert rs == [rs[0]] + rs[1..];
    }
  }

  /** Encodes records until all are done or the output buffer is full. */
  method EncodeDeflateIcf(icf: array<Record>, from: nat, end: nat, bb: BitBuf2, ll: array<HuffCode>, d: array<HuffCode>, ghost c: Codes)
    returns (next: nat)
    requires from <= end <= icf.Length && bb.Valid() && bb.bitCount < 8 && c.Valid() && Tables(c, ll[..], d[..]) && ll.Length == 513 && d.Length == 31
    requires AllEncodable(c, icf[from..end])
    modifies bb`bits, bb`bitCount, bb`outBuf, bb.out
    ensures from <= next <= end && (next == end || bb.IsFull()) && AllEncodable(c, icf[from..next])
    ensures bb.Valid() && bb.bitCount < 8 && bb.outBuf >= old(bb.outBuf) && (old(bb.outBuf <= bb.outEnd + 8) ==> bb.outBuf <= bb.outEnd + 8)
    ensures bb.Stream() == old(bb.Stream()) + RecordsBits(c, icf[from..next])
  {
    hide *;
    next := from;
    ghost var stream0 := bb.Stream();
    NoRecords(c, icf[from..from]);
    while next < end && !bb.IsFull()
      invariant from <= next <= end && bb.Valid() && bb.bitCount < 8 && bb.outBuf >= old(bb.outBuf)
      invariant old(bb.outBuf <= bb.outEnd + 8) ==> bb.outBuf <= bb.outEnd + 8
      invariant AllEncodable(c, icf[from..next]) && bb.Stream() == stream0 + RecordsBits(c, icf[from..next])
    {
      var r := icf[next];
      EncodableAt(c, icf[from..end], next - from);
      assert icf[from..end][next - from] == r;
      RecordPieces(c, ll[..], d[..], r);
      NotFull(bb);
      RecordsBitsOne(c, r);
      RecordsBitsConcat(c, icf[from..next], [r]);
      assert icf[from..next + 1] == icf[from..next] + [r];
      var lsym := ll[r.litLen];
      var dsym := if r.litDist < 31 then d[r.litDist] else ll[r.litDist - 31];
      DistLitIs(ll[..], d[..], r.litDist);
      ghost var at := bb.Stream();
      bb.WriteBitsUnsafe(CodeAndExtra(lsym), lsym.length);
      bb.WriteBitsUnsafe(dsym.code, dsym.length);
      bb.WriteBitsUnsafe(r.distExtra, dsym.extraBitCount);
      bb.FlushBits();
      PiecesJoin(at, BitsOf(CodeAndExtra(lsym), lsym.length), BitsOf(dsym.code, dsym.length), BitsOf(r.distExtra, dsym.extraBitCount),
                 stream0, RecordsBits(c, icf[from..next]));
      next := next + 1;
    }
  }

  /** A series of calls with output buffers of any sizes: together they append the bits of the records done so far, and stop
      short of the last record only when the room is used up. */
  method EncodeInPieces(icf: array<Record>, from: nat, end: nat, bb: BitBuf2, ll: array<HuffCode>, d: array<HuffCode>, sizes: seq<nat>,
                        ghost c: Codes)
    returns (next: nat)
    requires from <= end <= icf.Length && bb.Valid() && bb.bitCount < 8 && c.Valid() && Tables(c, ll[..], d[..]) && ll.Length == 513 && d.Length == 31
    requires AllEncodable(c, icf[from..end])
    modifies bb
    ensures from <= next <= end && AllEncodable(c, icf[from..next]) && bb.Valid() && bb.bitCount < 8
    ensures bb.Stream() == old(bb.Stream()) + RecordsBits(c, icf[from..next])
    ensures (bb.out == old(bb.out) || fresh(bb.out)) && (old(bb.outBuf <= bb.outEnd + 8) ==> bb.outBuf <= bb.outEnd + 8)
    ensures next < end ==> bb.Out() >= old(bb.Out()) + 8 * Room(sizes)
  {
    hide *;
    NoRoom(sizes);
    next := from;
    ghost var stream0 := bb.Stream();
    NoRecords(c, icf[from..from]);
    var i := 0;
    while i < |sizes| && next < end
      invariant 0 <= i <= |sizes| && from <= next <= end && bb.Valid() && bb.bitCount < 8 && (bb.out == old(bb.out) || fresh(bb.out))
      invariant old(bb.outBuf <= bb.outEnd + 8) ==> bb.outBuf <= bb.outEnd + 8
      invariant AllEncodable(c, icf[from..next]) && bb.Stream() == stream0 + RecordsBits(c, icf[from..next])
      invariant next < end ==> bb.Out() >= old(bb.Out()) + 8 * Room(sizes[..i])
    {
      ghost var at := next;
      RoomNext(sizes, i);
      next := EncodePiece(icf, from, next, end, bb, ll, d, sizes[i], c);
      EncodedOn(c, icf[from..next], icf[from..at], icf[at..next], stream0);
      i := i + 1;
    }
    assert sizes[..|sizes|] == sizes;
  }

  /** One call with a buffer of its own. */
  method EncodePiece(icf: array<Record>, ghost from: nat, at: nat, end: nat, bb: BitBuf2, ll: array<HuffCode>, d: array<HuffCode>, size: nat, ghost c: Codes)
    returns (next: nat)
    requires from <= at <= end <= icf.Length && bb.Valid() && bb.bitCount < 8 && c.Valid() && Tables(c, ll[..], d[..]) && ll.Length == 513 && d.Length == 31
    requires AllEncodable(c, icf[from..end])
    modifies bb
    ensures at <= next <= end && AllEncodable(c, icf[at..next]) && bb.Valid() && bb.bitCount < 8 && fresh(bb.out) && bb.outBuf <= bb.outEnd + 8
    ensures bb.Stream() == old(bb.Stream()) + RecordsBits(c, icf[at..next]) && icf[from..next] == icf[from..at] + icf[at..next]
    ensures next < end ==> bb.Out() >= old(bb.Out()) + if size >= 8 then 8 * (size - 7) else 0
  {
    hide *;
    bb.OutIs();
    var buf := new Byte[size](_ => 0);
    bb.SetBuf(buf, 0, size);
    bb.OutIs();
    EncodableRest(c, icf[from..end], at - from);
    assert icf[from..end][at - from..] == icf[at..end];
    next := EncodeDeflateIcf(icf, at, end, bb, ll, d, c);
    bb.OutIs();
    FullMeans(bb);
    assert icf[from..next] == icf[from..at] + icf[at..next];
  }

  lemma FullMeans(bb: BitBuf2)
    ensures bb.IsFull() <==> bb.outBuf > bb.outEnd
  {}

  lemma EncodedOn(c: Codes, all: seq<Record>, front: seq<Record>, rest: seq<Record>, stream0: seq<bool>)
    requires c.Valid() && AllEncodable(c, front) && AllEncodable(c, rest) && all == front + rest
    ensures AllEncodable(c, all) && stream0 + RecordsBits(c, front) + RecordsBits(c, rest) == stream0 + RecordsBits(c, all)
  {
    hide *;
    RecordsBitsConcat(c, front, rest);
    assert stream0 + RecordsBits(c, front) + RecordsBits(c, rest) == stream0 + (RecordsBits(c, front) + RecordsBits(c, rest));
  }

  lemma EncodableRest(c: Codes, rs: seq<Record>, i: nat)
    requires c.Valid() && AllEncodable(c, rs) && i <= |rs|
    ensures AllEncodable(c, rs[i..])
  {}

  lemma NoRecords(c: Codes, rs: seq<Record>)
    requires c.Valid() && rs == []
    ensures AllEncodable(c, rs) && RecordsBits(c, rs) == []
  {}

  lemma EncodableAt(c: Codes, rs: seq<Record>, i: nat)
    requires c.Valid() && AllEncodable(c, rs) && i < |rs|
    ensures Encodable(c, rs[i])
  {}

  lemma NotFull(bb: BitBuf2)
    requires bb.Valid() && !bb.IsFull()
    ensures bb.outBuf + 8 <= bb.out.Length && bb.outBuf <= bb.outEnd
  {}

  lemma DistLitIs(ll: seq<HuffCode>, d: seq<HuffCode>, x: nat)
    requires |ll| == 513 && |d| == 31 && x < 288
    ensures DistLit(ll, d, x) == if x < 31 then d[x] else ll[x - 31]
  {}

  lemma PiecesJoin(at: seq<bool>, x: seq<bool>, y: seq<bool>, z: seq<bool>, s: seq<bool>, r: seq<bool>)
    requires at == s + r
    ensures at + x + y + z == s + (r + (x + y + z))
  {}

  // -- the decoder

  datatype Inflated = Broken | Inflated(tokens: seq<Token>, rest: seq<bool>)

  function Prepend(ts: seq<Token>, i: Inflated): Inflated {
    match i
    case Broken => Broken
    case Inflated(tokens, rest) => Inflated(ts + tokens, rest)
  }

  /** Reads a block body up to and including its end-of-block symbol. */
  function DecodeBlock(c: Codes, bits: seq<bool>): Inflated
    requires |c.lcount| == |c.dcount| == 16
    decreases |bits|
  {
    match Find(c.llens, c.lcount, bits, |c.llens|)
    case Nothing => Broken
    case Symbol(s) =>
      if s < 256 then Prepend([Literal(s)], DecodeBlock(c, bits[c.llens[s]..]))
      else if s == 256 then Inflated([], bits[c.llens[s]..])
      else if s > 285 then Broken
      else DecodeMatch(c, bits[c.llens[s]..], s)
  }

  /** Reads the rest of a match, and goes on. */
  function DecodeMatch(c: Codes, bits: seq<bool>, s: nat): Inflated
    requires |c.lcount| == |c.dcount| == 16
    decreases |bits|
  {
    if |bits| < LenExtraBits(s) then Broken else
      match Find(c.dlens, c.dcount, bits[LenExtraBits(s)..], |c.dlens|)
      case Nothing => Broken
      case Symbol(t) =>
        if |bits| < LenExtraBits(s) + c.dlens[t] + DistExtraBits(t) then Broken else
          Prepend([Match(LenBase(s) + ValueOf(bits[..LenExtraBits(s)]),
                         DistStart(t) + ValueOf(bits[LenExtraBits(s) + c.dlens[t]..LenExtraBits(s) + c.dlens[t] + DistExtraBits(t)]))],
                  DecodeBlock(c, bits[LenExtraBits(s) + c.dlens[t] + DistExtraBits(t)..]))
  }

  /** One record is read as its tokens. */
  lemma RecordDecodes(c: Codes, r: Record, tail: seq<bool>)
    requires c.Valid() && Encodable(c, r) && r.Valid()
    ensures DecodeBlock(c, RecordBits(c, r) + tail) == Prepend(r.Tokens(), DecodeBlock(c, tail))
  {
    if r.litLen < 256 { LiteralDecodes(c, r, tail); } else { MatchDecodes(c, r, tail); }
  }

  lemma WordDecodes(c: Codes, s: nat, bits: seq<bool>, tail: seq<bool>)
    requires c.Valid() && s < 286 && c.llens[s] > 0 && bits == Word(c.llens, c.lcount, s) + tail
    ensures Find(c.llens, c.lcount, bits, |c.llens|) == Symbol(s) && bits[c.llens[s]..] == tail
  {
    hide Find, CountsMatch, Kraft, Word;
    FindWord(c.llens, c.lcount, s, bits, |c.llens|);
  }

  lemma LiteralRead(c: Codes, s: nat, bits: seq<bool>, tail: seq<bool>)
    requires c.Valid() && s < 256 && c.llens[s] > 0 && bits == Word(c.llens, c.lcount, s) + tail
    ensures |c.lcount| == |c.dcount| == 16 && DecodeBlock(c, bits) == Prepend([Literal(s)], DecodeBlock(c, tail))
  {
    hide Find, Word, DecodeMatch, Codes.Valid;
    ValidSizes(c);
    WordDecodes(c, s, bits, tail);
  }

  lemma LiteralDecodes(c: Codes, r: Record, tail: seq<bool>)
    requires c.Valid() && Encodable(c, r) && r.Valid() && r.litLen < 256
    ensures |c.lcount| == |c.dcount| == 16 && DecodeBlock(c, RecordBits(c, r) + tail) == Prepend(r.Tokens(), DecodeBlock(c, tail))
  {
    hide Find, Word, DecodeBlock, Codes.Valid;
    ValidSizes(c);
    if r.litDist == 30 {
      LiteralRead(c, r.litLen, RecordBits(c, r) + tail, tail);
    } else {
      var v, w := Word(c.llens, c.lcount, r.litLen), Word(c.llens, c.lcount, r.litDist - 31);
      assert RecordBits(c, r) + tail == v + (w + tail);
      LiteralRead(c, r.litLen, v + (w + tail), w + tail);
      LiteralRead(c, r.litDist - 31, w + tail, tail);
      PrependTwice(Literal(r.litLen), Literal(r.litDist - 31), DecodeBlock(c, tail));
    }
  }

  lemma ValidSizes(c: Codes)
    requires c.Valid()
    ensures |c.llens| >= 286 && |c.dlens| == 30 && |c.lcount| == |c.dcount| == 16
    ensures (forall s :: 0 <= s < |c.llens| ==> c.llens[s] <= 15) && forall t :: 0 <= t < 30 ==> c.dlens[t] <= 15
  {}

  lemma PrependTwice(s: Token, t: Token, i: Inflated)
    ensures Prepend([s], Prepend([t], i)) == Prepend([s, t], i)
  {
    if i.Inflated? { assert [s] + ([t] + i.tokens) == [s, t] + i.tokens; }
  }

  lemma MatchDecodes(c: Codes, r: Record, tail: seq<bool>)
    requires c.Valid() && Encodable(c, r) && r.Valid() && r.litLen >= 257
    ensures DecodeBlock(c, RecordBits(c, r) + tail) == Prepend(r.Tokens(), DecodeBlock(c, tail))
  {
    hide Find, Word, DecodeMatch, Codes.Valid, BitsOf, LenSymbol, LenValue, IndexExtra, DistExtraBits;
    ValidSizes(c);
    var s := LenSymbol(r.litLen);
    var x, w, y := BitsOf(LenValue(r.litLen), IndexExtra(r.litLen)), Word(c.dlens, c.dcount, r.litDist), BitsOf(r.distExtra, DistExtraBits(r.litDist));
    var bits, more := RecordBits(c, r) + tail, x + w + y + tail;
    assert bits == Word(c.llens, c.lcount, s) + more;
    WordDecodes(c, s, bits, more);
    RestDecodes(c, r, more, tail);
  }

  lemma RestDecodes(c: Codes, r: Record, bits: seq<bool>, tail: seq<bool>)
    requires c.Valid() && Encodable(c, r) && r.Valid() && r.litLen >= 257
    requires bits == BitsOf(LenValue(r.litLen), IndexExtra(r.litLen)) + Word(c.dlens, c.dcount, r.litDist)
                     + BitsOf(r.distExtra, DistExtraBits(r.litDist)) + tail
    ensures DecodeMatch(c, bits, LenSymbol(r.litLen)) == Prepend(r.Tokens(), DecodeBlock(c, tail))
  {
    hide Find, Word, DecodeBlock, BitsOf, ValueOf, LenSymbol, LenValue, IndexExtra, DistExtraBits, CountsMatch, Kraft, DistStart, LenBase, LenExtraBits, Pow2;
    LengthRoundTrip(r.litLen);
    var t, e, k, f := r.litDist, IndexExtra(r.litLen), c.dlens[r.litDist], DistExtraBits(r.litDist);
    var w := Word(c.dlens, c.dcount, t);
    assert bits[e..] == w + (BitsOf(r.distExtra, f) + tail);
    assert bits[..e] == BitsOf(LenValue(r.litLen), e);
    assert bits[e + k..e + k + f] == BitsOf(r.distExtra, f) && bits[e + k + f..] == tail;
    FindWord(c.dlens, c.dcount, t, bits[e..], |c.dlens|);
    ValueOfBits(LenValue(r.litLen), e);
    ValueOfBits(r.distExtra, f);
  }

  lemma AllTokensFront(r: Record, rs: seq<Record>)
    requires r.Valid() && AllValid(rs)
    ensures AllValid([r] + rs) && AllTokens([r] + rs) == r.Tokens() + AllTokens(rs)
  {
    AllTokensConcat([r], rs);
    assert [r][..0] == [];
    assert AllTokens([r]) == AllTokens([r][..0]) + r.Tokens();
  }

  /** Encoded records, closed by the end-of-block record, are read as their tokens, whatever follows. */
  lemma {:induction false} BlockDecodes(c: Codes, rs: seq<Record>, rest: seq<bool>)
    requires c.Valid() && AllEncodable(c, rs) && AllValid(rs) && Encodable(c, EOB)
    ensures AllEncodable(c, rs + [EOB]) && DecodeBlock(c, RecordsBits(c, rs + [EOB]) + rest) == Inflated(AllTokens(rs), rest)
    decreases |rs|
  {
    hide RecordBits, Encodable, DecodeBlock, Record.Valid, Record.Tokens, Codes.Valid;
    ValidSizes(c);
    if |rs| == 0 {
      assert rs + [EOB] == [EOB];
      RecordsBitsOne(c, EOB);
      EobDecodes(c, rest);
    } else {
      var r, tail := rs[0], rs[1..];
      BlockDecodes(c, tail, rest);
      assert (rs + [EOB])[1..] == tail + [EOB] && [r] + tail == rs;
      assert RecordsBits(c, rs + [EOB]) + rest == RecordBits(c, r) + (RecordsBits(c, tail + [EOB]) + rest);
      RecordDecodes(c, r, RecordsBits(c, tail + [EOB]) + rest);
      AllTokensFront(r, tail);
    }
  }

  lemma EobDecodes(c: Codes, rest: seq<bool>)
    requires c.Valid() && Encodable(c, EOB)
    ensures DecodeBlock(c, RecordBits(c, EOB) + rest) == Inflated([], rest)
  {
    hide Find, Word, DecodeMatch;
    WordDecodes(c, 256, RecordBits(c, EOB) + rest, rest);
  }

  /** Decoding the bits of the records that were found for a stretch of input, and expanding them behind the text before
      it, gives the text after it. */
  lemma InflatesBack(c: Codes, rs: seq<Record>, before: seq<Byte>, after: seq<Byte>, rest: seq<bool>)
    requires c.Valid() && AllEncodable(c, rs) && Encodable(c, EOB) && Produces(before, rs, after)
    ensures AllEncodable(c, rs + [EOB]) && DecodeBlock(c, RecordsBits(c, rs + [EOB]) + rest).Inflated?
    ensures Expand(before, DecodeBlock(c, RecordsBits(c, rs + [EOB]) + rest).tokens) == Text(after)
  {
    BlockDecodes(c, rs, rest);
  }
}
