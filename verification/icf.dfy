/** The intermediate compression format: packed symbols, what they expand to and how often each occurs. */
module Icf {
  import opened Bits
  import opened LZ77

  const LEN_OFFSET: nat := 254
  const LEN_START: nat := 257
  const LEN_MAX: nat := 512
  const NULL_DIST_SYM: nat := 30
  const LIT_START: nat := 31
  const SHORTEST_MATCH: nat := 4
  const LOOK_AHEAD: nat := 288

  /** One 32-bit record: a match (length symbol, distance symbol, extra bits), one literal, or two literals. */
  datatype Record = Record(litLen: nat, litDist: nat, distExtra: nat) {

    predicate IsLiteral() { litLen < 256 && litDist == 30 && distExtra == 0 }

    predicate IsPair() { litLen < 256 && 31 <= litDist < 287 && distExtra == 0 }

    predicate IsMatch() { 257 <= litLen <= 512 && litDist < 30 && distExtra < Pow2(DistExtraBits(litDist)) }

    predicate Valid() { IsLiteral() || IsPair() || IsMatch() }

    function Tokens(): (ts: seq<Token>)
      requires Valid()
    {
      if litLen >= 257 then [Match(litLen - 254, DistStart(litDist) + distExtra)]
      else if litDist == 30 then [Literal(litLen)]
      else [Literal(litLen), Literal(litDist - 31)]
    }
  }

  predicate AllValid(rs: seq<Record>) { forall i :: 0 <= i < |rs| ==> rs[i].Valid() }

  function AllTokens(rs: seq<Record>): (ts: seq<Token>)
    requires AllValid(rs)
  {
    if |rs| == 0 then [] else AllTokens(rs[..|rs| - 1]) + rs[|rs| - 1].Tokens()
  }

  /** The records turn the text before them into the text after them. */
  ghost predicate Produces(before: seq<Byte>, rs: seq<Record>, after: seq<Byte>) {
    AllValid(rs) && Expand(before, AllTokens(rs)) == Text(after)
  }

  lemma ProducesMore(before: seq<Byte>, rs: seq<Record>, mid: seq<Byte>, r: Record, after: seq<Byte>)
    requires Produces(before, rs, mid) && r.Valid() && Expand(mid, r.Tokens()) == Text(after)
    ensures Produces(before, rs + [r], after)
  {
    assert (rs + [r])[..|rs|] == rs;
    ExpandConcat(before, AllTokens(rs), r.Tokens(), mid);
  }

  lemma {:induction false} ProducesConcat(before: seq<Byte>, rs: seq<Record>, mid: seq<Byte>, ss: seq<Record>, after: seq<Byte>)
    requires Produces(before, rs, mid) && Produces(mid, ss, after)
    ensures Produces(before, rs + ss, after)
  {
    AllTokensConcat(rs, ss);
    ExpandConcat(before, AllTokens(rs), AllTokens(ss), mid);
  }

  lemma {:induction false} AllTokensConcat(rs: seq<Record>, ss: seq<Record>)
    requires AllValid(rs) && AllValid(ss)
    ensures AllValid(rs + ss) && AllTokens(rs + ss) == AllTokens(rs) + AllTokens(ss)
  {
    hide Record.Valid, Record.Tokens;
    if |ss| == 0 {
      assert rs + ss == rs;
    } else {
      var n := |ss| - 1;
      AllTokensConcat(rs, ss[..n]);
      AllTokensMore(rs + ss[..n], ss[n]);
      AllTokensMore(ss[..n], ss[n]);
      assert rs + ss == (rs + ss[..n]) + [ss[n]] && ss == ss[..n] + [ss[n]];
    }
  }

  lemma AllTokensMore(rs: seq<Record>, r: Record)
    requires AllValid(rs) && r.Valid()
    ensures AllValid(rs + [r]) && AllTokens(rs + [r]) == AllTokens(rs) + r.Tokens()
  {
    assert (rs + [r])[..|rs|] == rs;
  }

  // -- what one record adds to a text

  lemma OneToken(out: seq<Byte>, t: Token)
    ensures Expand(out, [t]) == ExpandOne(out, t)
  {
    assert [t][..0] == [];
  }

  lemma LiteralRecord(data: seq<Byte>, p: nat)
    requires p < |data|
    ensures Record(data[p], 30, 0).Valid() && Expand(data[..p], Record(data[p], 30, 0).Tokens()) == Text(data[..p + 1])
  {
    OneToken(data[..p], Literal(data[p]));
    LiteralExpands(data, p);
  }

  function PairOf(a: nat, b: nat): Record { Record(a, b + 31, 0) }

  lemma PairRecord(data: seq<Byte>, p: nat)
    requires p + 1 < |data|
    ensures PairOf(data[p], data[p + 1]).Valid()
    ensures Expand(data[..p], PairOf(data[p], data[p + 1]).Tokens()) == Text(data[..p + 2])
  {
    var s, t := Literal(data[p]), Literal(data[p + 1]);
    OneToken(data[..p], s);
    LiteralExpands(data, p);
    LiteralExpands(data, p + 1);
    ExpandLast(data[..p], [s], t, data[..p + 1]);
    assert [s] + [t] == [s, t];
  }

  /** The record of a match at distance `dist`. */
  function MatchRecord(len: nat, dist: nat): Record
    requires 1 <= dist <= 32768
  {
    Record(len + 254, DistIcfCode(dist).code, DistIcfCode(dist).extra)
  }

  lemma MatchRecordExpands(data: seq<Byte>, p: nat, len: nat, dist: nat)
    requires IsMatch(data, p, dist, len) && 3 <= len <= 258 && dist <= 32768
    ensures MatchRecord(len, dist).Valid() && Expand(data[..p], MatchRecord(len, dist).Tokens()) == Text(data[..p + len])
  {
    hide *;
    MatchStart(data, p, dist, len);
    MatchForm(len, dist);
    OneToken(data[..p], Match(len, dist));
    MatchExpands(data, p, dist, len);
  }

  lemma MatchStart(data: seq<Byte>, p: nat, dist: nat, len: nat)
    requires IsMatch(data, p, dist, len)
    ensures 1 <= dist <= p && p + len <= |data|
  {}

  lemma MatchForm(len: nat, dist: nat)
    requires 3 <= len <= 258 && 1 <= dist <= 32768
    ensures MatchRecord(len, dist).Valid() && MatchRecord(len, dist).Tokens() == [Match(len, dist)]
  {
    hide DistIcfCode, DistStart, DistExtraBits;
    DistRoundTrip(dist);
  }

  // -- symbol counts

  /** How often a record uses a literal or length symbol. */
  function LLUses(r: Record, s: nat): nat {
    (if r.litLen == s then 1 else 0) + (if r.litLen < 256 && r.litDist > 30 && r.litDist - 31 == s then 1 else 0)
  }

  /** How often a record uses a distance symbol. */
  function DUses(r: Record, s: nat): nat { if r.litLen >= 257 && r.litDist == s then 1 else 0 }

  function LLCount(rs: seq<Record>, s: nat): nat {
    if |rs| == 0 then 0 else LLCount(rs[..|rs| - 1], s) + LLUses(rs[|rs| - 1], s)
  }

  function DCount(rs: seq<Record>, s: nat): nat {
    if |rs| == 0 then 0 else DCount(rs[..|rs| - 1], s) + DUses(rs[|rs| - 1], s)
  }

  /** The histograms have grown by exactly the symbols of the records. */
  ghost predicate Counted(ll: seq<nat>, d: seq<nat>, ll0: seq<nat>, d0: seq<nat>, rs: seq<Record>) {
    |ll| == |ll0| == 513 && |d| == |d0| == 30
    && (forall s :: 0 <= s < 513 ==> ll[s] == ll0[s] + LLCount(rs, s))
    && (forall s :: 0 <= s < 30 ==> d[s] == d0[s] + DCount(rs, s))
  }

  /** One more record. */
  ghost predicate CountedOne(ll: seq<nat>, d: seq<nat>, ll0: seq<nat>, d0: seq<nat>, r: Record) {
    |ll| == |ll0| == 513 && |d| == |d0| == 30
    && (forall s :: 0 <= s < 513 ==> ll[s] == ll0[s] + LLUses(r, s))
    && (forall s :: 0 <= s < 30 ==> d[s] == d0[s] + DUses(r, s))
  }

  lemma CountedMore(ll: seq<nat>, d: seq<nat>, ll1: seq<nat>, d1: seq<nat>, ll0: seq<nat>, d0: seq<nat>, rs: seq<Record>, r: Record)
    requires Counted(ll1, d1, ll0, d0, rs) && CountedOne(ll, d, ll1, d1, r)
    ensures Counted(ll, d, ll0, d0, rs + [r])
  {
    assert (rs + [r])[..|rs|] == rs;
  }

  lemma {:induction false} CountsConcat(rs: seq<Record>, ss: seq<Record>, s: nat)
    ensures LLCount(rs + ss, s) == LLCount(rs, s) + LLCount(ss, s) && DCount(rs + ss, s) == DCount(rs, s) + DCount(ss, s)
  {
    if |ss| == 0 {
      assert rs + ss == rs;
    } else {
      var n := |ss| - 1;
      CountsConcat(rs, ss[..n], s);
      assert (rs + ss)[..|rs + ss| - 1] == rs + ss[..n];
    }
  }

  lemma CountedConcat(ll: seq<nat>, d: seq<nat>, ll1: seq<nat>, d1: seq<nat>, ll0: seq<nat>, d0: seq<nat>, rs: seq<Record>, ss: seq<Record>)
    requires Counted(ll1, d1, ll0, d0, rs) && Counted(ll, d, ll1, d1, ss)
    ensures Counted(ll, d, ll0, d0, rs + ss)
  {
    forall s: nat | true ensures LLCount(rs + ss, s) == LLCount(rs, s) + LLCount(ss, s) && DCount(rs + ss, s) == DCount(rs, s) + DCount(ss, s) {
      CountsConcat(rs, ss, s);
    }
  }
}
