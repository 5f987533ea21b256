/** A decompressor for whole streams, and what it makes of the blocks that the compressor writes. */
module Inflate {
  import opened Bits
  import opened BitStream
  import opened LZ77
  import opened Icf
  import opened Canonical
  import opened Header
  import opened IcfEncode
  import opened IcfTables
  import Stored

  // -- the tables of sections 3.2.5 and 3.2.7 of RFC 1951, entry by entry

  lemma LengthTable()
    ensures seq(29, i requires 0 <= i < 29 => LenExtraBits(257 + i)) ==
            [0, 0, 0, 0, 0, 0, 0, 0, 1, 1, 1, 1, 2, 2, 2, 2, 3, 3, 3, 3, 4, 4, 4, 4, 5, 5, 5, 5, 0]
    ensures seq(29, i requires 0 <= i < 29 => LenBase(257 + i)) ==
            [3, 4, 5, 6, 7, 8, 9, 10, 11, 13, 15, 17, 19, 23, 27, 31, 35, 43, 51, 59, 67, 83, 99, 115, 131, 163, 195, 227, 258]
  {
    Pow2Values();
    hide Pow2;
  }

  lemma DistanceTable()
    ensures seq(30, i requires 0 <= i < 30 => DistExtraBits(i)) ==
            [0, 0, 0, 0, 1, 1, 2, 2, 3, 3, 4, 4, 5, 5, 6, 6, 7, 7, 8, 8, 9, 9, 10, 10, 11, 11, 12, 12, 13, 13]
    ensures seq(30, i requires 0 <= i < 30 => DistStart(i)) ==
            [1, 2, 3, 4, 5, 7, 9, 13, 17, 25, 33, 49, 65, 97, 129, 193, 257, 385, 513, 769, 1025, 1537, 2049, 3073, 4097, 6145, 8193, 12289, 16385, 24577]
  {
    Pow2Values();
    MorePowers();
    hide Pow2;
  }

  lemma MorePowers()
    ensures Pow2(9) == 512 && Pow2(10) == 1024 && Pow2(11) == 2048 && Pow2(12) == 4096 && Pow2(13) == 8192
  {}

  lemma CodeLengthTable()
    ensures seq(19, i requires 0 <= i < 19 => CodeLenOrder(i)) == [16, 17, 18, 0, 8, 7, 9, 6, 10, 5, 11, 4, 12, 3, 13, 2, 14, 1, 15]
    ensures seq(19, i requires 0 <= i < 19 => ExtraLen(i)) == [0, 0, 0, 0, 0, 0, 0, 0, 0, 0, 0, 0, 0, 0, 0, 0, 2, 3, 7]
  {}

  // -- the decompressor, section 3.2.3 of RFC 1951

  datatype Step = Corrupt | Step(text: seq<Byte>, final: bool, rest: seq<bool>)

  datatype Result = Failed | Done(text: seq<Byte>, rest: seq<bool>)

  /** A list of lengths, filled up with zeros. */
  function Padded(lens: seq<nat>, n: nat): (r: seq<nat>)
    ensures |lens| <= n ==> |r| == n && r[..|lens|] == lens && forall i :: |lens| <= i < n ==> r[i] == 0
  {
    if |lens| >= n then lens else lens + seq(n - |lens|, _ => 0)
  }

  /** The codes that a dynamic header announces. */
  function CodesOf(lens: seq<nat>, hlit: nat): (c: Codes)
    requires hlit + 257 <= |lens|
  {
    Codes(Padded(lens[..hlit + 257], 286), CountsFor(Padded(lens[..hlit + 257], 286)),
          Padded(lens[hlit + 257..], 30), CountsFor(Padded(lens[hlit + 257..], 30)))
  }

  /** The fixed codes, section 3.2.6 of RFC 1951. */
  function FixedLength(s: nat): nat { if s < 144 then 8 else if s < 256 then 9 else if s < 280 then 7 else 8 }

  function FixedCodes(): Codes {
    Codes(seq(288, s requires 0 <= s < 288 => FixedLength(s)), CountsFor(seq(288, s requires 0 <= s < 288 => FixedLength(s))),
          seq(30, _ => 5), CountsFor(seq(30, _ => 5)))
  }

  /** Decodes the body of a block behind the text so far. */
  function Body(c: Codes, bits: seq<bool>, before: seq<Byte>, final: bool): Step
    requires |c.lcount| == |c.dcount| == 16
  {
    match DecodeBlock(c, bits)
    case Broken => Corrupt
    case Inflated(tokens, rest) =>
      match Expand(before, tokens)
      case Invalid => Corrupt
      case Text(text) => Step(text, final, rest)
  }

  /** Reads one block, which starts r bits into a byte. */
  function ReadBlock(r: nat, bits: seq<bool>, before: seq<Byte>): Step {
    if |bits| < 3 then Corrupt
    else if ValueOf(bits[1..3]) == 0 then StoredBody(Stored.Parse(r, bits, 1), before)
    else if ValueOf(bits[1..3]) == 1 then Body(FixedCodes(), bits[3..], before, bits[0])
    else DynamicBody(ParseHeader(bits), before)
  }

  function StoredBody(p: Stored.Parsed, before: seq<Byte>): Step {
    if p.Parsed? && |p.blocks| == 1 then Step(before + p.blocks[0].payload, p.blocks[0].final, p.rest) else Corrupt
  }

  function DynamicBody(p: Parsed, before: seq<Byte>): Step {
    if p.Block? && p.hlit < 30 && p.hdist < 30 && |p.lens| == p.hlit + 257 + p.hdist + 1 then
      Body(CodesOf(p.lens, p.hlit), p.rest, before, p.final)
    else Corrupt
  }

  /** Reads blocks up to the final one. */
  function Inflate(r: nat, bits: seq<bool>, before: seq<Byte>): Result
    decreases |bits|
  {
    match ReadBlock(r, bits, before)
    case Corrupt => Failed
    case Step(text, final, rest) =>
      if final then Done(text, rest)
      else if |rest| >= |bits| then Failed
      else Inflate((r + (|bits| - |rest|)) % 8, rest, text)
  }

  // -- stretches of a stream

  /** Whatever follows, reading the bits takes the text from `before` to `after` and goes on behind them. */
  ghost predicate Extends(r: nat, bits: seq<bool>, before: seq<Byte>, after: seq<Byte>) {
    forall rest: seq<bool> :: Inflate(r, bits + rest, before) == Inflate((r + |bits|) % 8, rest, after)
  }

  /** Whatever follows, reading the bits completes the text. */
  ghost predicate Completes(r: nat, bits: seq<bool>, before: seq<Byte>, after: seq<Byte>) {
    forall rest: seq<bool> :: Inflate(r, bits + rest, before) == Done(after, rest)
  }

  ghost predicate Reads(r: nat, bits: seq<bool>, before: seq<Byte>, after: seq<Byte>, final: bool) {
    if final then Completes(r, bits, before, after) else Extends(r, bits, before, after)
  }

  /** One block that reads as `after`. */
  ghost predicate IsBlock(r: nat, bits: seq<bool>, before: seq<Byte>, after: seq<Byte>, final: bool) {
    |bits| > 0 && forall rest: seq<bool> :: ReadBlock(r, bits + rest, before) == Step(after, final, rest)
  }

  lemma BlockReads(r: nat, bits: seq<bool>, before: seq<Byte>, after: seq<Byte>, final: bool)
    requires IsBlock(r, bits, before, after, final)
    ensures Reads(r, bits, before, after, final)
  {
    hide ReadBlock;
    forall rest: seq<bool> ensures Inflate(r, bits + rest, before) == if final then Done(after, rest) else Inflate((r + |bits|) % 8, rest, after) {
      assert ReadBlock(r, bits + rest, before) == Step(after, final, rest);
    }
  }

  /** Stretches follow one another. */
  lemma ReadsOn(r: nat, bits: seq<bool>, more: seq<bool>, before: seq<Byte>, mid: seq<Byte>, after: seq<Byte>, final: bool)
    requires Extends(r, bits, before, mid) && Reads((r + |bits|) % 8, more, mid, after, final)
    ensures Reads(r, bits + more, before, after, final)
  {
    hide Inflate;
    forall rest: seq<bool>
      ensures Inflate(r, (bits + more) + rest, before) == if final then Done(after, rest) else Inflate((r + |bits + more|) % 8, rest, after)
    {
      assert (bits + more) + rest == bits + (more + rest);
    }
  }

  // -- blocks of records

  /** The codes are recovered from the lengths. */
  lemma CodesAre(c: Codes, hlit: nat, hdist: nat)
    requires c.Valid() && |c.llens| == 286 && |c.dlens| == 30 && hlit < 30 && hdist < 30
    requires (forall s :: hlit + 256 < s < 286 ==> c.llens[s] == 0) && forall t :: hdist < t < 30 ==> c.dlens[t] == 0
    ensures CodesOf(Combined(c.llens, c.dlens, hlit + 256, hdist), hlit) == c
  {
    hide CountsFor, CountsMatch, Kraft, Lengths;
    var lens := Combined(c.llens, c.dlens, hlit + 256, hdist);
    assert lens[..hlit + 257] == c.llens[..hlit + 257] && lens[hlit + 257..] == c.dlens[..hdist + 1];
    assert Padded(lens[..hlit + 257], 286) == c.llens;
    assert Padded(lens[hlit + 257..], 30) == c.dlens;
    CountsAre(c.llens, c.lcount);
    CountsAre(c.dlens, c.dcount);
  }

  lemma BodyReads(c: Codes, rs: seq<Record>, before: seq<Byte>, after: seq<Byte>, final: bool, rest: seq<bool>)
    requires c.Valid() && AllEncodable(c, rs + [EOB]) && Produces(before, rs, after)
    ensures |c.lcount| == |c.dcount| == 16 && Body(c, RecordsBits(c, rs + [EOB]) + rest, before, final) == Step(after, final, rest)
  {
    hide DecodeBlock, RecordsBits, Encodable, Expand, Record.Valid, AllTokens, EOB;
    ValidSizes(c);
    assert forall i :: 0 <= i < |rs| ==> (rs + [EOB])[i] == rs[i];
    assert (rs + [EOB])[|rs|] == EOB;
    BlockDecodes(c, rs, rest);
  }

  /** A block with a dynamic header. */
  lemma DynamicReads(r: nat, c: Codes, hdr: seq<bool>, final: bool, hlit: nat, hdist: nat, rs: seq<Record>, before: seq<Byte>, after: seq<Byte>)
    requires c.Valid() && DynamicBlock(c, hdr, final, hlit, hdist) && AllEncodable(c, rs + [EOB]) && Produces(before, rs, after)
    ensures Reads(r, hdr + RecordsBits(c, rs + [EOB]), before, after, final)
  {
    hide RecordsBits, AllEncodable, Produces, Codes.Valid, Reads, Body, ParseHeader, CodesOf, Combined, EOB;
    ValidSizes(c);
    CodesAre(c, hlit, hdist);
    var lens, body := Combined(c.llens, c.dlens, hlit + 256, hdist), RecordsBits(c, rs + [EOB]);
    HeaderType(hdr + [], final, hlit, hdist, lens, []);
    assert hdr + [] == hdr;
    forall rest: seq<bool> ensures ReadBlock(r, (hdr + body) + rest, before) == Step(after, final, rest) {
      assert (hdr + body) + rest == hdr + (body + rest);
      HeaderType(hdr + (body + rest), final, hlit, hdist, lens, body + rest);
      BodyReads(c, rs, before, after, final, rest);
    }
    BlockReads(r, hdr + body, before, after, final);
  }

  lemma HeaderType(bits: seq<bool>, final: bool, hlit: nat, hdist: nat, lens: seq<nat>, rest: seq<bool>)
    requires ParseHeader(bits) == Block(final, hlit, hdist, lens, rest)
    ensures |bits| >= 17 && ValueOf(bits[1..3]) == 2
  {
    hide ParseLens, ValueOf;
  }

  /** A block with the fixed codes. */
  lemma FixedReads(r: nat, final: bool, rs: seq<Record>, before: seq<Byte>, after: seq<Byte>)
    requires FixedCodes().Valid() && AllEncodable(FixedCodes(), rs + [EOB]) && Produces(before, rs, after)
    ensures Reads(r, BitsOf(if final then 3 else 2, 3) + RecordsBits(FixedCodes(), rs + [EOB]), before, after, final)
  {
    hide RecordsBits, AllEncodable, Produces, Codes.Valid, Reads, Body, BitsOf, ValueOf, EOB, FixedCodes;
    var c := FixedCodes();
    var hdr, body := BitsOf(if final then 3 else 2, 3), RecordsBits(c, rs + [EOB]);
    FixedType(final);
    ValidSizes(c);
    forall rest: seq<bool> ensures ReadBlock(r, (hdr + body) + rest, before) == Step(after, final, rest) {
      var bits := (hdr + body) + rest;
      assert bits[1..3] == hdr[1..3] && bits[0] == hdr[0] && bits[3..] == body + rest;
      BodyReads(c, rs, before, after, final, rest);
    }
    BlockReads(r, hdr + body, before, after, final);
  }

  lemma FixedType(final: bool)
    ensures BitsOf(if final then 3 else 2, 3)[0] == final && ValueOf(BitsOf(if final then 3 else 2, 3)[1..3]) == 1
  {
    var v := if final then 3 else 2;
    assert BitsOf(v, 3)[1..3] == BitsOf(1, 2);
    Pow2Values();
    ValueOfBits(1, 2);
  }

  // -- the fixed codes are codes

  function FixedLCount(l: nat): nat { if l == 7 then 24 else if l == 8 then 152 else if l == 9 then 112 else 0 }

  function FixedDCount(l: nat): nat { if l == 5 then 30 else 0 }

  lemma FixedCounts(l: nat)
    ensures CountOf(FixedCodes().llens, l) == FixedLCount(l) && CountOf(FixedCodes().dlens, l) == FixedDCount(l)
  {
    hide Rank, CountsFor;
    var lens, ds := FixedCodes().llens, FixedCodes().dlens;
    RankRun(lens, 0, 144, 8, l);
    RankRun(lens, 144, 256, 9, l);
    RankRun(lens, 256, 280, 7, l);
    RankRun(lens, 280, 288, 8, l);
    RankRun(ds, 0, 30, 5, l);
    RankNone(lens, l);
    RankNone(ds, l);
  }

  lemma FixedValid()
    ensures FixedCodes().Valid()
  {
    hide FixedCodes, CountOf, Horner, CountsFor, FixedLCount, FixedDCount;
    FixedShape();
    forall l: nat | l < 16 ensures FixedCodes().lcount[l] == FixedLCount(l) && FixedCodes().dcount[l] == FixedDCount(l) { FixedCountsAre(l); }
    FixedKraft(FixedCodes().lcount);
    FixedDistKraft(FixedCodes().dcount);
  }

  lemma FixedShape()
    ensures |FixedCodes().llens| == 288 && |FixedCodes().dlens| == 30 && Lengths(FixedCodes().llens, 15) && Lengths(FixedCodes().dlens, 15)
    ensures CountsMatch(FixedCodes().llens, FixedCodes().lcount) && CountsMatch(FixedCodes().dlens, FixedCodes().dcount)
  {
    hide CountOf, CountsFor, CountsMatch;
    CountsForMatch(FixedCodes().llens);
    CountsForMatch(FixedCodes().dlens);
  }

  lemma FixedCountsAre(l: nat)
    requires l < 16
    ensures FixedCodes().lcount[l] == FixedLCount(l) && FixedCodes().dcount[l] == FixedDCount(l)
  {
    hide CountOf, CountsFor, FixedLCount, FixedDCount;
    FixedCounts(l);
    NoZeros();
  }

  lemma NoZeros()
    ensures FixedLCount(0) == FixedDCount(0) == 0
  {}

  lemma CountsForMatch(lens: seq<nat>)
    ensures CountsMatch(lens, CountsFor(lens))
  {
    hide CountOf;
  }

  /** The numbers printed in section 3.2.6 of RFC 1951 for the literal and length symbols. */
  function PrintedCode(s: nat): nat
    requires s < 288
  {
    if s < 144 then 48 + s else if s < 256 then 400 + (s - 144) else if s < 280 then s - 256 else 192 + (s - 280)
  }

  /** The fixed codes are the printed ones: lengths and words, of symbols and distances. */
  lemma FixedWord(s: nat)
    requires s < 288
    ensures |FixedCodes().llens| == 288 && |FixedCodes().lcount| == 16
    ensures FixedCodes().llens[s] == if s < 144 then 8 else if s < 256 then 9 else if s < 280 then 7 else 8
    ensures Code(FixedCodes().llens, FixedCodes().lcount, s) == PrintedCode(s)
    ensures Word(FixedCodes().llens, FixedCodes().lcount, s)
            == if s < 144 then Msb(48 + s, 8) else if s < 256 then Msb(400 + (s - 144), 9) else if s < 280 then Msb(s - 256, 7) else Msb(192 + (s - 280), 8)
  {
    hide CountsFor, CountOf, CountsMatch, Kraft, Msb, Horner, FixedLCount, FixedDCount;
    var lens, count := FixedCodes().llens, FixedCodes().lcount;
    FixedShape();
    forall l: nat | l < 16 ensures count[l] == FixedLCount(l) { FixedCountsAre(l); }
    FixedHorner(count);
    FixedRank(lens, s);
  }

  lemma FixedRank(lens: seq<nat>, s: nat)
    requires lens == FixedCodes().llens && s < 288
    ensures |lens| == 288 && lens[s] == FixedLength(s)
    ensures Rank(lens, s, lens[s]) == if s < 144 then s else if s < 256 then s - 144 else if s < 280 then s - 256 else s - 136
  {
    hide Rank, CountsFor;
    var l := lens[s];
    RankNone(lens, l);
    if s < 144 {
      RankRun(lens, 0, s, 8, l);
    } else {
      RankRun(lens, 0, 144, 8, l);
      if s < 256 {
        RankRun(lens, 144, s, 9, l);
      } else {
        RankRun(lens, 144, 256, 9, l);
        if s < 280 {
          RankRun(lens, 256, s, 7, l);
        } else {
          RankRun(lens, 256, 280, 7, l);
          RankRun(lens, 280, s, 8, l);
        }
      }
    }
  }

  lemma FixedHorner(count: seq<nat>)
    requires |count| == 16 && forall l: nat :: l < 16 ==> count[l] == FixedLCount(l)
    ensures Horner(count, 6) == 0 && Horner(count, 7) == 24 && Horner(count, 8) == 200
  {
    HornerNothing(count, 6);
  }

  lemma FixedDistWord(t: nat)
    requires t < 30
    ensures |FixedCodes().dlens| == 30 && |FixedCodes().dcount| == 16 && FixedCodes().dlens[t] == 5
    ensures Code(FixedCodes().dlens, FixedCodes().dcount, t) == t && Word(FixedCodes().dlens, FixedCodes().dcount, t) == Msb(t, 5)
  {
    hide CountsFor, CountOf, CountsMatch, Kraft, Msb, Rank, FixedLCount;
    var lens, count := FixedCodes().dlens, FixedCodes().dcount;
    FixedShape();
    forall l: nat | l < 16 ensures count[l] == FixedDCount(l) { FixedCountsAre(l); }
    HornerNothing(count, 4);
    RankNone(lens, 5);
    RankRun(lens, 0, t, 5, 5);
  }

  /** The table entries of the fixed codes: the printed numbers with their bits reversed. */
  function StaticLl(): (t: seq<HuffCode>)
    ensures |t| == 513
  {
    seq(513, s requires 0 <= s < 513 => if s < 288 then HuffCode(BitReverse(PrintedCode(s), FixedLength(s)), 0, FixedLength(s)) else HuffCode(0, 0, 0))
  }

  function StaticD(): (t: seq<HuffCode>)
    ensures |t| == 31
  {
    seq(31, t requires 0 <= t < 31 => if t < 30 then HuffCode(BitReverse(t, 5), DistExtraBits(t), 5) else HuffCode(0, 0, 0))
  }

  /** They are tables of the fixed codes. */
  lemma StaticTables()
    ensures FixedTables(FixedCodes(), StaticLl(), StaticD())
  {
    hide FixedCodes, PrintedCode, FixedLength, BitReverse, Code, Word, Kraft, CountsMatch, Lengths, BitsOf, Pow2;
    var c := FixedCodes();
    FixedValid();
    ValidParts(c);
    FixedShape();
    forall s: nat | s <= 285 ensures c.llens[s] > 0 && StaticLl()[s].length == c.llens[s] && PlainEntry(c, StaticLl()[s], s) {
      FixedWord(s);
      FixedLengthIs(s);
      CodeWritten(c.llens, c.lcount, s);
    }
    forall t: nat | t < 30 ensures c.dlens[t] > 0 && StaticD()[t].length == c.dlens[t] && DistEntry(c, StaticD()[t], t) {
      FixedDistWord(t);
      CodeWritten(c.dlens, c.dcount, t);
    }
  }

  lemma FixedLengthIs(s: nat)
    requires s < 288
    ensures |FixedCodes().llens| == 288 && FixedLength(s) == FixedCodes().llens[s]
  {}

  lemma ValidParts(c: Codes)
    requires c.Valid()
    ensures |c.lcount| == |c.dcount| == 16 && CountsMatch(c.llens, c.lcount) && Kraft(c.lcount) && CountsMatch(c.dlens, c.dcount) && Kraft(c.dcount)
  {}

  lemma FixedKraft(count: seq<nat>)
    requires |count| == 16 && forall l: nat :: l < 16 ==> count[l] == FixedLCount(l)
    ensures Horner(count, 15) == Pow2(15)
  {
    Pow2Values();
    hide Pow2;
    HornerNothing(count, 6);
    assert Horner(count, 7) == 24;
    assert Horner(count, 8) == 200;
    assert Horner(count, 9) == 512;
    HornerDoubles(count, 9, 15);
  }

  lemma FixedDistKraft(count: seq<nat>)
    requires |count| == 16 && forall l: nat :: l < 16 ==> count[l] == FixedDCount(l)
    ensures Horner(count, 15) <= Pow2(15)
  {
    Pow2Values();
    hide Pow2;
    HornerNothing(count, 4);
    assert Horner(count, 5) == 30;
    HornerDoubles(count, 5, 15);
    Pow2Add(5, 10);
  }

  // -- stored blocks

  lemma StoredOne(r: nat, chunk: seq<Byte>, final: bool, before: seq<Byte>)
    requires |chunk| <= 65535
    ensures Reads(r, Stored.OneBlock(r, chunk, final), before, before + chunk, final)
    ensures (r + |Stored.OneBlock(r, chunk, final)|) % 8 == 0
  {
    hide Reads, ValueOf, Stored.Parse;
    var bits := Stored.OneBlock(r, chunk, final);
    OneLength(r, chunk, final);
    forall rest: seq<bool> ensures ReadBlock(r, bits + rest, before) == Step(before + chunk, final, rest) {
      Stored.NothingMore(rest);
      Stored.OneParses(r, chunk, final, rest, 1, [], rest);
      StoredType(r, chunk, final, rest);
      assert [Stored.Block(final, chunk)] + [] == [Stored.Block(final, chunk)];
    }
    BlockReads(r, bits, before, before + chunk, final);
  }

  lemma OneLength(r: nat, chunk: seq<Byte>, final: bool)
    requires |chunk| <= 65535
    ensures |Stored.OneBlock(r, chunk, final)| > 0 && (r + |Stored.OneBlock(r, chunk, final)|) % 8 == 0
  {
    hide PadLen, BitsOf;
    PadAligns(r + 3);
    Multiple(r + 3 + PadLen(r + 3), 4 + |chunk|);
  }

  lemma PadAligns(n: nat)
    ensures (n + PadLen(n)) % 8 == 0
  {}

  lemma Multiple(n: nat, k: nat)
    requires n % 8 == 0
    ensures (n + 8 * k) % 8 == 0
  {}

  lemma StoredType(r: nat, chunk: seq<Byte>, final: bool, rest: seq<bool>)
    requires |chunk| <= 65535
    ensures |Stored.OneBlock(r, chunk, final) + rest| >= 3 && ValueOf((Stored.OneBlock(r, chunk, final) + rest)[1..3]) == 0
  {
    hide ByteBits, Stored.BlockHead, PadLen;
    var bits := Stored.OneBlock(r, chunk, final) + rest;
    assert bits == Stored.BlockHead(r, |chunk|, final) + (ByteBits(chunk) + rest);
    Stored.HeadParts(r, |chunk|, final, ByteBits(chunk) + rest, bits);
    var t := bits[1..3];
    assert !t[0] && !t[1..][0] && |t[1..][1..]| == 0;
    assert ValueOf(t[1..]) == 0;
  }

  /** Stored blocks add their bytes to the text. */
  lemma {:induction false} StoredReads(r: nat, chunk: seq<Byte>, final: bool, before: seq<Byte>)
    ensures Reads(r, Stored.Blocks(r, chunk, final), before, before + chunk, final)
    decreases |chunk|
  {
    hide Reads, Extends, Completes, Stored.OneBlock;
    if |chunk| <= 65535 {
      StoredOne(r, chunk, final, before);
    } else {
      var head, tail := chunk[..65535], chunk[65535..];
      StoredOne(r, head, false, before);
      StoredReads(0, tail, final, before + head);
      assert (before + head) + tail == before + chunk;
      ExtendsIs(r, Stored.OneBlock(r, head, false), before, before + head);
      ReadsOn(r, Stored.OneBlock(r, head, false), Stored.Blocks(0, tail, final), before, before + head, before + chunk, final);
    }
  }

  lemma ExtendsIs(r: nat, bits: seq<bool>, before: seq<Byte>, after: seq<Byte>)
    ensures Reads(r, bits, before, after, false) <==> Extends(r, bits, before, after)
  {
    hide Extends;
  }
}
