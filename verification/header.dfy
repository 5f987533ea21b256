/** The header of a block with dynamic Huffman codes, section 3.2.7 of RFC 1951: how it is written, and a parser for it. */
module Header {
  import opened Bits
  import opened BitStream
  import opened Canonical
  import opened CodeLengths
  import opened HuffTree
  import RL = RunLength

  // -- the order of the code length codes

  /** The order in which the lengths of the code length codes are sent. */
  function CodeLenOrder(i: nat): (s: nat)
    ensures s < 19
  {
    if i < 3 then 16 + i else if i == 3 then 0 else if i == 4 then 8 else if i == 5 then 7 else if i == 6 then 9
    else if i == 7 then 6 else if i == 8 then 10 else if i == 9 then 5 else if i == 10 then 11 else if i == 11 then 4
    else if i == 12 then 12 else if i == 13 then 3 else if i == 14 then 13 else if i == 15 then 2 else if i == 16 then 14
    else if i == 17 then 1 else 15
  }

  /** Where a code length code stands in that order. */
  function Slot(s: nat): (i: nat)
    ensures i < 19 && (s < 19 ==> CodeLenOrder(i) == s)
  {
    if s == 0 then 3 else if s < 8 then 19 - 2 * s else if s < 16 then 2 * s - 12 else if s < 19 then s - 16 else 0
  }

  function ExtraLen(c: nat): nat { if c == 16 then 2 else if c == 17 then 3 else if c == 18 then 7 else 0 }

  // -- the parser

  datatype Parsed = Bad | Block(final: bool, hlit: nat, hdist: nat, lens: seq<nat>, rest: seq<bool>)

  datatype LensRead = NoLens | LensRead(lens: seq<nat>, rest: seq<bool>)

  function ReadTriples(bits: seq<bool>, k: nat): (r: seq<nat>)
    requires |bits| >= 3 * k
    ensures |r| == k
    decreases k
  {
    if k == 0 then [] else [ValueOf(bits[..3])] + ReadTriples(bits[3..], k - 1)
  }

  /** The lengths of the code length codes from those that were sent; the others are 0. */
  function ClLens(vals: seq<nat>): (lens: seq<nat>)
    ensures |lens| == 19 && forall s: nat :: s < 19 ==> lens[s] == if Slot(s) < |vals| then vals[Slot(s)] else 0
  {
    seq(19, s requires 0 <= s < 19 => if Slot(s) < |vals| then vals[Slot(s)] else 0)
  }

  function CountsFor(lens: seq<nat>): (count: seq<nat>)
    ensures |count| == 16 && forall l: nat :: l < 16 ==> count[l] == if l == 0 then 0 else CountOf(lens, l)
  {
    seq(16, l requires 0 <= l < 16 => if l == 0 then 0 else CountOf(lens, l))
  }

  /** Reads code length symbols until n lengths are complete. */
  function ReadLens(cl: seq<nat>, count: seq<nat>, bits: seq<bool>, out: seq<nat>, n: nat): LensRead
    requires |count| == 16
    decreases n - |out|
  {
    if |out| >= n then (if |out| == n then LensRead(out, bits) else NoLens) else
      match Find(cl, count, bits, |cl|)
      case Nothing => NoLens
      case Symbol(s) =>
        if |bits| < cl[s] + ExtraLen(s) then NoLens else
          match RL.ExpandOne(out, RL.RlCode(s, ValueOf(bits[cl[s]..cl[s] + ExtraLen(s)])))
          case Malformed => NoLens
          case Lens(o) => if |o| <= |out| then NoLens else ReadLens(cl, count, bits[cl[s] + ExtraLen(s)..], o, n)
  }

  function ParseLens(cl: seq<nat>, bits: seq<bool>, final: bool, hlit: nat, hdist: nat): Parsed {
    match ReadLens(cl, CountsFor(cl), bits, [], hlit + 257 + hdist + 1)
    case NoLens => Bad
    case LensRead(lens, rest) => Block(final, hlit, hdist, lens, rest)
  }

  /** Reads a block header: BFINAL, BTYPE 2, HLIT, HDIST, HCLEN, the code length codes, and the lengths coded with them. */
  function ParseHeader(bits: seq<bool>): Parsed {
    if |bits| < 17 || ValueOf(bits[1..3]) != 2 then Bad
    else if |bits| < 17 + 3 * (ValueOf(bits[13..17]) + 4) then Bad
    else ParseLens(ClLens(ReadTriples(bits[17..], ValueOf(bits[13..17]) + 4)), bits[17 + 3 * (ValueOf(bits[13..17]) + 4)..],
                   bits[0], ValueOf(bits[3..8]), ValueOf(bits[8..13]))
  }

  // -- the bits of a header

  ghost function TokenBits(cl: seq<nat>, count: seq<nat>, t: RL.RlCode): seq<bool>
    requires |count| == 16 && t.code < |cl| && 1 <= cl[t.code] <= 15
  {
    Word(cl, count, t.code) + BitsOf(t.extraBits, ExtraLen(t.code))
  }

  /** All symbols have code words and extra bits that fit. */
  ghost predicate Sendable(cl: seq<nat>, ts: seq<RL.RlCode>) {
    |cl| == 19 && forall i :: 0 <= i < |ts| ==> SendableOne(cl, ts[i])
  }

  ghost predicate SendableOne(cl: seq<nat>, t: RL.RlCode) {
    t.code < |cl| && 1 <= cl[t.code] <= 15 && t.extraBits < Pow2(ExtraLen(t.code))
  }

  ghost function TokensBits(cl: seq<nat>, count: seq<nat>, ts: seq<RL.RlCode>): seq<bool>
    requires |count| == 16 && Sendable(cl, ts)
    decreases |ts|
  {
    if |ts| == 0 then [] else TokenBits(cl, count, ts[0]) + TokensBits(cl, count, ts[1..])
  }

  lemma {:induction false} TokensBitsMore(cl: seq<nat>, count: seq<nat>, ts: seq<RL.RlCode>, t: RL.RlCode)
    requires |count| == 16 && Sendable(cl, ts) && SendableOne(cl, t)
    ensures Sendable(cl, ts + [t]) && TokensBits(cl, count, ts + [t]) == TokensBits(cl, count, ts) + TokenBits(cl, count, t)
    decreases |ts|
  {
    hide TokenBits, SendableOne;
    if |ts| == 0 {
      assert ts + [t] == [t] && [t][1..] == [];
    } else {
      TokensBitsMore(cl, count, ts[1..], t);
      assert (ts + [t])[1..] == ts[1..] + [t];
    }
  }

  /** The lengths of the code length codes in positions `from` to `to`, three bits each. */
  ghost function Triples(cl: seq<nat>, from: nat, to: nat): (bs: seq<bool>)
    requires |cl| == 19
    ensures from <= to ==> |bs| == 3 * (to - from)
    decreases if from < to then to - from else 0
  {
    if from >= to then [] else BitsOf(cl[CodeLenOrder(from)], 3) + Triples(cl, from + 1, to)
  }

  ghost function FixedBits(final: bool, hlit: nat, hdist: nat, hclen: nat): (bs: seq<bool>)
    ensures |bs| == 17
  {
    BitsOf(if final then 5 else 4, 3) + BitsOf(hlit, 5) + BitsOf(hdist, 5) + BitsOf(hclen, 4)
  }

  ghost function HeaderBits(final: bool, hlit: nat, hdist: nat, hclen: nat, cl: seq<nat>, count: seq<nat>, ts: seq<RL.RlCode>): seq<bool>
    requires |count| == 16 && Sendable(cl, ts)
  {
    FixedBits(final, hlit, hdist, hclen) + Triples(cl, 0, hclen + 4) + TokensBits(cl, count, ts)
  }

  // -- the parser reads what is written

  lemma {:induction false} ExpandGrows(out: seq<nat>, ts: seq<RL.RlCode>)
    requires RL.ExpandAll(out, ts).Lens?
    ensures |RL.ExpandAll(out, ts).lens| >= |out| + |ts|
    decreases |ts|
  {
    if |ts| > 0 { ExpandGrows(RL.ExpandOne(out, ts[0]).lens, ts[1..]); }
  }

  lemma OneGrows(out: seq<nat>, t: RL.RlCode)
    requires RL.ExpandOne(out, t).Lens?
    ensures |RL.ExpandOne(out, t).lens| > |out|
  {}

  lemma ExpandStep(out: seq<nat>, ts: seq<RL.RlCode>)
    requires |ts| > 0 && RL.ExpandAll(out, ts).Lens?
    ensures RL.ExpandOne(out, ts[0]).Lens? && RL.ExpandAll(out, ts) == RL.ExpandAll(RL.ExpandOne(out, ts[0]).lens, ts[1..])
  {}

  lemma {:induction false} TokensRead(cl: seq<nat>, count: seq<nat>, ts: seq<RL.RlCode>, out: seq<nat>, lens: seq<nat>, rest: seq<bool>)
    requires |count| == 16 && CountsMatch(cl, count) && Kraft(count) && Sendable(cl, ts) && RL.ExpandAll(out, ts) == RL.Lens(lens)
    ensures ReadLens(cl, count, TokensBits(cl, count, ts) + rest, out, |lens|) == LensRead(lens, rest)
    decreases |ts|
  {
    hide CountsMatch, Kraft, Find, RL.ExpandOne, RL.ExpandAll, Word, BitsOf, ValueOf, Pow2;
    ExpandGrows(out, ts);
    if |ts| == 0 {
      assert TokensBits(cl, count, ts) + rest == rest;
      NoTokens(out);
    } else {
      var t, tail := ts[0], TokensBits(cl, count, ts[1..]) + rest;
      var bits := TokensBits(cl, count, ts) + rest;
      var k, e := cl[t.code], ExtraLen(t.code);
      assert SendableOne(cl, t);
      assert bits == Word(cl, count, t.code) + BitsOf(t.extraBits, e) + tail;
      FindWord(cl, count, t.code, bits, |cl|);
      assert bits[k..k + e] == BitsOf(t.extraBits, e) && bits[k + e..] == tail;
      ValueOfBits(t.extraBits, e);
      ExpandStep(out, ts);
      OneGrows(out, t);
      TokensRead(cl, count, ts[1..], RL.ExpandOne(out, t).lens, lens, rest);
    }
  }

  lemma NoTokens(out: seq<nat>)
    ensures RL.ExpandAll(out, []) == RL.Lens(out)
  {}

  lemma {:induction false} TriplesRead(cl: seq<nat>, from: nat, to: nat, rest: seq<bool>)
    requires |cl| == 19 && from <= to && forall s :: 0 <= s < 19 ==> cl[s] < 8
    ensures ReadTriples(Triples(cl, from, to) + rest, to - from) == seq(to - from, i requires 0 <= i < to - from => cl[CodeLenOrder(from + i)])
    decreases if from < to then to - from else 0
  {
    hide BitsOf, ValueOf, CodeLenOrder, Pow2;
    if from < to {
      var bits := Triples(cl, from, to) + rest;
      assert bits[..3] == BitsOf(cl[CodeLenOrder(from)], 3);
      assert bits[3..] == Triples(cl, from + 1, to) + rest;
      TripleValue(cl[CodeLenOrder(from)]);
      TriplesRead(cl, from + 1, to, rest);
    }
  }

  lemma TripleValue(v: nat)
    requires v < 8
    ensures ValueOf(BitsOf(v, 3)) == v
  {
    Pow2Values();
    ValueOfBits(v, 3);
  }

  /** The code length codes are recovered when those that are not sent are 0. */
  lemma ClLensRead(cl: seq<nat>, k: nat)
    requires |cl| == 19 && k <= 19 && forall i: nat :: k <= i < 19 ==> cl[CodeLenOrder(i)] == 0
    ensures ClLens(seq(k, i requires 0 <= i < k => cl[CodeLenOrder(0 + i)])) == cl
  {
    hide CodeLenOrder, Slot;
    var vals := seq(k, i requires 0 <= i < k => cl[CodeLenOrder(0 + i)]);
    forall s: nat | s < 19 ensures ClLens(vals)[s] == cl[s] {
      assert CodeLenOrder(Slot(s)) == s;
    }
  }

  lemma CountsAre(lens: seq<nat>, count: seq<nat>)
    requires CountsMatch(lens, count)
    ensures CountsFor(lens) == count
  {
    hide CountOf;
  }

  /** The four fixed fields. */
  lemma FixedRead(final: bool, hlit: nat, hdist: nat, hclen: nat, tail: seq<bool>, bits: seq<bool>)
    requires hlit < 32 && hdist < 32 && hclen < 16 && bits == FixedBits(final, hlit, hdist, hclen) + tail
    ensures |bits| >= 17 && bits[0] == final && ValueOf(bits[1..3]) == 2 && ValueOf(bits[3..8]) == hlit && ValueOf(bits[8..13]) == hdist
    ensures ValueOf(bits[13..17]) == hclen && bits[17..] == tail
  {
    assert bits[3..8] == BitsOf(hlit, 5) && bits[8..13] == BitsOf(hdist, 5) && bits[13..17] == BitsOf(hclen, 4);
    Pow2Values();
    BlockType(final);
    assert bits[..3] == BitsOf(if final then 5 else 4, 3);
    assert bits[1..3] == bits[..3][1..3] && bits[0] == bits[..3][0];
    ValueOfBits(hlit, 5);
    ValueOfBits(hdist, 5);
    ValueOfBits(hclen, 4);
  }

  lemma BlockType(final: bool)
    ensures BitsOf(if final then 5 else 4, 3)[0] == final && ValueOf(BitsOf(if final then 5 else 4, 3)[1..3]) == 2
  {
    var v := if final then 5 else 4;
    assert BitsOf(v, 3)[1..3] == BitsOf(2, 2);
    Pow2Values();
    ValueOfBits(2, 2);
  }

  /** The parser gives back the flags, the sizes and the lengths, and leaves what follows the header. */
  lemma HeaderParses(final: bool, hlit: nat, hdist: nat, hclen: nat, cl: seq<nat>, count: seq<nat>, ts: seq<RL.RlCode>, lens: seq<nat>,
                     rest: seq<bool>)
    requires hlit < 32 && hdist < 32 && hclen < 16 && |count| == 16 && |cl| == 19 && Sendable(cl, ts) && CountsMatch(cl, count) && Kraft(count)
    requires (forall s :: 0 <= s < 19 ==> cl[s] < 8) && forall i: nat :: hclen + 4 <= i < 19 ==> cl[CodeLenOrder(i)] == 0
    requires RL.ExpandAll([], ts) == RL.Lens(lens) && |lens| == hlit + 257 + hdist + 1
    ensures ParseHeader(HeaderBits(final, hlit, hdist, hclen, cl, count, ts) + rest) == Block(final, hlit, hdist, lens, rest)
  {
    hide FixedBits, Triples, TokensBits, ReadTriples, ReadLens, ValueOf, CountsMatch, Kraft, Sendable, CodeLenOrder, ClLens, CountsFor;
    var k := hclen + 4;
    var tail := Triples(cl, 0, k) + (TokensBits(cl, count, ts) + rest);
    var bits := HeaderBits(final, hlit, hdist, hclen, cl, count, ts) + rest;
    assert bits == FixedBits(final, hlit, hdist, hclen) + tail;
    FixedRead(final, hlit, hdist, hclen, tail, bits);
    TriplesRead(cl, 0, k, TokensBits(cl, count, ts) + rest);
    ClLensRead(cl, k);
    assert tail[3 * k..] == TokensBits(cl, count, ts) + rest;
    assert bits[17 + 3 * k..] == bits[17..][3 * k..];
    CountsAre(cl, count);
    TokensRead(cl, count, ts, [], lens, rest);
  }

  /** Of the code length codes no more are sent than needed: four, or up to one that is used. */
  ghost predicate NoTrailing(hdr: seq<bool>) {
    |hdr| >= 17 && |hdr| >= 17 + 3 * (ValueOf(hdr[13..17]) + 4)
    && (ValueOf(hdr[13..17]) == 0 || ValueOf(hdr[14 + 3 * (ValueOf(hdr[13..17]) + 4)..17 + 3 * (ValueOf(hdr[13..17]) + 4)]) > 0)
  }

  lemma {:induction false} LastTriple(cl: seq<nat>, from: nat, to: nat)
    requires |cl| == 19 && from < to
    ensures |Triples(cl, from, to)| == 3 * (to - from) && Triples(cl, from, to)[3 * (to - from - 1)..] == BitsOf(cl[CodeLenOrder(to - 1)], 3)
    decreases if from < to then to - from else 0
  {
    hide BitsOf, CodeLenOrder;
    if from + 1 == to {
      assert Triples(cl, from, to) == BitsOf(cl[CodeLenOrder(from)], 3) + [];
    } else {
      LastTriple(cl, from + 1, to);
    }
  }

  lemma SendsNoMore(final: bool, hlit: nat, hdist: nat, hclen: nat, cl: seq<nat>, count: seq<nat>, ts: seq<RL.RlCode>)
    requires hlit < 32 && hdist < 32 && hclen < 16 && |count| == 16 && |cl| == 19 && Sendable(cl, ts) && forall s :: 0 <= s < 19 ==> cl[s] < 8
    requires hclen > 0 ==> cl[CodeLenOrder(hclen + 3)] > 0
    ensures NoTrailing(HeaderBits(final, hlit, hdist, hclen, cl, count, ts))
  {
    hide FixedBits, Triples, TokensBits, ValueOf, Sendable, CodeLenOrder, BitsOf;
    var k := hclen + 4;
    var tail := Triples(cl, 0, k) + TokensBits(cl, count, ts);
    var bits := HeaderBits(final, hlit, hdist, hclen, cl, count, ts);
    assert bits == FixedBits(final, hlit, hdist, hclen) + tail;
    FixedRead(final, hlit, hdist, hclen, tail, bits);
    LastTriple(cl, 0, k);
    var last := cl[CodeLenOrder(k - 1)];
    assert bits[14 + 3 * k..17 + 3 * k] == bits[17..][3 * k - 3..3 * k] == Triples(cl, 0, k)[3 * (k - 1)..] == BitsOf(last, 3);
    TripleValue(last);
  }

  // -- writing the header

  /** The first part of the header, put together in a word. */
  function StartWord(final: bool, hlit: nat, hdist: nat, hclen: nat, first: nat): nat {
    Or(Or(Or(Or(if final then 5 else 4, hlit * 8), hdist * 256), hclen * 8192), first * 131072)
  }

  lemma StartWordBits(final: bool, hlit: nat, hdist: nat, hclen: nat, first: nat)
    requires hlit < 32 && hdist < 32 && hclen < 16 && first < 8
    ensures StartWord(final, hlit, hdist, hclen, first) < Pow2(20)
    ensures BitsOf(StartWord(final, hlit, hdist, hclen, first), 20) == FixedBits(final, hlit, hdist, hclen) + BitsOf(first, 3)
  {
    hide *;
    WordPowers();
    var v := if final then 5 else 4;
    Beside(v, 3, hlit, 5);
    var w := Or(v, hlit * 8);
    Beside(w, 8, hdist, 5);
    var x := Or(w, hdist * 256);
    Beside(x, 13, hclen, 4);
    var y := Or(x, hclen * 8192);
    Beside(y, 17, first, 3);
    StartWordIs(final, hlit, hdist, hclen, first);
  }

  lemma StartWordIs(final: bool, hlit: nat, hdist: nat, hclen: nat, first: nat)
    ensures StartWord(final, hlit, hdist, hclen, first) ==
            Or(Or(Or(Or(if final then 5 else 4, hlit * 8), hdist * 256), hclen * 8192), first * 131072)
    ensures FixedBits(final, hlit, hdist, hclen) == BitsOf(if final then 5 else 4, 3) + BitsOf(hlit, 5) + BitsOf(hdist, 5) + BitsOf(hclen, 4)
  {}

  lemma WordPowers()
    ensures Pow2(3) == 8 && Pow2(4) == 16 && Pow2(5) == 32 && Pow2(8) == 256 && Pow2(13) == 8192 && Pow2(17) == 131072
  {
    Pow2Values();
    Pow2Add(8, 5);
    Pow2Add(13, 4);
  }

  /** Two fields side by side in a word. */
  lemma Beside(a: nat, m: nat, b: nat, n: nat)
    requires a < Pow2(m) && b < Pow2(n)
    ensures Or(a, b * Pow2(m)) < Pow2(m + n) && BitsOf(Or(a, b * Pow2(m)), m + n) == BitsOf(a, m) + BitsOf(b, n)
  {
    hide *;
    OrDisjoint(a, m, b);
    BitsOfConcat(a, m, b, n);
    SumBound(a, m, b, n);
  }

  /** A code table for the code length symbols: code words for all symbols with a length. */
  ghost predicate Lookup(table: seq<HuffCode>, cl: seq<nat>, count: seq<nat>) {
    |table| == |cl| == 19 && |count| == 16 && cl == LengthsOf(table) && CountsMatch(cl, count) && Kraft(count)
    && forall s :: 0 <= s < 19 ==> cl[s] < 8 && (cl[s] > 0 ==> table[s].code < Pow2(cl[s]) && BitsOf(table[s].code, cl[s]) == Word(cl, count, s))
  }

  /** The remaining code length codes, last one first, so that the first one ends up lowest. */
  method LengthsWord(lookup: array<HuffCode>, hclen: nat, ghost cl: seq<nat>, ghost count: seq<nat>) returns (data: nat)
    requires hclen < 16 && Lookup(lookup[..], cl, count) && |cl| == 19
    ensures data < Pow2((hclen + 3) * 3) && BitsOf(data, (hclen + 3) * 3) == Triples(cl, 1, hclen + 4)
  {
    hide *;
    data := 0;
    var i := hclen + 3;
    NoTriples(cl, hclen + 4);
    while i >= 1
      invariant 0 <= i <= hclen + 3 && data < Pow2((hclen + 3 - i) * 3)
      invariant BitsOf(data, (hclen + 3 - i) * 3) == Triples(cl, i + 1, hclen + 4)
    {
      TripleBefore(cl, i, hclen + 4);
      LookupLength(lookup[..], cl, count, CodeLenOrder(i));
      WordPowers();
      Beside(lookup[CodeLenOrder(i)].length, 3, data, (hclen + 3 - i) * 3);
      data := Or(lookup[CodeLenOrder(i)].length, data * 8);
      i := i - 1;
    }
  }

  lemma NoTriples(cl: seq<nat>, k: nat)
    requires |cl| == 19
    ensures BitsOf(0, 0) == Triples(cl, k, k) && 0 < Pow2(0)
  {}

  lemma TripleBefore(cl: seq<nat>, i: nat, k: nat)
    requires |cl| == 19 && i < k
    ensures Triples(cl, i, k) == BitsOf(cl[CodeLenOrder(i)], 3) + Triples(cl, i + 1, k)
  {}

  lemma LookupLength(table: seq<HuffCode>, cl: seq<nat>, count: seq<nat>, s: nat)
    requires Lookup(table, cl, count) && s < 19
    ensures |table| == |cl| == 19 && |count| == 16 && table[s].length == cl[s] < 8
    ensures cl[s] > 0 ==> table[s].code < Pow2(cl[s]) && BitsOf(table[s].code, cl[s]) == Word(cl, count, s)
  {}

  /** Writes the header for a run-length coded list of code lengths; gives its size in bits. */
  method CreateHuffmanHeader(bb: BitBuf2, lookup: array<HuffCode>, rep: array<RL.RlCode>, n: nat, endOfBlock: bool, hclen: nat, hlit: nat,
                             hdist: nat, ghost cl: seq<nat>, ghost count: seq<nat>)
    returns (bitCount: nat, ghost hdr: seq<bool>)
    requires Lookup(lookup[..], cl, count) && |count| == 16 && |cl| == 19 && n <= rep.Length && Sendable(cl, rep[..n])
    requires bb.Valid() && bb.bitCount < 8 && 8 * bb.outBuf + |TokensBits(cl, count, rep[..n])| + 152 <= 8 * bb.out.Length
    requires hlit < 32 && hdist < 32 && hclen < 16
    modifies bb`bits, bb`bitCount, bb`outBuf, bb.out
    ensures bb.Valid() && bb.Stream() == old(bb.Stream()) + hdr && bb.bitCount < 8
    ensures hdr == HeaderBits(endOfBlock, hlit, hdist, hclen, cl, count, rep[..n]) && bitCount == |hdr| <= 74 + |TokensBits(cl, count, rep[..n])|
    ensures bb.outBuf >= old(bb.outBuf) && bb.out[..old(bb.outBuf)] == old(bb.out[..bb.outBuf])
    ensures 8 * bb.outBuf + bb.bitCount == old(8 * bb.outBuf + bb.bitCount) + |hdr| && bb.Settled()
  {
    hide *;
    BufferFacts(bb);
    var before := 8 * (bb.outBuf - bb.outStart) + bb.bitCount;
    ghost var stream0, buf0, out0 := bb.Stream(), bb.outBuf, bb.out[..bb.outBuf];
    hdr := StartHeader(bb, lookup, endOfBlock, hclen, hlit, hdist, cl, count);
    ghost var buf1 := bb.outBuf;
    BufferFacts(bb);
    assert bb.out[..buf1][..buf0] == out0;
    SendTokens(bb, lookup, rep, n, cl, count);
    HeaderIs(endOfBlock, hlit, hdist, hclen, cl, count, rep[..n]);
    StartStream2(stream0, hdr, TokensBits(cl, count, rep[..n]));
    hdr := hdr + TokensBits(cl, count, rep[..n]);
    BufferFacts(bb);
    bitCount := 8 * (bb.outBuf - bb.outStart) + bb.bitCount - before;
    assert bb.out[..buf0] == bb.out[..buf1][..buf0];
  }

  /** The fixed fields and the lengths of the code length codes, in two words. */
  method StartHeader(bb: BitBuf2, lookup: array<HuffCode>, endOfBlock: bool, hclen: nat, hlit: nat, hdist: nat, ghost cl: seq<nat>,
                     ghost count: seq<nat>)
    returns (ghost hdr: seq<bool>)
    requires Lookup(lookup[..], cl, count) && |count| == 16 && |cl| == 19 && hlit < 32 && hdist < 32 && hclen < 16
    requires bb.Valid() && bb.bitCount < 8 && 8 * bb.outBuf + 152 <= 8 * bb.out.Length
    modifies bb`bits, bb`bitCount, bb`outBuf, bb.out
    ensures hdr == FixedBits(endOfBlock, hlit, hdist, hclen) + Triples(cl, 0, hclen + 4) && |hdr| <= 74
    ensures bb.Valid() && bb.Stream() == old(bb.Stream()) + hdr && bb.bitCount < 8
    ensures bb.outBuf >= old(bb.outBuf) && bb.out[..old(bb.outBuf)] == old(bb.out[..bb.outBuf])
    ensures 8 * bb.outBuf + bb.bitCount == old(8 * bb.outBuf + bb.bitCount) + |hdr| && bb.Settled()
  {
    hide *;
    LookupLength(lookup[..], cl, count, CodeLenOrder(0));
    BufferFacts(bb);
    ghost var stream0 := bb.Stream();
    var first := lookup[CodeLenOrder(0)].length;
    StartWordBits(endOfBlock, hlit, hdist, hclen, first);
    bb.WriteBits(StartWord(endOfBlock, hlit, hdist, hclen, first), 17 + 3);
    var data := LengthsWord(lookup, hclen, cl, count);
    TripleBefore(cl, 0, hclen + 4);
    bb.WriteBits(data, (hclen + 3) * 3);
    hdr := FixedBits(endOfBlock, hlit, hdist, hclen) + Triples(cl, 0, hclen + 4);
    StartStream(stream0, FixedBits(endOfBlock, hlit, hdist, hclen), BitsOf(first, 3), Triples(cl, 1, hclen + 4));
  }

  lemma BufferFacts(bb: BitBuf2)
    requires bb.Valid()
    ensures bb.outStart <= bb.outBuf <= bb.out.Length
  {}

  lemma StartStream(s: seq<bool>, a: seq<bool>, b: seq<bool>, c: seq<bool>)
    ensures s + (a + b) + c == s + (a + (b + c))
  {}

  lemma StartStream2(s: seq<bool>, a: seq<bool>, b: seq<bool>)
    ensures s + a + b == s + (a + b)
  {}

  lemma TokensBitsPrefix(cl: seq<nat>, count: seq<nat>, ts: seq<RL.RlCode>, k: nat)
    requires |count| == 16 && Sendable(cl, ts) && k <= |ts|
    ensures Sendable(cl, ts[..k]) && |TokensBits(cl, count, ts[..k])| <= |TokensBits(cl, count, ts)|
    decreases |ts|
  {
    hide TokenBits, SendableOne;
    if k > 0 {
      TokensBitsPrefix(cl, count, ts[1..], k - 1);
      assert ts[..k][1..] == ts[1..][..k - 1];
    }
  }

  /** The coded lengths take at most seven bits each. */
  lemma {:induction false} TokensBitsShort(cl: seq<nat>, count: seq<nat>, ts: seq<RL.RlCode>, out: seq<nat>)
    requires |count| == 16 && Sendable(cl, ts) && (forall s :: 0 <= s < |cl| ==> cl[s] < 8) && RL.ExpandAll(out, ts).Lens?
    ensures |TokensBits(cl, count, ts)| <= 7 * (|RL.ExpandAll(out, ts).lens| - |out|)
    decreases |ts|
  {
    hide Word;
    if |ts| > 0 {
      assert SendableOne(cl, ts[0]);
      ExpandStep(out, ts);
      TokensBitsShort(cl, count, ts[1..], RL.ExpandOne(out, ts[0]).lens);
    }
  }

  /** Sends the run-length coded lengths. */
  method SendTokens(bb: BitBuf2, lookup: array<HuffCode>, rep: array<RL.RlCode>, n: nat, ghost cl: seq<nat>, ghost count: seq<nat>)
    requires Lookup(lookup[..], cl, count) && |cl| == 19 && |count| == 16 && n <= rep.Length && Sendable(cl, rep[..n])
    requires bb.Valid() && bb.Settled() && bb.bitCount < 8 && 8 * bb.outBuf + bb.bitCount + |TokensBits(cl, count, rep[..n])| + 64 <= 8 * bb.out.Length
    modifies bb`bits, bb`bitCount, bb`outBuf, bb.out
    ensures bb.Valid() && bb.Stream() == old(bb.Stream()) + TokensBits(cl, count, rep[..n]) && bb.bitCount < 8
    ensures bb.outBuf >= old(bb.outBuf) && bb.out[..old(bb.outBuf)] == old(bb.out[..bb.outBuf])
    ensures 8 * bb.outBuf + bb.bitCount == old(8 * bb.outBuf + bb.bitCount) + |TokensBits(cl, count, rep[..n])| && bb.Settled()
  {
    hide *;
    ghost var stream0, at0, buf0 := bb.Stream(), 8 * bb.outBuf + bb.bitCount, bb.outBuf;
    BufferFacts(bb);
    ghost var was := bb.out[..buf0];
    var i := 0;
    NothingSent(cl, count, rep[..0]);
    while i < n
      invariant 0 <= i <= n && bb.Valid() && bb.Settled() && bb.bitCount < 8 && bb.outBuf >= buf0 && bb.out[..buf0] == was
      invariant Sendable(cl, rep[..i]) && bb.Stream() == stream0 + TokensBits(cl, count, rep[..i])
      invariant 8 * bb.outBuf + bb.bitCount == at0 + |TokensBits(cl, count, rep[..i])|
    {
      SendableAt(cl, rep[..n], i);
      assert rep[..n][i] == rep[i] && rep[..i + 1] == rep[..i] + [rep[i]];
      TokensBitsMore(cl, count, rep[..i], rep[i]);
      StartStream2(stream0, TokensBits(cl, count, rep[..i]), TokenBits(cl, count, rep[i]));
      TokensBitsPrefix(cl, count, rep[..n], i + 1);
      assert rep[..n][..i + 1] == rep[..i + 1];
      BufferFacts(bb);
      SendToken(bb, lookup, rep[i], cl, count);
      i := i + 1;
    }
  }

  lemma NothingSent(cl: seq<nat>, count: seq<nat>, none: seq<RL.RlCode>)
    requires |cl| == 19 && |count| == 16 && |none| == 0
    ensures Sendable(cl, none) && TokensBits(cl, count, none) == []
  {}

  lemma SendableAt(cl: seq<nat>, ts: seq<RL.RlCode>, i: nat)
    requires Sendable(cl, ts) && i < |ts|
    ensures |cl| == 19 && SendableOne(cl, ts[i])
  {}

  lemma HeaderIs(final: bool, hlit: nat, hdist: nat, hclen: nat, cl: seq<nat>, count: seq<nat>, ts: seq<RL.RlCode>)
    requires |count| == 16 && |cl| == 19 && Sendable(cl, ts)
    ensures HeaderBits(final, hlit, hdist, hclen, cl, count, ts)
            == FixedBits(final, hlit, hdist, hclen) + Triples(cl, 0, hclen + 4) + TokensBits(cl, count, ts)
  {}

  lemma TokenFacts(table: seq<HuffCode>, cl: seq<nat>, count: seq<nat>, t: RL.RlCode)
    requires Lookup(table, cl, count) && SendableOne(cl, t)
    ensures |table| == |cl| == 19 && |count| == 16 && t.code < 19 && 1 <= cl[t.code] < 8 && t.extraBits < Pow2(ExtraLen(t.code)) && ExtraLen(t.code) <= 7
    ensures table[t.code].length == cl[t.code] && table[t.code].code < Pow2(cl[t.code])
    ensures TokenBits(cl, count, t) == BitsOf(table[t.code].code, cl[t.code]) + BitsOf(t.extraBits, ExtraLen(t.code))
    ensures t.code <= 15 ==> BitsOf(t.extraBits, ExtraLen(t.code)) == []
  {}

  /** One symbol: its code, and the extra bits of a repetition. */
  method SendToken(bb: BitBuf2, lookup: array<HuffCode>, t: RL.RlCode, ghost cl: seq<nat>, ghost count: seq<nat>)
    requires Lookup(lookup[..], cl, count) && SendableOne(cl, t) && |cl| == 19 && |count| == 16
    requires bb.Valid() && bb.bitCount < 8 && 8 * bb.outBuf + bb.bitCount + |TokenBits(cl, count, t)| + 64 <= 8 * bb.out.Length
    modifies bb`bits, bb`bitCount, bb`outBuf, bb.out
    ensures bb.Valid() && bb.Stream() == old(bb.Stream()) + TokenBits(cl, count, t) && bb.bitCount < 8
    ensures bb.outBuf >= old(bb.outBuf) && bb.out[..old(bb.outBuf)] == old(bb.out[..bb.outBuf])
    ensures 8 * bb.outBuf + bb.bitCount == old(8 * bb.outBuf + bb.bitCount) + |TokenBits(cl, count, t)| && bb.Settled()
  {
    hide *;
    TokenFacts(lookup[..], cl, count, t);
    assert lookup[..][t.code] == lookup[t.code];
    bb.WriteBits(lookup[t.code].code, lookup[t.code].length);
    if t.code > 15 {
      bb.WriteBits(t.extraBits, ExtraLen(t.code));
    }
  }

  // -- from counted symbols, and from code lengths, to a header

  /** Symbols that are counted and whose extra bits fit. */
  ghost predicate Tokens(ts: seq<RL.RlCode>, histogram: seq<nat>) {
    |histogram| == 19 && forall i :: 0 <= i < |ts| ==> ts[i].code < 19 && histogram[ts[i].code] > 0 && ts[i].extraBits < Pow2(ExtraLen(ts[i].code))
  }

  /** However the header goes on, the parser gives back the flags, sizes and lengths and leaves what follows. */
  ghost predicate ParsesTo(hdr: seq<bool>, final: bool, hlit: nat, hdist: nat, lens: seq<nat>) {
    forall rest: seq<bool> :: ParseHeader(hdr + rest) == Block(final, hlit, hdist, lens, rest)
  }

  /** The header with its first bit, the flag of the last block, the other way. */
  function Toggled(hdr: seq<bool>): (r: seq<bool>)
    requires |hdr| > 0
    ensures |r| == |hdr|
  {
    hdr[0 := !hdr[0]]
  }

  lemma ParsedSize(bits: seq<bool>)
    requires ParseHeader(bits).Block?
    ensures |bits| >= 17 && ParseHeader(bits).final == bits[0]
  {
    hide ReadLens, ClLens, ReadTriples, ValueOf;
  }

  lemma ToggledParse(bits: seq<bool>)
    requires ParseHeader(bits).Block?
    ensures |bits| > 0 && ParseHeader(Toggled(bits)) == ParseHeader(bits).(final := !bits[0])
  {
    hide ReadLens, ClLens, ReadTriples, ValueOf;
    var t := Toggled(bits);
    assert t[1..3] == bits[1..3] && t[3..8] == bits[3..8] && t[8..13] == bits[8..13] && t[13..17] == bits[13..17] && t[17..] == bits[17..];
    var k := 17 + 3 * (ValueOf(bits[13..17]) + 4);
    assert t[k..] == bits[k..];
  }

  /** Toggling the first bit of a header toggles the flag, and nothing else. */
  lemma ToggleParses(hdr: seq<bool>, final: bool, hlit: nat, hdist: nat, lens: seq<nat>)
    requires ParsesTo(hdr, final, hlit, hdist, lens)
    ensures |hdr| >= 17 && ParsesTo(Toggled(hdr), !final, hlit, hdist, lens)
  {
    hide ParseHeader;
    assert ParseHeader(hdr + []) == Block(final, hlit, hdist, lens, []);
    ParsedSize(hdr + []);
    forall rest: seq<bool> ensures ParseHeader(Toggled(hdr) + rest) == Block(!final, hlit, hdist, lens, rest) {
      assert ParseHeader(hdr + rest) == Block(final, hlit, hdist, lens, rest);
      ParsedSize(hdr + rest);
      ToggledParse(hdr + rest);
      assert Toggled(hdr + rest) == Toggled(hdr) + rest;
    }
  }

  /** A header in bytes: the byte behind the whole ones holds the bits that are left. */
  ghost predicate HeaderShape(hdr: seq<Byte>, count: nat, extraBits: nat) {
    count < |hdr| && extraBits < 8 && hdr[count] < Pow2(extraBits)
  }

  /** The bytes with the lowest bit of the first one flipped. */
  function FirstFlipped(bytes: seq<Byte>): (r: seq<Byte>)
    requires |bytes| > 0
    ensures |r| == |bytes|
  {
    Pow2Values();
    XorBound(8, bytes[0], 1);
    bytes[0 := Xor(bytes[0], 1)]
  }

  /** That toggles the first bit. */
  lemma ToggleByte(bytes: seq<Byte>, n: nat)
    requires |bytes| > 0 && 0 < n <= 8 * |bytes|
    ensures ByteBits(FirstFlipped(bytes))[..n] == Toggled(ByteBits(bytes)[..n])
  {
    hide *;
    var b := bytes[0];
    var c: Byte := if b % 2 == 0 then b + 1 else b - 1;
    FirstIsFlipped(bytes, c);
    FirstByte(bytes, b);
    FirstByte(FirstFlipped(bytes), c);
    FlippedByte(b, c);
    ToggledFront(BitsOf(b, 8), BitsOf(c, 8), ByteBits(bytes[1..]), n);
  }

  lemma FirstByte(bytes: seq<Byte>, b: Byte)
    requires |bytes| > 0 && bytes[0] == b
    ensures ByteBits(bytes) == BitsOf(b, 8) + ByteBits(bytes[1..])
  {
    hide *;
    assert bytes == [b] + bytes[1..];
    ByteBitsConcat([b], bytes[1..]);
    OneByte(b);
  }

  lemma ToggledFront(was: seq<bool>, now: seq<bool>, rest: seq<bool>, n: nat)
    requires |was| == 8 && now == Toggled(was) && 0 < n <= 8 + |rest|
    ensures (now + rest)[..n] == Toggled((was + rest)[..n])
  {}

  lemma FirstIsFlipped(bytes: seq<Byte>, c: Byte)
    requires |bytes| > 0 && c == if bytes[0] % 2 == 0 then bytes[0] + 1 else bytes[0] - 1
    ensures FirstFlipped(bytes) == [c] + bytes[1..]
  {
    FlippedXor(bytes[0], c);
    hide Xor;
    assert FirstFlipped(bytes)[0] == c;
  }

  lemma FlippedXor(b: Byte, c: Byte)
    requires c == if b % 2 == 0 then b + 1 else b - 1
    ensures Xor(b, 1) == c
  {
    hide Xor;
    XorComm(b, 1);
    XorLowBit(b / 2, b % 2, 0, 1);
    XorZero(b / 2);
  }

  lemma FlippedByte(b: Byte, c: Byte)
    requires c == if b % 2 == 0 then b + 1 else b - 1
    ensures BitsOf(c, 8) == Toggled(BitsOf(b, 8))
  {
    assert c / 2 == b / 2;
    assert BitsOf(b, 8) == [b % 2 == 1] + BitsOf(b / 2, 7) && BitsOf(c, 8) == [c % 2 == 1] + BitsOf(c / 2, 7);
  }

  /** Makes a code for the code length symbols that occur. */
  method CodeLengthCode(histogram: seq<nat>, lookup: array<HuffCode>) returns (ghost cl: seq<nat>, ghost count: seq<nat>)
    requires |histogram| == 19 == lookup.Length
    modifies lookup
    ensures Lookup(lookup[..], cl, count) && |cl| == 19 && |count| == 16 && CountsMatch(cl, count) && Kraft(count)
    ensures forall s :: 0 <= s < 19 && histogram[s] != 0 ==> cl[s] > 0
  {
    hide *;
    var heap, child, tally, blCount := new nat[859], new nat[859], new nat[859], new nat[16];
    var depth := new nat[859](_ => 0);
    var heapSize;
    ghost var symbols;
    heapSize, symbols := InitHeap(heap, histogram);
    SmallAlphabet(histogram, symbols, heapSize);
    ghost var _ := GenHuffCodeLens(heap, child, depth, tally, heapSize, blCount, lookup, 19, 7, symbols, 19, []);
    assert lookup[..19] == lookup[..];
    ghost var was := lookup[..];
    cl, count := LengthsOf(was), FullCounts(blCount[..], 7);
    GoodParts(cl, symbols, blCount[..], 7);
    GoodIsCanonical(cl, symbols, blCount[..], 7);
    HeapCovers(histogram, symbols);
    var _ := SetHuffCodes(lookup, 19, blCount[..], count, 7);
    assert lookup[..19] == lookup[..];
    LookupMade(was, lookup[..], cl, count);
  }

  lemma SmallAlphabet(histogram: seq<nat>, symbols: set<nat>, n: nat)
    requires |histogram| == 19 && n == |symbols| <= |histogram|
    ensures |symbols| <= Pow2(7)
  {
    Pow2Values();
  }

  lemma GoodParts(lens: seq<nat>, symbols: set<nat>, blCount: seq<nat>, max: nat)
    requires GoodLengths(lens, symbols, blCount, max)
    ensures Canonical.Lengths(lens, max) && forall s :: 0 <= s < |lens| ==> (lens[s] != 0 <==> s in symbols)
  {}

  lemma HeapCovers(hist: seq<nat>, symbols: set<nat>)
    requires HeapOf(hist, symbols)
    ensures forall s :: 0 <= s < |hist| && hist[s] != 0 ==> s in symbols
  {}

  lemma LookupMade(was: seq<HuffCode>, now: seq<HuffCode>, cl: seq<nat>, count: seq<nat>)
    requires |was| == 19 && cl == LengthsOf(was) && |count| == 16 && CountsMatch(cl, count) && Kraft(count) && Canonical.Lengths(cl, 7)
    requires LengthsOf(now) == cl && CodesSet(was, now, cl, count, false, 19)
    ensures Lookup(now, cl, count)
  {
    hide CountsMatch, Kraft, Word, BitsOf, Pow2;
    forall s | 0 <= s < 19
      ensures cl[s] < 8 && (cl[s] > 0 ==> now[s].code < Pow2(cl[s]) && BitsOf(now[s].code, cl[s]) == Word(cl, count, s))
    {
      assert CodeSet(was, now, cl, count, false, s);
    }
  }

  /** The number of code length codes to send, less 4. */
  method HcLen(lookup: array<HuffCode>, ghost cl: seq<nat>, ghost count: seq<nat>) returns (hclen: nat)
    requires Lookup(lookup[..], cl, count) && |cl| == 19
    ensures hclen < 16 && forall i: nat :: hclen + 4 <= i < 19 ==> cl[CodeLenOrder(i)] == 0
    ensures hclen > 0 ==> cl[CodeLenOrder(hclen + 3)] > 0
  {
    hide *;
    LookupLength(lookup[..], cl, count, 0);
    var i := 18;
    while i > 3
      invariant 3 <= i <= 18 && forall k: nat :: i < k < 19 ==> cl[CodeLenOrder(k)] == 0
    {
      LookupLength(lookup[..], cl, count, CodeLenOrder(i));
      if lookup[CodeLenOrder(i)].length != 0 { break; }
      i := i - 1;
    }
    hclen := i - 3;
  }

  /** Makes a code for the symbols of the run-length coded lengths, and writes the header with it. */
  method CreateHeader(bb: BitBuf2, rep: array<RL.RlCode>, n: nat, histogram: seq<nat>, hlit: nat, hdist: nat, endOfBlock: bool,
                      ghost lens: seq<nat>)
    returns (bitCount: nat, ghost hdr: seq<bool>)
    requires bb.Valid() && bb.bitCount < 8 && 8 * bb.outBuf + 7 * |lens| + 152 <= 8 * bb.out.Length
    requires n <= rep.Length && Tokens(rep[..n], histogram) && RL.ExpandAll([], rep[..n]) == RL.Lens(lens)
    requires hlit < 32 && hdist < 32 && |lens| == hlit + 257 + hdist + 1
    modifies bb`bits, bb`bitCount, bb`outBuf, bb.out
    ensures bb.Valid() && bb.Stream() == old(bb.Stream()) + hdr && bb.bitCount < 8 && bitCount == |hdr| <= 74 + 7 * |lens|
    ensures ParsesTo(hdr, endOfBlock, hlit, hdist, lens) && NoTrailing(hdr)
    ensures bb.outBuf >= old(bb.outBuf) && bb.out[..old(bb.outBuf)] == old(bb.out[..bb.outBuf])
    ensures 8 * bb.outBuf + bb.bitCount == old(8 * bb.outBuf + bb.bitCount) + |hdr| && bb.Settled()
  {
    hide *;
    TokensSize(rep[..n], histogram);
    var lookup := new HuffCode[19](_ => HuffCode(0, 0, 0));
    ghost var cl, count;
    cl, count := CodeLengthCode(histogram, lookup);
    var hclen := HcLen(lookup, cl, count);
    LookupShort(lookup[..], cl, count);
    TokensSendable(rep[..n], histogram, cl);
    TokensBitsShort(cl, count, rep[..n], []);
    bitCount, hdr := CreateHuffmanHeader(bb, lookup, rep, n, endOfBlock, hclen, hlit, hdist, cl, count);
    ghost var ts := rep[..n];
    forall rest: seq<bool> | true ensures ParseHeader(hdr + rest) == Block(endOfBlock, hlit, hdist, lens, rest) {
      HeaderParses(endOfBlock, hlit, hdist, hclen, cl, count, ts, lens, rest);
    }
    DoesParse(hdr, endOfBlock, hlit, hdist, lens);
    SendsNoMore(endOfBlock, hlit, hdist, hclen, cl, count, ts);
  }

  lemma DoesParse(hdr: seq<bool>, final: bool, hlit: nat, hdist: nat, lens: seq<nat>)
    requires forall rest: seq<bool> :: ParseHeader(hdr + rest) == Block(final, hlit, hdist, lens, rest)
    ensures ParsesTo(hdr, final, hlit, hdist, lens)
  {}

  lemma TokensSize(ts: seq<RL.RlCode>, histogram: seq<nat>)
    requires Tokens(ts, histogram)
    ensures |histogram| == 19
  {}

  lemma LookupShort(table: seq<HuffCode>, cl: seq<nat>, count: seq<nat>)
    requires Lookup(table, cl, count)
    ensures |cl| == 19 && forall s :: 0 <= s < 19 ==> cl[s] < 8
  {}

  lemma TokensSendable(ts: seq<RL.RlCode>, histogram: seq<nat>, cl: seq<nat>)
    requires Tokens(ts, histogram) && |cl| == 19 && |histogram| == 19 && (forall s :: 0 <= s < 19 ==> cl[s] < 8)
    requires forall s :: 0 <= s < 19 && histogram[s] != 0 ==> cl[s] > 0
    ensures Sendable(cl, ts)
  {}

  /** Codes the lengths of the literal/length and distance codes, and writes the header that gives them. */
  method DynamicHeader(bb: BitBuf2, lens: seq<nat>, hlit: nat, hdist: nat, endOfBlock: bool) returns (bitCount: nat, ghost hdr: seq<bool>)
    requires bb.Valid() && bb.bitCount < 8 && 8 * bb.outBuf + 7 * |lens| + 152 <= 8 * bb.out.Length
    requires hlit < 30 && hdist < 30 && |lens| == hlit + 257 + hdist + 1 && forall i :: 0 <= i < |lens| ==> lens[i] < 16
    modifies bb`bits, bb`bitCount, bb`outBuf, bb.out
    ensures bb.Valid() && bb.Stream() == old(bb.Stream()) + hdr && bb.bitCount < 8 && bitCount == |hdr| <= 74 + 7 * |lens|
    ensures ParsesTo(hdr, endOfBlock, hlit, hdist, lens) && NoTrailing(hdr)
    ensures bb.outBuf >= old(bb.outBuf) && bb.out[..old(bb.outBuf)] == old(bb.out[..bb.outBuf])
    ensures 8 * bb.outBuf + bb.bitCount == old(8 * bb.outBuf + bb.bitCount) + |hdr| && bb.Settled()
  {
    hide *;
    var counts := new nat[19](_ => 0);
    var tokens := new RL.RlCode[316](_ => RL.RlCode(0, 0));
    var n := RL.RlEncode(lens, counts, tokens);
    AreTokens(tokens[..n], counts[..], lens);
    bitCount, hdr := CreateHeader(bb, tokens, n, counts[..], hlit, hdist, endOfBlock, lens);
  }

  lemma AreTokens(ts: seq<RL.RlCode>, counts: seq<nat>, lens: seq<nat>)
    requires |counts| == 19 && (forall c :: 0 <= c < 19 ==> counts[c] == 0 + RL.Uses(ts, c)) && RL.ExpandAll([], ts) == RL.Lens(lens)
    requires forall i :: 0 <= i < |lens| ==> lens[i] < 16
    ensures Tokens(ts, counts)
  {
    forall i | 0 <= i < |ts| ensures ts[i].code < 19 && counts[ts[i].code] > 0 && ts[i].extraBits < Pow2(ExtraLen(ts[i].code)) {
      ExpandsWell([], ts, i);
      RL.UsesPositive(ts, i);
    }
  }

  lemma {:induction false} ExpandsWell(out: seq<nat>, ts: seq<RL.RlCode>, i: nat)
    requires RL.ExpandAll(out, ts).Lens? && i < |ts|
    ensures ts[i].code < 19 && ts[i].extraBits < Pow2(ExtraLen(ts[i].code))
    decreases |ts|
  {
    Pow2Values();
    if i > 0 {
      ExpandStep(out, ts);
      ExpandsWell(RL.ExpandOne(out, ts[0]).lens, ts[1..], i - 1);
    }
  }
}
