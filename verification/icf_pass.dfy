/** One block of the compression levels with an intermediate format, from the input to the bits, and back. */
module IcfPass {
  import opened Bits
  import opened BitStream
  import opened LZ77
  import opened Icf
  import opened Canonical
  import opened HuffTree
  import opened IcfEncode
  import opened IcfCost
  import opened IcfTables
  import opened Inflate
  import HeaderWrite
  import IcfHash
  import IcfMap

  /** What the match finder has consumed since the block began. */
  ghost predicate Collected(data: seq<Byte>, p0: nat, p: nat, rs: seq<Record>, ll: seq<nat>, d: seq<nat>) {
    p0 <= p <= |data| && Produces(data[..p0], rs, data[..p]) && Counted(ll, d, Zeros(513), Zeros(30), rs)
  }

  lemma FoundCollected(data: seq<Byte>, distMask: nat, p0: nat, p: nat, rs: seq<Record>, ll: seq<nat>, d: seq<nat>)
    requires IcfHash.Found(data, distMask, p0, p, rs, Zeros(513), Zeros(30), ll, d)
    ensures Collected(data, p0, p, rs, ll, d)
  {
    hide Produces, Counted;
  }

  /** Further work on the same block, at any level and by any of its match finders. */
  lemma CollectedMore(data: seq<Byte>, window: nat, p0: nat, p1: nat, p2: nat, rs: seq<Record>, ss: seq<Record>,
                      ll1: seq<nat>, d1: seq<nat>, ll: seq<nat>, d: seq<nat>)
    requires Collected(data, p0, p1, rs, ll1, d1) && IcfHash.Found(data, window, p1, p2, ss, ll1, d1, ll, d)
    ensures Collected(data, p0, p2, rs + ss, ll, d)
  {
    hide Produces, Counted;
    ProducesConcat(data[..p0], rs, data[..p1], ss, data[..p2]);
    CountedConcat(ll, d, ll1, d1, Zeros(513), Zeros(30), rs, ss);
  }

  /** Finds the matches of a block: by the search of the body up to position q, with the first k records and table t, and from
      there by that of the finish. */
  method CollectBlock(s: IcfHash.Stream) returns (ghost q: nat, ghost k: nat, ghost t: seq<nat>)
    requires s.Valid() && s.icfNext == 0 && s.llHist[..] == Zeros(513) && s.dHist[..] == Zeros(30)
    requires s.icfNext + s.icfBufAvailOut / 4 < s.icfBuf.Length && s.state == IcfHash.Body
    modifies s, s.table, s.icfBuf, s.llHist, s.dHist
    ensures s.Valid() && s.icfNext < s.icfBuf.Length && s.nextIn + s.availIn == old(s.nextIn + s.availIn)
    ensures Collected(s.data, old(s.nextIn), s.nextIn, s.icfBuf[..s.icfNext], s.llHist[..], s.dHist[..])
    ensures s.state == IcfHash.CreateHdr || (s.state == IcfHash.Body && s.availIn <= 288 && !s.endOfStream && !s.flush)
    ensures k <= s.icfNext && IcfHash.Searched(s.Sought(old(s.nextIn + s.availIn), 2), old(s.table[..]), old(s.nextIn), t, q, s.icfBuf[..k])
    ensures IcfHash.Searched(s.Sought(old(s.nextIn + s.availIn), 0), t, q, s.table[..], s.nextIn, s.icfBuf[k..s.icfNext])
  {
    hide IcfHash.Found, IcfHash.Searched, IcfHash.Reach, Zeros, Counted, Produces, Collected;
    ghost var p0, ll0, d0 := s.nextIn, s.llHist[..], s.dHist[..];
    assert s.icfBuf[..0] == [];
    s.IcfBodyHashHist();
    ghost var p1, n1, ll1, d1 := s.nextIn, s.icfNext, s.llHist[..], s.dHist[..];
    assert s.icfBuf[0..n1] == s.icfBuf[..n1];
    q, k, t := p1, n1, s.table[..];
    assert s.icfBuf[n1..n1] == [];
    IcfHash.SearchedNothing(s.Sought(p1 + s.availIn, 0), t, q);
    if s.state == IcfHash.FlushReadBuffer {
      ghost var buf1 := s.icfBuf[..n1];
      s.IcfFinish();
      IcfHash.FoundConcat(s.data, s.distMask, p0, p1, s.nextIn, buf1, s.icfBuf[n1..s.icfNext], ll0, d0, ll1, d1, s.llHist[..], s.dHist[..]);
      assert buf1 + s.icfBuf[n1..s.icfNext] == s.icfBuf[..s.icfNext];
    }
    FoundCollected(s.data, s.distMask, p0, s.nextIn, s.icfBuf[..s.icfNext], s.llHist[..], s.dHist[..]);
  }

  lemma FoundFrom(data: seq<Byte>, window: nat, p0: nat, p: nat, rs: seq<Record>, ll0: seq<nat>, d0: seq<nat>, ll: seq<nat>, d: seq<nat>)
    requires IcfHash.Found(data, window, p0, p, rs, ll0, d0, ll, d) && ll0 == Zeros(513) && d0 == Zeros(30)
    ensures Collected(data, p0, p, rs, ll, d)
  {
    hide Produces, Counted;
  }

  /** Finds the matches of a block of the third level: through the map, and the rest of a flushed input by the greedy finder,
      with another hash, on the same table and buffers. */
  method CollectMap(s: IcfMap.Stream, hash: nat -> nat) returns (ghost p: nat)
    requires s.Valid() && s.icfNext == 0 && s.llHist[..] == Zeros(513) && s.dHist[..] == Zeros(30) && forall w :: hash(w) < s.table.Length
    modifies s, s.table, s.matches, s.icfBuf, s.llHist, s.dHist
    ensures s.icfNext <= s.icfBuf.Length && s.nextIn + s.availIn == old(s.nextIn + s.availIn)
    ensures Collected(s.data, old(s.Cursor()), p, s.icfBuf[..s.icfNext], s.llHist[..], s.dHist[..])
    ensures s.matchesNext >= s.matchesEnd ==> p == s.nextIn
    ensures s.matchesNext >= s.matchesEnd && old(s.state) != IcfHash.FlushReadBuffer && (s.endOfStream || s.flush) ==> s.state == IcfHash.CreateHdr
  {
    hide IcfHash.Found, IcfMap.Taken, IcfMap.Chained, IcfHash.Reach, IcfMap.Ready, IcfMap.MapOk, Zeros, Counted, Produces, Collected;
    ghost var p0, ll0, d0 := s.Cursor(), s.llHist[..], s.dHist[..];
    assert s.icfBuf[..0] == [];
    ghost var rs0, i0, cs := s.IcfBodyHash1FillgreedyLazy();
    ghost var p1, n1, ll1, d1 := s.Cursor(), s.icfNext, s.llHist[..], s.dHist[..];
    assert s.icfBuf[0..n1] == s.icfBuf[..n1];
    FoundFrom(s.data, s.distMask + 1, p0, p1, s.icfBuf[..n1], ll0, d0, ll1, d1);
    p := p1;
    if s.state == IcfHash.FlushReadBuffer && s.matchesNext >= s.matchesEnd {
      FinishMap(s, hash, p0);
      p := s.nextIn;
    }
  }

  /** The same stream as the greedy finder sees it. */
  method GreedyView(s: IcfMap.Stream, hash: nat -> nat) returns (f: IcfHash.Stream)
    requires s.Valid() && forall w :: hash(w) < s.table.Length
    ensures fresh(f) && f.Valid() && f.data == s.data && f.distMask == s.distMask && f.endOfStream == s.endOfStream && f.flush == s.flush
    ensures f.nextIn == s.nextIn && f.availIn == s.availIn && f.icfNext == s.icfNext <= s.icfBuf.Length && f.state == s.state
    ensures f.table == s.table && f.icfBuf == s.icfBuf && f.llHist == s.llHist && f.dHist == s.dHist
  {
    hide IcfHash.Reach, IcfMap.Ready, IcfMap.MapOk;
    IcfMap.ReadyReach(s.table[..], s.fileStart, s.lo, s.distMask + 1, s.nextIn, s.hasHist);
    f := new IcfHash.Stream(s.data, hash, s.fileStart, s.lo, s.distMask, s.endOfStream, s.flush, s.nextIn, s.availIn, s.totalIn, s.hasHist,
                            s.state, s.table, s.icfBuf, s.icfNext, s.icfBufAvailOut, s.llHist, s.dHist);
  }

  /** Finishes a flushed input behind the map. */
  method FinishMap(s: IcfMap.Stream, hash: nat -> nat, ghost p0: nat)
    requires s.Valid() && forall w :: hash(w) < s.table.Length
    requires Collected(s.data, p0, s.nextIn, s.icfBuf[..s.icfNext], s.llHist[..], s.dHist[..])
    modifies s, s.table, s.icfBuf, s.llHist, s.dHist
    ensures s.icfNext <= s.icfBuf.Length && s.nextIn + s.availIn == old(s.nextIn + s.availIn)
    ensures Collected(s.data, p0, s.nextIn, s.icfBuf[..s.icfNext], s.llHist[..], s.dHist[..])
    ensures s.matchesNext == old(s.matchesNext) && s.matchesEnd == old(s.matchesEnd)
    ensures s.availIn > 0 || s.endOfStream || s.flush ==> s.state == IcfHash.CreateHdr
  {
    hide IcfHash.Found, IcfHash.Searched, IcfHash.Stream.Sought, IcfHash.Stream.Valid, IcfMap.Stream.Valid, Zeros, Counted, Produces, Collected;
    var f := GreedyView(s, hash);
    ghost var p1, n1, buf1, ll1, d1 := s.nextIn, s.icfNext, s.icfBuf[..s.icfNext], s.llHist[..], s.dHist[..];
    f.IcfFinish();
    CollectedMore(s.data, s.distMask, p0, p1, f.nextIn, buf1, s.icfBuf[n1..f.icfNext], ll1, d1, s.llHist[..], s.dHist[..]);
    assert buf1 + s.icfBuf[n1..f.icfNext] == s.icfBuf[..f.icfNext];
    s.nextIn, s.availIn, s.totalIn, s.blockEnd, s.hasHist := f.nextIn, f.availIn, f.totalIn, f.blockEnd, f.hasHist;
    s.state, s.icfNext, s.icfBufAvailOut := f.state, f.icfNext, f.icfBufAvailOut;
  }

  /** Closes the block: makes the codes from the counts, writes the header and encodes the records, in the buffer at hand and
      in a series of further ones of any sizes. Once all records are out, what was written reads as the input that the
      records stand for, wherever it was suspended, in the header or behind it. The block stays open only when all room is
      used up, and is closed when there is room enough. `left` is what a suspended header has still to write. */
  method WriteBlock(data: seq<Byte>, ghost p0: nat, ghost p: nat, icfBuf: array<Record>, n: nat, llHist: array<nat>, dHist: array<nat>, final: bool,
                    bb: BitBuf2, ll: array<HuffCode>, d: array<HuffCode>, fixedLl: seq<HuffCode>, fixedD: seq<HuffCode>, sizes: seq<nat>)
    returns (closed: bool, ghost bits: seq<bool>, ghost left: seq<bool>)
    requires n < icfBuf.Length && llHist != dHist && llHist.Length == 513 && dHist.Length == 30
    requires Collected(data, p0, p, icfBuf[..n], llHist[..], dHist[..])
    requires ll != d && ll.Length == 513 && d.Length == 31 && FixedTables(FixedCodes(), fixedLl, fixedD)
    requires bb.Valid() && bb.bitCount < 8 && bb.outBuf <= bb.outEnd + 8
    modifies icfBuf, llHist, bb, bb.out, ll, d
    ensures bb.Valid() && bb.bitCount < 8 && bb.Stream() + left == old(bb.Stream()) + bits
    ensures p0 <= p <= |data| && (closed ==> left == [] && bb.outBuf <= bb.outEnd + 8 && forall r: nat :: Reads(r, bits, data[..p0], data[..p], final))
    ensures !closed ==> bb.Out() >= old(bb.Out()) + 8 * Room(sizes)
    ensures Room(sizes) >= 6 * n + 293 ==> closed
    ensures closed ==> AtMostFixed(bits, old(icfBuf[..n]) + [EOB])
  {
    hide *;
    ghost var rs := icfBuf[..n];
    CollectedParts(data, p0, p, rs, llHist[..], dHist[..]);
    CountsOfBlock(rs, llHist[..], dHist[..]);
    bb.OutIs();
    llHist[256] := 1;
    icfBuf[n] := EOB;
    assert icfBuf[0..n + 1] == rs + [EOB];
    var i, done;
    ghost var c, hdr, dynamic, hlit, hdist;
    i, done, left, c, hdr, dynamic, hlit, hdist := WriteHeader(bb, ll, d, llHist, dHist, final, fixedLl, fixedD, rs + [EOB], sizes);
    bb.OutIs();
    bits := hdr;
    closed := false;
    if done {
      ghost var stream1 := bb.Stream();
      var next := EncodeAll(icfBuf, n + 1, bb, ll, d, sizes[i..], c);
      bb.OutIs();
      RoomSplit(sizes, i);
      RecordsBound(c, ll[..], d[..], icfBuf[0..next]);
      bits := hdr + RecordsBits(c, icfBuf[0..next]);
      AllOut(old(bb.Stream()), stream1, bb.Stream(), hdr, RecordsBits(c, icfBuf[0..next]), left);
      closed := next == n + 1;
    }
    if closed {
      IsAtMostFixed(c, hdr, rs + [EOB]);
      forall r: nat ensures Reads(r, bits, data[..p0], data[..p], final) {
        if dynamic { DynamicReads(r, c, hdr, final, hlit, hdist, rs, data[..p0], data[..p]); } else { FixedReads(r, final, rs, data[..p0], data[..p]); }
      }
    }
  }

  /** A header and the records behind it take no more bits than with fixed codes. */
  ghost predicate NoLonger(c: Codes, hdr: seq<bool>, rs: seq<Record>) {
    c.Valid() && AllEncodable(c, rs) && FixedCodes().Valid() && AllEncodable(FixedCodes(), rs)
    && |hdr| + |RecordsBits(c, rs)| <= 3 + |RecordsBits(FixedCodes(), rs)|
  }

  /** The bits are no more than a block with fixed codes would take for the records. */
  ghost predicate AtMostFixed(bits: seq<bool>, rs: seq<Record>) {
    FixedCodes().Valid() && AllEncodable(FixedCodes(), rs) && |bits| <= 3 + |RecordsBits(FixedCodes(), rs)|
  }

  lemma IsAtMostFixed(c: Codes, hdr: seq<bool>, rs: seq<Record>)
    requires NoLonger(c, hdr, rs)
    ensures c.Valid() && AllEncodable(c, rs) && AtMostFixed(hdr + RecordsBits(c, rs), rs)
  {
    hide FixedCodes, RecordsBits, AllEncodable, Codes.Valid;
  }

  lemma IsNoLonger(c: Codes, hdr: seq<bool>, rs: seq<Record>)
    requires c.Valid() && AllEncodable(c, rs) && FixedCodes().Valid() && AllEncodable(FixedCodes(), rs)
    requires |hdr| + |RecordsBits(c, rs)| <= 3 + |RecordsBits(FixedCodes(), rs)|
    ensures NoLonger(c, hdr, rs)
  {
    hide FixedCodes, RecordsBits, AllEncodable, Codes.Valid;
  }

  lemma AllOut(s0: seq<bool>, s1: seq<bool>, s2: seq<bool>, hdr: seq<bool>, records: seq<bool>, left: seq<bool>)
    requires left == [] && s1 + left == s0 + hdr && s2 == s1 + records
    ensures s2 + left == s0 + (hdr + records)
  {
    assert s2 + left == s2 && s1 + left == s1;
  }

  /** Makes the codes and writes the header: in place when the buffer at hand has room for the longest one, or else made in a
      buffer of its own and written from there, into as many further buffers as it takes. */
  method WriteHeader(bb: BitBuf2, ll: array<HuffCode>, d: array<HuffCode>, llHist: array<nat>, dHist: array<nat>, final: bool,
                     fixedLl: seq<HuffCode>, fixedD: seq<HuffCode>, ghost rs: seq<Record>, sizes: seq<nat>)
    returns (i: nat, done: bool, ghost left: seq<bool>, ghost c: Codes, ghost hdr: seq<bool>, ghost dynamic: bool, ghost hlit: nat, ghost hdist: nat)
    requires ll != d && ll.Length == 513 && d.Length == 31 && llHist != dHist && llHist.Length == 513 && dHist.Length == 30
    requires FixedTables(FixedCodes(), fixedLl, fixedD) && BlockRecords(rs) && llHist[..] == LLHist(rs) && dHist[..] == DHist(rs)
    requires bb.Valid() && bb.bitCount < 8 && bb.outBuf <= bb.outEnd + 8
    modifies bb, bb.out, ll, d, llHist
    ensures bb.Valid() && bb.bitCount < 8 && bb.Stream() + left == old(bb.Stream()) + hdr && |hdr| <= 2286 && (bb.out == old(bb.out) || fresh(bb.out))
    ensures c.Valid() && Tables(c, ll[..], d[..]) && AllEncodable(c, rs)
    ensures if dynamic then DynamicBlock(c, hdr, final, hlit, hdist) else c == FixedCodes() && hdr == BitsOf(if final then 3 else 2, 3)
    ensures LLCount(rs, 256) > 0 ==> NoLonger(c, hdr, rs)
    ensures i <= |sizes| && (!done ==> bb.Out() >= old(bb.Out()) + 8 * Room(sizes))
    ensures done ==> left == [] && bb.outBuf <= bb.outEnd + 8
    ensures done ==> bb.Out() + 8 * (bb.outEnd + 1 - bb.outBuf) >= old(bb.Out()) + 8 * Room(sizes[..i])
  {
    hide *;
    bb.OutIs();
    BufferWas(bb);
    if bb.outEnd + 8 - bb.outBuf >= 328 {
      var size;
      ghost var own, made;
      size, c, hdr, dynamic, hlit, hdist, own, made := CreateHufftablesIcf(bb, ll, d, llHist, dHist, final, fixedLl, fixedD, FixedCodes(), rs);
      if LLCount(rs, 256) > 0 { IsNoLonger(c, hdr, rs); }
      bb.OutIs();
      NoRoom(sizes);
      i, done, left := 0, true, [];
    } else {
      var w;
      w, c, hdr, dynamic, hlit, hdist := BufferHeader(bb, ll, d, llHist, dHist, final, fixedLl, fixedD, rs);
      i := w.WriteInPieces(sizes);
      w.Parts();
      w.LeftIs();
      done, left := w.done, w.Left();
    }
  }

  /** Makes the header in a buffer of its own, and sets up its writing. Bits left over from before go into it. */
  method BufferHeader(bb: BitBuf2, ll: array<HuffCode>, d: array<HuffCode>, llHist: array<nat>, dHist: array<nat>, final: bool,
                      fixedLl: seq<HuffCode>, fixedD: seq<HuffCode>, ghost rs: seq<Record>)
    returns (w: HeaderWrite.HeaderWriter, ghost c: Codes, ghost hdr: seq<bool>, ghost dynamic: bool, ghost hlit: nat, ghost hdist: nat)
    requires ll != d && ll.Length == 513 && d.Length == 31 && llHist != dHist && llHist.Length == 513 && dHist.Length == 30
    requires FixedTables(FixedCodes(), fixedLl, fixedD) && BlockRecords(rs) && llHist[..] == LLHist(rs) && dHist[..] == DHist(rs)
    requires bb.Valid() && bb.bitCount < 8 && bb.outBuf <= bb.outEnd + 8
    modifies bb, ll, d, llHist
    ensures fresh(w) && w.Valid() && !w.done && w.bb == bb && w.out == bb.out == old(bb.out) && bb.Valid() && bb.bitCount < 8
    ensures bb.Stream() + w.Left() == old(bb.Stream()) + hdr && |hdr| <= 2286 && bb.Out() == old(bb.Out())
    ensures c.Valid() && Tables(c, ll[..], d[..]) && AllEncodable(c, rs)
    ensures if dynamic then DynamicBlock(c, hdr, final, hlit, hdist) else c == FixedCodes() && hdr == BitsOf(if final then 3 else 2, 3)
    ensures LLCount(rs, 256) > 0 ==> NoLonger(c, hdr, rs)
  {
    hide *;
    bb.OutIs();
    BufferWas(bb);
    var out, outStart, outBuf, outEnd := bb.out, bb.outStart, bb.outBuf, bb.outEnd;
    ghost var sent, written, pending := bb.sent, ByteBits(bb.out[bb.outStart..bb.outBuf]), BitsOf(bb.bits, bb.bitCount);
    var own, count, extra;
    own, count, extra, c, hdr, dynamic, hlit, hdist := MakeHeader(bb, ll, d, llHist, dHist, final, fixedLl, fixedD, rs);
    Restore(bb, out, outStart, outBuf, outEnd, sent);
    w := new HeaderWrite.HeaderWriter(bb, own, count, extra, false, final, out, outBuf, outEnd + 8 - outBuf);
    w.NotToggled();
    Regrouped(sent + written, pending, hdr, w.Left());
    bb.OutIs();
  }

  lemma Regrouped(s: seq<bool>, pending: seq<bool>, hdr: seq<bool>, left: seq<bool>)
    requires left == pending + hdr
    ensures s + left == s + pending + hdr
  {}

  /** Back to where the output was, without the bits left over. */
  method Restore(bb: BitBuf2, out: array<Byte>, outStart: nat, outBuf: nat, outEnd: int, ghost sent: seq<bool>)
    requires outStart <= outBuf <= out.Length && outEnd + 8 <= out.Length
    modifies bb
    ensures bb.Valid() && bb.Stream() == sent + ByteBits(out[outStart..outBuf]) && bb.bitCount == 0
    ensures bb.out == out && bb.outBuf == outBuf && bb.outEnd == outEnd && bb.sent == sent && bb.outStart == outStart
  {
    hide ByteBits;
    bb.out, bb.outStart, bb.outBuf, bb.outEnd, bb.bits, bb.bitCount := out, outStart, outBuf, outEnd, 0, 0;
    bb.sent := sent;
  }

  /** The bytes of the header, the number of whole ones, and of bits behind them. */
  method MakeHeader(bb: BitBuf2, ll: array<HuffCode>, d: array<HuffCode>, llHist: array<nat>, dHist: array<nat>, final: bool,
                    fixedLl: seq<HuffCode>, fixedD: seq<HuffCode>, ghost rs: seq<Record>)
    returns (own: seq<Byte>, count: nat, extra: nat, ghost c: Codes, ghost hdr: seq<bool>, ghost dynamic: bool, ghost hlit: nat, ghost hdist: nat)
    requires ll != d && ll.Length == 513 && d.Length == 31 && llHist != dHist && llHist.Length == 513 && dHist.Length == 30
    requires FixedTables(FixedCodes(), fixedLl, fixedD) && BlockRecords(rs) && llHist[..] == LLHist(rs) && dHist[..] == DHist(rs)
    requires bb.Valid() && bb.bitCount < 8
    modifies bb, ll, d, llHist
    ensures count < |own| && extra < 8 && own[count] < Pow2(extra) && |hdr| <= 2286
    ensures ByteBits(own[..count]) + BitsOf(own[count], extra) == old(BitsOf(bb.bits, bb.bitCount)) + hdr
    ensures c.Valid() && Tables(c, ll[..], d[..]) && AllEncodable(c, rs)
    ensures if dynamic then DynamicBlock(c, hdr, final, hlit, hdist) else c == FixedCodes() && hdr == BitsOf(if final then 3 else 2, 3)
    ensures LLCount(rs, 256) > 0 ==> NoLonger(c, hdr, rs)
  {
    hide *;
    ghost var pending := BitsOf(bb.bits, bb.bitCount);
    var buf := new Byte[328](_ => 0);
    bb.SetBuf(buf, 0, 328);
    bb.AtStart();
    ghost var sent := bb.sent;
    var size;
    ghost var codes, made;
    size, c, hdr, dynamic, hlit, hdist, codes, made := CreateHufftablesIcf(bb, ll, d, llHist, dHist, final, fixedLl, fixedD, FixedCodes(), rs);
    if LLCount(rs, 256) > 0 { IsNoLonger(c, hdr, rs); }
    bb.SettledAt();
    BufferBits(bb, sent, pending, hdr);
    count, extra := bb.outBuf, bb.bitCount;
    ghost var last, header := bb.bits, buf[..bb.outBuf];
    bb.Flush();
    own := buf[..];
    assert own[..count] == header;
  }

  /** What the buffer holds in front of the sent bits. */
  lemma BufferBits(bb: BitBuf2, sent: seq<bool>, pending: seq<bool>, hdr: seq<bool>)
    requires bb.Valid() && bb.bitCount < 8 && bb.sent == sent && bb.outStart == 0 && |pending| < 8 && |hdr| <= 2286
    requires bb.Stream() == sent + pending + hdr
    ensures bb.outBuf <= 286 && bb.bits < Pow2(bb.bitCount) && ByteBits(bb.out[..bb.outBuf]) + BitsOf(bb.bits, bb.bitCount) == pending + hdr
  {
    hide BitsOf, ByteBits, Pow2;
    var a, b := ByteBits(bb.out[..bb.outBuf]), BitsOf(bb.bits, bb.bitCount);
    assert bb.out[0..bb.outBuf] == bb.out[..bb.outBuf];
    Cancel(sent, a, b, pending, hdr);
  }

  lemma Cancel(s: seq<bool>, a: seq<bool>, b: seq<bool>, x: seq<bool>, y: seq<bool>)
    requires s + a + b == s + x + y
    ensures a + b == x + y && |a| + |b| == |x| + |y|
  {
    assert (s + a + b)[|s|..] == a + b && (s + x + y)[|s|..] == x + y;
  }

  /** Encodes the records in the buffer at hand and in further ones, as far as the room goes. */
  method EncodeAll(icf: array<Record>, end: nat, bb: BitBuf2, ll: array<HuffCode>, d: array<HuffCode>, sizes: seq<nat>, ghost c: Codes)
    returns (next: nat)
    requires end <= icf.Length && bb.Valid() && bb.bitCount < 8 && c.Valid() && Tables(c, ll[..], d[..]) && ll.Length == 513 && d.Length == 31
    requires AllEncodable(c, icf[0..end])
    modifies bb, bb.out
    ensures next <= end && AllEncodable(c, icf[0..next]) && bb.Valid() && bb.bitCount < 8
    ensures old(bb.outBuf <= bb.outEnd + 8) ==> bb.outBuf <= bb.outEnd + 8
    ensures bb.Stream() == old(bb.Stream()) + RecordsBits(c, icf[0..next])
    ensures next < end ==> bb.Out() >= old(bb.Out()) + 8 * Room(sizes)
    ensures next < end ==> bb.Out() >= old(bb.Out() + 8 * (bb.outEnd + 1 - bb.outBuf)) + 8 * Room(sizes)
  {
    hide *;
    bb.OutIs();
    ghost var stream0 := bb.Stream();
    var at := EncodeDeflateIcf(icf, 0, end, bb, ll, d, c);
    bb.OutIs();
    FullMeans(bb);
    EncodableRest(c, icf[0..end], at);
    assert icf[0..end][at..] == icf[at..end];
    next := EncodeInPieces(icf, at, end, bb, ll, d, sizes, c);
    assert icf[0..next] == icf[0..at] + icf[at..next];
    EncodedOn(c, icf[0..next], icf[0..at], icf[at..next], stream0);
  }

  // -- behind a full flush

  /** Resets the match history and finds the matches of a block at the first two levels: they stay in the new input. */
  method CollectFlushed(data: seq<Byte>, hash: nat -> nat, fileStart: int, distMask: nat, endOfStream: bool, flush: bool, p: nat, availIn: nat,
                        totalIn: nat, table: array<nat>, icfBuf: array<Record>, icfBufAvailOut: nat, llHist: array<nat>, dHist: array<nat>)
    returns (s: IcfHash.Stream)
    requires distMask < 32768 && (forall w :: hash(w) < table.Length) && table != llHist && table != dHist && llHist != dHist
    requires p + availIn <= |data| && totalIn == (p - fileStart) % 0x1_0000_0000 && icfBufAvailOut / 4 < icfBuf.Length
    requires llHist.Length == 513 && dHist.Length == 30 && llHist[..] == Zeros(513) && dHist[..] == Zeros(30)
    modifies table, icfBuf, llHist, dHist
    ensures s.icfNext < icfBuf.Length && s.nextIn + s.availIn == availIn
    ensures Collected(data[p..], 0, s.nextIn, icfBuf[..s.icfNext], llHist[..], dHist[..])
    ensures s.state == IcfHash.CreateHdr || (s.state == IcfHash.Body && s.availIn <= 288 && !endOfStream && !flush)
  {
    hide *;
    IcfHash.ResetMatchHistory(table, totalIn, fileStart - p, 0);
    IcfHash.TableReach(table[..], fileStart - p, 0, distMask, 0);
    s := new IcfHash.Stream(data[p..], hash, fileStart - p, 0, distMask, endOfStream, flush, 0, availIn, totalIn, false, IcfHash.Body,
                            table, icfBuf, 0, icfBufAvailOut, llHist, dHist);
    s.Starts();
    ghost var q, k, t := CollectBlock(s);
  }

  /** A whole block behind a full flush: it is read as its input from an empty history, whatever came before. */
  method FlushedBlock(data: seq<Byte>, hash: nat -> nat, fileStart: int, distMask: nat, endOfStream: bool, flush: bool, p: nat, availIn: nat,
                      totalIn: nat, table: array<nat>, icfBuf: array<Record>, icfBufAvailOut: nat, llHist: array<nat>, dHist: array<nat>, final: bool,
                      bb: BitBuf2, ll: array<HuffCode>, d: array<HuffCode>, fixedLl: seq<HuffCode>, fixedD: seq<HuffCode>, sizes: seq<nat>)
    returns (closed: bool, used: nat, ghost bits: seq<bool>, ghost left: seq<bool>)
    requires distMask < 32768 && (forall w :: hash(w) < table.Length) && table != llHist && table != dHist && llHist != dHist
    requires p + availIn <= |data| && totalIn == (p - fileStart) % 0x1_0000_0000 && icfBufAvailOut / 4 < icfBuf.Length
    requires llHist.Length == 513 && dHist.Length == 30 && llHist[..] == Zeros(513) && dHist[..] == Zeros(30)
    requires ll != d && ll.Length == 513 && d.Length == 31 && FixedTables(FixedCodes(), fixedLl, fixedD)
    requires bb.Valid() && bb.bitCount < 8 && bb.outBuf <= bb.outEnd + 8
    modifies table, icfBuf, llHist, dHist, bb, bb.out, ll, d
    ensures bb.Valid() && bb.bitCount < 8 && bb.Stream() + left == old(bb.Stream()) + bits && used <= availIn
    ensures closed ==> left == [] && Alone(bits, data[p..p + used], final)
    ensures Room(sizes) >= 6 * icfBuf.Length + 287 ==> closed
  {
    hide *;
    var s := CollectFlushed(data, hash, fileStart, distMask, endOfStream, flush, p, availIn, totalIn, table, icfBuf, icfBufAvailOut, llHist, dHist);
    used := s.nextIn;
    closed, bits, left := WriteBlock(data[p..], 0, used, icfBuf, s.icfNext, llHist, dHist, final, bb, ll, d, fixedLl, fixedD, sizes);
    assert data[p..][..0] == [] && data[p..][..used] == data[p..p + used];
    if closed { ReadsAlone(bits, data[p..][..0], data[p..][..used], final); }
  }

  /** The bits are read as the text from an empty history. */
  ghost predicate Alone(bits: seq<bool>, text: seq<Byte>, final: bool) {
    forall r: nat :: Reads(r, bits, [], text, final)
  }

  lemma ReadsAlone(bits: seq<bool>, hist: seq<Byte>, text: seq<Byte>, final: bool)
    requires hist == [] && forall r: nat :: Reads(r, bits, hist, text, final)
    ensures Alone(bits, text, final)
  {
    hide Reads;
  }

  /** The same reset in front of the third level's map. */
  method CollectMapFlushed(data: seq<Byte>, hash: nat -> nat, greedyHash: nat -> nat, fileStart: int, distMask: nat, endOfStream: bool, flush: bool,
                           p: nat, availIn: nat, totalIn: nat, table: array<nat>, matches: array<Record>, icfBuf: array<Record>,
                           icfBufAvailOut: nat, llHist: array<nat>, dHist: array<nat>)
    returns (s: IcfMap.Stream, ghost q: nat)
    requires 32768 % (distMask + 1) == 0 && distMask < 32768 && (forall w :: hash(w) < table.Length) && forall w :: greedyHash(w) < table.Length
    requires table != llHist && table != dHist && llHist != dHist && matches != icfBuf && matches.Length == 4096 + 288
    requires p + availIn <= |data| && totalIn == (p - fileStart) % 0x1_0000_0000 && icfBufAvailOut / 4 <= icfBuf.Length
    requires llHist.Length == 513 && dHist.Length == 30 && llHist[..] == Zeros(513) && dHist[..] == Zeros(30)
    modifies table, matches, icfBuf, llHist, dHist
    ensures s.icfNext <= icfBuf.Length && s.nextIn + s.availIn == availIn
    ensures Collected(data[p..], 0, q, icfBuf[..s.icfNext], llHist[..], dHist[..]) && (s.matchesNext >= s.matchesEnd ==> q == s.nextIn)
  {
    hide *;
    IcfHash.ResetMatchHistory(table, totalIn, fileStart - p, 0);
    IcfMap.ResetReady(table[..], fileStart - p, distMask + 1, 0);
    s := new IcfMap.Stream(data[p..], hash, fileStart - p, 0, distMask, endOfStream, flush, 0, availIn, totalIn, false, IcfHash.Body,
                           table, matches, icfBuf, 0, icfBufAvailOut, llHist, dHist);
    s.Starts();
    q := CollectMap(s, greedyHash);
  }

  lemma CollectedParts(data: seq<Byte>, p0: nat, p: nat, rs: seq<Record>, ll: seq<nat>, d: seq<nat>)
    requires Collected(data, p0, p, rs, ll, d)
    ensures p0 <= p <= |data| && Produces(data[..p0], rs, data[..p]) && AllValid(rs) && Counted(ll, d, Zeros(513), Zeros(30), rs)
  {
    hide Counted, Expand;
  }
}
