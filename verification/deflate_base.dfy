/** Level 0: the greedy search writes code words straight into the output, with the tables of a static code. */
module DeflateBase {
  import opened Bits
  import opened BitStream
  import opened LZ77
  import opened Icf
  import opened IcfHash
  import opened Canonical
  import opened IcfEncode
  import opened CreateHufftables
  import IcfTables
  import opened Header
  import HeaderWrite
  import opened Inflate

  /** With a complete code, every record can be encoded; literals and matches are written as the tables give them. */
  lemma AllCanBeEncoded(c: Codes, r: Record)
    requires c.Valid() && Complete(c) && (r.IsLiteral() || r.IsMatch() || r == EOB)
    ensures Encodable(c, r)
    ensures r.litLen <= 256 ==> RecordBits(c, r) == Word(c.llens, c.lcount, r.litLen)
  {
    hide Word, DistExtraBits, LenSymbol;
  }

  lemma MatchBits(c: Codes, length: nat, dist: nat)
    requires c.Valid() && Complete(c) && 4 <= length <= 258 && 1 <= dist <= 32768
    ensures MatchRecord(length, dist).IsMatch() && Encodable(c, MatchRecord(length, dist))
    ensures RecordBits(c, MatchRecord(length, dist)) == LengthBits(c, length) + DistanceBits(c, dist)
  {
    hide Word, DistExtraBits, LenSymbol, LenValue, IndexExtra, DistIcfCode, BitsOf, DistStart, Pow2;
    DistRoundTrip(dist);
    AllCanBeEncoded(c, MatchRecord(length, dist));
  }

  lemma LengthSizes(c: Codes, length: nat, dist: nat)
    requires Complete(c) && 3 <= length <= 258 && 1 <= dist <= 32768
    ensures |LengthBits(c, length)| <= 20 && |DistanceBits(c, dist)| <= 28
  {
    hide Word, BitsOf, LenSymbol;
    FewExtraBits(length, dist);
  }

  lemma FewExtraBits(length: nat, dist: nat)
    requires 3 <= length <= 258 && 1 <= dist <= 32768
    ensures IndexExtra(length + 254) <= 5 && DistIcfCode(dist).code < 30 && DistExtraBits(DistIcfCode(dist).code) <= 13
  {
    DistRoundTrip(dist);
  }

  /** What has been written from position p0 up to p. */
  ghost predicate Coded(c: Codes, data: seq<Byte>, distMask: nat, p0: nat, p: nat, rs: seq<Record>, stream0: seq<bool>, stream: seq<bool>) {
    p0 <= p <= |data| && c.Valid() && AllEncodable(c, rs) && Produces(data[..p0], rs, data[..p]) && Near(rs, distMask)
    && stream == stream0 + RecordsBits(c, rs)
  }

  lemma CodedNothing(c: Codes, data: seq<Byte>, distMask: nat, p: nat, stream: seq<bool>)
    requires c.Valid() && p <= |data|
    ensures Coded(c, data, distMask, p, p, [], stream, stream)
  {}

  lemma CodedMore(c: Codes, data: seq<Byte>, lo: nat, distMask: nat, p0: nat, p: nat, rs: seq<Record>, stream0: seq<bool>, stream: seq<bool>,
                  limit: nat, r: Record, p': nat)
    requires Coded(c, data, distMask, p0, p, rs, stream0, stream) && Chosen(data, lo, distMask, p, limit, r, p') && c.Valid() && Encodable(c, r)
    ensures Coded(c, data, distMask, p0, p', rs + [r], stream0, stream + RecordBits(c, r))
  {
    hide Produces, Near, Record.Valid, Record.Tokens, Expand, RecordBits, RecordsBits, Encodable, Codes.Valid;
    ChosenExpands(data, lo, distMask, p, limit, r, p');
    ProducesMore(data[..p0], rs, data[..p], r, data[..p']);
    NearMore(rs, r, distMask);
    RecordsBitsOne(c, r);
    RecordsBitsConcat(c, rs, [r]);
    assert stream0 + RecordsBits(c, rs) + RecordBits(c, r) == stream0 + (RecordsBits(c, rs) + RecordBits(c, r));
  }

  /** The stream with its output and its bit buffer. */
  class Deflate {
    const s: Stream
    const bb: BitBuf2
    const tables: Tables
    const out: array<Byte>
    var nextOut: nat
    var availOut: nat
    var totalOut: nat
    var hasEob: bool

    constructor (s: Stream, bb: BitBuf2, tables: Tables, out: array<Byte>, nextOut: nat, availOut: nat)
      ensures this.s == s && this.bb == bb && this.tables == tables && this.out == out
      ensures this.nextOut == nextOut && this.availOut == availOut && totalOut == 0 && !hasEob
    {
      this.s, this.bb, this.tables, this.out := s, bb, tables, out;
      this.nextOut, this.availOut, totalOut, hasEob := nextOut, availOut, 0, false;
    }

    ghost predicate Valid(c: Codes)
      reads this, s, s.table, bb, tables
    {
      s.Searchable() && s.nextIn + s.availIn <= |s.data| && s.totalIn == (s.nextIn - s.fileStart) % 0x1_0000_0000
      && Reach(s.table[..], s.fileStart, s.lo, s.distMask, s.nextIn) && bb.Valid() && bb.bitCount < 8
      && c.Valid() && tables.Serves(c) && nextOut + availOut <= out.Length
    }

    lemma Parts(c: Codes)
      requires Valid(c)
      ensures s.Searchable() && s.nextIn + s.availIn <= |s.data| && s.totalIn == (s.nextIn - s.fileStart) % 0x1_0000_0000
      ensures Reach(s.table[..], s.fileStart, s.lo, s.distMask, s.nextIn) && bb.Valid() && bb.bitCount < 8
      ensures c.Valid() && tables.Serves(c) && nextOut + availOut <= out.Length
    {}

    lemma IsValid(c: Codes)
      requires s.Searchable() && s.nextIn + s.availIn <= |s.data| && s.totalIn == (s.nextIn - s.fileStart) % 0x1_0000_0000
      requires Reach(s.table[..], s.fileStart, s.lo, s.distMask, s.nextIn) && bb.Valid() && bb.bitCount < 8
      requires c.Valid() && tables.Serves(c) && nextOut + availOut <= out.Length
      ensures Valid(c)
    {}

    lemma ServesLit(c: Codes, lit: nat)
      requires tables.Serves(c) && lit <= 256
      ensures tables.Sizes() && Complete(c) && |c.lcount| == 16 && 1 <= c.llens[lit] <= 15
      ensures Gives(tables.GetLitCode(lit), Word(c.llens, c.lcount, lit))
    {}

    lemma ServesMatch(c: Codes, length: nat, dist: nat)
      requires tables.Serves(c) && 3 <= length <= 258 && 1 <= dist <= 32768
      ensures tables.Sizes() && Complete(c)
      ensures Gives(tables.GetLenCode(length), LengthBits(c, length)) && Gives(tables.GetDistCode(dist), DistanceBits(c, dist))
    {}

    lemma Given(v: CodeLen, bits: seq<bool>)
      requires Gives(v, bits)
      ensures v.len == |bits| && v.code < Pow2(v.len) && BitsOf(v.code, v.len) == bits
    {}

    /** Writes a literal or the end of the block. */
    method PutLit(lit: nat, ghost c: Codes)
      requires lit <= 256 && tables.Serves(c) && c.Valid() && Complete(c) && bb.Valid() && bb.bitCount < 8 && bb.outBuf + 8 <= bb.out.Length
      modifies bb`bits, bb`bitCount, bb`outBuf, bb.out
      ensures bb.Valid() && bb.bitCount < 8 && bb.outBuf <= old(bb.outBuf) + 7 && bb.outBuf >= old(bb.outBuf)
      ensures Encodable(c, Record(lit, 30, 0)) && bb.Stream() == old(bb.Stream()) + RecordBits(c, Record(lit, 30, 0))
    {
      hide *;
      ServesLit(c, lit);
      LiteralForm(lit);
      AllCanBeEncoded(c, Record(lit, 30, 0));
      var v := tables.GetLitCode(lit);
      Given(v, Word(c.llens, c.lcount, lit));
      bb.WriteBits(v.code, v.len);
    }

    /** Writes a length and a distance as one piece. */
    method PutMatch(length: nat, dist: nat, ghost c: Codes)
      requires 4 <= length <= 258 && 1 <= dist <= 32768 && tables.Serves(c) && c.Valid() && Complete(c)
      requires bb.Valid() && bb.bitCount < 8 && bb.outBuf + 8 <= bb.out.Length
      modifies bb`bits, bb`bitCount, bb`outBuf, bb.out
      ensures bb.Valid() && bb.bitCount < 8 && bb.outBuf <= old(bb.outBuf) + 7 && bb.outBuf >= old(bb.outBuf)
      ensures Encodable(c, MatchRecord(length, dist)) && bb.Stream() == old(bb.Stream()) + RecordBits(c, MatchRecord(length, dist))
    {
      hide *;
      ServesMatch(c, length, dist);
      MatchBits(c, length, dist);
      LengthSizes(c, length, dist);
      var v, w := tables.GetLenCode(length), tables.GetDistCode(dist);
      Given(v, LengthBits(c, length));
      Given(w, DistanceBits(c, dist));
      OrDisjoint(v.code, v.len, w.code);
      BitsOfConcat(v.code, v.len, w.code, w.len);
      SumBound(v.code, v.len, w.code, w.len);
      bb.WriteBits(Or(v.code, w.code * Pow2(v.len)), v.len + w.len);
    }

    /** One turn of the search loop. */
    method Advance(p: nat, limit: nat, hashEnd: nat, ghost p0: nat, ghost rs: seq<Record>, ghost stream0: seq<bool>, ghost c: Codes,
                   ghost end: nat, ghost extra: nat, ghost t0: seq<nat>)
      returns (p': nat, ghost rs': seq<Record>)
      requires s.Searchable() && s.totalIn == (s.nextIn - s.fileStart) % 0x1_0000_0000 && tables.Serves(c) && c.Valid() && Complete(c)
      requires s.nextIn <= p && p + 4 <= |s.data| && limit <= 258 && p + limit <= |s.data|
      requires hashEnd <= p + 3 && (hashEnd <= p + 1 || p + 7 <= |s.data|)
      requires Reach(s.table[..], s.fileStart, s.lo, s.distMask, p) && bb.Valid() && bb.bitCount < 8 && bb.outBuf + 8 <= bb.out.Length
      requires Coded(c, s.data, s.distMask, p0, p, rs, stream0, bb.Stream())
      requires p + 4 <= end && limit == (if end - p > 258 then 258 else end - p) && hashEnd == (if extra == 0 then p else p + 1 + extra)
      requires Searched(s.Sought(end, extra), t0, p0, s.table[..], p, rs)
      modifies s.table, bb`bits, bb`bitCount, bb`outBuf, bb.out
      ensures p < p' <= |s.data| && p' <= p + (if limit > 1 then limit else 1)
      ensures Reach(s.table[..], s.fileStart, s.lo, s.distMask, p') && bb.Valid() && bb.bitCount < 8 && old(bb.outBuf) <= bb.outBuf <= old(bb.outBuf) + 7
      ensures Coded(c, s.data, s.distMask, p0, p', rs', stream0, bb.Stream())
      ensures Searched(s.Sought(end, extra), t0, p0, s.table[..], p', rs')
    {
      hide *;
      var length, dist;
      ghost var r;
      ghost var stream, t1 := bb.Stream(), s.table[..];
      s.HashInRange(Load(s.data, p, 4));
      p', length, dist, r := s.FindMatch(p, limit, hashEnd);
      ChosenStep(s.data, s.lo, s.distMask, p, limit, r, p');
      s.NowSearched(end, extra, t0, p0, t1, p, rs, r, s.table[..], p', limit, hashEnd);
      if length > 0 {
        PutMatch(length, dist, c);
      } else {
        PutLit(s.data[p], c);
      }
      CodedMore(c, s.data, s.lo, s.distMask, p0, p, rs, stream0, stream, limit, r, p');
      rs' := rs + [r];
    }

    /** Writes the local positions back to the stream. */
    method UpdateState(p: nat, endIn: nat)
      requires s.nextIn <= p <= endIn && s.totalIn == (s.nextIn - s.fileStart) % 0x1_0000_0000 && bb.outStart <= bb.outBuf
      requires bb.outBuf - bb.outStart <= availOut
      modifies `nextOut, `availOut, `totalOut, s`nextIn, s`availIn, s`totalIn, s`hasHist
      ensures s.nextIn == p && s.availIn == endIn - p && s.totalIn == (s.nextIn - s.fileStart) % 0x1_0000_0000
      ensures s.hasHist == (old(s.hasHist) || p > old(s.nextIn))
      ensures nextOut == old(nextOut) + (bb.outBuf - bb.outStart) && nextOut + availOut == old(nextOut + availOut)
      ensures totalOut == old(totalOut) + (nextOut - old(nextOut))
    {
      if p > s.nextIn { s.hasHist := true; }
      WrapCounter(s.nextIn - s.fileStart, p - s.nextIn);
      s.totalIn := (s.totalIn + (p - s.nextIn)) % 0x1_0000_0000;
      s.nextIn := p;
      s.availIn := endIn - p;
      var bytesWritten := bb.BufferUsed();
      totalOut := totalOut + bytesWritten;
      nextOut := nextOut + bytesWritten;
      availOut := availOut - bytesWritten;
    }

    lemma BufferFacts()
      requires bb.Valid()
      ensures bb.outStart <= bb.outBuf <= bb.out.Length && (!bb.IsFull() ==> bb.outBuf <= bb.outEnd && bb.outBuf + 8 <= bb.out.Length)
    {}

    /** Searches and writes while a whole look-ahead is left and the output is not full. */
    method DeflateBody(ghost c: Codes) returns (ghost rs: seq<Record>)
      requires Valid(c)
      modifies this, s, s.table, bb, bb.out, out
      ensures Valid(c) && Coded(c, s.data, s.distMask, old(s.nextIn), s.nextIn, rs, old(bb.Stream()), bb.Stream())
      ensures s.nextIn + s.availIn == old(s.nextIn + s.availIn) && nextOut + availOut == old(nextOut + availOut) && old(nextOut) <= nextOut
      ensures totalOut == old(totalOut) + (nextOut - old(nextOut)) && hasEob == old(hasEob)
      ensures s.availIn > 288 ==> s.state == old(s.state) && bb.IsFull()
      ensures s.availIn <= 288 ==> s.state == if s.endOfStream || s.flush then FlushReadBuffer else old(s.state)
      ensures Searched(s.Sought(old(s.nextIn + s.availIn), 2), old(s.table[..]), old(s.nextIn), s.table[..], s.nextIn, rs)
    {
      hide *;
      Parts(c);
      ServesLit(c, 0);
      rs := [];
      CodedNothing(c, s.data, s.distMask, s.nextIn, bb.Stream());
      SearchedNothing(s.Sought(s.nextIn + s.availIn, 2), s.table[..], s.nextIn);
      if s.availIn == 0 {
        if s.endOfStream || s.flush { s.state := FlushReadBuffer; }
        IsValid(c);
        return;
      }
      ghost var p0, stream0 := s.nextIn, bb.Stream();
      var p, endIn := s.nextIn, s.nextIn + s.availIn;
      p, rs := BodyLoop(endIn, c);
      var full := p + 288 < endIn;
      UpdateState(p, endIn);
      if !full && (s.endOfStream || s.flush) { s.state := FlushReadBuffer; }
      IsValid(c);
    }

    /** The search loop of the body. */
    method BodyLoop(endIn: nat, ghost c: Codes) returns (p: nat, ghost rs: seq<Record>)
      requires Valid(c) && endIn == s.nextIn + s.availIn && Complete(c)
      modifies s.table, bb, bb.out, out
      ensures s.nextIn <= p <= endIn && Reach(s.table[..], s.fileStart, s.lo, s.distMask, p)
      ensures bb.Valid() && bb.bitCount < 8 && bb.outStart == nextOut <= bb.outBuf <= nextOut + availOut && (p + 288 < endIn ==> bb.IsFull())
      ensures Coded(c, s.data, s.distMask, s.nextIn, p, rs, old(bb.Stream()), bb.Stream())
      ensures Searched(s.Sought(endIn, 2), old(s.table[..]), s.nextIn, s.table[..], p, rs)
    {
      hide *;
      Parts(c);
      ghost var stream0, t0 := bb.Stream(), s.table[..];
      rs := [];
      p := s.nextIn;
      CodedNothing(c, s.data, s.distMask, p, stream0);
      SearchedNothing(s.Sought(endIn, 2), t0, p);
      bb.SetBuf(out, nextOut, availOut);
      BufferFacts();
      while p + 288 < endIn && !bb.IsFull()
        invariant s.nextIn <= p <= endIn && Reach(s.table[..], s.fileStart, s.lo, s.distMask, p)
        invariant bb.Valid() && bb.bitCount < 8 && bb.out == out && bb.outStart == nextOut <= bb.outBuf <= nextOut + availOut
        invariant bb.outEnd == nextOut + availOut - 8
        invariant Coded(c, s.data, s.distMask, s.nextIn, p, rs, stream0, bb.Stream())
        invariant Searched(s.Sought(endIn, 2), t0, s.nextIn, s.table[..], p, rs)
        decreases endIn - p
      {
        BufferFacts();
        p, rs := Advance(p, 258, p + 3, s.nextIn, rs, stream0, c, endIn, 2, t0);
      }
    }

    /** Searches to the end of the input, then closes the block if there is room. */
    method DeflateFinish(ghost c: Codes) returns (ghost rs: seq<Record>, ghost closed: bool)
      requires Valid(c)
      modifies this, s, s.table, bb, bb.out, out
      ensures Valid(c) && s.nextIn + s.availIn == old(s.nextIn + s.availIn) && nextOut + availOut == old(nextOut + availOut)
      ensures old(nextOut) <= nextOut && totalOut == old(totalOut) + (nextOut - old(nextOut))
      ensures closed ==> s.availIn == 0 && Closed(c, old(s.nextIn), rs, old(bb.Stream())) && hasEob && s.state == if s.endOfStream then Trl else SyncFlush
      ensures !closed ==> Coded(c, s.data, s.distMask, old(s.nextIn), s.nextIn, rs, old(bb.Stream()), bb.Stream())
      ensures !closed ==> s.state == old(s.state) && hasEob == old(hasEob) && bb.IsFull()
      ensures Searched(s.Sought(old(s.nextIn + s.availIn), 0), old(s.table[..]), old(s.nextIn), s.table[..], s.nextIn, rs)
    {
      hide *;
      Parts(c);
      ServesLit(c, 256);
      ghost var stream0, p0 := bb.Stream(), s.nextIn;
      var endIn := s.nextIn + s.availIn;
      var p;
      p, rs := FinishLoops(endIn, c);
      BufferFacts();
      ghost var stream := bb.Stream();
      closed := p == endIn && !bb.IsFull();
      if p == endIn && !bb.IsFull() { PutEob(c); }
      UpdateState(p, endIn);
      if closed { NowClosed(c, p0, rs, stream0, stream); }
      IsValid(c);
    }

    /** Writes the end of the block. */
    method PutEob(ghost c: Codes)
      requires tables.Serves(c) && c.Valid() && Complete(c) && bb.Valid() && bb.bitCount < 8 && bb.outBuf + 8 <= bb.out.Length
      modifies bb`bits, bb`bitCount, bb`outBuf, bb.out, `hasEob, s`state
      ensures bb.Valid() && bb.bitCount < 8 && bb.outBuf <= old(bb.outBuf) + 7 && bb.outBuf >= old(bb.outBuf)
      ensures Encodable(c, Record(256, 30, 0)) && bb.Stream() == old(bb.Stream()) + RecordBits(c, Record(256, 30, 0))
      ensures hasEob && s.state == if s.endOfStream then Trl else SyncFlush
    {
      hide *;
      PutLit(256, c);
      hasEob := true;
      s.state := if s.endOfStream then Trl else SyncFlush;
    }

    /** The search loop and the last literals. */
    method FinishLoops(endIn: nat, ghost c: Codes) returns (p: nat, ghost rs: seq<Record>)
      requires Valid(c) && endIn == s.nextIn + s.availIn && Complete(c)
      modifies s.table, bb, bb.out, out
      ensures s.nextIn <= p <= endIn && Reach(s.table[..], s.fileStart, s.lo, s.distMask, p)
      ensures bb.Valid() && bb.bitCount < 8 && bb.out == out && bb.outEnd == nextOut + availOut - 8
      ensures bb.outStart == nextOut <= bb.outBuf <= nextOut + availOut && (p < endIn ==> bb.IsFull())
      ensures Coded(c, s.data, s.distMask, s.nextIn, p, rs, old(bb.Stream()), bb.Stream())
      ensures Searched(s.Sought(endIn, 0), old(s.table[..]), s.nextIn, s.table[..], p, rs)
    {
      hide *;
      Parts(c);
      ghost var stream0, t0 := bb.Stream(), s.table[..];
      rs := [];
      p := s.nextIn;
      CodedNothing(c, s.data, s.distMask, p, stream0);
      SearchedNothing(s.Sought(endIn, 0), t0, p);
      bb.SetBuf(out, nextOut, availOut);
      BufferFacts();
      while p + 3 < endIn && !bb.IsFull()
        invariant s.nextIn <= p <= endIn && Reach(s.table[..], s.fileStart, s.lo, s.distMask, p)
        invariant bb.Valid() && bb.bitCount < 8 && bb.out == out && bb.outStart == nextOut <= bb.outBuf <= nextOut + availOut
        invariant bb.outEnd == nextOut + availOut - 8
        invariant Coded(c, s.data, s.distMask, s.nextIn, p, rs, stream0, bb.Stream())
        invariant Searched(s.Sought(endIn, 0), t0, s.nextIn, s.table[..], p, rs)
        decreases endIn - p
      {
        BufferFacts();
        p, rs := Advance(p, if endIn - p > 258 then 258 else endIn - p, p, s.nextIn, rs, stream0, c, endIn, 0, t0);
      }
      p, rs := LastLiterals(endIn, p, rs, stream0, c, t0);
    }

    /** Literals where no four bytes are left. After a full output nothing is written. */
    method LastLiterals(endIn: nat, from: nat, ghost rs0: seq<Record>, ghost stream0: seq<bool>, ghost c: Codes, ghost t0: seq<nat>)
      returns (p: nat, ghost rs: seq<Record>)
      requires s.nextIn <= from <= endIn <= |s.data| && tables.Serves(c) && c.Valid() && Complete(c) && s.distMask < 32768
      requires Reach(s.table[..], s.fileStart, s.lo, s.distMask, from)
      requires bb.Valid() && bb.bitCount < 8 && bb.out == out && bb.outStart == nextOut <= bb.outBuf <= nextOut + availOut
      requires bb.outEnd == nextOut + availOut - 8 && Coded(c, s.data, s.distMask, s.nextIn, from, rs0, stream0, bb.Stream())
      requires (bb.IsFull() || from + 4 > endIn) && Searched(s.Sought(endIn, 0), t0, s.nextIn, s.table[..], from, rs0)
      modifies bb`bits, bb`bitCount, bb`outBuf, bb.out
      ensures from <= p <= endIn && Reach(s.table[..], s.fileStart, s.lo, s.distMask, p) && (p < endIn ==> bb.IsFull())
      ensures bb.Valid() && bb.bitCount < 8 && bb.outStart <= bb.outBuf <= nextOut + availOut
      ensures Coded(c, s.data, s.distMask, s.nextIn, p, rs, stream0, bb.Stream())
      ensures Searched(s.Sought(endIn, 0), t0, s.nextIn, s.table[..], p, rs)
    {
      hide *;
      p, rs := from, rs0;
      BufferFacts();
      while p < endIn && !bb.IsFull()
        invariant from <= p <= endIn && Reach(s.table[..], s.fileStart, s.lo, s.distMask, p)
        invariant bb.Valid() && bb.bitCount < 8 && bb.outStart == nextOut <= bb.outBuf <= nextOut + availOut
        invariant Coded(c, s.data, s.distMask, s.nextIn, p, rs, stream0, bb.Stream())
        invariant (bb.IsFull() || p + 4 > endIn) && Searched(s.Sought(endIn, 0), t0, s.nextIn, s.table[..], p, rs)
        decreases endIn - p
      {
        BufferFacts();
        ghost var stream, r := bb.Stream(), Record(s.data[p], 30, 0);
        LiteralIsChosen(s.data, s.lo, s.distMask, p, 0);
        s.LiteralSearched(endIn, t0, s.nextIn, s.table[..], p, rs);
        PutLit(s.data[p], c);
        CodedMore(c, s.data, s.lo, s.distMask, s.nextIn, p, rs, stream0, stream, 0, r, p + 1);
        ReachLater(s.table[..], s.fileStart, s.lo, s.distMask, p, p + 1);
        rs := rs + [r];
        p := p + 1;
      }
    }

    /** The input has been coded and the block closed behind it. */
    ghost predicate Closed(c: Codes, p0: nat, rs: seq<Record>, stream0: seq<bool>)
      reads s, bb, bb.out
    {
      c.Valid() && Encodable(c, EOB) && bb.Valid()
      && exists stream: seq<bool> :: Coded(c, s.data, s.distMask, p0, s.nextIn, rs, stream0, stream) && bb.Stream() == stream + RecordBits(c, EOB)
    }

    lemma NowClosed(c: Codes, p0: nat, rs: seq<Record>, stream0: seq<bool>, stream: seq<bool>)
      requires c.Valid() && Encodable(c, Record(256, 30, 0)) && bb.Valid() && Coded(c, s.data, s.distMask, p0, s.nextIn, rs, stream0, stream)
      requires bb.Stream() == stream + RecordBits(c, Record(256, 30, 0))
      ensures Closed(c, p0, rs, stream0)
    {
      hide Coded, Encodable, RecordBits, Codes.Valid;
    }
  }

  lemma LiteralForm(lit: nat)
    requires lit <= 256
    ensures Record(lit, 30, 0).IsLiteral() || Record(lit, 30, 0) == EOB
  {}

  /** What body and finish have written, with the end of the block, is read back as the input that was consumed, whatever
      follows it. */
  lemma BlockReadsBack(c: Codes, data: seq<Byte>, distMask: nat, p0: nat, p1: nat, p2: nat, rs: seq<Record>, ss: seq<Record>,
                       stream0: seq<bool>, stream1: seq<bool>, stream2: seq<bool>, rest: seq<bool>)
    requires Coded(c, data, distMask, p0, p1, rs, stream0, stream1) && Coded(c, data, distMask, p1, p2, ss, stream1, stream2)
    requires c.Valid() && Encodable(c, EOB)
    ensures AllEncodable(c, rs + ss + [EOB]) && stream2 + RecordBits(c, EOB) == stream0 + RecordsBits(c, rs + ss + [EOB])
    ensures DecodeBlock(c, RecordsBits(c, rs + ss + [EOB]) + rest).Inflated? && DecodeBlock(c, RecordsBits(c, rs + ss + [EOB]) + rest).rest == rest
    ensures Expand(data[..p0], DecodeBlock(c, RecordsBits(c, rs + ss + [EOB]) + rest).tokens) == Text(data[..p2])
  {
    hide *;
    ValidSizes(c);
    CodedParts(c, data, distMask, p0, p1, rs, stream0, stream1);
    CodedParts(c, data, distMask, p1, p2, ss, stream1, stream2);
    ProducesConcat(data[..p0], rs, data[..p1], ss, data[..p2]);
    RecordsBitsConcat(c, rs, ss);
    RecordsBitsOne(c, EOB);
    RecordsBitsConcat(c, rs + ss, [EOB]);
    InflatesBack(c, rs + ss, data[..p0], data[..p2], rest);
    ProducedValid(data[..p0], rs + ss, data[..p2]);
    BlockDecodes(c, rs + ss, rest);
    Regroup(stream0, RecordsBits(c, rs), RecordsBits(c, ss), RecordBits(c, EOB));
  }

  lemma CodedParts(c: Codes, data: seq<Byte>, distMask: nat, p0: nat, p: nat, rs: seq<Record>, stream0: seq<bool>, stream: seq<bool>)
    requires Coded(c, data, distMask, p0, p, rs, stream0, stream)
    ensures p0 <= p <= |data| && c.Valid() && AllEncodable(c, rs) && Produces(data[..p0], rs, data[..p]) && stream == stream0 + RecordsBits(c, rs)
  {}

  lemma Regroup(s: seq<bool>, x: seq<bool>, y: seq<bool>, z: seq<bool>)
    ensures s + x + y + z == s + (x + y + z)
  {}

  lemma ProducedValid(before: seq<Byte>, rs: seq<Record>, after: seq<Byte>)
    requires Produces(before, rs, after)
    ensures AllValid(rs)
  {}

  /** The block with its header, which announces the codes, is read as that input. */
  lemma BlockInflates(r: nat, c: Codes, hdr: seq<bool>, final: bool, data: seq<Byte>, distMask: nat, p0: nat, p1: nat, p2: nat,
                      rs: seq<Record>, ss: seq<Record>, stream0: seq<bool>, stream1: seq<bool>, stream2: seq<bool>)
    requires Coded(c, data, distMask, p0, p1, rs, stream0, stream1) && Coded(c, data, distMask, p1, p2, ss, stream1, stream2)
    requires c.Valid() && Encodable(c, EOB) && |c.llens| == 286 && |c.dlens| == 30 && ParsesTo(hdr, final, 29, 29, c.llens + c.dlens)
    ensures AllEncodable(c, rs + ss + [EOB]) && stream2 + RecordBits(c, EOB) == stream0 + RecordsBits(c, rs + ss + [EOB])
    ensures p0 <= p2 <= |data| && Reads(r, hdr + RecordsBits(c, rs + ss + [EOB]), data[..p0], data[..p2], final)
  {
    hide *;
    BlockReadsBack(c, data, distMask, p0, p1, p2, rs, ss, stream0, stream1, stream2, []);
    CodedParts(c, data, distMask, p0, p1, rs, stream0, stream1);
    CodedParts(c, data, distMask, p1, p2, ss, stream1, stream2);
    ProducesConcat(data[..p0], rs, data[..p1], ss, data[..p2]);
    WholeHeader(c, hdr, final);
    DynamicReads(r, c, hdr, final, 29, 29, rs + ss, data[..p0], data[..p2]);
  }

  lemma WholeHeader(c: Codes, hdr: seq<bool>, final: bool)
    requires c.Valid() && |c.llens| == 286 && |c.dlens| == 30 && ParsesTo(hdr, final, 29, 29, c.llens + c.dlens)
    ensures IcfTables.DynamicBlock(c, hdr, final, 29, 29)
  {
    hide Codes.Valid, ParsesTo;
    assert IcfTables.Combined(c.llens, c.dlens, 285, 29) == c.llens + c.dlens;
  }

  /** The bits of the stored header: that of a last block, with its first byte changed for any other. */
  function StoredHeader(header: seq<Byte>, n: nat, final: bool): (bits: seq<bool>)
    requires 0 < n <= 8 * |header|
    ensures |bits| == n
  {
    ByteBits(if final then header else FirstFlipped(header))[..n]
  }

  /** Writes the stored header at a byte boundary, in the buffer at hand and further ones: in all it is that of a last block
      exactly when it is to be one, and the flag tells which it is. */
  method WriteStoredHeader(t: Tables, final: bool, bb: BitBuf2, out: array<Byte>, nextOut: nat, availOut: nat, sizes: seq<nat>, ghost c: Codes)
    returns (w: HeaderWrite.HeaderWriter, i: nat)
    requires t.HeaderOf(c) && bb.Valid() && bb.bitCount == 0 && nextOut + availOut <= out.Length
    modifies bb, out
    ensures w.Valid() && 0 < 8 * t.deflateHdrCount + t.deflateHdrExtraBits <= 8 * |t.deflateHdr|
    ensures bb.Valid() && w.bb == bb && bb.Stream() + w.Left() == old(bb.Stream()) + StoredHeader(t.deflateHdr, 8 * t.deflateHdrCount + t.deflateHdrExtraBits, final)
    ensures w.done ==> w.Left() == [] && w.hasEobHdr == final
    ensures i <= |sizes| && (!w.done ==> bb.Out() >= old(bb.Out()) + 8 * Room(sizes))
  {
    hide *;
    HeaderSize(t, c);
    w := new HeaderWrite.HeaderWriter(bb, t.deflateHdr, t.deflateHdrCount, t.deflateHdrExtraBits, !final, true, out, nextOut, availOut);
    w.Begins();
    w.WholeHeader();
    StoredIs(t.deflateHdr, 8 * t.deflateHdrCount + t.deflateHdrExtraBits, final);
    i := w.WriteInPieces(sizes);
    w.Parts();
    w.LeftIs();
  }

  lemma StoredIs(header: seq<Byte>, n: nat, final: bool)
    requires 0 < n <= 8 * |header|
    ensures StoredHeader(header, n, final) == ByteBits(if final then header else FirstFlipped(header))[..n]
  {}

  /** A header takes more than a byte. */
  lemma HeaderSize(t: Tables, c: Codes)
    requires t.HeaderOf(c)
    ensures HeaderShape(t.deflateHdr, t.deflateHdrCount, t.deflateHdrExtraBits) && t.deflateHdrCount > 0
    ensures 0 < 8 * t.deflateHdrCount + t.deflateHdrExtraBits <= 8 * |t.deflateHdr|
  {
    hide ParsesTo, ByteBits;
    ToggleParses(ByteBits(t.deflateHdr)[..8 * t.deflateHdrCount + t.deflateHdrExtraBits], true, 29, 29, c.llens + c.dlens);
  }

  /** A block behind the header of a static code, last or not. */
  lemma StaticBlockInflates(r: nat, t: Tables, c: Codes, final: bool, data: seq<Byte>, distMask: nat, p0: nat, p1: nat, p2: nat,
                            rs: seq<Record>, ss: seq<Record>, stream0: seq<bool>, stream1: seq<bool>, stream2: seq<bool>)
    requires t.HeaderOf(c) && c.Valid() && Encodable(c, EOB)
    requires Coded(c, data, distMask, p0, p1, rs, stream0, stream1) && Coded(c, data, distMask, p1, p2, ss, stream1, stream2)
    ensures 0 < 8 * t.deflateHdrCount + t.deflateHdrExtraBits <= 8 * |t.deflateHdr| && p0 <= p2 <= |data| && AllEncodable(c, rs + ss + [EOB])
    ensures stream2 + RecordBits(c, EOB) == stream0 + RecordsBits(c, rs + ss + [EOB])
    ensures Reads(r, StoredHeader(t.deflateHdr, 8 * t.deflateHdrCount + t.deflateHdrExtraBits, final) + RecordsBits(c, rs + ss + [EOB]),
                  data[..p0], data[..p2], final)
  {
    hide Coded, Codes.Valid, Encodable, AllEncodable, RecordsBits, RecordBits, ParsesTo, Reads, EOB, ByteBits, Toggled;
    var n := 8 * t.deflateHdrCount + t.deflateHdrExtraBits;
    var hdr := ByteBits(t.deflateHdr)[..n];
    ToggleParses(hdr, true, 29, 29, c.llens + c.dlens);
    ToggleByte(t.deflateHdr, n);
    BlockInflates(r, c, if final then hdr else Toggled(hdr), final, data, distMask, p0, p1, p2, rs, ss, stream0, stream1, stream2);
  }
}
