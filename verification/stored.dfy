/** Stored blocks, section 3.2.4 of RFC 1951, written through output buffers of any size. */
module Stored {
  import opened Bits
  import opened BitStream

  const MAX_BLOCK: nat := 65535

  // -- what is to be written

  /** The header and payload of one block, `r` bits into a byte. */
  ghost function OneBlock(r: nat, chunk: seq<Byte>, final: bool): seq<bool>
    requires |chunk| <= 65535
  {
    BlockHead(r, |chunk|, final) + ByteBits(chunk)
  }

  ghost function BlockHead(r: nat, n: nat, final: bool): (bs: seq<bool>)
    requires n <= 65535
    ensures |bs| == 3 + PadLen(r + 3) + 32
  {
    BitsOf(if final then 1 else 0, 3) + BitsOf(0, PadLen(r + 3)) + BitsOf(n, 16) + BitsOf(65535 - n, 16)
  }

  /** A series of blocks for any number of bytes; the last one may be the final block of the stream. */
  ghost function Blocks(r: nat, chunk: seq<Byte>, final: bool): seq<bool>
    decreases |chunk|
  {
    if |chunk| <= 65535 then OneBlock(r, chunk, final)
    else OneBlock(r, chunk[..65535], false) + Blocks(0, chunk[65535..], final)
  }

  // -- a parser

  datatype Block = Block(final: bool, payload: seq<Byte>)

  datatype Parsed = Bad | Parsed(blocks: seq<Block>, rest: seq<bool>)

  function ReadBytes(bits: seq<bool>, n: nat): (bs: seq<Byte>)
    requires |bits| >= 8 * n
    ensures |bs| == n
    decreases n
  {
    if n == 0 then [] else [Octet(bits[..8])] + ReadBytes(bits[8..], n - 1)
  }

  function Octet(bits: seq<bool>): Byte
    requires |bits| == 8
  {
    BitsOfValue(bits);
    Pow2Values();
    ValueOf(bits)
  }

  /** Reads k stored blocks, the first of which starts r bits into a byte. */
  function Parse(r: nat, bits: seq<bool>, k: nat): Parsed
    decreases k
  {
    if k == 0 then Parsed([], bits)
    else if |bits| < 35 + PadLen(r + 3) || bits[1] || bits[2] then Bad
    else ParseBody(bits[0], ValueOf(bits[3 + PadLen(r + 3)..19 + PadLen(r + 3)]), ValueOf(bits[19 + PadLen(r + 3)..35 + PadLen(r + 3)]),
                   bits[35 + PadLen(r + 3)..], k)
  }

  function ParseBody(final: bool, len: nat, nlen: nat, bits: seq<bool>, k: nat): Parsed
    requires k > 0
    decreases k, 0
  {
    if len + nlen != 65535 || |bits| < 8 * len then Bad else
      match Parse(0, bits[8 * len..], k - 1)
      case Bad => Bad
      case Parsed(blocks, rest) => Parsed([Block(final, ReadBytes(bits, len))] + blocks, rest)
  }

  /** How many blocks n bytes take. */
  function NumBlocks(n: nat): (k: nat)
    ensures k >= 1
  {
    if n <= 65535 then 1 else 1 + NumBlocks(n - 65535)
  }

  lemma {:induction false} NumBlocksIs(n: nat)
    ensures NumBlocks(n) == if n == 0 then 1 else (n + 65534) / 65535
    decreases n
  {
    if n > 65535 { NumBlocksIs(n - 65535); }
  }

  /** The blocks of a chunk: their payloads make it up, and only the last one may be final. */
  function Divided(chunk: seq<Byte>, final: bool): (bs: seq<Block>)
    ensures |bs| == NumBlocks(|chunk|)
    decreases |chunk|
  {
    if |chunk| <= 65535 then [Block(final, chunk)] else [Block(false, chunk[..65535])] + Divided(chunk[65535..], final)
  }

  function Payloads(bs: seq<Block>): seq<Byte> {
    if |bs| == 0 then [] else bs[0].payload + Payloads(bs[1..])
  }

  lemma {:induction false} DividedIs(chunk: seq<Byte>, final: bool)
    ensures Payloads(Divided(chunk, final)) == chunk
    ensures forall i :: 0 <= i < |Divided(chunk, final)| ==> Divided(chunk, final)[i].final == (final && i == |Divided(chunk, final)| - 1)
    decreases |chunk|
  {
    if |chunk| <= 65535 {
      assert [Block(final, chunk)][1..] == [];
      assert chunk + [] == chunk;
    } else {
      DividedIs(chunk[65535..], final);
      assert Divided(chunk, final)[1..] == Divided(chunk[65535..], final);
      assert chunk[..65535] + chunk[65535..] == chunk;
    }
  }

  lemma {:induction false} BytesRead(bs: seq<Byte>, rest: seq<bool>)
    ensures ReadBytes(ByteBits(bs) + rest, |bs|) == bs
    decreases |bs|
  {
    hide BitsOf, ValueOf, ByteBits;
    if |bs| > 0 {
      ByteBitsConcat([bs[0]], bs[1..]);
      OneByte(bs[0]);
      assert [bs[0]] + bs[1..] == bs;
      var bits := ByteBits(bs) + rest;
      assert bits[..8] == BitsOf(bs[0], 8) && bits[8..] == ByteBits(bs[1..]) + rest;
      Pow2Values();
      ValueOfBits(bs[0], 8);
      BytesRead(bs[1..], rest);
    }
  }

  lemma HeadParts(r: nat, n: nat, final: bool, tail: seq<bool>, bits: seq<bool>)
    requires n <= 65535 && bits == BlockHead(r, n, final) + tail
    ensures |bits| >= 35 + PadLen(r + 3) && bits[0] == final && !bits[1] && !bits[2]
    ensures ValueOf(bits[3 + PadLen(r + 3)..19 + PadLen(r + 3)]) == n && ValueOf(bits[19 + PadLen(r + 3)..35 + PadLen(r + 3)]) == 65535 - n
    ensures bits[35 + PadLen(r + 3)..] == tail
  {
    hide BitsOf, ValueOf, PadLen;
    var q := PadLen(r + 3);
    FinalBits(final);
    var head := BitsOf(if final then 1 else 0, 3);
    assert bits[..3] == head;
    assert bits[0] == bits[..3][0] && bits[1] == bits[..3][1] && bits[2] == bits[..3][2];
    assert bits[3 + q..19 + q] == BitsOf(n, 16) && bits[19 + q..35 + q] == BitsOf(65535 - n, 16);
    Pow2Values();
    ValueOfBits(n, 16);
    ValueOfBits(65535 - n, 16);
  }

  lemma FinalBits(final: bool)
    ensures BitsOf(if final then 1 else 0, 3) == [final, false, false]
  {
    var v := if final then 1 else 0;
    assert BitsOf(v, 3) == [v % 2 == 1] + BitsOf(v / 2, 2);
    assert BitsOf(0, 2) == [false] + BitsOf(0, 1) && BitsOf(0, 1) == [false] + BitsOf(0, 0);
  }

  lemma OneParses(r: nat, chunk: seq<Byte>, final: bool, tail: seq<bool>, k: nat, blocks: seq<Block>, rest: seq<bool>)
    requires |chunk| <= 65535 && k > 0 && Parse(0, tail, k - 1) == Parsed(blocks, rest)
    ensures Parse(r, OneBlock(r, chunk, final) + tail, k) == Parsed([Block(final, chunk)] + blocks, rest)
  {
    hide BlockHead, ByteBits, ValueOf, PadLen, ReadBytes;
    var bits := OneBlock(r, chunk, final) + tail;
    assert bits == BlockHead(r, |chunk|, final) + (ByteBits(chunk) + tail);
    HeadParts(r, |chunk|, final, ByteBits(chunk) + tail, bits);
    BytesRead(chunk, tail);
    assert (ByteBits(chunk) + tail)[8 * |chunk|..] == tail;
  }

  /** The blocks written for a chunk are read back as its division, whatever follows. */
  lemma {:induction false} BlocksParse(r: nat, chunk: seq<Byte>, final: bool, rest: seq<bool>)
    ensures Parse(r, Blocks(r, chunk, final) + rest, NumBlocks(|chunk|)) == Parsed(Divided(chunk, final), rest)
    decreases |chunk|
  {
    hide OneBlock, ParseBody, PadLen, ValueOf;
    if |chunk| <= 65535 {
      NothingMore(rest);
      OneParses(r, chunk, final, rest, 1, [], rest);
      assert [Block(final, chunk)] + [] == [Block(final, chunk)];
    } else {
      var tail := chunk[65535..];
      BlocksParse(0, tail, final, rest);
      OneParses(r, chunk[..65535], false, Blocks(0, tail, final) + rest, NumBlocks(|chunk|), Divided(tail, final), rest);
      assert Blocks(r, chunk, final) + rest == OneBlock(r, chunk[..65535], false) + (Blocks(0, tail, final) + rest);
    }
  }

  lemma NothingMore(bits: seq<bool>)
    ensures Parse(0, bits, 0) == Parsed([], bits)
  {}

  // -- the writer

  datatype State = Type0Hdr | Type0Body | Trl | NewHdr

  /** The four bytes of LEN and NLEN as a word. */
  function LenWord(n: nat): nat
    requires n <= 65535
  {
    n + 65536 * (65535 - n)
  }

  lemma LenBytes(n: nat)
    requires n <= 65535
    ensures ByteBits(LeBytes(LenWord(n), 4)) == BitsOf(n, 16) + BitsOf(65535 - n, 16)
  {
    hide BitsOf, LeBytes, Pow2;
    ByteBitsOfLe(LenWord(n), 4);
    SixteenBits();
    BitsOfConcat(n, 16, 65535 - n, 16);
  }

  lemma SixteenBits()
    ensures Pow2(16) == 65536 && Pow2(8) == 256
  {
    Pow2Values();
  }

  /** At a byte boundary, the whole header is five bytes. */
  lemma HeadBytes(n: nat, final: bool)
    requires n <= 65535
    ensures ByteBits(LeBytes((if final then 1 else 0) + 256 * LenWord(n), 5)) == BlockHead(0, n, final)
  {
    hide BitsOf, LeBytes, Pow2, LenWord, ByteBits;
    var v: nat := if final then 1 else 0;
    SixteenBits();
    LeBytesStep(v + 256 * LenWord(n), 5);
    FirstByte(v, LenWord(n));
    ByteBitsConcat([v as Byte], LeBytes(LenWord(n), 4));
    OneByte(v);
    LenBytes(n);
    EightBits(v);
    assert BitsOf(v, 3) + BitsOf(0, 5) + (BitsOf(n, 16) + BitsOf(65535 - n, 16)) == BitsOf(v, 3) + BitsOf(0, 5) + BitsOf(n, 16) + BitsOf(65535 - n, 16);
  }

  lemma FirstByte(v: nat, w: nat)
    requires v < 2
    ensures (v + 256 * w) % 256 == v && (v + 256 * w) / 256 == w
  {}

  lemma EightBits(v: nat)
    requires v < 2
    ensures BitsOf(v, 8) == BitsOf(v, 3) + BitsOf(0, 5) && PadLen(0 + 3) == 5
  {
    BitsOfSplit(v, 3, 5);
    hide BitsOf;
    ShiftedOut(v);
  }

  lemma ShiftedOut(v: nat)
    requires v < 2
    ensures Shr(v, 3) == 0
  {
    assert Shr(v, 3) == Shr(v / 2, 2) && Shr(0, 2) == Shr(0, 1) && Shr(0, 1) == Shr(0, 0);
  }

  /** What is left to write in a given state. */
  ghost function ToWrite(state: State, bitCount: nat, data: seq<Byte>, blockNext: nat, blockEnd: nat, count: nat, final: bool): seq<bool>
    requires blockNext <= blockEnd <= |data| && (state == Type0Body ==> blockNext + count <= blockEnd)
  {
    match state
    case Type0Hdr => Blocks(bitCount, data[blockNext..blockEnd], final)
    case Type0Body => ByteBits(data[blockNext..blockNext + count])
                      + if blockNext + count < blockEnd then Blocks(0, data[blockNext + count..blockEnd], final) else []
    case Trl => []
    case NewHdr => []
  }

  /** The state of the stream while stored blocks are written. `data` is the input up to what is available, `emitted` all
      bytes of output so far. */
  class Writer {
    const data: seq<Byte>
    const endOfStream: bool
    var blockNext: nat
    var blockEnd: nat
    var state: State
    var count: nat
    var hasEobHdr: bool
    const bb: BitBuf2
    var out: array<Byte>
    var nextOut: nat
    var availOut: nat
    var totalOut: nat
    ghost var emitted: seq<Byte>

    constructor (data: seq<Byte>, endOfStream: bool, bb: BitBuf2, blockNext: nat, blockEnd: nat, out: array<Byte>)
      requires blockNext <= blockEnd <= |data| && bb.Valid() && bb.bitCount < 8
      ensures Valid() && this.data == data && this.bb == bb && this.blockNext == blockNext && this.blockEnd == blockEnd
      ensures this.endOfStream == endOfStream && state == Type0Hdr && emitted == []
    {
      this.data, this.endOfStream, this.bb, this.blockNext, this.blockEnd := data, endOfStream, bb, blockNext, blockEnd;
      state, count, hasEobHdr, this.out, nextOut, availOut, totalOut, emitted := Type0Hdr, 0, false, out, 0, 0, 0, [];
    }

    /** The block ends the stream. */
    predicate Final()
      reads `blockEnd
    {
      endOfStream && |data| == blockEnd
    }

    ghost predicate Valid()
      reads this, bb
    {
      blockNext <= blockEnd <= |data| && bb.Valid() && bb.bitCount < 8 && nextOut + availOut <= out.Length
      && (state == Type0Hdr ==> !hasEobHdr)
      && (state == Type0Body ==> count <= 65535 && blockNext + count <= blockEnd && bb.bitCount == 0
                                 && hasEobHdr == (Final() && blockNext + count == blockEnd))
      && (state == Trl || state == NewHdr ==> blockNext == blockEnd && (state == Trl <==> Final()))
    }

    /** All bits of output so far. */
    ghost function Stream(): seq<bool>
      reads `emitted, bb`bits, bb`bitCount
    {
      ByteBits(emitted) + BitsOf(bb.bits, bb.bitCount)
    }

    /** What is still to be written. */
    ghost function Remaining(): seq<bool>
      requires Valid()
      reads this, bb
    {
      ToWrite(state, bb.bitCount, data, blockNext, blockEnd, count, Final())
    }

    lemma RemainingIs()
      requires Valid()
      ensures blockNext <= blockEnd <= |data| && (state == Type0Body ==> blockNext + count <= blockEnd)
      ensures Remaining() == ToWrite(state, bb.bitCount, data, blockNext, blockEnd, count, Final())
    {}

    /** Copies bytes to the output. */
    method PutBytes(bytes: seq<Byte>)
      requires nextOut + availOut <= out.Length && |bytes| <= availOut
      modifies `nextOut, `availOut, `totalOut, `emitted, out
      ensures nextOut == old(nextOut) + |bytes| && availOut == old(availOut) - |bytes| && totalOut == old(totalOut) + |bytes|
      ensures emitted == old(emitted) + bytes && |emitted| - totalOut == old(|emitted| - totalOut)
      ensures out[old(nextOut)..nextOut] == bytes && out[..old(nextOut)] == old(out[..nextOut])
    {
      var i := 0;
      while i < |bytes|
        invariant 0 <= i <= |bytes| && nextOut == old(nextOut) && availOut == old(availOut) && totalOut == old(totalOut)
        invariant emitted == old(emitted) && out[nextOut..nextOut + i] == bytes[..i] && out[..nextOut] == old(out[..nextOut])
      {
        out[nextOut + i] := bytes[i];
        assert out[nextOut..nextOut + i + 1] == out[nextOut..nextOut + i] + [bytes[i]];
        i := i + 1;
      }
      assert bytes[..i] == bytes;
      nextOut := nextOut + |bytes|;
      availOut := availOut - |bytes|;
      totalOut := totalOut + |bytes|;
      emitted := emitted + bytes;
    }

    /** Writes the three header bits behind the bits that are left in the bit buffer, and fills up the byte. */
    method PutHeaderBits()
      requires bb.Valid() && bb.bitCount < 8 && nextOut + availOut <= out.Length && availOut >= 8
      modifies `nextOut, `availOut, `totalOut, `emitted, out, bb, bb.out
      ensures bb.Valid() && bb.bitCount == 0 && nextOut <= old(nextOut) + 2 && nextOut + availOut == old(nextOut + availOut) && nextOut >= old(nextOut)
      ensures totalOut == old(totalOut) + (nextOut - old(nextOut)) && |emitted| - totalOut == old(|emitted| - totalOut)
      ensures bb.out == out
      ensures ByteBits(emitted) == old(Stream()) + BitsOf(if hasEobHdr then 1 else 0, 3) + BitsOf(0, PadLen(old(bb.bitCount) + 3))
    {
      hide *;
      StreamIs();
      ghost var bits, n, emitted0 := BitsOf(bb.bits, bb.bitCount), bb.bitCount, emitted;
      PutThree();
      FewBytes(n + 3);
      var used := bb.outBuf - bb.outStart;
      ghost var put := out[nextOut..bb.outBuf];
      ByteBitsConcat(emitted0, put);
      nextOut := nextOut + used;
      totalOut := totalOut + used;
      availOut := availOut - used;
      emitted := emitted0 + put;
      assert ByteBits(emitted0) + (bits + BitsOf(if hasEobHdr then 1 else 0, 3) + BitsOf(0, PadLen(n + 3)))
          == ByteBits(emitted0) + bits + BitsOf(if hasEobHdr then 1 else 0, 3) + BitsOf(0, PadLen(n + 3));
    }

    /** The three bits and the padding, in the bit buffer set to the output. */
    method PutThree()
      requires bb.Valid() && bb.bitCount < 8 && nextOut + availOut <= out.Length && availOut >= 8
      modifies out, bb, bb.out
      ensures bb.Valid() && bb.bitCount == 0 && bb.out == out && bb.outStart == nextOut && bb.outBuf == nextOut + (old(bb.bitCount) + 10) / 8 <= out.Length
      ensures ByteBits(out[nextOut..bb.outBuf]) == old(BitsOf(bb.bits, bb.bitCount)) + BitsOf(if hasEobHdr then 1 else 0, 3) + BitsOf(0, PadLen(old(bb.bitCount) + 3))
    {
      hide *;
      bb.SetBuf(out, nextOut, availOut);
      WriterParts();
      ghost var sent, bits, n := bb.sent, BitsOf(bb.bits, bb.bitCount), bb.bitCount;
      HeadBit(hasEobHdr);
      bb.WriteBitsUnsafe(if hasEobHdr then 1 else 0, 3);
      bb.Flush();
      WriterParts();
      FewBytes(n + 3);
      NoBits(bb.bits, bb.bitCount);
      SameTail(sent, bits, BitsOf(if hasEobHdr then 1 else 0, 3), BitsOf(0, PadLen(n + 3)), ByteBits(out[bb.outStart..bb.outBuf]));
    }

    /** Puts a block header out: five bytes at a byte boundary, otherwise its three bits behind those in the buffer. */
    method PutHead(copySize: nat) returns (room: bool)
      requires bb.Valid() && bb.bitCount < 8 && nextOut + availOut <= out.Length && copySize <= 65535
      modifies `nextOut, `availOut, `totalOut, `emitted, out, bb, bb.out
      ensures bb.Valid() && nextOut + availOut == old(nextOut + availOut) && nextOut >= old(nextOut) && totalOut - nextOut == old(totalOut - nextOut)
      ensures |emitted| - totalOut == old(|emitted| - totalOut)
      ensures bb.out == old(bb.out) || bb.out == out
      ensures room ==> bb.bitCount == 0 && Stream() == old(Stream()) + BlockHead(old(bb.bitCount), copySize, hasEobHdr)
      ensures !room ==> nextOut == old(nextOut) && availOut < 8 && emitted == old(emitted) && bb.bitCount == old(bb.bitCount) && bb.bits == old(bb.bits)
    {
      hide *;
      StreamIs();
      ghost var bit0, stream0 := bb.bitCount, Stream();
      room := true;
      if bb.bitCount == 0 && availOut >= 5 {
        HeadBytes(copySize, hasEobHdr);
        NoBits(bb.bits, bb.bitCount);
        ghost var emitted0 := emitted;
        PutBytes(LeBytes((if hasEobHdr then 1 else 0) + 256 * LenWord(copySize), 5));
        ByteBitsConcat(emitted0, LeBytes((if hasEobHdr then 1 else 0) + 256 * LenWord(copySize), 5));
        StreamIs();
      } else if availOut >= 8 {
        PutHeaderBits();
        LenBytes(copySize);
        ghost var emitted0 := emitted;
        PutBytes(LeBytes(LenWord(copySize), 4));
        ByteBitsConcat(emitted0, LeBytes(LenWord(copySize), 4));
        NoBits(bb.bits, bb.bitCount);
        HeadIs(bit0, copySize, hasEobHdr);
        HeadJoins(stream0, BitsOf(if hasEobHdr then 1 else 0, 3), BitsOf(0, PadLen(bit0 + 3)), BitsOf(copySize, 16), BitsOf(65535 - copySize, 16));
        StreamIs();
      } else {
        room := false;
      }
    }

    /** Writes the header of the next block, if there is room for it. */
    method WriteType0Header()
      requires Valid() && state == Type0Hdr
      modifies `state, `count, `hasEobHdr, `nextOut, `availOut, `totalOut, `emitted, bb, bb.out, out
      ensures Valid() && Stream() + Remaining() == old(Stream() + Remaining())
      ensures nextOut + availOut == old(nextOut + availOut) && nextOut >= old(nextOut) && totalOut - nextOut == old(totalOut - nextOut)
      ensures |emitted| - totalOut == old(|emitted| - totalOut)
      ensures bb.out == old(bb.out) || bb.out == out
      ensures if state == Type0Hdr then nextOut == old(nextOut) && availOut < 8 && emitted == old(emitted)
              else state == Type0Body && count == if blockEnd - blockNext > 65535 then 65535 else blockEnd - blockNext
    {
      hide *;
      ValidParts();
      StreamIs();
      RemainingHdr();
      MaxIs();
      FinalIs();
      ghost var final := Final();
      ghost var bit0, stream0, chunk := bb.bitCount, Stream(), data[blockNext..blockEnd];
      var blockInSize := blockEnd - blockNext;
      var copySize;
      if blockInSize > MAX_BLOCK {
        copySize := MAX_BLOCK;
      } else {
        copySize := blockInSize;
        if endOfStream && |data| - blockNext == blockInSize { hasEobHdr := true; }
      }
      var room := PutHead(copySize);
      if !room {
        hasEobHdr := false;
        NowValid();
        StreamIs();
        RemainingHdr();
        FinalIs();
        return;
      }
      state := Type0Body;
      count := copySize;
      FinalIs();
      NowValid();
      RemainingBody();
      BodyRemains(stream0, bit0, chunk, copySize, hasEobHdr, final);
      SliceParts(data, blockNext, count, blockEnd);
    }

    /** Copies what fits, and counts it off. */
    method MovePayload()
      requires nextOut + availOut <= out.Length && state == Type0Body && blockNext + count <= blockEnd <= |data|
      modifies `state, `count, `blockNext, `nextOut, `availOut, `totalOut, `emitted, out
      ensures old(blockNext) <= blockNext <= old(blockNext + count) && emitted == old(emitted) + data[old(blockNext)..blockNext]
      ensures nextOut + availOut == old(nextOut + availOut) && nextOut >= old(nextOut) && totalOut - nextOut == old(totalOut - nextOut)
      ensures |emitted| - totalOut == old(|emitted| - totalOut)
      ensures if blockNext < old(blockNext + count) then state == Type0Body && count == old(blockNext + count) - blockNext && availOut == 0
              else state == Type0Hdr && count == 0
    {
      var copySize, availIn := count, |data| - blockNext;
      if copySize > availOut || copySize > availIn {
        copySize := if availOut <= availIn then availOut else availIn;
        PutBytes(data[blockNext..blockNext + copySize]);
        count := count - copySize;
      } else {
        PutBytes(data[blockNext..blockNext + copySize]);
        count := 0;
        state := Type0Hdr;
      }
      blockNext := blockNext + copySize;
    }

    /** Copies payload bytes, as many as there is room for. */
    method CopyBody()
      requires Valid() && state == Type0Body
      modifies `state, `count, `blockNext, `nextOut, `availOut, `totalOut, `emitted, out
      ensures Valid() && Stream() + Remaining() == old(Stream() + Remaining()) && blockNext >= old(blockNext)
      ensures nextOut + availOut == old(nextOut + availOut) && nextOut >= old(nextOut) && totalOut - nextOut == old(totalOut - nextOut)
      ensures |emitted| - totalOut == old(|emitted| - totalOut)
      ensures state == Type0Body ==> availOut == 0 && count > 0
      ensures state == Type0Hdr ==> blockNext == old(blockNext + count) < blockEnd
    {
      hide *;
      ValidParts();
      RemainingBody();
      FinalIs();
      NoBits(bb.bits, bb.bitCount);
      StreamIs();
      RemainingAfter(blockNext + count);
      ghost var next0, count0, emitted0 := blockNext, count, emitted;
      MovePayload();
      if blockNext == blockEnd {
        state := if hasEobHdr then Trl else NewHdr;
      }
      FinalIs();
      StreamIs();
      NowValid();
      RemainingAfter(next0 + count0);
      CopyKeeps(emitted0, data, next0, blockNext - next0, count0, Tail(next0 + count0));
    }

    /** The blocks behind the current one. */
    ghost function Tail(p: nat): seq<bool>
      requires p <= |data| && blockEnd <= |data|
      reads `blockEnd
    {
      if p < blockEnd then Blocks(0, data[p..blockEnd], Final()) else []
    }

    lemma RemainingAfter(p: nat)
      requires Valid() && blockNext <= p <= blockEnd && bb.bitCount == 0
      requires (state == Type0Body && blockNext + count == p) || (state == Type0Hdr && blockNext == p < blockEnd)
               || ((state == Trl || state == NewHdr) && blockNext == p == blockEnd)
      ensures p <= |data| && blockEnd <= |data| && Remaining() == ByteBits(data[blockNext..p]) + Tail(p)
    {
      hide Blocks;
    }

    /** Writes stored blocks until the input is used up or the output is full, and gives the number of bytes left. */
    method WriteStoredBlock() returns (left: nat)
      requires Valid() && (state == Type0Hdr || state == Type0Body)
      modifies `state, `count, `hasEobHdr, `blockNext, `nextOut, `availOut, `totalOut, `emitted, bb, bb.out, out
      ensures Valid() && Stream() + Remaining() == old(Stream() + Remaining()) && left == blockEnd - blockNext
      ensures nextOut + availOut == old(nextOut + availOut) && nextOut >= old(nextOut) && totalOut - nextOut == old(totalOut - nextOut)
      ensures |emitted| - totalOut == old(|emitted| - totalOut)
      ensures bb.out == old(bb.out) || bb.out == out
      ensures state == Type0Hdr ==> availOut < 8
      ensures state == Type0Body ==> availOut == 0
      ensures state == Trl || state == NewHdr ==> left == 0 && Remaining() == []
    {
      hide *;
      ValidParts();
      var again := true;
      while again
        invariant Valid() && Stream() + Remaining() == old(Stream() + Remaining()) && blockNext <= blockEnd
        invariant nextOut + availOut == old(nextOut + availOut) && nextOut >= old(nextOut) && totalOut - nextOut == old(totalOut - nextOut)
        invariant |emitted| - totalOut == old(|emitted| - totalOut)
        invariant again ==> state == Type0Hdr || state == Type0Body
        invariant !again ==> (state == Type0Hdr ==> availOut < 8) && (state == Type0Body ==> availOut == 0)
        invariant bb.out == old(bb.out) || bb.out == out
        decreases blockEnd - blockNext, if again then (if state == Type0Body then 2 else 1) else 0
      {
        ValidParts();
        if state == Type0Hdr {
          WriteType0Header();
          if state == Type0Hdr { again := false; }
        }
        if again {
          CopyBody();
          again := state == Type0Hdr;
        }
        ValidParts();
      }
      ValidParts();
      left := blockEnd - blockNext;
      if state == Trl || state == NewHdr { RemainingNone(); ValidDone(); }
    }

    /** The caller supplies another output buffer. */
    method NextBuffer(buf: array<Byte>, from: nat, len: nat)
      requires Valid() && from + len <= buf.Length
      modifies `out, `nextOut, `availOut
      ensures Valid() && out == buf && nextOut == from && availOut == len && Stream() == old(Stream()) && Remaining() == old(Remaining())
    {
      hide *;
      ValidParts();
      RemainingIs();
      FinalIs();
      if state == Trl || state == NewHdr { ValidDone(); }
      out, nextOut, availOut := buf, from, len;
      FinalIs();
      NowValid();
      RemainingIs();
    }

    /** A series of calls with output buffers of any sizes. What has been written and what remains always make up the same
        bits; once the block is done, the output is that of a single call. It is done unless all room is used up, and in any
        case when there is room for all the bits. */
    method WriteInPieces(sizes: seq<nat>)
      requires Valid() && state == Type0Hdr
      modifies this, bb, bb.out, out
      ensures Valid() && Stream() + Remaining() == old(Stream()) + Blocks(old(bb.bitCount), data[old(blockNext)..old(blockEnd)], old(Final()))
      ensures state == Trl || state == NewHdr ==> Stream() == old(Stream()) + Blocks(old(bb.bitCount), data[old(blockNext)..old(blockEnd)], old(Final()))
      ensures state == Trl ==> endOfStream && |data| == blockEnd
      ensures state == Type0Hdr || state == Type0Body ==> totalOut >= old(totalOut) + Room(sizes)
      ensures 8 * Room(sizes) > old(bb.bitCount) + |Blocks(old(bb.bitCount), data[old(blockNext)..old(blockEnd)], old(Final()))| ==>
                state == Trl || state == NewHdr
    {
      hide *;
      ValidParts();
      NoRoom(sizes);
      StreamIs();
      RemainingHdr();
      ghost var whole := Stream() + Remaining();
      var i := 0;
      while i < |sizes| && (state == Type0Hdr || state == Type0Body)
        invariant 0 <= i <= |sizes| && Valid() && Stream() + Remaining() == whole
        invariant (bb.out == old(bb.out) || fresh(bb.out)) && (out == old(out) || fresh(out))
        invariant |emitted| - totalOut == old(|emitted| - totalOut)
        invariant state == Type0Hdr || state == Type0Body ==> totalOut >= old(totalOut) + Room(sizes[..i])
      {
        RoomNext(sizes, i);
        var buf := new Byte[sizes[i]];
        NextBuffer(buf, 0, sizes[i]);
        var _ := WriteStoredBlock();
        i := i + 1;
      }
      StreamIs();
      assert sizes[..|sizes|] == sizes;
      if state == Trl || state == NewHdr {
        RemainingNone();
        ValidDone();
        FinalIs();
      }
    }

    lemma ValidDone()
      requires Valid() && (state == Trl || state == NewHdr)
      ensures blockNext == blockEnd && (state == Trl <==> Final())
    {}

    lemma ValidParts()
      requires Valid()
      ensures blockNext <= blockEnd <= |data| && bb.Valid() && bb.bitCount < 8 && nextOut + availOut <= out.Length
      ensures state == Type0Hdr ==> !hasEobHdr
      ensures state == Type0Body ==> count <= 65535 && blockNext + count <= blockEnd && bb.bitCount == 0
                                     && hasEobHdr == (Final() && blockNext + count == blockEnd)
    {}

    lemma NowValid()
      requires blockNext <= blockEnd <= |data| && bb.Valid() && bb.bitCount < 8 && nextOut + availOut <= out.Length
      requires state == Type0Hdr ==> !hasEobHdr
      requires state == Type0Body ==> count <= 65535 && blockNext + count <= blockEnd && bb.bitCount == 0
                                      && hasEobHdr == (Final() && blockNext + count == blockEnd)
      requires state == Trl || state == NewHdr ==> blockNext == blockEnd && (state == Trl <==> Final())
      ensures Valid()
    {}

    lemma FinalIs()
      ensures Final() == (endOfStream && |data| == blockEnd)
    {}

    lemma RemainingHdr()
      requires Valid() && state == Type0Hdr
      ensures blockNext <= blockEnd <= |data| && Remaining() == Blocks(bb.bitCount, data[blockNext..blockEnd], Final())
    {}

    lemma RemainingBody()
      requires Valid() && state == Type0Body
      ensures blockNext + count <= blockEnd <= |data|
      ensures Remaining() == ByteBits(data[blockNext..blockNext + count])
                             + if blockNext + count < blockEnd then Blocks(0, data[blockNext + count..blockEnd], Final()) else []
    {}

    lemma RemainingNone()
      requires Valid() && (state == Trl || state == NewHdr)
      ensures Remaining() == []
    {}

    lemma WriterParts()
      requires bb.Valid()
      ensures bb.outStart <= bb.outBuf <= bb.out.Length
      ensures bb.Stream() == bb.sent + ByteBits(bb.out[bb.outStart..bb.outBuf]) + BitsOf(bb.bits, bb.bitCount)
      ensures bb.outStart == bb.outBuf ==> bb.Stream() == bb.sent + BitsOf(bb.bits, bb.bitCount)
    {
      if bb.outStart == bb.outBuf { assert bb.sent + ByteBits(bb.out[bb.outStart..bb.outBuf]) == bb.sent; }
    }

    lemma StreamIs()
      ensures Stream() == ByteBits(emitted) + BitsOf(bb.bits, bb.bitCount)
    {}
  }

  lemma HeadBit(b: bool)
    ensures (if b then 1 else 0) < Pow2(3)
  {}

  lemma FewBytes(n: nat)
    requires n <= 10
    ensures (n + 7) / 8 <= 2
  {}

  lemma NoBits(v: nat, n: nat)
    requires n == 0
    ensures BitsOf(v, n) == []
  {}

  lemma SameTail(s: seq<bool>, a: seq<bool>, b: seq<bool>, c: seq<bool>, d: seq<bool>)
    requires s + d + [] == s + a + b + c
    ensures d == a + b + c
  {
    assert s + a + b + c == s + (a + b + c) && s + d + [] == s + d;
    assert (s + d)[|s|..] == d && (s + (a + b + c))[|s|..] == a + b + c;
  }

  lemma SliceParts(data: seq<Byte>, a: nat, n: nat, b: nat)
    requires a + n <= b <= |data|
    ensures data[a..a + n] == data[a..b][..n] && data[a + n..b] == data[a..b][n..]
  {}

  lemma MaxIs()
    ensures MAX_BLOCK == 65535
  {}

  lemma HeadIs(r: nat, n: nat, final: bool)
    requires n <= 65535
    ensures BlockHead(r, n, final) == BitsOf(if final then 1 else 0, 3) + BitsOf(0, PadLen(r + 3)) + BitsOf(n, 16) + BitsOf(65535 - n, 16)
  {}

  lemma HeadJoins(s: seq<bool>, a: seq<bool>, b: seq<bool>, c: seq<bool>, d: seq<bool>)
    ensures s + a + b + (c + d) == s + (a + b + c + d)
  {}

  /** The blocks of a chunk start with a header for as much as fits one block. */
  lemma BlocksStep(r: nat, chunk: seq<Byte>, final: bool)
    ensures |chunk| <= 65535 ==> Blocks(r, chunk, final) == BlockHead(r, |chunk|, final) + ByteBits(chunk)
    ensures |chunk| > 65535 ==> Blocks(r, chunk, final) == BlockHead(r, 65535, false) + ByteBits(chunk[..65535]) + Blocks(0, chunk[65535..], final)
  {
    hide BlockHead, ByteBits;
  }

  lemma BodyRemains(s: seq<bool>, r: nat, chunk: seq<Byte>, n: nat, eob: bool, final: bool)
    requires n <= 65535 && n == (if |chunk| > 65535 then 65535 else |chunk|) && eob == (final && n == |chunk|)
    ensures s + BlockHead(r, n, eob) + (ByteBits(chunk[..n]) + if n < |chunk| then Blocks(0, chunk[n..], final) else []) == s + Blocks(r, chunk, final)
  {
    hide BlockHead, ByteBits, Blocks;
    BlocksStep(r, chunk, final);
    if |chunk| <= 65535 { assert chunk[..n] == chunk; }
  }

  lemma CopyKeeps(e: seq<Byte>, data: seq<Byte>, a: nat, k: nat, n: nat, tail: seq<bool>)
    requires k <= n && a + n <= |data|
    ensures ByteBits(e + data[a..a + k]) + [] + (ByteBits(data[a + k..a + n]) + tail) == ByteBits(e) + [] + (ByteBits(data[a..a + n]) + tail)
  {
    hide ByteBits;
    ByteBitsConcat(e, data[a..a + k]);
    ByteBitsConcat(data[a..a + k], data[a + k..a + n]);
    SliceJoins(data, a, a + k, a + n);
  }

  lemma SliceJoins(data: seq<Byte>, a: nat, b: nat, c: nat)
    requires a <= b <= c <= |data|
    ensures data[a..b] + data[b..c] == data[a..c]
  {}
}
