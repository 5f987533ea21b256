/** Writing a block header that has been made before, over output buffers of any sizes. */
module HeaderWrite {
  import opened Bits
  import opened BitStream
  import opened Header

  /** A header of hdrCount bytes and extraCount more bits, and the stream it goes to. With `toggle`, its first bit, the flag of
      the last block, is changed on the way. */
  class HeaderWriter {
    const bb: BitBuf2
    const hdr: seq<Byte>
    const hdrCount: nat
    const extraCount: nat
    const toggle: bool
    var count: nat
    var done: bool
    var hasEobHdr: bool
    var out: array<Byte>
    var nextOut: nat
    var availOut: nat
    var totalOut: nat

    constructor (bb: BitBuf2, hdr: seq<Byte>, hdrCount: nat, extraCount: nat, toggle: bool, hasEobHdr: bool, out: array<Byte>, nextOut: nat, availOut: nat)
      ensures this.bb == bb && this.hdr == hdr && this.hdrCount == hdrCount && this.extraCount == extraCount && this.toggle == toggle
      ensures this.hasEobHdr == hasEobHdr && this.out == out && this.nextOut == nextOut && this.availOut == availOut && count == 0 && !done
    {
      this.bb, this.hdr, this.hdrCount, this.extraCount, this.toggle := bb, hdr, hdrCount, extraCount, toggle;
      this.hasEobHdr, this.out, this.nextOut, this.availOut, totalOut, count, done := hasEobHdr, out, nextOut, availOut, 0, 0, false;
    }

    /** The bit to change is there. */
    ghost predicate Shape() {
      HeaderShape(hdr, hdrCount, extraCount) && (toggle ==> 0 < hdrCount + extraCount)
    }

    ghost predicate Valid()
      reads this, bb
    {
      Shape() && count <= hdrCount && bb.Valid() && bb.bitCount < 8 && nextOut + availOut <= out.Length
      && (count > 0 ==> bb.bitCount == 0) && (done ==> count == 0)
    }

    /** The bytes as they are written. */
    function Source(): (s: seq<Byte>)
      requires |hdr| > 0
      ensures |s| == |hdr|
    {
      if toggle && hdrCount > 0 then FirstFlipped(hdr) else hdr
    }

    /** The extra bits as they are written. */
    function Extra(): nat
      requires hdrCount < |hdr|
    {
      if toggle && hdrCount == 0 then Xor(hdr[0], 1) else hdr[hdrCount]
    }

    lemma ExtraFits()
      requires Shape()
      ensures Extra() < Pow2(extraCount)
    {
      if toggle && hdrCount == 0 {
        Pow2Values();
        Pow2Monotone(1, extraCount);
        XorBound(extraCount, hdr[0], 1);
      }
    }

    /** What is still to be written; bits left over are padded first. */
    ghost function Left(): seq<bool>
      requires Valid()
      reads this, bb
    {
      if done then [] else BitsOf(0, PadLen(bb.bitCount)) + ByteBits(Source()[count..hdrCount]) + BitsOf(Extra(), extraCount)
    }

    lemma Parts()
      requires Valid()
      ensures Shape() && hdrCount < |hdr| && extraCount < 8 && count <= hdrCount && bb.Valid() && bb.bitCount < 8 && nextOut + availOut <= out.Length
      ensures (count > 0 ==> bb.bitCount == 0) && (done ==> count == 0)
    {}

    lemma IsValid()
      requires Shape() && count <= hdrCount && bb.Valid() && bb.bitCount < 8 && nextOut + availOut <= out.Length
      requires (count > 0 ==> bb.bitCount == 0) && (done ==> count == 0)
      ensures Valid()
    {}

    lemma LeftIs()
      requires Valid()
      ensures Left() == if done then [] else BitsOf(0, PadLen(bb.bitCount)) + ByteBits(Source()[count..hdrCount]) + BitsOf(Extra(), extraCount)
    {}

    /** Moves the position over what the bit buffer has used. */
    method Take()
      requires bb.outStart <= bb.outBuf && bb.outBuf - bb.outStart <= availOut
      modifies `nextOut, `availOut, `totalOut
      ensures nextOut == old(nextOut) + (bb.outBuf - bb.outStart) && availOut == old(availOut) - (bb.outBuf - bb.outStart)
      ensures totalOut == old(totalOut) + (bb.outBuf - bb.outStart)
    {
      var used := bb.BufferUsed();
      nextOut := nextOut + used;
      availOut := availOut - used;
      totalOut := totalOut + used;
    }

    /** Pads the bits left over from before. */
    method PadOut()
      requires Valid() && !done && bb.bitCount > 0 && availOut >= 8
      modifies `nextOut, `availOut, `totalOut, bb, out
      ensures Valid() && bb.bitCount == 0 && bb.Stream() == old(bb.Stream()) + BitsOf(0, PadLen(old(bb.bitCount)))
      ensures nextOut == old(nextOut) + 1 && availOut == old(availOut) - 1 && totalOut == old(totalOut) + 1 && bb.Out() == old(bb.Out()) + 8
      ensures bb.out == out
    {
      hide *;
      Parts();
      bb.OutIs();
      OnePad(bb.bitCount);
      bb.SetBuf(out, nextOut, availOut);
      bb.Flush();
      bb.OutIs();
      bb.BufferParts();
      Take();
      IsValid();
    }

    /** Copies bytes to the output, without moving on. */
    method Copy(bytes: seq<Byte>)
      requires nextOut + |bytes| <= out.Length
      modifies out
      ensures out[nextOut..nextOut + |bytes|] == bytes
    {
      var i := 0;
      while i < |bytes|
        invariant 0 <= i <= |bytes| && out[nextOut..nextOut + i] == bytes[..i]
      {
        out[nextOut + i] := bytes[i];
        assert out[nextOut..nextOut + i + 1] == out[nextOut..nextOut + i] + [bytes[i]];
        i := i + 1;
      }
      assert bytes[..i] == bytes;
    }

    /** The next n bytes, the first of them changed if it is the first of all. */
    method CopyHeader(n: nat)
      requires count + n <= hdrCount < |hdr| && nextOut + n <= out.Length
      modifies out, `hasEobHdr
      ensures out[nextOut..nextOut + n] == Source()[count..count + n]
      ensures hasEobHdr == (old(hasEobHdr) != (toggle && count == 0 && n > 0))
    {
      hide *;
      Copy(hdr[count..count + n]);
      if toggle && count == 0 && n > 0 {
        ghost var copied := out[nextOut..nextOut + n];
        Flips(hdr, out[nextOut], copied, n);
        out[nextOut] := Xor(out[nextOut], 1);
        hasEobHdr := !hasEobHdr;
        assert out[nextOut..nextOut + n] == copied[0 := Xor(copied[0], 1)];
        SourceToggled();
      } else {
        SourceSame(n);
      }
    }

    lemma SourceToggled()
      requires toggle && hdrCount > 0 && |hdr| > 0
      ensures Source() == FirstFlipped(hdr)
    {}

    lemma SourceSame(n: nat)
      requires count + n <= hdrCount < |hdr| && !(toggle && count == 0 && n > 0)
      ensures Source()[count..count + n] == hdr[count..count + n]
    {
      hide Xor;
    }

    /** Copies as many whole bytes as there is room for. */
    method CopyBytes()
      requires Valid() && !done && bb.bitCount == 0
      modifies `count, `hasEobHdr, `nextOut, `availOut, `totalOut, bb, out
      ensures Valid() && bb.bitCount == 0 && count == (if hdrCount - old(count) > old(availOut) then old(count) + old(availOut) else hdrCount)
      ensures bb.Stream() == old(bb.Stream()) + ByteBits(Source()[old(count)..count])
      ensures nextOut - old(nextOut) == old(availOut) - availOut == totalOut - old(totalOut) == count - old(count) && bb.out == out
      ensures hdrCount > 0 ==> hasEobHdr == (old(hasEobHdr) != (toggle && old(count) == 0 && count > 0))
      ensures hdrCount == 0 ==> hasEobHdr == (old(hasEobHdr) != toggle)
    {
      hide *;
      Parts();
      bb.SetBuf(out, nextOut, availOut);
      bb.BufferParts();
      var n := hdrCount - count;
      if n != 0 {
        Pass(if n > availOut then availOut else n);
      } else {
        NoBytes(Source(), count);
        if toggle && hdrCount == 0 { hasEobHdr := !hasEobHdr; }
      }
      IsValid();
    }

    /** The next n bytes, past the bit buffer. */
    method Pass(n: nat)
      requires count + n <= hdrCount < |hdr| && n <= availOut && nextOut + availOut <= out.Length
      requires bb.Valid() && bb.bitCount == 0 && bb.outStart == bb.outBuf && bb.out == out
      modifies `count, `hasEobHdr, `nextOut, `availOut, `totalOut, bb`sent, out
      ensures count == old(count) + n && nextOut == old(nextOut) + n && availOut == old(availOut) - n && totalOut == old(totalOut) + n
      ensures bb.Valid() && bb.Stream() == old(bb.Stream()) + ByteBits(Source()[old(count)..count])
      ensures hasEobHdr == (old(hasEobHdr) != (toggle && old(count) == 0 && n > 0))
    {
      hide *;
      bb.AtStart();
      CopyHeader(n);
      bb.AtStart();
      bb.Passed(Source()[count..count + n]);
      nextOut := nextOut + n;
      availOut := availOut - n;
      totalOut := totalOut + n;
      count := count + n;
    }

    /** The extra bits. */
    method LastBits()
      requires Valid() && !done && bb.bitCount == 0 && count == hdrCount && availOut >= 8
      modifies `count, `done, `nextOut, `availOut, `totalOut, bb, out
      ensures Valid() && done && bb.Stream() == old(bb.Stream()) + BitsOf(Extra(), extraCount) && bb.Out() == old(bb.Out())
      ensures nextOut == old(nextOut) && availOut == old(availOut) && totalOut == old(totalOut)
      ensures bb.out == out && bb.outBuf == nextOut && bb.outEnd == nextOut + availOut - 8
    {
      hide *;
      Parts();
      ExtraFits();
      bb.OutIs();
      bb.SetBuf(out, nextOut, availOut);
      FewBits(extraCount);
      bb.WriteBits(Extra(), extraCount);
      bb.OutIs();
      bb.BufferParts();
      done := true;
      count := 0;
      Take();
      IsValid();
    }

    /** One call: writes as much of the header as there is room for, and is done unless fewer than eight bytes are free. */
    method Write()
      requires Valid() && !done
      modifies `count, `done, `hasEobHdr, `nextOut, `availOut, `totalOut, bb, out
      ensures Valid() && bb.Stream() + Left() == old(bb.Stream() + Left()) && (bb.out == out || bb.out == old(bb.out))
      ensures nextOut >= old(nextOut) && nextOut - old(nextOut) == old(availOut) - availOut == totalOut - old(totalOut)
      ensures bb.Out() == old(bb.Out()) + 8 * (nextOut - old(nextOut)) && (!done ==> availOut < 8)
      ensures done ==> availOut >= 8 && bb.out == out && bb.outBuf == nextOut && bb.outEnd == nextOut + availOut - 8
      ensures hdrCount > 0 ==> hasEobHdr == (old(hasEobHdr) != (toggle && old(count) == 0 && (done || count > 0)))
      ensures !done ==> count >= old(count)
    {
      hide *;
      Parts();
      if bb.bitCount != 0 {
        if availOut < 8 { return; }
        Align();
      }
      WriteAligned();
    }

    /** Gets to a byte boundary. */
    method Align()
      requires Valid() && !done && bb.bitCount > 0 && availOut >= 8
      modifies `nextOut, `availOut, `totalOut, bb, out
      ensures Valid() && bb.bitCount == 0 && bb.Stream() + Left() == old(bb.Stream() + Left()) && bb.out == out
      ensures nextOut == old(nextOut) + 1 && availOut == old(availOut) - 1 && totalOut == old(totalOut) + 1 && bb.Out() == old(bb.Out()) + 8
    {
      hide *;
      Parts();
      LeftIs();
      ghost var stream0, pad := bb.Stream(), BitsOf(0, PadLen(bb.bitCount));
      PadOut();
      Parts();
      LeftIs();
      PadNothing();
      Joins(stream0, pad, ByteBits(Source()[count..hdrCount]), BitsOf(Extra(), extraCount));
    }

    /** The same at a byte boundary. */
    method WriteAligned()
      requires Valid() && !done && bb.bitCount == 0
      modifies `count, `done, `hasEobHdr, `nextOut, `availOut, `totalOut, bb, out
      ensures Valid() && bb.Stream() + Left() == old(bb.Stream() + Left()) && bb.out == out
      ensures nextOut >= old(nextOut) && nextOut - old(nextOut) == old(availOut) - availOut == totalOut - old(totalOut)
      ensures bb.Out() == old(bb.Out()) + 8 * (nextOut - old(nextOut)) && (!done ==> availOut < 8)
      ensures done ==> availOut >= 8 && bb.outBuf == nextOut && bb.outEnd == nextOut + availOut - 8
      ensures hdrCount > 0 ==> hasEobHdr == (old(hasEobHdr) != (toggle && old(count) == 0 && (done || count > 0)))
      ensures !done ==> count >= old(count)
    {
      hide *;
      CopyOn();
      Finish();
    }

    /** The whole bytes, as many as there is room for. */
    method CopyOn()
      requires Valid() && !done && bb.bitCount == 0
      modifies `count, `hasEobHdr, `nextOut, `availOut, `totalOut, bb, out
      ensures Valid() && bb.bitCount == 0 && bb.Stream() + Left() == old(bb.Stream() + Left()) && bb.out == out
      ensures count >= old(count) && (count == hdrCount || availOut == 0)
      ensures nextOut - old(nextOut) == old(availOut) - availOut == totalOut - old(totalOut) == count - old(count)
      ensures bb.Out() == old(bb.Out()) + 8 * (nextOut - old(nextOut))
      ensures hdrCount > 0 ==> hasEobHdr == (old(hasEobHdr) != (toggle && old(count) == 0 && count > 0))
    {
      hide *;
      Parts();
      bb.OutIs();
      LeftIs();
      PadNothing();
      ghost var i, stream0 := count, bb.Stream();
      CopyBytes();
      Parts();
      bb.OutIs();
      LeftIs();
      BytesSplit(Source(), i, count, hdrCount);
      JoinsMiddle(stream0, ByteBits(Source()[i..count]), ByteBits(Source()[count..hdrCount]), BitsOf(Extra(), extraCount));
    }

    /** The extra bits, once all bytes are out. */
    method Finish()
      requires Valid() && !done && bb.bitCount == 0 && bb.out == out
      modifies `count, `done, `nextOut, `availOut, `totalOut, bb, out
      ensures Valid() && bb.Stream() + Left() == old(bb.Stream() + Left()) && bb.Out() == old(bb.Out()) && bb.out == out
      ensures nextOut == old(nextOut) && availOut == old(availOut) && totalOut == old(totalOut)
      ensures done == (old(count) == hdrCount && availOut >= 8) && (!done ==> count == old(count))
      ensures done ==> bb.outBuf == nextOut && bb.outEnd == nextOut + availOut - 8
    {
      hide *;
      Parts();
      if count == hdrCount && availOut >= 8 {
        LeftIs();
        PadNothing();
        NoBytes(Source(), hdrCount);
        LastBits();
        LeftIs();
      }
    }

    /** Goes on in another output buffer. */
    method NextBuffer(size: nat)
      requires Valid()
      modifies `out, `nextOut, `availOut
      ensures Valid() && fresh(out) && nextOut == 0 && availOut == size && Left() == old(Left())
    {
      hide *;
      Parts();
      LeftIs();
      out, nextOut, availOut := new Byte[size](_ => 0), 0, size;
      IsValid();
      LeftIs();
    }

    /** A call in the buffer at hand and further ones in buffers of any sizes: written and unwritten bits together stay the
        same, and whatever room there is gets used. Tells how many of the further buffers were taken. */
    method WriteInPieces(sizes: seq<nat>) returns (i: nat)
      requires Valid() && !done
      modifies `count, `done, `hasEobHdr, `out, `nextOut, `availOut, `totalOut, bb, out
      ensures Valid() && bb.Stream() + Left() == old(bb.Stream() + Left()) && (bb.out == old(out) || bb.out == old(bb.out) || fresh(bb.out))
      ensures i <= |sizes| && (!done ==> i == |sizes| && bb.Out() >= old(bb.Out()) + 8 * Room(sizes))
      ensures done ==> availOut >= 8 && bb.outBuf <= bb.out.Length && bb.outBuf + availOut == bb.outEnd + 8
      ensures done ==> bb.Out() + 8 * availOut - 56 >= old(bb.Out()) + 8 * Room(sizes[..i])
      ensures hdrCount > 0 ==> hasEobHdr == (old(hasEobHdr) != (toggle && old(count) == 0 && (done || count > 0)))
    {
      hide *;
      Parts();
      NoRoom(sizes);
      Write();
      Parts();
      i := 0;
      while i < |sizes| && !done
        invariant 0 <= i <= |sizes| && Valid() && bb.Valid() && bb.Stream() + Left() == old(bb.Stream() + Left())
        invariant hdrCount > 0 ==> hasEobHdr == (old(hasEobHdr) != (toggle && old(count) == 0 && (done || count > 0)))
        invariant !done ==> count >= old(count)
        invariant (out == old(out) || fresh(out)) && (bb.out == old(out) || bb.out == old(bb.out) || fresh(bb.out))
        invariant !done ==> bb.Out() >= old(bb.Out()) + 8 * Room(sizes[..i])
        invariant done ==> availOut >= 8 && bb.outBuf == nextOut && bb.outEnd == nextOut + availOut - 8 && bb.out == out
        invariant done ==> bb.Out() + 8 * availOut - 56 >= old(bb.Out()) + 8 * Room(sizes[..i])
      {
        RoomNext(sizes, i);
        NextBuffer(sizes[i]);
        Parts();
        Write();
        Parts();
        i := i + 1;
      }
      assert sizes[..|sizes|] == sizes;
      Parts();
    }

    /** What is written in all at a byte boundary: the bits of the header, with the first one changed if asked for. */
    lemma WholeHeader()
      requires Valid() && !done && count == 0 && bb.bitCount == 0 && 8 * hdrCount + extraCount > 0
      ensures hdrCount < |hdr| && Left() == ByteBits(if toggle then FirstFlipped(hdr) else hdr)[..8 * hdrCount + extraCount]
    {
      hide *;
      Parts();
      LeftIs();
      PadNothing();
      var bytes := if toggle then FirstFlipped(hdr) else hdr;
      assert Source()[0..hdrCount] == bytes[..hdrCount] && Extra() == bytes[hdrCount] by { SourceIs(); }
      FrontBits(bytes, hdrCount, extraCount);
    }

    lemma Begins()
      requires HeaderShape(hdr, hdrCount, extraCount) && hdrCount > 0 && count == 0 && !done && bb.Valid() && bb.bitCount == 0 && nextOut + availOut <= out.Length
      ensures Valid()
    {}

    lemma NotToggled()
      requires hdrCount < |hdr| && extraCount < 8 && hdr[hdrCount] < Pow2(extraCount) && count == 0 && !toggle && !done
      requires bb.Valid() && bb.bitCount == 0 && nextOut + availOut <= out.Length
      ensures Valid() && Left() == ByteBits(hdr[..hdrCount]) + BitsOf(hdr[hdrCount], extraCount)
    {
      hide BitsOf, ByteBits, Pow2;
      PadNothing();
      assert hdr[0..hdrCount] == hdr[..hdrCount];
    }

    lemma SourceIs()
      requires hdrCount < |hdr|
      ensures Source()[0..hdrCount] == (if toggle then FirstFlipped(hdr) else hdr)[..hdrCount]
      ensures Extra() == (if toggle then FirstFlipped(hdr) else hdr)[hdrCount]
    {
      hide Xor;
    }
  }

  /** The bits up to a place inside a byte. */
  lemma FrontBits(bytes: seq<Byte>, k: nat, e: nat)
    requires k < |bytes| && e < 8
    ensures ByteBits(bytes)[..8 * k + e] == ByteBits(bytes[..k]) + BitsOf(bytes[k], e)
  {
    hide *;
    assert bytes == bytes[..k] + ([bytes[k]] + bytes[k + 1..]);
    ByteBitsConcat(bytes[..k], [bytes[k]] + bytes[k + 1..]);
    ByteBitsConcat([bytes[k]], bytes[k + 1..]);
    OneByte(bytes[k]);
    BitsOfSplit(bytes[k], e, 8 - e);
    Cut(ByteBits(bytes[..k]), BitsOf(bytes[k], e), BitsOf(Shr(bytes[k], e), 8 - e), ByteBits(bytes[k + 1..]), 8 * k + e);
  }

  lemma Cut(a: seq<bool>, b: seq<bool>, c: seq<bool>, d: seq<bool>, n: nat)
    requires n == |a| + |b|
    ensures (a + (b + c + d))[..n] == a + b
  {}

  lemma Joins(s: seq<bool>, a: seq<bool>, b: seq<bool>, e: seq<bool>)
    ensures s + a + ([] + b + e) == s + (a + b + e)
  {}

  lemma JoinsMiddle(s: seq<bool>, a: seq<bool>, b: seq<bool>, e: seq<bool>)
    ensures s + a + ([] + b + e) == s + ([] + (a + b) + e)
  {}

  lemma PadNothing()
    ensures BitsOf(0, PadLen(0)) == []
  {
    hide *;
    PadFills(0);
    BitsOfNothing(0);
  }

  lemma BytesSplit(s: seq<Byte>, i: nat, j: nat, n: nat)
    requires i <= j <= n <= |s|
    ensures ByteBits(s[i..n]) == ByteBits(s[i..j]) + ByteBits(s[j..n])
  {
    assert s[i..n] == s[i..j] + s[j..n];
    ByteBitsConcat(s[i..j], s[j..n]);
  }

  lemma FewBits(n: nat)
    requires n < 8
    ensures n / 8 == 0 && n % 8 == n
  {}

  lemma OnePad(n: nat)
    requires 0 < n < 8
    ensures (n + 7) / 8 == 1 && n + PadLen(n) == 8
  {}

  lemma NoBytes(s: seq<Byte>, i: nat)
    requires i <= |s|
    ensures ByteBits(s[i..i]) == []
  {}

  /** Changing the first byte copied is copying from the changed bytes. */
  lemma Flips(hdr: seq<Byte>, b: Byte, copied: seq<Byte>, n: nat)
    requires 0 < n <= |hdr| && copied == hdr[..n] && b == copied[0]
    ensures Xor(b, 1) < 256 && copied[0 := Xor(b, 1)] == FirstFlipped(hdr)[..n]
  {
    Pow2Values();
    XorBound(8, b, 1);
    hide Xor, Pow2;
  }
}
