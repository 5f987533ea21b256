/** Bit strings, least significant bit first, and the bit buffer that packs them into bytes. */
module BitStream {
  import opened Bits

  /** The n low bits of v, least significant first. */
  function BitsOf(v: nat, n: nat): (bs: seq<bool>)
    ensures |bs| == n
  {
    if n == 0 then [] else [v % 2 == 1] + BitsOf(v / 2, n - 1)
  }

  /** The number whose bits these are. */
  function ValueOf(bs: seq<bool>): nat {
    if |bs| == 0 then 0 else (if bs[0] then 1 else 0) + 2 * ValueOf(bs[1..])
  }

  lemma {:induction false} ValueOfBits(v: nat, n: nat)
    requires v < Pow2(n)
    ensures ValueOf(BitsOf(v, n)) == v
  {
    if n > 0 {
      ValueOfBits(v / 2, n - 1);
      assert BitsOf(v, n)[1..] == BitsOf(v / 2, n - 1);
    }
  }

  lemma {:induction false} BitsOfValue(bs: seq<bool>)
    ensures BitsOf(ValueOf(bs), |bs|) == bs && ValueOf(bs) < Pow2(|bs|)
  {
    if |bs| > 0 {
      BitsOfValue(bs[1..]);
      assert bs == [bs[0]] + bs[1..];
    }
  }

  /** Shifts right by m bits. */
  function Shr(v: nat, m: nat): nat {
    if m == 0 then v else Shr(v / 2, m - 1)
  }

  /** The low m bits, then the next n. */
  lemma {:induction false} BitsOfSplit(v: nat, m: nat, n: nat)
    ensures BitsOf(v, m + n) == BitsOf(v, m) + BitsOf(Shr(v, m), n)
  {
    if m > 0 { BitsOfSplit(v / 2, m - 1, n); }
  }

  lemma {:induction false} ShrAdd(v: nat, m: nat, n: nat)
    ensures Shr(Shr(v, m), n) == Shr(v, m + n)
  {
    if m > 0 { ShrAdd(v / 2, m - 1, n); }
  }

  /** Shifting undoes multiplication by a power of two. */
  lemma {:induction false} ShrProduct(a: nat, m: nat, b: nat)
    requires a < Pow2(m)
    ensures Shr(a + b * Pow2(m), m) == b
  {
    hide Pow2, Shr;
    if m == 0 {
      ShrNone(b);
    } else {
      var c := b * Pow2(m - 1);
      ShrHalf(a, m, b, c);
      ShrProduct(a / 2, m - 1, b);
      ShrNext(a + 2 * c, m);
    }
  }

  lemma ShrNone(b: nat)
    ensures Shr(b, 0) == b && Pow2(0) == 1
  {}

  lemma ShrNext(v: nat, m: nat)
    requires m > 0
    ensures Shr(v, m) == Shr(v / 2, m - 1)
  {}

  lemma ShrHalf(a: nat, m: nat, b: nat, c: nat)
    requires m > 0 && a < Pow2(m) && c == b * Pow2(m - 1)
    ensures b * Pow2(m) == 2 * c && (a + 2 * c) / 2 == a / 2 + c && a / 2 < Pow2(m - 1)
  {
    Doubled(b, Pow2(m - 1));
  }

  lemma Doubled(b: nat, p: nat)
    ensures b * (2 * p) == 2 * (b * p)
  {}

  lemma {:induction false} ShrBound(v: nat, m: nat, n: nat)
    requires v < Pow2(m + n)
    ensures Shr(v, m) < Pow2(n)
  {
    if m > 0 { ShrBound(v / 2, m - 1, n); }
  }

  /** Two numbers side by side. */
  lemma BitsOfConcat(a: nat, m: nat, b: nat, n: nat)
    requires a < Pow2(m)
    ensures BitsOf(a + b * Pow2(m), m + n) == BitsOf(a, m) + BitsOf(b, n)
  {
    hide Pow2, BitsOf;
    BitsOfSplit(a + b * Pow2(m), m, n);
    ShrProduct(a, m, b);
    BitsOfSum(a, m, b);
  }

  lemma {:induction false} BitsOfSum(a: nat, m: nat, b: nat)
    ensures BitsOf(a + b * Pow2(m), m) == BitsOf(a, m)
  {
    if m > 0 {
      var c := b * Pow2(m - 1);
      assert b * Pow2(m) == 2 * c;
      assert (a + 2 * c) / 2 == a / 2 + c && (a + 2 * c) % 2 == a % 2;
      BitsOfSum(a / 2, m - 1, b);
    }
  }

  lemma ByteOf(v: nat)
    ensures BitsOf(v, 8) == BitsOf(v % 256, 8) && Shr(v, 8) == v / 256
  {
    Pow2Values();
    hide Pow2, BitsOf, Shr;
    BitsOfSum(v % 256, 8, v / 256);
    ShrProduct(v % 256, 8, v / 256);
  }

  /** Bitwise or. */
  function Or(a: nat, b: nat): nat
    decreases a + b
  {
    if a == 0 && b == 0 then 0 else 2 * Or(a / 2, b / 2) + (if a % 2 == 1 || b % 2 == 1 then 1 else 0)
  }

  lemma {:induction false} OrZero(b: nat)
    ensures Or(0, b) == b && Or(b, 0) == b
  {
    if b > 0 { OrZero(b / 2); }
  }

  /** Or adds when the operands have no common bits. */
  lemma {:induction false} OrDisjoint(a: nat, n: nat, b: nat)
    requires a < Pow2(n)
    ensures Or(a, b * Pow2(n)) == a + b * Pow2(n)
  {
    hide Or;
    if n == 0 {
      OrZero(b);
    } else {
      OrDisjoint(a / 2, n - 1, b);
      OrStep(a, b * Pow2(n - 1));
      DoubleShift(b, Pow2(n - 1));
    }
  }

  lemma DoubleShift(b: nat, p: nat)
    ensures b * (2 * p) == 2 * (b * p)
  {}

  lemma OrStep(a: nat, c: nat)
    requires Or(a / 2, c) == a / 2 + c
    ensures Or(a, 2 * c) == a + 2 * c
  {
    assert 2 * c / 2 == c;
  }

  // -- bytes

  function LeBytes(v: nat, n: nat): (bs: seq<Byte>)
    ensures |bs| == n
  {
    if n == 0 then [] else [v % 256] + LeBytes(v / 256, n - 1)
  }

  function ByteBits(bs: seq<Byte>): (r: seq<bool>)
    ensures |r| == 8 * |bs|
  {
    if |bs| == 0 then [] else ByteBits(bs[..|bs| - 1]) + BitsOf(bs[|bs| - 1], 8)
  }

  lemma {:induction false} ByteBitsConcat(a: seq<Byte>, b: seq<Byte>)
    ensures ByteBits(a + b) == ByteBits(a) + ByteBits(b)
  {
    hide BitsOf;
    if |b| == 0 {
      assert a + b == a;
    } else {
      var n := |b| - 1;
      ByteBitsConcat(a, b[..n]);
      assert (a + b)[..|a + b| - 1] == a + b[..n];
    }
  }

  lemma {:induction false} ByteBitsOfLe(v: nat, n: nat)
    ensures ByteBits(LeBytes(v, n)) == BitsOf(v, 8 * n)
  {
    hide BitsOf;
    if n == 0 {
      BitsOfNothing(v);
    } else {
      ByteBitsOfLe(v / 256, n - 1);
      ByteBitsConcat([v % 256], LeBytes(v / 256, n - 1));
      OneByte(v % 256);
      BitsOfSplit(v, 8, 8 * (n - 1));
      ByteOf(v);
    }
  }

  lemma BitsOfNothing(v: nat)
    ensures BitsOf(v, 0) == []
  {}

  lemma OneByte(b: Byte)
    ensures ByteBits([b]) == BitsOf(b, 8)
  {
    assert [b][..0] == [];
  }

  lemma {:induction false} LeBytesPrefix(v: nat, k: nat, n: nat)
    requires k <= n
    ensures LeBytes(v, n)[..k] == LeBytes(v, k)
  {
    if k > 0 { LeBytesPrefix(v / 256, k - 1, n - 1); }
  }

  lemma {:induction false} LeBytesAt(v: nat, k: nat, n: nat)
    requires k < n
    ensures LeBytes(v, n)[k] == Shr(v, 8 * k) % 256
  {
    hide *;
    LeBytesStep(v, n);
    if k == 0 {
      ShrNone(v);
    } else {
      LeBytesAt(v / 256, k - 1, n - 1);
      ShrAdd(v, 8, 8 * (k - 1));
      ByteOf(v);
    }
  }

  // -- output buffers of given sizes

  /** How many bytes are surely used of buffers that are left when fewer than eight bytes are free. */
  function Room(sizes: seq<nat>): nat {
    if |sizes| == 0 then 0 else Room(sizes[..|sizes| - 1]) + if sizes[|sizes| - 1] >= 8 then sizes[|sizes| - 1] - 7 else 0
  }

  lemma NoRoom(sizes: seq<nat>)
    ensures Room(sizes[..0]) == 0
  {}

  lemma RoomNext(sizes: seq<nat>, i: nat)
    requires i < |sizes|
    ensures Room(sizes[..i + 1]) == Room(sizes[..i]) + if sizes[i] >= 8 then sizes[i] - 7 else 0
  {
    assert sizes[..i + 1][..i] == sizes[..i];
  }

  lemma {:induction false} RoomSplit(sizes: seq<nat>, i: nat)
    requires i <= |sizes|
    ensures Room(sizes) == Room(sizes[..i]) + Room(sizes[i..])
    decreases |sizes|
  {
    if i == |sizes| {
      assert sizes[..i] == sizes;
    } else {
      var front := sizes[..|sizes| - 1];
      RoomSplit(front, i);
      assert front[..i] == sizes[..i] && sizes[i..][..|sizes| - 1 - i] == front[i..];
    }
  }

  // -- the bit buffer

  /** Packs bits into bytes. `outBuf` and `outEnd` index `out`, as m_out_buf and m_out_end point into the output; `sent` is
      what went into earlier output buffers. */
  class BitBuf2 {
    var out: array<Byte>
    var outStart: nat
    var outBuf: nat
    var outEnd: int
    var bits: nat
    var bitCount: nat
    ghost var sent: seq<bool>

    ghost predicate Valid()
      reads this
    {
      outStart <= outBuf <= out.Length && outEnd + 8 <= out.Length && bitCount < 64 && bits < Pow2(bitCount)
    }

    /** Everything written so far. */
    ghost function Stream(): seq<bool>
      requires Valid()
      reads this, out
    {
      sent + ByteBits(out[outStart..outBuf]) + BitsOf(bits, bitCount)
    }

    predicate IsFull()
      reads this
    {
      outBuf > outEnd
    }

    /** The byte at the position holds the bits that are left. */
    predicate Settled()
      reads `outBuf, `bits, `out, out
    {
      outBuf < out.Length && out[outBuf] == bits
    }

    /** The bits of all whole bytes written. */
    ghost function Out(): int
      requires Valid()
      reads this, out
    {
      |Stream()| - bitCount
    }

    /** Bytes have gone to the output past the empty bit buffer. */
    ghost method Passed(bytes: seq<Byte>)
      requires Valid() && bitCount == 0 && outStart == outBuf
      modifies `sent
      ensures Valid() && Stream() == old(Stream()) + ByteBits(bytes)
    {
      BitsOfNothing(bits);
      assert out[outStart..outBuf] == [];
      sent := sent + ByteBits(bytes);
    }

    function BufferUsed(): nat
      requires outStart <= outBuf
      reads this
    {
      outBuf - outStart
    }

    constructor ()
      ensures Valid() && Stream() == [] && bitCount == 0 && fresh(out)
    {
      out, outStart, outBuf, outEnd, bits, bitCount, sent := new Byte[0], 0, 0, -8, 0, 0, [];
    }

    /** Continues in another output buffer; the bits not yet written out are kept. */
    method SetBuf(buf: array<Byte>, from: nat, len: nat)
      requires Valid() && from + len <= buf.Length
      modifies this
      ensures Valid() && Stream() == old(Stream()) && out == buf && outStart == outBuf == from && outEnd == from + len - 8
      ensures bitCount == old(bitCount) && bits == old(bits)
    {
      sent := sent + ByteBits(out[outStart..outBuf]);
      out, outStart, outBuf, outEnd := buf, from, from, from + len - 8;
    }

    /** Adds bits without moving any to the output. */
    method WriteBitsUnsafe(code: nat, count: nat)
      requires Valid() && code < Pow2(count) && bitCount + count < 64
      modifies `bits, `bitCount
      ensures Valid() && Stream() == old(Stream()) + BitsOf(code, count) && bitCount == old(bitCount) + count
    {
      hide *;
      BufferParts();
      OrDisjoint(bits, bitCount, code);
      BitsOfConcat(bits, bitCount, code, count);
      SumBound(bits, bitCount, code, count);
      bits := Or(bits, code * Pow2(bitCount));
      bitCount := bitCount + count;
      StreamIs();
    }

    /** Moves all whole bytes to the output. Eight bytes are stored, whatever the number of bits. */
    method FlushBits()
      requires Valid() && outBuf + 8 <= out.Length
      modifies `bits, `bitCount, `outBuf, out
      ensures Valid() && Stream() == old(Stream()) && bitCount == old(bitCount) % 8 && outBuf == old(outBuf) + old(bitCount) / 8
      ensures out[..old(outBuf)] == old(out[..outBuf]) && 8 * outBuf + bitCount == old(8 * outBuf + bitCount) && Settled()
    {
      hide *;
      BufferParts();
      ghost var was, pos, k, v := out[..], outBuf, bitCount / 8, bits;
      StoreU64(out, outBuf, bits);
      RestAt(out[..], pos, v, k, bitCount);
      ShrBound(bits, bitCount / 8 * 8, bitCount - bitCount / 8 * 8);
      LeBytesPrefix(bits, k, 8);
      var whole := bitCount / 8 * 8;
      bitCount := bitCount - whole;
      outBuf := outBuf + whole / 8;
      bits := Shr(bits, whole);
      Flushed(sent, was, out[..], outStart, pos, k, v, bitCount + whole);
      StreamIs();
      SettledIs();
    }

    lemma OutIs()
      requires Valid()
      ensures Out() == |Stream()| - bitCount == |sent| + 8 * (outBuf - outStart)
    {}

    /** A stream whose buffer has just been set does not depend on the output. */
    lemma AtStart()
      requires Valid() && outStart == outBuf
      ensures Stream() == sent + BitsOf(bits, bitCount)
    {
      assert out[outStart..outBuf] == [];
    }

    lemma SettledAt()
      requires Settled()
      ensures outBuf < out.Length && out[outBuf] == bits
    {}

    lemma SettledIs()
      requires outBuf < out.Length && out[outBuf] == bits
      ensures Settled()
    {}

    lemma BufferParts()
      requires Valid()
      ensures outStart <= outBuf <= out.Length && outEnd + 8 <= out.Length && bitCount < 64 && bits < Pow2(bitCount)
      ensures Stream() == sent + ByteBits(out[outStart..outBuf]) + BitsOf(bits, bitCount)
    {}

    lemma StreamIs()
      requires outStart <= outBuf <= out.Length && outEnd + 8 <= out.Length && bitCount < 64 && bits < Pow2(bitCount)
      ensures Valid() && Stream() == sent + ByteBits(out[outStart..outBuf]) + BitsOf(bits, bitCount)
    {}

    /** Adds bits and moves the whole bytes to the output. */
    method WriteBits(code: nat, count: nat)
      requires Valid() && code < Pow2(count) && bitCount + count < 64 && outBuf + 8 <= out.Length
      modifies `bits, `bitCount, `outBuf, out
      ensures Valid() && Stream() == old(Stream()) + BitsOf(code, count)
      ensures bitCount == (old(bitCount) + count) % 8 && outBuf == old(outBuf) + (old(bitCount) + count) / 8
      ensures out[..old(outBuf)] == old(out[..outBuf]) && 8 * outBuf + bitCount == old(8 * outBuf + bitCount) + count && Settled()
    {
      WriteBitsUnsafe(code, count);
      FlushBits();
    }

    /** Pads with zero bits to a byte boundary and writes everything out. */
    method Flush()
      requires Valid() && (bitCount > 0 ==> outBuf + 8 <= out.Length)
      modifies `bits, `bitCount, `outBuf, out
      ensures Valid() && bitCount == 0 && Stream() == old(Stream()) + BitsOf(0, PadLen(old(bitCount)))
      ensures outBuf == old(outBuf) + (old(bitCount) + 7) / 8 && out[..old(outBuf)] == old(out[..outBuf])
      ensures old(bitCount < 8 && Settled()) ==> out[old(outBuf)] == old(bits)
    {
      hide *;
      BufferParts();
      if Settled() { SettledAt(); }
      PadFills(bitCount);
      ghost var v := bits;
      if bitCount != 0 {
        StorePadded();
      } else {
        BitsOfNothing(bits);
        BitsOfNothing(0);
      }
      ghost var bytes := out[..];
      bits, bitCount := 0, 0;
      assert out[..] == bytes;
      PowZero();
      BitsOfNothing(0);
      StreamIs();
    }

    /** Stores the bits that are left, and zeros behind them. */
    method StorePadded()
      requires Valid() && bitCount > 0 && outBuf + 8 <= out.Length
      modifies `outBuf, out
      ensures outBuf == old(outBuf) + (bitCount + 7) / 8 <= out.Length && out[..old(outBuf)] == old(out[..outBuf])
      ensures outStart <= outBuf && sent + ByteBits(out[outStart..outBuf]) == old(Stream()) + BitsOf(0, PadLen(bitCount))
      ensures bitCount < 8 ==> out[old(outBuf)] == bits
    {
      hide *;
      BufferParts();
      ghost var was, pos, k, v, n := out[..], outBuf, (bitCount + 7) / 8, bits, bitCount;
      PadFills(n);
      StoreU64(out, outBuf, bits);
      if n < 8 {
        RestAt(out[..], pos, v, 0, n);
        ShrNone(v);
      }
      var bytes := (bitCount + 7) / 8;
      outBuf := outBuf + bytes;
      LeBytesPrefix(bits, k, 8);
      Padded(sent, was, out[..], outStart, pos, k, v, n, PadLen(n));
    }
  }

  /** The byte behind the whole bytes of a stored word holds the bits that are left. */
  lemma RestAt(out: seq<Byte>, pos: nat, v: nat, k: nat, n: nat)
    requires pos + 8 <= |out| && out[pos..pos + 8] == LeBytes(v, 8) && n < 64 && k == n / 8 && v < Pow2(n)
    ensures out[pos + k] == Shr(v, 8 * k)
  {
    hide *;
    assert out[pos..pos + 8][k] == out[pos + k];
    LeBytesAt(v, k, 8);
    ShrBound(v, 8 * k, n - 8 * k);
    SmallByte(n - 8 * k, Shr(v, 8 * k));
  }

  lemma SmallByte(n: nat, v: nat)
    requires n < 8 && v < Pow2(n)
    ensures v % 256 == v
  {
    Pow2Monotone(n, 8);
    Pow2Values();
  }

  /** How many bits are missing to a whole byte. */
  function PadLen(n: nat): nat { (8 - n % 8) % 8 }

  lemma PadFills(n: nat)
    ensures 8 * ((n + 7) / 8) == n + PadLen(n) && (n == 0 ==> PadLen(n) == 0)
  {}

  lemma PowZero()
    ensures Pow2(0) == 1
  {}

  lemma SumBound(a: nat, m: nat, b: nat, n: nat)
    requires a < Pow2(m) && b < Pow2(n)
    ensures a + b * Pow2(m) < Pow2(m + n)
  {
    hide Pow2;
    Pow2Add(m, n);
    var p, q := Pow2(m), Pow2(n);
    assert b * p <= (q - 1) * p;
    assert (q - 1) * p == p * q - p;
  }

  /** Stores a 64-bit word, least significant byte first. */
  method StoreU64(out: array<Byte>, pos: nat, v: nat)
    requires pos + 8 <= out.Length
    modifies out
    ensures out[pos..pos + 8] == LeBytes(v, 8) && out[..pos] == old(out[..pos]) && out[pos + 8..] == old(out[pos + 8..])
  {
    var w, i := v, 0;
    hide LeBytes;
    while i < 8
      invariant 0 <= i <= 8 && out[..pos] == old(out[..pos]) && out[pos + 8..] == old(out[pos + 8..])
      invariant out[pos..pos + i] + LeBytes(w, 8 - i) == LeBytes(v, 8)
    {
      LeBytesStep(w, 8 - i);
      out[pos + i] := w % 256;
      assert out[pos..pos + i + 1] == out[pos..pos + i] + [w % 256];
      w := w / 256;
      i := i + 1;
    }
    LeBytesNone(w);
  }

  lemma LeBytesStep(v: nat, n: nat)
    requires n > 0
    ensures LeBytes(v, n) == [v % 256] + LeBytes(v / 256, n - 1)
  {}

  lemma LeBytesNone(v: nat)
    ensures LeBytes(v, 0) == []
  {}

  /** Moving k whole bytes from the buffer word to the output does not change the stream. */
  lemma Flushed(sent: seq<bool>, was: seq<Byte>, now: seq<Byte>, start: nat, pos: nat, k: nat, v: nat, n: nat)
    requires start <= pos && pos + 8 <= |was| == |now| && k == n / 8 && n < 64
    requires now[..pos] == was[..pos] && now[pos..pos + 8] == LeBytes(v, 8) && LeBytes(v, 8)[..k] == LeBytes(v, k)
    ensures sent + ByteBits(now[start..pos + k]) + BitsOf(Shr(v, 8 * k), n - 8 * k) == sent + ByteBits(was[start..pos]) + BitsOf(v, n)
  {
    hide BitsOf, ByteBits, LeBytes, Pow2;
    assert now[start..pos + k] == was[start..pos] + LeBytes(v, k) by {
      assert now[start..pos] == now[..pos][start..] && was[start..pos] == was[..pos][start..];
      assert now[pos..pos + k] == now[pos..pos + 8][..k];
    }
    ByteBitsConcat(was[start..pos], LeBytes(v, k));
    ByteBitsOfLe(v, k);
    BitsOfSplit(v, 8 * k, n - 8 * k);
  }

  lemma Padded(sent: seq<bool>, was: seq<Byte>, now: seq<Byte>, start: nat, pos: nat, k: nat, v: nat, n: nat, pad: nat)
    requires start <= pos && pos + 8 <= |was| == |now| && 8 * k == n + pad && k <= 8 && v < Pow2(n)
    requires now[..pos] == was[..pos] && now[pos..pos + 8] == LeBytes(v, 8) && LeBytes(v, 8)[..k] == LeBytes(v, k)
    ensures sent + ByteBits(now[start..pos + k]) == sent + ByteBits(was[start..pos]) + BitsOf(v, n) + BitsOf(0, pad)
  {
    hide BitsOf, ByteBits, LeBytes, Pow2;
    assert now[start..pos + k] == was[start..pos] + LeBytes(v, k) by {
      assert now[start..pos] == now[..pos][start..] && was[start..pos] == was[..pos][start..];
      assert now[pos..pos + k] == now[pos..pos + 8][..k];
    }
    ByteBitsConcat(was[start..pos], LeBytes(v, k));
    ByteBitsOfLe(v, k);
    BitsOfConcat(v, n, 0, pad);
  }
}
