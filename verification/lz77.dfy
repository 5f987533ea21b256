/** Literals and matches, what they expand to, and the helpers that find and code matches. */
module LZ77 {
  import opened Bits
  import opened GF256
  import opened GFTables

  // -- expansion, as section 3.2.3 of RFC 1951 describes it

  datatype Token = Literal(b: Byte) | Match(len: nat, dist: nat)

  datatype Expansion = Invalid | Text(bytes: seq<Byte>)

  /** Copies byte by byte, so that a match may overlap its own output. */
  function Copy(out: seq<Byte>, dist: nat, len: nat): seq<Byte>
    requires 1 <= dist <= |out|
    decreases len
  {
    if len == 0 then out else Copy(out + [out[|out| - dist]], dist, len - 1)
  }

  function ExpandOne(out: seq<Byte>, t: Token): Expansion {
    match t
    case Literal(b) => Text(out + [b])
    case Match(len, dist) => if 3 <= len <= 258 && 1 <= dist <= 32768 && dist <= |out| then Text(Copy(out, dist, len)) else Invalid
  }

  /** The text after all tokens, starting from the text before them. */
  function Expand(out: seq<Byte>, tokens: seq<Token>): Expansion {
    if |tokens| == 0 then Text(out) else
      match Expand(out, tokens[..|tokens| - 1])
      case Invalid => Invalid
      case Text(o) => ExpandOne(o, tokens[|tokens| - 1])
  }

  lemma ExpandLast(out: seq<Byte>, tokens: seq<Token>, t: Token, mid: seq<Byte>)
    requires Expand(out, tokens) == Text(mid)
    ensures Expand(out, tokens + [t]) == ExpandOne(mid, t)
  {
    assert (tokens + [t])[..|tokens|] == tokens;
  }

  lemma {:induction false} ExpandConcat(out: seq<Byte>, s: seq<Token>, t: seq<Token>, mid: seq<Byte>)
    requires Expand(out, s) == Text(mid)
    ensures Expand(out, s + t) == Expand(mid, t)
  {
    if |t| == 0 {
      assert s + t == s;
    } else {
      var n := |t| - 1;
      ExpandConcat(out, s, t[..n], mid);
      assert (s + t)[..|s + t| - 1] == s + t[..n];
    }
  }

  // -- matches in a text

  /** From p on, `len` bytes repeat what stands `dist` bytes earlier. */
  ghost predicate IsMatch(data: seq<Byte>, p: nat, dist: nat, len: nat) {
    1 <= dist <= p && p + len <= |data| && forall k :: p <= k < p + len ==> data[k] == data[k - dist]
  }

  lemma {:induction false} CopyMatch(data: seq<Byte>, p: nat, dist: nat, len: nat)
    requires IsMatch(data, p, dist, len)
    ensures Copy(data[..p], dist, len) == data[..p + len]
    decreases len
  {
    if len > 0 {
      assert data[..p] + [data[..p][p - dist]] == data[..p + 1];
      CopyMatch(data, p + 1, dist, len - 1);
    }
  }

  lemma MatchExpands(data: seq<Byte>, p: nat, dist: nat, len: nat)
    requires IsMatch(data, p, dist, len) && 3 <= len <= 258 && dist <= 32768
    ensures ExpandOne(data[..p], Match(len, dist)) == Text(data[..p + len])
  {
    CopyMatch(data, p, dist, len);
  }

  lemma LiteralExpands(data: seq<Byte>, p: nat)
    requires p < |data|
    ensures ExpandOne(data[..p], Literal(data[p])) == Text(data[..p + 1])
  {}

  // -- word-at-a-time comparison

  /** For how many of the first n bytes the text at p agrees with the text `dist` bytes earlier. */
  function CommonPrefix(data: seq<Byte>, p: nat, dist: nat, n: nat): (c: nat)
    requires dist <= p && p + n <= |data|
    ensures c <= n
    ensures forall k :: p <= k < p + c ==> data[k] == data[k - dist]
    ensures c < n ==> data[p + c] != data[p + c - dist]
    decreases n
  {
    if n == 0 || data[p] != data[p - dist] then 0 else 1 + CommonPrefix(data, p + 1, dist, n - 1)
  }

  /** A prefix that agrees in full can be skipped. */
  lemma {:induction false} CommonPrefixSkip(data: seq<Byte>, p: nat, dist: nat, n: nat, c: nat)
    requires dist <= p && p + n <= |data| && c <= n
    requires forall k :: p <= k < p + c ==> data[k] == data[k - dist]
    ensures CommonPrefix(data, p, dist, n) == c + CommonPrefix(data, p + c, dist, n - c)
    decreases c
  {
    if c > 0 { CommonPrefixSkip(data, p + 1, dist, n - 1, c - 1); }
  }

  /** A little-endian load of n bytes. */
  function Load(data: seq<Byte>, p: nat, n: nat): nat
    requires p + n <= |data|
    decreases n
  {
    if n == 0 then 0 else data[p] + 256 * Load(data, p + 1, n - 1)
  }

  /** The number of trailing zero bits. */
  function Ctz(v: nat): nat
    requires v > 0
  {
    if v % 2 == 1 then 0 else 1 + Ctz(v / 2)
  }

  /** Trailing zero bytes of a 64-bit word; 8 for zero. */
  function TzByteCnt(v: nat): nat { (if v == 0 then 64 else Ctz(v)) / 8 }

  lemma {:induction false} CtzFactor(v: nat) returns (q: nat)
    requires v > 0
    ensures v == Pow2(Ctz(v)) * q
  {
    if v % 2 == 1 {
      q := v;
    } else {
      q := CtzFactor(v / 2);
      Twice(Pow2(Ctz(v / 2)), q);
    }
  }

  lemma Twice(p: nat, q: nat)
    ensures 2 * p * q == 2 * (p * q)
  {}

  lemma CtzDouble(v: nat)
    requires v > 0
    ensures Ctz(2 * v) == 1 + Ctz(v)
  {}

  lemma CtzByte(w: nat)
    requires w > 0
    ensures Ctz(256 * w) == 8 + Ctz(w)
  {
    hide Ctz;
    CtzNibble(w);
    CtzNibble(16 * w);
  }

  lemma CtzNibble(w: nat)
    requires w > 0
    ensures Ctz(16 * w) == 4 + Ctz(w)
  {
    hide Ctz;
    CtzDouble(w);
    CtzDouble(2 * w);
    CtzDouble(4 * w);
    CtzDouble(8 * w);
  }

  /** A nonzero word has no trailing zero byte, or one more than the word without its lowest byte. */
  lemma TzByteStep(v: nat)
    requires v > 0
    ensures v % 256 != 0 ==> TzByteCnt(v) == 0
    ensures v % 256 == 0 ==> v / 256 > 0 && TzByteCnt(v) == 1 + TzByteCnt(v / 256)
  {
    hide Ctz;
    if v % 256 == 0 { CtzByte(v / 256); } else { NoZeroByte(v); }
  }

  lemma NoZeroByte(v: nat)
    requires v > 0 && v % 256 != 0
    ensures Ctz(v) < 8
  {
    hide Ctz;
    if Ctz(v) >= 8 {
      var q := CtzFactor(v);
      Pow2Values();
      Pow2Add(8, Ctz(v) - 8);
      Multiple256(Pow2(Ctz(v) - 8), q);
    }
  }

  lemma Multiple256(p: nat, q: nat)
    ensures (256 * p * q) % 256 == 0
  {
    assert 256 * p * q == 256 * (p * q);
  }

  /** The exclusive or of two loads vanishes exactly on equal bytes; otherwise its trailing zero bytes count the agreeing
      ones. */
  lemma {:induction false} LoadsCompare(data: seq<Byte>, p: nat, dist: nat, n: nat)
    requires dist <= p && p + n <= |data|
    ensures Xor(Load(data, p - dist, n), Load(data, p, n)) == 0 <==> CommonPrefix(data, p, dist, n) == n
    ensures Xor(Load(data, p - dist, n), Load(data, p, n)) != 0 ==>
              TzByteCnt(Xor(Load(data, p - dist, n), Load(data, p, n))) == CommonPrefix(data, p, dist, n)
    decreases n
  {
    hide Xor, Add, TzByteCnt;
    if n == 0 {
      XorZero(0);
    } else {
      var x, y := Load(data, p - dist, n), Load(data, p, n);
      var v := Xor(x, y);
      XorParts(x, y);
      LoadParts(data, p - dist, n);
      LoadParts(data, p, n);
      AddCancel(data[p - dist], data[p]);
      LoadsCompare(data, p + 1, dist, n - 1);
      if v > 0 { TzByteStep(v); }
      WordZero(v);
    }
  }

  lemma LoadParts(data: seq<Byte>, p: nat, n: nat)
    requires n > 0 && p + n <= |data|
    ensures Load(data, p, n) % 256 == data[p] && Load(data, p, n) / 256 == Load(data, p + 1, n - 1)
  {
    Quotient(Load(data, p + 1, n - 1), data[p]);
  }

  lemma WordZero(v: nat)
    ensures v == 0 <==> v % 256 == 0 && v / 256 == 0
  {}

  function WordXor(data: seq<Byte>, p: nat, dist: nat): nat
    requires dist <= p && p + 8 <= |data|
  {
    Xor(Load(data, p - dist, 8), Load(data, p, 8))
  }

  lemma WordEqual(data: seq<Byte>, p: nat, dist: nat)
    requires dist <= p && p + 8 <= |data| && WordXor(data, p, dist) == 0
    ensures forall k :: p <= k < p + 8 ==> data[k] == data[k - dist]
  {
    hide Xor, Load, CommonPrefix;
    LoadsCompare(data, p, dist, 8);
    assert CommonPrefix(data, p, dist, 8) == 8;
  }

  lemma WordDiffers(data: seq<Byte>, p: nat, dist: nat, max: nat, count: nat)
    requires dist <= p && p + max <= |data| && count + 8 <= max && WordXor(data, p + count, dist) != 0
    requires forall k :: p <= k < p + count ==> data[k] == data[k - dist]
    ensures count + TzByteCnt(WordXor(data, p + count, dist)) == CommonPrefix(data, p, dist, max)
  {
    hide *;
    CommonPrefixSkip(data, p, dist, max, count);
    WordPrefix(data, p + count, dist);
    PrefixOfLonger(data, p + count, dist, 8, max - count);
  }

  lemma WordPrefix(data: seq<Byte>, p: nat, dist: nat)
    requires dist <= p && p + 8 <= |data| && WordXor(data, p, dist) != 0
    ensures TzByteCnt(WordXor(data, p, dist)) == CommonPrefix(data, p, dist, 8) < 8
  {
    hide Xor, Load, CommonPrefix, TzByteCnt;
    LoadsCompare(data, p, dist, 8);
  }

  /** Bytewise comparison eight bytes at a time, the rest one by one. */
  method Compare(data: seq<Byte>, p: nat, dist: nat, maxLength: nat) returns (count: nat)
    requires dist <= p && p + maxLength <= |data|
    ensures count == CommonPrefix(data, p, dist, maxLength)
  {
    hide *;
    var loopLength := maxLength - maxLength % 8;
    count := 0;
    while count < loopLength
      invariant 0 <= count <= loopLength && (loopLength - count) % 8 == 0
      invariant forall k :: p <= k < p + count ==> data[k] == data[k - dist]
    {
      var test := WordXor(data, p + count, dist);
      if test != 0 {
        WordDiffers(data, p, dist, maxLength, count);
        return count + TzByteCnt(test);
      }
      WordEqual(data, p + count, dist);
      count := count + 8;
    }
    while count < maxLength
      invariant count <= maxLength
      invariant forall k :: p <= k < p + count ==> data[k] == data[k - dist]
    {
      if data[p + count - dist] != data[p + count] {
        FirstDifference(data, p, dist, maxLength, count);
        return count;
      }
      count := count + 1;
    }
    CommonPrefixSkip(data, p, dist, maxLength, count);
  }

  lemma FirstDifference(data: seq<Byte>, p: nat, dist: nat, max: nat, count: nat)
    requires dist <= p && p + max <= |data| && count < max && data[p + count] != data[p + count - dist]
    requires forall k :: p <= k < p + count ==> data[k] == data[k - dist]
    ensures CommonPrefix(data, p, dist, max) == count
  {
    CommonPrefixSkip(data, p, dist, max, count);
  }

  /** A difference within the first n bytes is also the first difference of a longer comparison. */
  lemma {:induction false} PrefixOfLonger(data: seq<Byte>, p: nat, dist: nat, n: nat, m: nat)
    requires dist <= p && n <= m && p + m <= |data| && CommonPrefix(data, p, dist, n) < n
    ensures CommonPrefix(data, p, dist, m) == CommonPrefix(data, p, dist, n)
    decreases n
  {
    if n > 0 && data[p] == data[p - dist] { PrefixOfLonger(data, p + 1, dist, n - 1, m - 1); }
  }

  method Compare258(data: seq<Byte>, p: nat, dist: nat, maxLength: nat) returns (count: nat)
    requires dist <= p && p + (if maxLength > 258 then 258 else maxLength) <= |data|
    ensures count == CommonPrefix(data, p, dist, if maxLength > 258 then 258 else maxLength)
  {
    count := Compare(data, p, dist, if maxLength > 258 then 258 else maxLength);
  }

  // -- distance codes, section 3.2.5 of RFC 1951

  /** The position of the highest set bit, starting at 1. */
  function Bsr(v: nat): (r: nat)
    ensures v > 0 ==> r >= 1
    ensures v > 1 ==> r >= 2
  {
    if v == 0 then 0 else 1 + Bsr(v / 2)
  }

  lemma {:induction false} BsrRange(v: nat)
    requires v > 0
    ensures Pow2(Bsr(v) - 1) <= v < Pow2(Bsr(v))
  {
    if v > 1 { BsrRange(v / 2); }
  }

  /** The number of extra bits of a distance code. */
  function DistExtraBits(code: nat): nat { if code < 4 then 0 else code / 2 - 1 }

  /** The smallest distance of a code; the source tabulates these. */
  function DistStart(code: nat): nat {
    if code < 4 then code + 1 else 1 + (2 + code % 2) * Pow2(code / 2 - 1)
  }

  datatype DistSymbol = DistSymbol(code: nat, extra: nat)

  /** Splits a distance into code and extra bits by the position of its highest bit. */
  function DistIcfCode(dist: nat): DistSymbol
    requires 1 <= dist <= 32768
  {
    if dist <= 2 then DistSymbol(dist - 1, 0)
    else DistSymbol((dist - 1) / Pow2(Bsr(dist - 1) - 2) + 2 * (Bsr(dist - 1) - 2), (dist - 1) % Pow2(Bsr(dist - 1) - 2))
  }

  /** Every distance is recovered from its symbol, whose code and extra bits are in range. */
  lemma DistRoundTrip(dist: nat)
    requires 1 <= dist <= 32768
    ensures DistIcfCode(dist).code < 30 && DistIcfCode(dist).extra < Pow2(DistExtraBits(DistIcfCode(dist).code))
    ensures DistStart(DistIcfCode(dist).code) + DistIcfCode(dist).extra == dist
  {
    hide Bsr, Pow2, DistStart, DistExtraBits;
    if dist > 2 {
      var d := dist - 1;
      var n := Bsr(d) - 2;
      BsrRange(d);
      TopBits(d, n);
      BsrBound(d);
      CodeParts(d / Pow2(n), n);
    } else {
      SmallCodes();
    }
  }

  lemma SmallCodes()
    ensures DistStart(0) == 1 && DistStart(1) == 2 && DistExtraBits(0) == 0 && DistExtraBits(1) == 0 && Pow2(0) == 1
  {}

  lemma CodeParts(q: nat, n: nat)
    requires 2 <= q <= 3
    ensures DistStart(q + 2 * n) == 1 + q * Pow2(n) && DistExtraBits(q + 2 * n) == n
  {
    assert (q + 2 * n) / 2 == n + 1 && (q + 2 * n) % 2 == q - 2;
    if n == 0 { SmallCodes(); }
  }

  lemma TopBits(d: nat, n: nat)
    requires Pow2(n + 1) <= d < Pow2(n + 2)
    ensures 2 <= d / Pow2(n) <= 3 && d == (d / Pow2(n)) * Pow2(n) + d % Pow2(n)
  {
    var p := Pow2(n);
    assert Pow2(n + 2) == 4 * p && Pow2(n + 1) == 2 * p;
    hide Pow2;
    DivRange(d, p);
  }

  lemma DivRange(d: nat, p: nat)
    requires p > 0 && 2 * p <= d < 4 * p
    ensures 2 <= d / p <= 3 && d == (d / p) * p + d % p
  {
    var q := d / p;
    assert d == q * p + d % p;
    assert q <= 1 ==> q * p <= p;
    assert q >= 4 ==> q * p >= 4 * p;
  }

  lemma BsrBound(d: nat)
    requires 0 < d < 32768
    ensures Bsr(d) <= 15
  {
    BsrRange(d);
    if Bsr(d) > 15 { Pow2Monotone(15, Bsr(d) - 1); Pow2Values(); }
  }
}
