/** Adler-32, sections 8.2 and 9 of RFC 1950: with the remainder put off to the end of long chunks, and in the stored form
    that starts from zero. */
module Adler {
  import opened Bits

  const MOD: nat := 65521

  datatype Sums = Sums(a: nat, b: nat)

  function ExactStep(s: Sums, d: Byte): Sums { Sums(s.a + d, s.b + s.a + d) }

  /** The sums without any remainder taken. */
  function Exact(s: Sums, buf: seq<Byte>): Sums {
    if |buf| == 0 then s else ExactStep(Exact(s, buf[..|buf| - 1]), buf[|buf| - 1])
  }

  function Reduced(s: Sums): Sums { Sums(s.a % 65521, s.b % 65521) }

  function RefStep(s: Sums, d: Byte): Sums { Sums((s.a + d) % 65521, (s.b + (s.a + d) % 65521) % 65521) }

  /** The reference: remainders after every byte. */
  function PerByte(s: Sums, buf: seq<Byte>): Sums {
    if |buf| == 0 then s else RefStep(PerByte(s, buf[..|buf| - 1]), buf[|buf| - 1])
  }

  function Split(v: nat): Sums { Sums(v % 65536, v / 65536) }

  function Join(s: Sums): nat { s.b * 65536 + s.a }

  lemma ExactNext(s: Sums, buf: seq<Byte>, i: nat)
    requires i < |buf|
    ensures Exact(s, buf[..i + 1]) == ExactStep(Exact(s, buf[..i]), buf[i])
  {
    assert buf[..i + 1][..i] == buf[..i];
  }

  lemma PerByteNext(s: Sums, buf: seq<Byte>, i: nat)
    requires i < |buf|
    ensures PerByte(s, buf[..i + 1]) == RefStep(PerByte(s, buf[..i]), buf[i])
  {
    assert buf[..i + 1][..i] == buf[..i];
  }

  /** Taking remainders on the way does not change the remainder of the sums. */
  lemma {:induction false} PerByteExact(s: Sums, buf: seq<Byte>)
    ensures Reduced(PerByte(s, buf)) == Reduced(Exact(s, buf))
    ensures |buf| > 0 ==> PerByte(s, buf) == Reduced(Exact(s, buf))
  {
    hide RefStep, ExactStep, Reduced;
    if |buf| > 0 {
      var n := |buf| - 1;
      PerByteExact(s, buf[..n]);
      StepCongruent(PerByte(s, buf[..n]), Exact(s, buf[..n]), buf[n]);
    }
  }

  lemma StepCongruent(t: Sums, e: Sums, d: Byte)
    requires Reduced(t) == Reduced(e)
    ensures RefStep(t, d) == Reduced(ExactStep(e, d)) == Reduced(RefStep(t, d)) == Reduced(ExactStep(t, d))
  {
    SameSum(t.a, e.a, d);
    var u: nat, x: nat, y: nat := t.a + d, (t.a + d) % 65521, e.a + d;
    ModTwice(u);
    SameSum(t.b, e.b, x);
    SameSums(e.b, x, y);
    SameSums(t.b, x, u);
    ModTwice(t.b + x);
  }

  lemma SameSum(x: nat, y: nat, d: nat)
    requires x % 65521 == y % 65521
    ensures (x + d) % 65521 == (y + d) % 65521
  {
    var k := x / 65521 - y / 65521;
    assert x + d == y + d + 65521 * k;
  }

  lemma SameSums(x: nat, d: nat, e: nat)
    requires d % 65521 == e % 65521
    ensures (x + d) % 65521 == (x + e) % 65521
  {
    SameSum(d, e, x);
  }

  lemma {:induction false} ExactConcat(s: Sums, a: seq<Byte>, b: seq<Byte>)
    ensures Exact(s, a + b) == Exact(Exact(s, a), b)
  {
    if |b| == 0 {
      assert a + b == a;
    } else {
      ExactConcat(s, a, b[..|b| - 1]);
      assert (a + b)[..|a + b| - 1] == a + b[..|b| - 1];
    }
  }

  /** Starting from congruent sums, the sums stay congruent. */
  lemma {:induction false} ExactCongruent(s: Sums, t: Sums, buf: seq<Byte>)
    requires Reduced(s) == Reduced(t)
    ensures Reduced(Exact(s, buf)) == Reduced(Exact(t, buf))
  {
    hide RefStep, ExactStep, Reduced;
    if |buf| > 0 {
      var n := |buf| - 1;
      ExactCongruent(s, t, buf[..n]);
      StepCongruent(Exact(s, buf[..n]), Exact(t, buf[..n]), buf[n]);
    }
  }

  /** The sums of one chunk fit 64 bits. */
  lemma {:induction false} ExactBound(s: Sums, buf: seq<Byte>)
    requires s.a < 65536 && s.b < 65536
    ensures Exact(s, buf).a <= 65535 + 255 * |buf| && 2 * Exact(s, buf).b <= 131070 + 131070 * |buf| + 255 * (|buf| * (|buf| + 1))
  {
    if |buf| > 0 {
      var n := |buf| - 1;
      ExactBound(s, buf[..n]);
      Triangle(n);
    }
  }

  lemma Triangle(n: nat)
    ensures (n + 1) * (n + 2) == n * (n + 1) + 2 * (n + 1)
  {}

  lemma ChunkFits(s: Sums, buf: seq<Byte>)
    requires s.a < 65536 && s.b < 65536 && |buf| <= 0x1000_0000
    ensures Exact(s, buf).a < 0x1_0000_0000_0000_0000 && Exact(s, buf).b < 0x1_0000_0000_0000_0000
  {
    hide Exact;
    ExactBound(s, buf);
    SquareBound(|buf|, 0x1000_0000);
  }

  lemma SquareBound(n: nat, m: nat)
    requires n <= m
    ensures n * (n + 1) <= m * (m + 1)
  {
    assert n * (n + 1) <= m * (n + 1);
    assert m * (n + 1) <= m * (m + 1);
  }

  /** Adds up the bytes of one chunk in 64 bits. */
  method AddChunk(s: Sums, start: seq<Byte>, from: nat, to: nat) returns (r: Sums)
    requires from <= to <= |start| && to - from <= 0x1000_0000 && s.a < 65536 && s.b < 65536
    ensures r == Exact(s, start[from..to])
  {
    hide Exact;
    r := s;
    var next := from;
    NoBytes(s, start[from..from]);
    while next < to
      invariant from <= next <= to && r == Exact(s, start[from..next])
    {
      ghost var buf := start[from..to];
      assert buf[..next - from] == start[from..next] && buf[..next + 1 - from] == start[from..next + 1];
      ExactNext(s, buf, next - from);
      ChunkFits(s, start[from..next + 1]);
      var a := (r.a + start[next]) % 0x1_0000_0000_0000_0000;
      r := Sums(a, (r.b + a) % 0x1_0000_0000_0000_0000);
      next := next + 1;
    }
  }

  lemma NoBytes(s: Sums, none: seq<Byte>)
    requires none == []
    ensures Exact(s, none) == s && PerByte(s, none) == s
  {}

  /** The sums in chunks of 2^28 bytes; a remainder is taken only after each. No 64-bit sum overflows. */
  method Adler32Base(adler32: nat, start: seq<Byte>) returns (r: nat)
    requires adler32 < 0x1_0000_0000 && |start| < 0x1_0000_0000
    ensures r == Join(Reduced(Exact(Split(adler32), start)))
  {
    hide Exact;
    var s := Split(adler32);
    var next: nat, length: nat := 0, |start|;
    NoBytes(s, start[..0]);
    while length > 0x1000_0000
      invariant next + length == |start| && s.a < 65536 && s.b < 65536
      invariant Reduced(s) == Reduced(Exact(Split(adler32), start[..next]))
    {
      s := Chunk(adler32, start, next, next + 0x1000_0000, s);
      next := next + 0x1000_0000;
      length := length - 0x1000_0000;
    }
    s := Chunk(adler32, start, next, next + length, s);
    assert start[..|start|] == start;
    r := Join(s);
  }

  method Chunk(adler32: nat, start: seq<Byte>, from: nat, to: nat, s: Sums) returns (r: Sums)
    requires from <= to <= |start| && to - from <= 0x1000_0000 && s.a < 65536 && s.b < 65536
    requires Reduced(s) == Reduced(Exact(Split(adler32), start[..from]))
    ensures r == Reduced(Exact(Split(adler32), start[..to])) && r.a < 65536 && r.b < 65536
  {
    hide Exact;
    var t := AddChunk(s, start, from, to);
    r := Sums(t.a % MOD, t.b % MOD);
    ExactConcat(Split(adler32), start[..from], start[from..to]);
    assert start[..from] + start[from..to] == start[..to];
    ExactCongruent(s, Exact(Split(adler32), start[..from]), start[from..to]);
  }

  /** The reference form. */
  method AdlerRef(init: nat, buf: seq<Byte>) returns (r: nat)
    requires init < 0x1_0000_0000
    ensures r == Join(PerByte(Split(init), buf))
  {
    hide PerByte;
    var a: nat, b: nat := init % 65536, init / 65536;
    NoBytes(Split(init), buf[..0]);
    var i := 0;
    while i < |buf|
      invariant 0 <= i <= |buf| && Sums(a, b) == PerByte(Split(init), buf[..i])
    {
      PerByteNext(Split(init), buf, i);
      a := (a + buf[i]) % MOD;
      b := (b + a) % MOD;
      i := i + 1;
    }
    assert buf[..|buf|] == buf;
    r := Join(Sums(a, b));
  }

  /** Both forms agree exactly when there is input or the halves of the start value are remainders already. */
  lemma BaseIsRef(init: nat, buf: seq<Byte>)
    ensures Join(Reduced(Exact(Split(init), buf))) == Join(PerByte(Split(init), buf)) <==> |buf| > 0 || (init % 65536 < 65521 && init / 65536 < 65521)
  {
    PerByteExact(Split(init), buf);
    if |buf| == 0 {
      var s := Split(init);
      NotReduced(s.a, s.b);
    }
  }

  lemma NotReduced(a: nat, b: nat)
    ensures b % 65521 * 65536 + a % 65521 == b * 65536 + a <==> a < 65521 && b < 65521
  {
    assert a % 65521 <= a && b % 65521 <= b;
  }

  // -- the stored form

  /** Stores the first sum less one, so that a fresh checksum is zero. */
  function Lowered(a: nat): nat { if a == 0 then 65520 else a - 1 }

  function Raised(a: nat): nat { if a == 65520 then 0 else a + 1 }

  /** One update of the stored form. */
  method IsalAdler32Bam1(adler32: nat, start: seq<Byte>) returns (r: nat)
    requires adler32 < 0x1_0000_0000 && |start| < 0x1_0000_0000 && adler32 % 65536 < 65521
    ensures r == Bam1(adler32, start) && r < 0x1_0000_0000 && r % 65536 < 65521
  {
    hide Bam1, Exact, Join, Reduced, Split, Raised;
    var a: nat := adler32 % 65536;
    a := if a == MOD - 1 then 0 else a + 1;
    RaisedFits(adler32, a);
    var sum := Adler32Base(adler32 / 65536 * 65536 + a, start);
    a := sum % 65536;
    a := if a == 0 then MOD - 1 else a - 1;
    LoweredIs(adler32, start, sum, a);
    r := sum / 65536 * 65536 + a;
  }

  lemma RaisedFits(adler32: nat, a: nat)
    requires adler32 < 0x1_0000_0000 && adler32 % 65536 < 65521 && a == if adler32 % 65536 == MOD - 1 then 0 else adler32 % 65536 + 1
    ensures adler32 / 65536 * 65536 + a < 0x1_0000_0000 && a == Raised(adler32 % 65536)
    ensures Split(adler32 / 65536 * 65536 + a) == Sums(a, adler32 / 65536)
  {
    HalvesOf(adler32 / 65536, a);
  }

  lemma LoweredIs(adler32: nat, buf: seq<Byte>, sum: nat, a: nat)
    requires sum == Join(Reduced(Exact(Sums(Raised(adler32 % 65536), adler32 / 65536), buf)))
    requires a == if sum % 65536 == 0 then MOD - 1 else sum % 65536 - 1
    ensures sum / 65536 * 65536 + a == Bam1(adler32, buf) < 0x1_0000_0000 && (sum / 65536 * 65536 + a) % 65536 < 65521
  {
    hide Exact;
    var s := Reduced(Exact(Sums(Raised(adler32 % 65536), adler32 / 65536), buf));
    HalvesOf(s.b, s.a);
    HalvesOf(s.b, a);
  }

  lemma HalvesOf(b: nat, a: nat)
    requires a < 65536
    ensures (b * 65536 + a) % 65536 == a && (b * 65536 + a) / 65536 == b && Split(b * 65536 + a) == Sums(a, b)
  {}

  function Bam1(adler32: nat, buf: seq<Byte>): nat {
    var s := Reduced(Exact(Sums(Raised(adler32 % 65536), adler32 / 65536), buf));
    Join(Sums(Lowered(s.a), s.b))
  }

  /** The stored form after a series of updates. */
  function Bam1All(adler32: nat, bufs: seq<seq<Byte>>): nat {
    if |bufs| == 0 then adler32 else Bam1(Bam1All(adler32, bufs[..|bufs| - 1]), bufs[|bufs| - 1])
  }

  function Flatten(bufs: seq<seq<Byte>>): seq<Byte> {
    if |bufs| == 0 then [] else Flatten(bufs[..|bufs| - 1]) + bufs[|bufs| - 1]
  }

  /** What the trailer holds. */
  function Trailer(crc: nat): nat { crc / 65536 * 65536 + (crc % 65536 + 1) % 65521 }

  /** The stored form stands for the checksum of everything so far. */
  ghost predicate StandsFor(crc: nat, s: Sums) {
    crc % 65536 < 65521 && Raised(crc % 65536) == s.a % 65521 && crc / 65536 == s.b % 65521
  }

  lemma Bam1Stands(crc: nat, s: Sums, buf: seq<Byte>)
    requires StandsFor(crc, s)
    ensures StandsFor(Bam1(crc, buf), Exact(s, buf))
  {
    hide Exact;
    var t := Sums(Raised(crc % 65536), crc / 65536);
    ModTwice(s.a);
    ModTwice(s.b);
    ExactCongruent(t, s, buf);
    var e := Reduced(Exact(t, buf));
    HalvesOf(e.b, Lowered(e.a));
  }

  lemma ModTwice(x: nat)
    ensures x % 65521 % 65521 == x % 65521
  {}

  lemma {:induction false} Bam1AllStands(bufs: seq<seq<Byte>>)
    ensures StandsFor(Bam1All(0, bufs), Exact(Sums(1, 0), Flatten(bufs)))
  {
    hide StandsFor, Bam1, Exact;
    if |bufs| == 0 {
      StartStands();
    } else {
      var n := |bufs| - 1;
      Bam1AllStands(bufs[..n]);
      Bam1Stands(Bam1All(0, bufs[..n]), Exact(Sums(1, 0), Flatten(bufs[..n])), bufs[n]);
      ExactConcat(Sums(1, 0), Flatten(bufs[..n]), bufs[n]);
    }
  }

  lemma StartStands()
    ensures StandsFor(0, Exact(Sums(1, 0), []))
  {}

  /** However the input is divided, the trailer holds its Adler-32. */
  lemma TrailerIsAdler(bufs: seq<seq<Byte>>)
    ensures Trailer(Bam1All(0, bufs)) == Join(PerByte(Sums(1, 0), Flatten(bufs)))
  {
    hide *;
    var all := Flatten(bufs);
    Bam1AllStands(bufs);
    PerByteReduced(all);
    TrailerOf(Bam1All(0, bufs), Exact(Sums(1, 0), all));
  }

  lemma PerByteReduced(all: seq<Byte>)
    ensures PerByte(Sums(1, 0), all) == Reduced(Exact(Sums(1, 0), all))
  {
    hide Exact, PerByte;
    PerByteExact(Sums(1, 0), all);
    if |all| == 0 { NoBytes(Sums(1, 0), all); }
  }

  lemma TrailerOf(crc: nat, s: Sums)
    requires StandsFor(crc, s)
    ensures Trailer(crc) == Join(Reduced(s))
  {
    RaisedIs(crc % 65536);
  }

  lemma RaisedIs(a: nat)
    requires a < 65521
    ensures Raised(a) == (a + 1) % 65521
  {}
}
