/** Cyclic redundancy checks of any width and polynomial: bit by bit, by table, reflected and not. Registers are bit
    strings, least significant bit first. */
module Crc {
  import opened Bits
  import opened BitStream

  function Plus(a: seq<bool>, b: seq<bool>): (r: seq<bool>)
    requires |a| == |b|
    ensures |r| == |a| && forall i :: 0 <= i < |a| ==> r[i] == (a[i] != b[i])
  {
    seq(|a|, i requires 0 <= i < |a| => a[i] != b[i])
  }

  function Zero(n: nat): (z: seq<bool>)
    ensures |z| == n && forall i :: 0 <= i < n ==> !z[i]
  {
    seq(n, _ => false)
  }

  function Not(a: seq<bool>): (r: seq<bool>)
    ensures |r| == |a| && forall i :: 0 <= i < |a| ==> r[i] == !a[i]
  {
    seq(|a|, i requires 0 <= i < |a| => !a[i])
  }

  function Reverse(a: seq<bool>): (r: seq<bool>)
    ensures |r| == |a| && forall i :: 0 <= i < |a| ==> r[i] == a[|a| - 1 - i]
  {
    seq(|a|, i requires 0 <= i < |a| => a[|a| - 1 - i])
  }

  function If(c: bool, p: seq<bool>): (r: seq<bool>)
    ensures |r| == |p|
  {
    if c then p else Zero(|p|)
  }

  // -- one bit, one byte, a buffer

  /** The reflected register moves down one bit. */
  function ReflStep(p: seq<bool>, x: seq<bool>): (r: seq<bool>)
    requires |p| == |x| > 0
    ensures |r| == |x|
  {
    Plus(x[1..] + [false], If(x[0], p))
  }

  function ReflSteps(p: seq<bool>, x: seq<bool>, k: nat): (r: seq<bool>)
    requires |p| == |x| > 0
    ensures |r| == |x|
    decreases k
  {
    if k == 0 then x else ReflSteps(p, ReflStep(p, x), k - 1)
  }

  /** A byte at the low end of a register. */
  function Low(b: Byte, w: nat): (r: seq<bool>)
    requires w >= 8
    ensures |r| == w
  {
    BitsOf(b, 8) + Zero(w - 8)
  }

  function ReflByte(p: seq<bool>, x: seq<bool>, b: Byte): (r: seq<bool>)
    requires |p| == |x| >= 8
    ensures |r| == |x|
  {
    ReflSteps(p, Plus(x, Low(b, |x|)), 8)
  }

  function ReflRun(p: seq<bool>, x: seq<bool>, buf: seq<Byte>): (r: seq<bool>)
    requires |p| == |x| >= 8
    ensures |r| == |x|
  {
    if |buf| == 0 then x else ReflByte(p, ReflRun(p, x, buf[..|buf| - 1]), buf[|buf| - 1])
  }

  /** The normal register moves up one bit. */
  function NormStep(p: seq<bool>, x: seq<bool>): (r: seq<bool>)
    requires |p| == |x| > 0
    ensures |r| == |x|
  {
    Plus([false] + x[..|x| - 1], If(x[|x| - 1], p))
  }

  function NormSteps(p: seq<bool>, x: seq<bool>, k: nat): (r: seq<bool>)
    requires |p| == |x| > 0
    ensures |r| == |x|
    decreases k
  {
    if k == 0 then x else NormSteps(p, NormStep(p, x), k - 1)
  }

  /** A byte at the high end of a register. */
  function High(b: Byte, w: nat): (r: seq<bool>)
    requires w >= 8
    ensures |r| == w
  {
    Zero(w - 8) + BitsOf(b, 8)
  }

  function NormByte(p: seq<bool>, x: seq<bool>, b: Byte): (r: seq<bool>)
    requires |p| == |x| >= 8
    ensures |r| == |x|
  {
    NormSteps(p, Plus(x, High(b, |x|)), 8)
  }

  function NormRun(p: seq<bool>, x: seq<bool>, buf: seq<Byte>): (r: seq<bool>)
    requires |p| == |x| >= 8
    ensures |r| == |x|
  {
    if |buf| == 0 then x else NormByte(p, NormRun(p, x, buf[..|buf| - 1]), buf[|buf| - 1])
  }

  // -- concatenation

  /** Continuing a check with the next buffer is checking both together. */
  lemma {:induction false} ReflRunConcat(p: seq<bool>, x: seq<bool>, a: seq<Byte>, b: seq<Byte>)
    requires |p| == |x| >= 8
    ensures ReflRun(p, x, a + b) == ReflRun(p, ReflRun(p, x, a), b)
  {
    hide ReflByte;
    if |b| == 0 {
      assert a + b == a;
    } else {
      ReflRunConcat(p, x, a, b[..|b| - 1]);
      assert (a + b)[..|a + b| - 1] == a + b[..|b| - 1];
    }
  }

  lemma {:induction false} NormRunConcat(p: seq<bool>, x: seq<bool>, a: seq<Byte>, b: seq<Byte>)
    requires |p| == |x| >= 8
    ensures NormRun(p, x, a + b) == NormRun(p, NormRun(p, x, a), b)
  {
    hide NormByte;
    if |b| == 0 {
      assert a + b == a;
    } else {
      NormRunConcat(p, x, a, b[..|b| - 1]);
      assert (a + b)[..|a + b| - 1] == a + b[..|b| - 1];
    }
  }

  /** The same for checks that invert the register before and after. */
  lemma InvertedConcat(p: seq<bool>, seed: seq<bool>, a: seq<Byte>, b: seq<Byte>)
    requires |p| == |seed| >= 8
    ensures Not(ReflRun(p, Not(Not(ReflRun(p, Not(seed), a))), b)) == Not(ReflRun(p, Not(seed), a + b))
    ensures Not(NormRun(p, Not(Not(NormRun(p, Not(seed), a))), b)) == Not(NormRun(p, Not(seed), a + b))
  {
    hide ReflRun, NormRun;
    ReflRunConcat(p, Not(seed), a, b);
    NormRunConcat(p, Not(seed), a, b);
    NotNot(ReflRun(p, Not(seed), a));
    NotNot(NormRun(p, Not(seed), a));
  }

  lemma NotNot(x: seq<bool>)
    ensures Not(Not(x)) == x
  {}

  // -- a byte at a time

  lemma {:induction false} ReflLinear(p: seq<bool>, x: seq<bool>, y: seq<bool>, k: nat)
    requires |p| == |x| == |y| > 0
    ensures ReflSteps(p, Plus(x, y), k) == Plus(ReflSteps(p, x, k), ReflSteps(p, y, k))
    decreases k
  {
    if k > 0 {
      assert ReflStep(p, Plus(x, y)) == Plus(ReflStep(p, x), ReflStep(p, y));
      ReflLinear(p, ReflStep(p, x), ReflStep(p, y), k - 1);
    }
  }

  /** Zero bits are shifted out without a trace. */
  lemma {:induction false} ReflShift(p: seq<bool>, x: seq<bool>, k: nat)
    requires |p| == |x| > 0 && k <= |x| && forall i :: 0 <= i < k ==> !x[i]
    ensures ReflSteps(p, x, k) == x[k..] + Zero(k)
    decreases k
  {
    if k == 0 {
      assert x[0..] + Zero(0) == x;
    } else {
      var y := ReflStep(p, x);
      assert y == x[1..] + [false];
      ReflShift(p, y, k - 1);
      assert y[k - 1..] + Zero(k - 1) == x[k..] + Zero(k);
    }
  }

  /** The table holds the effect of every byte on an empty register. */
  ghost predicate ReflTable(p: seq<bool>, table: seq<seq<bool>>) {
    |p| >= 8 && |table| == 256 && forall i: nat :: i < 256 ==> table[i] == ReflSteps(p, Low(i, |p|), 8)
  }

  function Index(x: seq<bool>, b: Byte): (i: nat)
    requires |x| == 8
    ensures i < 256
  {
    BitsOfValue(Plus(x, BitsOf(b, 8)));
    Pow2Values();
    ValueOf(Plus(x, BitsOf(b, 8)))
  }

  lemma ReflByTable(p: seq<bool>, table: seq<seq<bool>>, x: seq<bool>, b: Byte)
    requires ReflTable(p, table) && |x| == |p|
    ensures |table[Index(x[..8], b)]| == |x|
    ensures ReflByte(p, x, b) == Plus(x[8..] + Zero(8), table[Index(x[..8], b)])
  {
    hide ReflSteps, BitsOf, ValueOf;
    var i := Index(x[..8], b);
    BitsOfValue(Plus(x[..8], BitsOf(b, 8)));
    var y := Zero(8) + x[8..];
    assert Plus(x, Low(b, |x|)) == Plus(y, Low(i, |x|));
    ReflLinear(p, y, Low(i, |x|), 8);
    ReflShift(p, y, 8);
  }

  lemma NormStepLinear(p: seq<bool>, x: seq<bool>, y: seq<bool>)
    requires |p| == |x| == |y| > 0
    ensures NormStep(p, Plus(x, y)) == Plus(NormStep(p, x), NormStep(p, y))
  {}

  lemma {:induction false} NormLinear(p: seq<bool>, x: seq<bool>, y: seq<bool>, k: nat)
    requires |p| == |x| == |y| > 0
    ensures NormSteps(p, Plus(x, y), k) == Plus(NormSteps(p, x, k), NormSteps(p, y, k))
    decreases k
  {
    hide NormStep, Plus;
    if k > 0 {
      NormStepLinear(p, x, y);
      NormLinear(p, NormStep(p, x), NormStep(p, y), k - 1);
    }
  }

  lemma {:induction false} NormShift(p: seq<bool>, x: seq<bool>, k: nat)
    requires |p| == |x| > 0 && k <= |x| && forall i :: |x| - k <= i < |x| ==> !x[i]
    ensures NormSteps(p, x, k) == Zero(k) + x[..|x| - k]
    decreases k
  {
    hide NormStep;
    if k == 0 {
      assert Zero(0) + x[..|x|] == x;
    } else {
      var y := [false] + x[..|x| - 1];
      NormStepZero(p, x);
      NormShift(p, y, k - 1);
      ShiftJoin(x, k);
    }
  }

  lemma NormStepZero(p: seq<bool>, x: seq<bool>)
    requires |p| == |x| > 0 && !x[|x| - 1]
    ensures NormStep(p, x) == [false] + x[..|x| - 1]
  {}

  lemma ShiftJoin(x: seq<bool>, k: nat)
    requires 0 < k <= |x|
    ensures Zero(k - 1) + ([false] + x[..|x| - 1])[..|x| - (k - 1)] == Zero(k) + x[..|x| - k]
  {
    assert ([false] + x[..|x| - 1])[..|x| - (k - 1)] == [false] + x[..|x| - k];
    assert Zero(k - 1) + [false] == Zero(k);
  }

  ghost predicate NormTable(p: seq<bool>, table: seq<seq<bool>>) {
    |p| >= 8 && |table| == 256 && forall i: nat :: i < 256 ==> table[i] == NormSteps(p, High(i, |p|), 8)
  }

  lemma NormByTable(p: seq<bool>, table: seq<seq<bool>>, x: seq<bool>, b: Byte)
    requires NormTable(p, table) && |x| == |p|
    ensures |table[Index(x[|x| - 8..], b)]| == |x|
    ensures NormByte(p, x, b) == Plus(Zero(8) + x[..|x| - 8], table[Index(x[|x| - 8..], b)])
  {
    hide NormSteps, BitsOf, ValueOf;
    var i := Index(x[|x| - 8..], b);
    BitsOfValue(Plus(x[|x| - 8..], BitsOf(b, 8)));
    var y := x[..|x| - 8] + Zero(8);
    assert Plus(x, High(b, |x|)) == Plus(y, High(i, |x|));
    NormLinear(p, y, High(i, |x|), 8);
    NormShift(p, y, 8);
  }

  lemma RunNext(p: seq<bool>, x: seq<bool>, buf: seq<Byte>, i: nat)
    requires |p| == |x| >= 8 && i < |buf|
    ensures ReflRun(p, x, buf[..i + 1]) == ReflByte(p, ReflRun(p, x, buf[..i]), buf[i])
    ensures NormRun(p, x, buf[..i + 1]) == NormByte(p, NormRun(p, x, buf[..i]), buf[i])
  {
    assert buf[..i + 1][..i] == buf[..i];
  }

  lemma RunNone(p: seq<bool>, x: seq<bool>, none: seq<Byte>)
    requires |p| == |x| >= 8 && none == []
    ensures ReflRun(p, x, none) == x && NormRun(p, x, none) == x
  {}

  /** Reflected check by table, with or without inversion before and after. */
  method ReflBase(p: seq<bool>, table: seq<seq<bool>>, inverted: bool, seed: seq<bool>, buf: seq<Byte>) returns (r: seq<bool>)
    requires ReflTable(p, table) && |seed| == |p|
    ensures |p| >= 8 && r == if inverted then Not(ReflRun(p, Not(seed), buf)) else ReflRun(p, seed, buf)
  {
    hide ReflRun, ReflTable, ReflTableStep, Index;
    TableSize(p, table);
    var crc := if inverted then Not(seed) else seed;
    ghost var start := crc;
    RunNone(p, start, buf[..0]);
    var i := 0;
    while i < |buf|
      invariant 0 <= i <= |buf| && |crc| == |p| && crc == ReflRun(p, start, buf[..i])
    {
      ReflTableNext(p, table, start, buf, i, crc);
      crc := ReflTableStep(table, crc, buf[i]);
      i := i + 1;
    }
    assert buf[..|buf|] == buf;
    r := if inverted then Not(crc) else crc;
  }

  /** One byte by table. */
  function ReflTableStep(table: seq<seq<bool>>, x: seq<bool>, b: Byte): (r: seq<bool>)
    requires |x| >= 8 && |table| == 256
    ensures |table[Index(x[..8], b)]| == |x| ==> r == Plus(x[8..] + Zero(8), table[Index(x[..8], b)])
  {
    if |table[Index(x[..8], b)]| == |x| then Plus(x[8..] + Zero(8), table[Index(x[..8], b)]) else x
  }

  lemma ReflTableNext(p: seq<bool>, table: seq<seq<bool>>, start: seq<bool>, buf: seq<Byte>, i: nat, x: seq<bool>)
    requires ReflTable(p, table) && |x| == |p| == |start| && |p| >= 8 && i < |buf| && x == ReflRun(p, start, buf[..i])
    ensures |table| == 256 && ReflTableStep(table, x, buf[i]) == ReflRun(p, start, buf[..i + 1])
  {
    hide ReflRun, ReflByte, ReflTableStep, Index;
    RunNext(p, start, buf, i);
    ReflByTable(p, table, x, buf[i]);
  }

  lemma TableSize(p: seq<bool>, table: seq<seq<bool>>)
    ensures ReflTable(p, table) ==> |p| >= 8 && |table| == 256
    ensures NormTable(p, table) ==> |p| >= 8 && |table| == 256
  {}

  /** One byte by table. */
  function NormTableStep(table: seq<seq<bool>>, x: seq<bool>, b: Byte): (r: seq<bool>)
    requires |x| >= 8 && |table| == 256
    ensures |table[Index(x[|x| - 8..], b)]| == |x| ==> r == Plus(Zero(8) + x[..|x| - 8], table[Index(x[|x| - 8..], b)])
  {
    if |table[Index(x[|x| - 8..], b)]| == |x| then Plus(Zero(8) + x[..|x| - 8], table[Index(x[|x| - 8..], b)]) else x
  }

  lemma NormTableNext(p: seq<bool>, table: seq<seq<bool>>, start: seq<bool>, buf: seq<Byte>, i: nat, x: seq<bool>)
    requires NormTable(p, table) && |x| == |p| == |start| && |p| >= 8 && i < |buf| && x == NormRun(p, start, buf[..i])
    ensures |table| == 256 && NormTableStep(table, x, buf[i]) == NormRun(p, start, buf[..i + 1])
  {
    hide NormRun, NormByte, NormTableStep, Index;
    RunNext(p, start, buf, i);
    NormByTable(p, table, x, buf[i]);
  }

  /** Normal check by table, with or without inversion; the bytes are copied on the way. */
  method NormBaseCopy(p: seq<bool>, table: seq<seq<bool>>, inverted: bool, seed: seq<bool>, dst: array<Byte>, src: seq<Byte>) returns (r: seq<bool>)
    requires NormTable(p, table) && |seed| == |p| && |src| <= dst.Length
    modifies dst
    ensures |p| >= 8 && r == if inverted then Not(NormRun(p, Not(seed), src)) else NormRun(p, seed, src)
    ensures dst[..|src|] == src && dst[|src|..] == old(dst[|src|..])
  {
    hide *;
    TableSize(p, table);
    var crc := if inverted then Not(seed) else seed;
    ghost var start := crc;
    RunNone(p, start, src[..0]);
    var i := 0;
    while i < |src|
      invariant 0 <= i <= |src| && |crc| == |p| && crc == NormRun(p, start, src[..i])
      invariant dst[..i] == src[..i] && dst[|src|..] == old(dst[|src|..])
    {
      NormTableNext(p, table, start, src, i, crc);
      crc := NormTableStep(table, crc, src[i]);
      dst[i] := src[i];
      assert dst[..i + 1] == dst[..i] + [src[i]];
      i := i + 1;
    }
    assert src[..|src|] == src;
    r := if inverted then Not(crc) else crc;
  }

  /** Normal check by table. */
  method NormBase(p: seq<bool>, table: seq<seq<bool>>, inverted: bool, seed: seq<bool>, buf: seq<Byte>) returns (r: seq<bool>)
    requires NormTable(p, table) && |seed| == |p|
    ensures |p| >= 8 && r == if inverted then Not(NormRun(p, Not(seed), buf)) else NormRun(p, seed, buf)
  {
    hide *;
    TableSize(p, table);
    var crc := if inverted then Not(seed) else seed;
    ghost var start := crc;
    RunNone(p, start, buf[..0]);
    var i := 0;
    while i < |buf|
      invariant 0 <= i <= |buf| && |crc| == |p| && crc == NormRun(p, start, buf[..i])
    {
      NormTableNext(p, table, start, buf, i, crc);
      crc := NormTableStep(table, crc, buf[i]);
      i := i + 1;
    }
    assert buf[..|buf|] == buf;
    r := if inverted then Not(crc) else crc;
  }

  // -- the references: bit by bit, in a 64-bit word

  /** A byte is added at the low end of the word. */
  function AddLow(rem: seq<bool>, b: Byte): (r: seq<bool>)
    requires |rem| == 64
    ensures |r| == 64
  {
    Plus(rem, BitsOf(b, 8) + Zero(56))
  }

  function ReflWordStep(p: seq<bool>, rem: seq<bool>): (r: seq<bool>)
    requires |rem| == 64 && |p| <= 64
    ensures |r| == 64
  {
    if rem[0] then Plus(rem[1..] + [false], p + Zero(64 - |p|)) else rem[1..] + [false]
  }

  /** The word is a register with clear bits above it. */
  ghost predicate Narrow(rem: seq<bool>, w: nat) { |rem| == 64 && w <= 64 && forall i :: w <= i < 64 ==> !rem[i] }

  lemma AddLowNarrow(rem: seq<bool>, w: nat, b: Byte)
    requires Narrow(rem, w) && w >= 8
    ensures Narrow(AddLow(rem, b), w) && AddLow(rem, b)[..w] == Plus(rem[..w], Low(b, w))
  {
    hide BitsOf;
  }

  lemma ReflWordNarrow(p: seq<bool>, rem: seq<bool>)
    requires Narrow(rem, |p|) && 0 < |p| <= 64
    ensures Narrow(ReflWordStep(p, rem), |p|) && ReflWordStep(p, rem)[..|p|] == ReflStep(p, rem[..|p|])
  {}

  lemma NarrowStart(x: seq<bool>)
    requires |x| <= 64
    ensures Narrow(x + Zero(64 - |x|), |x|) && (x + Zero(64 - |x|))[..|x|] == x
  {}

  /** Eight steps of the reflected reference. */
  method ReflWordByte(p: seq<bool>, word: seq<bool>, b: Byte) returns (rem: seq<bool>)
    requires 8 <= |p| <= 64 && Narrow(word, |p|) && |word| == 64
    ensures Narrow(rem, |p|) && |rem| == 64 && rem[..|p|] == ReflByte(p, word[..|p|], b)
  {
    hide *;
    AddLowNarrow(word, |p|, b);
    ReflByteIs(p, word[..|p|], b);
    rem := AddLow(word, b);
    ghost var x := rem[..|p|];
    var j := 0;
    while j < 8
      invariant 0 <= j <= 8 && Narrow(rem, |p|) && |rem| == 64 && ReflSteps(p, rem[..|p|], 8 - j) == ReflSteps(p, x, 8)
    {
      ReflStepsNext(p, rem[..|p|], 8 - j);
      ReflWordNarrow(p, rem);
      rem := ReflWordStep(p, rem);
      j := j + 1;
    }
    ReflStepsNone(p, rem[..|p|]);
  }

  /** The reflected reference; a check of less than 64 bits keeps the upper bits of its word clear. */
  method ReflRef(p: seq<bool>, inverted: bool, seed: seq<bool>, buf: seq<Byte>) returns (r: seq<bool>)
    requires 8 <= |p| == |seed| <= 64
    ensures r == if inverted then Not(ReflRun(p, Not(seed), buf)) else ReflRun(p, seed, buf)
  {
    hide *;
    var w := |p|;
    var start := if inverted then Not(seed) else seed;
    NarrowStart(start);
    var rem := start + Zero(64 - w);
    RunNone(p, start, buf[..0]);
    var i := 0;
    while i < |buf|
      invariant 0 <= i <= |buf| && Narrow(rem, w) && |rem| == 64 && rem[..w] == ReflRun(p, start, buf[..i])
    {
      RunNext(p, start, buf, i);
      rem := ReflWordByte(p, rem, buf[i]);
      i := i + 1;
    }
    assert buf[..|buf|] == buf;
    r := if inverted then Not(rem[..w]) else rem[..w];
  }

  lemma ReflByteIs(p: seq<bool>, x: seq<bool>, b: Byte)
    requires |p| == |x| >= 8
    ensures ReflByte(p, x, b) == ReflSteps(p, Plus(x, Low(b, |x|)), 8)
    ensures NormByte(p, x, b) == NormSteps(p, Plus(x, High(b, |x|)), 8)
  {}

  lemma ReflStepsNext(p: seq<bool>, x: seq<bool>, k: nat)
    requires |p| == |x| > 0 && k > 0
    ensures ReflSteps(p, x, k) == ReflSteps(p, ReflStep(p, x), k - 1) && NormSteps(p, x, k) == NormSteps(p, NormStep(p, x), k - 1)
  {}

  lemma ReflStepsNone(p: seq<bool>, x: seq<bool>)
    requires |p| == |x| > 0
    ensures ReflSteps(p, x, 0) == x && NormSteps(p, x, 0) == x
  {}

  /** A byte is added at the high end of a register of w bits. */
  function AddHigh(rem: seq<bool>, w: nat, b: Byte): (r: seq<bool>)
    requires |rem| == 64 && 8 <= w <= 64
    ensures |r| == 64
  {
    Plus(rem, Zero(w - 8) + BitsOf(b, 8) + Zero(64 - w))
  }

  /** The polynomial is added without its top term: the bit above the register is not cleared. */
  function NormWordStep(p: seq<bool>, rem: seq<bool>): (r: seq<bool>)
    requires |rem| == 64 && |p| < 64
    ensures |r| == 64
  {
    if ([false] + rem[..63])[|p|] then Plus([false] + rem[..63], p + Zero(64 - |p|)) else [false] + rem[..63]
  }

  lemma AddHighBelow(rem: seq<bool>, w: nat, b: Byte)
    requires |rem| == 64 && 8 <= w <= 64
    ensures AddHigh(rem, w, b)[..w] == Plus(rem[..w], High(b, w))
  {
    hide BitsOf;
  }

  lemma NormWordBelow(p: seq<bool>, rem: seq<bool>)
    requires |rem| == 64 && 0 < |p| < 64
    ensures NormWordStep(p, rem)[..|p|] == NormStep(p, rem[..|p|])
  {}

  method NormWordByte(p: seq<bool>, word: seq<bool>, b: Byte) returns (rem: seq<bool>)
    requires 8 <= |p| < 64 && |word| == 64
    ensures |rem| == 64 && rem[..|p|] == NormByte(p, word[..|p|], b)
  {
    hide *;
    AddHighBelow(word, |p|, b);
    ReflByteIs(p, word[..|p|], b);
    rem := AddHigh(word, |p|, b);
    ghost var x := rem[..|p|];
    var j := 0;
    while j < 8
      invariant 0 <= j <= 8 && |rem| == 64 && NormSteps(p, rem[..|p|], 8 - j) == NormSteps(p, x, 8)
    {
      ReflStepsNext(p, rem[..|p|], 8 - j);
      NormWordBelow(p, rem);
      rem := NormWordStep(p, rem);
      j := j + 1;
    }
    ReflStepsNone(p, rem[..|p|]);
  }

  /** The normal reference for less than 64 bits. Bits above the register are never cleared; they stay above it and are
      dropped at the end. */
  method NormRefWide(p: seq<bool>, inverted: bool, seed: seq<bool>, buf: seq<Byte>) returns (r: seq<bool>)
    requires 8 <= |p| == |seed| < 64
    ensures r == if inverted then Not(NormRun(p, Not(seed), buf)) else NormRun(p, seed, buf)
  {
    hide *;
    var w := |p|;
    var start := if inverted then Not(seed) else seed;
    NarrowStart(start);
    var rem := start + Zero(64 - w);
    RunNone(p, start, buf[..0]);
    var i := 0;
    while i < |buf|
      invariant 0 <= i <= |buf| && |rem| == 64 && rem[..w] == NormRun(p, start, buf[..i])
    {
      RunNext(p, start, buf, i);
      rem := NormWordByte(p, rem, buf[i]);
      i := i + 1;
    }
    assert buf[..|buf|] == buf;
    r := if inverted then Not(rem[..w]) else rem[..w];
  }

  function NormStep64(p: seq<bool>, rem: seq<bool>): (r: seq<bool>)
    requires |rem| == |p| == 64
    ensures |r| == 64
  {
    Plus(if rem[63] then p else Zero(64), [false] + rem[..63])
  }

  lemma NormStep64Is(p: seq<bool>, rem: seq<bool>)
    requires |rem| == |p| == 64
    ensures NormStep64(p, rem) == NormStep(p, rem)
  {}

  lemma AddHigh64(rem: seq<bool>, b: Byte)
    requires |rem| == 64
    ensures AddHigh(rem, 64, b) == Plus(rem, High(b, 64))
  {
    hide BitsOf;
  }

  method NormByte64(p: seq<bool>, word: seq<bool>, b: Byte) returns (rem: seq<bool>)
    requires |p| == 64 == |word|
    ensures rem == NormByte(p, word, b)
  {
    hide *;
    AddHigh64(word, b);
    ReflByteIs(p, word, b);
    rem := AddHigh(word, 64, b);
    ghost var x := rem;
    var j := 0;
    while j < 8
      invariant 0 <= j <= 8 && |rem| == 64 && NormSteps(p, rem, 8 - j) == NormSteps(p, x, 8)
    {
      ReflStepsNext(p, rem, 8 - j);
      NormStep64Is(p, rem);
      rem := NormStep64(p, rem);
      j := j + 1;
    }
    ReflStepsNone(p, rem);
  }

  /** The normal 64-bit reference. */
  method NormRef64(p: seq<bool>, seed: seq<bool>, buf: seq<Byte>) returns (r: seq<bool>)
    requires |p| == |seed| == 64
    ensures r == Not(NormRun(p, Not(seed), buf))
  {
    hide *;
    var rem := Not(seed);
    RunNone(p, rem, buf[..0]);
    var i := 0;
    while i < |buf|
      invariant 0 <= i <= |buf| && |rem| == 64 && rem == NormRun(p, Not(seed), buf[..i])
    {
      RunNext(p, Not(seed), buf, i);
      rem := NormByte64(p, rem, buf[i]);
      i := i + 1;
    }
    assert buf[..|buf|] == buf;
    r := Not(rem);
  }

  // -- mirror images

  /** A byte with its bits in reverse order. */
  function MirrorByte(b: Byte): Byte {
    BitsOfValue(Reverse(BitsOf(b, 8)));
    Pow2Values();
    ValueOf(Reverse(BitsOf(b, 8)))
  }

  function Mirrored(buf: seq<Byte>): (r: seq<Byte>)
    ensures |r| == |buf| && forall i :: 0 <= i < |buf| ==> r[i] == MirrorByte(buf[i])
  {
    seq(|buf|, i requires 0 <= i < |buf| => MirrorByte(buf[i]))
  }

  lemma MirrorStep(p: seq<bool>, x: seq<bool>)
    requires |p| == |x| > 0
    ensures ReflStep(Reverse(p), Reverse(x)) == Reverse(NormStep(p, x))
  {}

  lemma {:induction false} MirrorSteps(p: seq<bool>, x: seq<bool>, k: nat)
    requires |p| == |x| > 0
    ensures ReflSteps(Reverse(p), Reverse(x), k) == Reverse(NormSteps(p, x, k))
    decreases k
  {
    hide ReflStep, NormStep, Reverse;
    if k > 0 {
      MirrorStep(p, x);
      MirrorSteps(p, NormStep(p, x), k - 1);
    }
  }

  lemma MirrorOneByte(p: seq<bool>, x: seq<bool>, b: Byte)
    requires |p| == |x| >= 8
    ensures ReflByte(Reverse(p), Reverse(x), MirrorByte(b)) == Reverse(NormByte(p, x, b))
  {
    hide ReflSteps, NormSteps, BitsOf, ValueOf;
    BitsOfValue(Reverse(BitsOf(b, 8)));
    assert Plus(Reverse(x), Low(MirrorByte(b), |x|)) == Reverse(Plus(x, High(b, |x|)));
    MirrorSteps(p, Plus(x, High(b, |x|)), 8);
  }

  /** A reflected check is the mirror image of the normal one with the mirrored polynomial, on mirrored bytes. */
  lemma {:induction false} MirrorRun(p: seq<bool>, x: seq<bool>, buf: seq<Byte>)
    requires |p| == |x| >= 8
    ensures ReflRun(Reverse(p), Reverse(x), Mirrored(buf)) == Reverse(NormRun(p, x, buf))
  {
    hide ReflByte, NormByte, MirrorByte;
    if |buf| > 0 {
      var n := |buf| - 1;
      MirrorRun(p, x, buf[..n]);
      assert Mirrored(buf)[..n] == Mirrored(buf[..n]);
      MirrorOneByte(p, NormRun(p, x, buf[..n]), buf[n]);
    }
  }

  // -- the polynomials

  /** The four bits of a hexadecimal digit. */
  function Nibble(d: nat): (r: seq<bool>)
    ensures |r| == 4
  {
    [d % 2 == 1, d / 2 % 2 == 1, d / 4 % 2 == 1, d / 8 % 2 == 1]
  }

  /** The register that is written with these hexadecimal digits, most significant first. */
  function Hex(ds: seq<nat>): (r: seq<bool>)
    ensures |r| == 4 * |ds|
  {
    if |ds| == 0 then [] else Hex(ds[1..]) + Nibble(ds[0])
  }

  function Flip(d: nat): nat { 8 * (d % 2) + 4 * (d / 2 % 2) + 2 * (d / 4 % 2) + d / 8 % 2 }

  function FlipAll(ds: seq<nat>): (r: seq<nat>)
    ensures |r| == |ds| && forall i :: 0 <= i < |ds| ==> r[i] == Flip(ds[|ds| - 1 - i])
  {
    seq(|ds|, i requires 0 <= i < |ds| => Flip(ds[|ds| - 1 - i]))
  }

  lemma FlipNibble(d: nat)
    ensures Reverse(Nibble(d)) == Nibble(Flip(d))
  {
    var a, b, c, e := d % 2, d / 2 % 2, d / 4 % 2, d / 8 % 2;
    FlipBits(a, b, c, e);
  }

  lemma FlipBits(a: nat, b: nat, c: nat, e: nat)
    requires a < 2 && b < 2 && c < 2 && e < 2
    ensures Nibble(8 * a + 4 * b + 2 * c + e) == [e == 1, c == 1, b == 1, a == 1]
  {}

  lemma {:induction false} HexMore(ds: seq<nat>, d: nat)
    ensures Hex(ds + [d]) == Nibble(d) + Hex(ds)
  {
    hide Nibble;
    if |ds| == 0 {
      assert ds + [d] == [d] && [d][1..] == [];
    } else {
      assert (ds + [d])[1..] == ds[1..] + [d];
      HexMore(ds[1..], d);
    }
  }

  /** The mirror image of a register, by digits. */
  lemma {:induction false} HexMirror(ds: seq<nat>)
    ensures Reverse(Hex(ds)) == Hex(FlipAll(ds))
  {
    hide Nibble, Flip;
    if |ds| == 0 {
      assert FlipAll(ds) == [];
    } else {
      HexMirror(ds[1..]);
      assert FlipAll(ds) == FlipAll(ds[1..]) + [Flip(ds[0])];
      HexMore(FlipAll(ds[1..]), Flip(ds[0]));
      FlipNibble(ds[0]);
      assert Reverse(Hex(ds[1..]) + Nibble(ds[0])) == Reverse(Nibble(ds[0])) + Reverse(Hex(ds[1..]));
    }
  }

  lemma FlipOf(a: nat, b: nat, c: nat, e: nat)
    requires a < 2 && b < 2 && c < 2 && e < 2
    ensures Flip(8 * a + 4 * b + 2 * c + e) == 8 * e + 4 * c + 2 * b + a
  {}

  lemma LowDigits()
    ensures Flip(0) == 0 && Flip(1) == 8 && Flip(2) == 4 && Flip(3) == 12 && Flip(4) == 2 && Flip(5) == 10 && Flip(6) == 6 && Flip(7) == 14
  {
    hide Flip;
    FlipOf(0, 0, 0, 0);
    FlipOf(0, 0, 0, 1);
    FlipOf(0, 0, 1, 0);
    FlipOf(0, 0, 1, 1);
    FlipOf(0, 1, 0, 0);
    FlipOf(0, 1, 0, 1);
    FlipOf(0, 1, 1, 0);
    FlipOf(0, 1, 1, 1);
  }

  lemma HighDigits()
    ensures Flip(8) == 1 && Flip(9) == 9 && Flip(10) == 5 && Flip(11) == 13 && Flip(12) == 3 && Flip(13) == 11 && Flip(14) == 7 && Flip(15) == 15
  {
    hide Flip;
    FlipOf(1, 0, 0, 0);
    FlipOf(1, 0, 0, 1);
    FlipOf(1, 0, 1, 0);
    FlipOf(1, 0, 1, 1);
    FlipOf(1, 1, 0, 0);
    FlipOf(1, 1, 0, 1);
    FlipOf(1, 1, 1, 0);
    FlipOf(1, 1, 1, 1);
  }

  /** A register and its mirror image, by their digits. */
  lemma Mirrors(ds: seq<nat>, es: seq<nat>)
    requires FlipAll(ds) == es
    ensures Reverse(Hex(ds)) == Hex(es)
  {
    HexMirror(ds);
  }

  /** CRC-32 of gzip is the mirror image of the IEEE one. */
  lemma GzipMirrorsIeee()
    ensures Reverse(Hex([0, 4, 12, 1, 1, 13, 11, 7])) == Hex([14, 13, 11, 8, 8, 3, 2, 0])
  {
    hide *;
    LowDigits();
    HighDigits();
    Mirrors([0, 4, 12, 1, 1, 13, 11, 7], [14, 13, 11, 8, 8, 3, 2, 0]);
  }

  /** So are the reflected forms of the three 64-bit checks: ECMA-182, ISO and Jones. */
  lemma EcmaMirrors()
    ensures Reverse(Hex([4, 2, 15, 0, 14, 1, 14, 11, 10, 9, 14, 10, 3, 6, 9, 3])) == Hex([12, 9, 6, 12, 5, 7, 9, 5, 13, 7, 8, 7, 0, 15, 4, 2])
  {
    hide *;
    LowDigits();
    HighDigits();
    Mirrors([4, 2, 15, 0, 14, 1, 14, 11, 10, 9, 14, 10, 3, 6, 9, 3], [12, 9, 6, 12, 5, 7, 9, 5, 13, 7, 8, 7, 0, 15, 4, 2]);
  }

  lemma IsoMirrors()
    ensures Reverse(Hex([0, 0, 0, 0, 0, 0, 0, 0, 0, 0, 0, 0, 0, 0, 1, 11])) == Hex([13, 8, 0, 0, 0, 0, 0, 0, 0, 0, 0, 0, 0, 0, 0, 0])
  {
    hide *;
    LowDigits();
    HighDigits();
    Mirrors([0, 0, 0, 0, 0, 0, 0, 0, 0, 0, 0, 0, 0, 0, 1, 11], [13, 8, 0, 0, 0, 0, 0, 0, 0, 0, 0, 0, 0, 0, 0, 0]);
  }

  lemma JonesMirrors()
    ensures Reverse(Hex([10, 13, 9, 3, 13, 2, 3, 5, 9, 4, 12, 9, 3, 5, 10, 9])) == Hex([9, 5, 10, 12, 9, 3, 2, 9, 10, 12, 4, 11, 12, 9, 11, 5])
  {
    hide *;
    LowDigits();
    HighDigits();
    Mirrors([10, 13, 9, 3, 13, 2, 3, 5, 9, 4, 12, 9, 3, 5, 10, 9], [9, 5, 10, 12, 9, 3, 2, 9, 10, 12, 4, 11, 12, 9, 11, 5]);
  }

  lemma ReverseNot(x: seq<bool>)
    ensures Reverse(Not(x)) == Not(Reverse(x))
  {}

  /** With the inversions before and after: the reflected check of mirrored bytes, from the mirrored seed, is the mirror image
      of the normal check. */
  lemma MirroredCheck(p: seq<bool>, q: seq<bool>, seed: seq<bool>, buf: seq<Byte>)
    requires |p| == |seed| >= 8 && q == Reverse(p)
    ensures |q| == |p| && Not(ReflRun(q, Not(Reverse(seed)), Mirrored(buf))) == Reverse(Not(NormRun(p, Not(seed), buf)))
  {
    hide ReflRun, NormRun, Mirrored;
    ReverseNot(seed);
    MirrorRun(p, Not(seed), buf);
    ReverseNot(NormRun(p, Not(seed), buf));
  }

  /** The gzip check is the mirror image of the IEEE check. */
  lemma GzipIsIeee(seed: seq<bool>, buf: seq<Byte>)
    requires |seed| == 32
    ensures Not(ReflRun(Hex([14, 13, 11, 8, 8, 3, 2, 0]), Not(Reverse(seed)), Mirrored(buf)))
         == Reverse(Not(NormRun(Hex([0, 4, 12, 1, 1, 13, 11, 7]), Not(seed), buf)))
  {
    hide *;
    GzipMirrorsIeee();
    HexSize([0, 4, 12, 1, 1, 13, 11, 7]);
    MirroredCheck(Hex([0, 4, 12, 1, 1, 13, 11, 7]), Hex([14, 13, 11, 8, 8, 3, 2, 0]), seed, buf);
  }

  lemma HexSize(ds: seq<nat>)
    ensures |Hex(ds)| == 4 * |ds|
  {}

  /** So are the reflected 64-bit checks of the normal ones: ECMA-182, ISO and Jones. */
  lemma WideMirrors(seed: seq<bool>, buf: seq<Byte>)
    requires |seed| == 64
    ensures Not(ReflRun(Hex([12, 9, 6, 12, 5, 7, 9, 5, 13, 7, 8, 7, 0, 15, 4, 2]), Not(Reverse(seed)), Mirrored(buf)))
         == Reverse(Not(NormRun(Hex([4, 2, 15, 0, 14, 1, 14, 11, 10, 9, 14, 10, 3, 6, 9, 3]), Not(seed), buf)))
    ensures Not(ReflRun(Hex([13, 8, 0, 0, 0, 0, 0, 0, 0, 0, 0, 0, 0, 0, 0, 0]), Not(Reverse(seed)), Mirrored(buf)))
         == Reverse(Not(NormRun(Hex([0, 0, 0, 0, 0, 0, 0, 0, 0, 0, 0, 0, 0, 0, 1, 11]), Not(seed), buf)))
    ensures Not(ReflRun(Hex([9, 5, 10, 12, 9, 3, 2, 9, 10, 12, 4, 11, 12, 9, 11, 5]), Not(Reverse(seed)), Mirrored(buf)))
         == Reverse(Not(NormRun(Hex([10, 13, 9, 3, 13, 2, 3, 5, 9, 4, 12, 9, 3, 5, 10, 9]), Not(seed), buf)))
  {
    hide *;
    EcmaMirrors();
    IsoMirrors();
    JonesMirrors();
    HexSize([4, 2, 15, 0, 14, 1, 14, 11, 10, 9, 14, 10, 3, 6, 9, 3]);
    HexSize([0, 0, 0, 0, 0, 0, 0, 0, 0, 0, 0, 0, 0, 0, 1, 11]);
    HexSize([10, 13, 9, 3, 13, 2, 3, 5, 9, 4, 12, 9, 3, 5, 10, 9]);
    MirroredCheck(Hex([4, 2, 15, 0, 14, 1, 14, 11, 10, 9, 14, 10, 3, 6, 9, 3]), Hex([12, 9, 6, 12, 5, 7, 9, 5, 13, 7, 8, 7, 0, 15, 4, 2]), seed, buf);
    MirroredCheck(Hex([0, 0, 0, 0, 0, 0, 0, 0, 0, 0, 0, 0, 0, 0, 1, 11]), Hex([13, 8, 0, 0, 0, 0, 0, 0, 0, 0, 0, 0, 0, 0, 0, 0]), seed, buf);
    MirroredCheck(Hex([10, 13, 9, 3, 13, 2, 3, 5, 9, 4, 12, 9, 3, 5, 10, 9]), Hex([9, 5, 10, 12, 9, 3, 2, 9, 10, 12, 4, 11, 12, 9, 11, 5]), seed, buf);
  }
}
