/** Run-length coding of code lengths, section 3.2.7 of RFC 1951. */
module RunLength {

  /** A code length code symbol with the value of its extra bits. */
  datatype RlCode = RlCode(code: nat, extraBits: nat)

  datatype Lens = Malformed | Lens(lens: seq<nat>)

  function Repeat(v: nat, n: nat): (r: seq<nat>)
    ensures |r| == n && forall i :: 0 <= i < n ==> r[i] == v
  {
    seq(n, _ => v)
  }

  lemma RepeatAdd(v: nat, m: nat, n: nat)
    ensures Repeat(v, m + n) == Repeat(v, m) + Repeat(v, n)
  {}

  /** What one symbol adds to the lengths before it. */
  function ExpandOne(out: seq<nat>, t: RlCode): Lens {
    if t.code < 16 then (if t.extraBits == 0 then Lens(out + [t.code]) else Malformed)
    else if t.code == 16 then (if |out| > 0 && t.extraBits < 4 then Lens(out + Repeat(out[|out| - 1], 3 + t.extraBits)) else Malformed)
    else if t.code == 17 then (if t.extraBits < 8 then Lens(out + Repeat(0, 3 + t.extraBits)) else Malformed)
    else if t.code == 18 then (if t.extraBits < 128 then Lens(out + Repeat(0, 11 + t.extraBits)) else Malformed)
    else Malformed
  }

  function ExpandAll(out: seq<nat>, ts: seq<RlCode>): Lens
    decreases |ts|
  {
    if |ts| == 0 then Lens(out) else
      match ExpandOne(out, ts[0])
      case Malformed => Malformed
      case Lens(o) => ExpandAll(o, ts[1..])
  }

  lemma {:induction false} ExpandMore(out: seq<nat>, ts: seq<RlCode>, mid: seq<nat>, t: RlCode)
    requires ExpandAll(out, ts) == Lens(mid)
    ensures ExpandAll(out, ts + [t]) == ExpandOne(mid, t)
    decreases |ts|
  {
    if |ts| == 0 {
      assert ts + [t] == [t] && [t][1..] == [];
    } else {
      assert (ts + [t])[1..] == ts[1..] + [t];
      ExpandMore(ExpandOne(out, ts[0]).lens, ts[1..], mid, t);
    }
  }

  function Uses(ts: seq<RlCode>, c: nat): nat {
    if |ts| == 0 then 0 else Uses(ts[..|ts| - 1], c) + if ts[|ts| - 1].code == c then 1 else 0
  }

  lemma UsesMore(ts: seq<RlCode>, t: RlCode, c: nat)
    ensures Uses(ts + [t], c) == Uses(ts, c) + if t.code == c then 1 else 0
  {
    assert (ts + [t])[..|ts|] == ts;
  }

  lemma {:induction false} UsesPositive(ts: seq<RlCode>, i: nat)
    requires i < |ts|
    ensures Uses(ts, ts[i].code) > 0
  {
    if i < |ts| - 1 { UsesPositive(ts[..|ts| - 1], i); }
  }

  /** The symbols written so far expand to `text`, and `counts` has grown by how often each was used. */
  ghost predicate Written(out: seq<RlCode>, pout: nat, text: seq<nat>, counts: seq<nat>, counts0: seq<nat>) {
    pout <= |out| && ExpandAll([], out[..pout]) == Lens(text) && |counts| == |counts0| == 19
    && forall c :: 0 <= c < 19 ==> counts[c] == counts0[c] + Uses(out[..pout], c)
  }

  lemma WrittenMore(out: seq<RlCode>, pout: nat, text: seq<nat>, counts: seq<nat>, counts0: seq<nat>, t: RlCode, text': seq<nat>)
    requires Written(out, pout, text, counts, counts0) && pout < |out| && t.code < 19 && ExpandOne(text, t) == Lens(text')
    ensures Written(out[pout := t], pout + 1, text', counts[t.code := counts[t.code] + 1], counts0)
  {
    hide ExpandOne;
    var now, ts := out[pout := t], out[..pout];
    assert now[..pout + 1] == ts + [t];
    ExpandMore([], ts, text, t);
    forall c: nat | c < 19 ensures Uses(ts + [t], c) == Uses(ts, c) + if t.code == c then 1 else 0 {
      UsesMore(ts, t, c);
    }
  }

  /** Writes one symbol and counts it. */
  method Put(out: array<RlCode>, pout: nat, t: RlCode, counts: array<nat>, ghost text: seq<nat>, ghost counts0: seq<nat>, ghost text': seq<nat>)
    requires pout < out.Length && t.code < 19 && Written(out[..], pout, text, counts[..], counts0) && ExpandOne(text, t) == Lens(text')
    modifies out, counts
    ensures Written(out[..], pout + 1, text', counts[..], counts0) && out[..pout] == old(out[..pout])
  {
    hide Written;
    ghost var was, had := out[..], counts[..];
    WrittenMore(was, pout, text, had, counts0, t, text');
    WrittenSize(was, pout, text, had, counts0);
    out[pout] := t;
    counts[t.code] := counts[t.code] + 1;
    assert out[..] == was[pout := t] && counts[..] == had[t.code := had[t.code] + 1];
  }

  lemma WrittenSize(out: seq<RlCode>, pout: nat, text: seq<nat>, counts: seq<nat>, counts0: seq<nat>)
    requires Written(out, pout, text, counts, counts0)
    ensures |counts| == 19 && pout <= |out|
  {}

  lemma Zeros(text: seq<nat>, done: nat, t: RlCode, n: nat)
    requires n > 0 && ((t == RlCode(0, 0) && n == 1) || (3 <= n <= 10 && t == RlCode(17, n - 3)) || (11 <= n <= 138 && t == RlCode(18, n - 11)))
    ensures ExpandOne(text + Repeat(0, done), t) == Lens(text + Repeat(0, done + n))
  {
    RepeatAdd(0, done, n);
    assert Repeat(0, 1) == [0];
    assert text + Repeat(0, done) + Repeat(0, n) == text + (Repeat(0, done) + Repeat(0, n));
  }

  lemma Lengths(text: seq<nat>, v: nat, done: nat, t: RlCode, n: nat)
    requires n > 0 && v < 16 && ((t == RlCode(v, 0) && n == 1) || (3 <= n <= 6 && t == RlCode(16, n - 3) && done > 0))
    ensures ExpandOne(text + Repeat(v, done), t) == Lens(text + Repeat(v, done + n))
  {
    RepeatAdd(v, done, n);
    assert Repeat(v, 1) == [v];
    assert text + Repeat(v, done) + Repeat(v, n) == text + (Repeat(v, done) + Repeat(v, n));
  }

  // -- how many symbols

  /** For a run of n lengths v: one for every 138 zeros or six repetitions, and two where two are left over. */
  function RunTokens(v: nat, n: nat): nat
    requires n >= 1
  {
    if v == 0 then (n - 1) / 138 + (if n % 138 == 2 then 2 else 1)
    else if n == 1 then 1
    else 1 + (n - 2) / 6 + (if (n - 1) % 6 == 2 then 2 else 1)
  }

  /** Where the last run of equal lengths starts. */
  function LastRun(codes: seq<nat>): (j: nat)
    requires |codes| >= 1
    ensures j < |codes| && (forall k :: j <= k < |codes| ==> codes[k] == codes[|codes| - 1]) && (j > 0 ==> codes[j - 1] != codes[j])
  {
    if |codes| == 1 || codes[|codes| - 2] != codes[|codes| - 1] then |codes| - 1 else LastRun(codes[..|codes| - 1])
  }

  /** For all runs. */
  function TokenCount(codes: seq<nat>): nat {
    if |codes| == 0 then 0 else TokenCount(codes[..LastRun(codes)]) + RunTokens(codes[|codes| - 1], |codes| - LastRun(codes))
  }

  /** One more run, longer than which there is none. */
  lemma CountRun(codes: seq<nat>, i: nat, runLen: nat, v: nat)
    requires 1 <= runLen <= i <= |codes| && (forall k :: i - runLen <= k < i ==> codes[k] == v) && (i > runLen ==> codes[i - runLen - 1] != v)
    ensures TokenCount(codes[..i]) == TokenCount(codes[..i - runLen]) + RunTokens(v, runLen)
  {
    hide RunTokens;
    var front := codes[..i];
    assert LastRun(front) == i - runLen;
    assert front[..i - runLen] == codes[..i - runLen];
  }

  /** That is not always the least number: 140 zeros take three symbols, although two would do. */
  lemma NotFewest()
    ensures TokenCount(Repeat(0, 140)) == 3 && ExpandAll([], [RlCode(18, 126), RlCode(17, 0)]) == Lens(Repeat(0, 140))
  {
    var zeros := Repeat(0, 140);
    assert LastRun(zeros) == 0;
    assert zeros[..0] == [];
    var ts := [RlCode(18, 126), RlCode(17, 0)];
    assert ts[1..] == [RlCode(17, 0)] && ts[1..][1..] == [];
    RepeatAdd(0, 137, 3);
    assert [] + Repeat(0, 137) == Repeat(0, 137);
    assert ExpandOne([], ts[0]) == Lens(Repeat(0, 137)) && ExpandOne(Repeat(0, 137), RlCode(17, 0)) == Lens(zeros);
    assert ExpandAll(Repeat(0, 137), ts[1..]) == Lens(zeros);
  }

  /** Writes a run of zeros: as long runs as possible, two short ones for two. */
  method WriteZeros(out: array<RlCode>, from: nat, runLen: nat, counts: array<nat>, ghost text: seq<nat>, ghost counts0: seq<nat>)
    returns (pout: nat)
    requires 1 <= runLen && from + runLen <= out.Length && Written(out[..], from, text, counts[..], counts0)
    modifies out, counts
    ensures from < pout <= from + runLen && Written(out[..], pout, text + Repeat(0, runLen), counts[..], counts0)
    ensures out[..from] == old(out[..from]) && pout == from + RunTokens(0, runLen)
  {
    hide *;
    pout := from;
    var run := runLen;
    assert text + Repeat(0, 0) == text;
    while run > 138
      invariant 1 <= run <= runLen && from <= pout <= from + (runLen - run) && runLen - run == 138 * (pout - from)
      invariant Written(out[..], pout, text + Repeat(0, runLen - run), counts[..], counts0) && out[..from] == old(out[..from])
    {
      Zeros(text, runLen - run, RlCode(18, 138 - 11), 138);
      Put(out, pout, RlCode(18, 138 - 11), counts, text + Repeat(0, runLen - run), counts0, text + Repeat(0, runLen - run + 138));
      assert out[..from] == out[..pout][..from];
      pout := pout + 1;
      run := run - 138;
    }
    ghost var done := runLen - run;
    ZeroTokens(runLen, run, pout - from);
    if run > 10 {
      Zeros(text, done, RlCode(18, run - 11), run);
      Put(out, pout, RlCode(18, run - 11), counts, text + Repeat(0, done), counts0, text + Repeat(0, runLen));
      assert out[..from] == out[..pout][..from];
      pout := pout + 1;
    } else if run > 2 {
      Zeros(text, done, RlCode(17, run - 3), run);
      Put(out, pout, RlCode(17, run - 3), counts, text + Repeat(0, done), counts0, text + Repeat(0, runLen));
      assert out[..from] == out[..pout][..from];
      pout := pout + 1;
    } else {
      pout := WriteEach(out, from, pout, 0, run, counts, text, done, counts0);
    }
  }

  /** One or two lengths written out. */
  method WriteEach(out: array<RlCode>, ghost from: nat, at: nat, v: nat, run: nat, counts: array<nat>,
                   ghost text: seq<nat>, ghost done: nat, ghost counts0: seq<nat>)
    returns (pout: nat)
    requires 1 <= run <= 2 && v < 16 && from <= at && at + run <= out.Length
    requires Written(out[..], at, text + Repeat(v, done), counts[..], counts0)
    modifies out, counts
    ensures pout == at + run && Written(out[..], pout, text + Repeat(v, done + run), counts[..], counts0)
    ensures out[..from] == old(out[..from])
  {
    hide *;
    Lengths(text, v, done, RlCode(v, 0), 1);
    Put(out, at, RlCode(v, 0), counts, text + Repeat(v, done), counts0, text + Repeat(v, done + 1));
    assert out[..from] == out[..at][..from];
    if run == 2 {
      Lengths(text, v, done + 1, RlCode(v, 0), 1);
      Put(out, at + 1, RlCode(v, 0), counts, text + Repeat(v, done + 1), counts0, text + Repeat(v, done + 2));
      assert out[..from] == out[..at + 1][..from];
    }
    pout := at + run;
  }

  /** Writes a run of equal lengths: the length itself, then repetitions of three to six. */
  method WriteLengths(out: array<RlCode>, from: nat, v: nat, runLen: nat, counts: array<nat>, ghost text: seq<nat>, ghost counts0: seq<nat>)
    returns (pout: nat)
    requires 1 <= runLen && v < 16 && from + runLen <= out.Length && Written(out[..], from, text, counts[..], counts0)
    modifies out, counts
    ensures from < pout <= from + runLen && Written(out[..], pout, text + Repeat(v, runLen), counts[..], counts0)
    ensures v > 0 ==> pout == from + RunTokens(v, runLen)
    ensures out[..from] == old(out[..from])
  {
    hide *;
    assert text + Repeat(v, 0) == text;
    Lengths(text, v, 0, RlCode(v, 0), 1);
    Put(out, from, RlCode(v, 0), counts, text + Repeat(v, 0), counts0, text + Repeat(v, 1));
    pout := from + 1;
    assert out[..from] == out[..from];
    var run := runLen - 1;
    SingleToken(v);
    if run != 0 {
      while run > 6
        invariant 1 <= run < runLen && from < pout <= from + (runLen - run) && runLen - 1 - run == 6 * (pout - from - 1)
        invariant Written(out[..], pout, text + Repeat(v, runLen - run), counts[..], counts0) && out[..from] == old(out[..from])
      {
        Lengths(text, v, runLen - run, RlCode(16, 6 - 3), 6);
        Put(out, pout, RlCode(16, 6 - 3), counts, text + Repeat(v, runLen - run), counts0, text + Repeat(v, runLen - run + 6));
        assert out[..from] == out[..pout][..from];
        pout := pout + 1;
        run := run - 6;
      }
      ghost var done := runLen - run;
      LengthTokens(v, runLen, run, pout - from - 1);
      if run <= 2 {
        pout := WriteEach(out, from, pout, v, run, counts, text, done, counts0);
      } else {
        Lengths(text, v, done, RlCode(16, run - 3), run);
        Put(out, pout, RlCode(16, run - 3), counts, text + Repeat(v, done), counts0, text + Repeat(v, runLen));
        assert out[..from] == out[..pout][..from];
        pout := pout + 1;
      }
    }
  }

  lemma ZeroTokens(n: nat, run: nat, q: nat)
    requires 1 <= run <= 138 && n - run == 138 * q
    ensures RunTokens(0, n) == q + if run == 2 then 2 else 1
  {}

  lemma SingleToken(v: nat)
    ensures v > 0 ==> RunTokens(v, 1) == 1
  {}

  lemma LengthTokens(v: nat, n: nat, run: nat, q: nat)
    requires 1 <= run <= 6 && n - 1 - run == 6 * q
    ensures v > 0 ==> RunTokens(v, n) == 1 + q + if run == 2 then 2 else 1
  {}

  /** Writes one run; never more symbols than lengths. */
  method WriteRl(out: array<RlCode>, from: nat, lastLen: nat, runLen: nat, counts: array<nat>, ghost text: seq<nat>, ghost counts0: seq<nat>)
    returns (pout: nat)
    requires 1 <= runLen && lastLen < 16 && from + runLen <= out.Length && Written(out[..], from, text, counts[..], counts0)
    modifies out, counts
    ensures from < pout <= from + runLen && Written(out[..], pout, text + Repeat(lastLen, runLen), counts[..], counts0)
    ensures out[..from] == old(out[..from]) && pout == from + RunTokens(lastLen, runLen)
  {
    if lastLen == 0 {
      pout := WriteZeros(out, from, runLen, counts, text, counts0);
    } else {
      pout := WriteLengths(out, from, lastLen, runLen, counts, text, counts0);
    }
  }

  /** Codes all lengths: the symbols expand to them, `counts` says how often each symbol is used, and there are just as many
      symbols as the runs call for, and no more than lengths. */
  method RlEncode(codes: seq<nat>, counts: array<nat>, out: array<RlCode>) returns (n: nat)
    requires |codes| >= 1 && (forall i :: 0 <= i < |codes| ==> codes[i] < 16) && counts.Length == 19 && |codes| <= out.Length
    modifies out, counts
    ensures 1 <= n <= |codes| && ExpandAll([], out[..n]) == Lens(codes) && n == TokenCount(codes)
    ensures forall c :: 0 <= c < 19 ==> counts[c] == old(counts[c]) + Uses(out[..n], c)
  {
    hide ExpandOne, ExpandAll, Uses, TokenCount, RunTokens;
    CountNothing();
    ghost var counts0 := counts[..];
    WrittenStart(out[..], counts0);
    var pout, lastLen, runLen, i := 0, codes[0], 1, 1;
    assert codes[..0] == [];
    while i < |codes|
      invariant 1 <= i <= |codes| && 1 <= runLen <= i && pout <= i - runLen && lastLen < 16
      invariant Written(out[..], pout, codes[..i - runLen], counts[..], counts0)
      invariant forall k :: i - runLen <= k < i ==> codes[k] == lastLen
      invariant pout == TokenCount(codes[..i - runLen]) && (i > runLen ==> codes[i - runLen - 1] != lastLen)
    {
      var len := codes[i];
      if len == lastLen {
        runLen := runLen + 1;
      } else {
        RunJoins(codes, i, runLen, lastLen);
        CountRun(codes, i, runLen, lastLen);
        pout := WriteRl(out, pout, lastLen, runLen, counts, codes[..i - runLen], counts0);
        lastLen := len;
        runLen := 1;
      }
      i := i + 1;
    }
    RunJoins(codes, i, runLen, lastLen);
    CountRun(codes, i, runLen, lastLen);
    n := WriteRl(out, pout, lastLen, runLen, counts, codes[..i - runLen], counts0);
    assert codes[..|codes|] == codes && out[..][..n] == out[..n];
  }

  lemma CountNothing()
    ensures TokenCount([]) == 0
  {}

  lemma WrittenStart(out: seq<RlCode>, counts: seq<nat>)
    requires |counts| == 19
    ensures Written(out, 0, [], counts, counts)
  {}

  lemma RunJoins(codes: seq<nat>, i: nat, runLen: nat, v: nat)
    requires runLen <= i <= |codes| && forall k :: i - runLen <= k < i ==> codes[k] == v
    ensures codes[..i - runLen] + Repeat(v, runLen) == codes[..i]
  {}
}
