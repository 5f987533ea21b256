/** Level 3: a map with one candidate record per input position, matches in it extended, and a parse of the map into
    records with two literals packed together. */
module IcfMap {
  import opened Bits
  import opened LZ77
  import opened Icf
  import opened IcfHash

  /** What the map may hold for a position: the literal there, or a match in the window and in memory that ends by `end`. */
  ghost predicate Entry(data: seq<Byte>, lo: nat, window: nat, p: nat, end: nat, r: Record) {
    p < end <= |data| && window <= 32768
    && (r == Record(data[p], 30, 0) || exists len: nat, dist: nat :: EntryMatch(data, lo, window, p, end, r, len, dist))
  }

  ghost predicate EntryMatch(data: seq<Byte>, lo: nat, window: nat, p: nat, end: nat, r: Record, len: nat, dist: nat)
    requires window <= 32768
  {
    1 <= dist <= window && dist <= p - lo && 4 <= len <= 258 && p + len <= end
    && IsMatch(data, p, dist, len) && r == MatchRecord(len, dist)
  }

  /** The map from index `from` to index `to` is sound. */
  ghost predicate MapOk(data: seq<Byte>, lo: nat, window: nat, base: nat, map_: seq<Record>, from: nat, to: nat, end: nat) {
    to <= |map_| && forall i :: from <= i < to ==> Entry(data, lo, window, base + i, end, map_[i])
  }

  // -- what an entry contributes

  /** How far an entry reaches. */
  function Reaches(r: Record): (n: nat)
    ensures n >= 1
  {
    if r.litLen >= 257 then r.litLen - 254 else 1
  }

  lemma EntryExpands(data: seq<Byte>, lo: nat, window: nat, p: nat, end: nat, r: Record)
    requires Entry(data, lo, window, p, end, r)
    ensures p + Reaches(r) <= end && (r.IsLiteral() || r.IsMatch()) && r.Valid() && (r.litLen < 257 ==> r == Record(data[p], 30, 0))
    ensures Expand(data[..p], r.Tokens()) == Text(data[..p + Reaches(r)]) && Near([r], window)
  {
    hide Expand, Record.Tokens, DistStart, DistExtraBits, DistIcfCode;
    if r == Record(data[p], 30, 0) {
      LiteralRecord(data, p);
    } else {
      var len: nat, dist: nat :| EntryMatch(data, lo, window, p, end, r, len, dist);
      MatchRecordExpands(data, p, len, dist);
      DistRoundTrip(dist);
    }
  }

  /** A match record determines its length and distance. */
  lemma EntryDistance(data: seq<Byte>, lo: nat, window: nat, p: nat, end: nat, r: Record)
    requires Entry(data, lo, window, p, end, r) && r.litLen >= 257
    ensures EntryMatch(data, lo, window, p, end, r, r.litLen - 254, DistStart(r.litDist) + r.distExtra)
  {
    var len: nat, dist: nat :| EntryMatch(data, lo, window, p, end, r, len, dist);
    DistRoundTrip(dist);
  }

  lemma EntryStep(data: seq<Byte>, lo: nat, window: nat, p0: nat, p: nat, end: nat, rs: seq<Record>,
                  ll0: seq<nat>, d0: seq<nat>, ll1: seq<nat>, d1: seq<nat>, r: Record, ll: seq<nat>, d: seq<nat>)
    requires Found(data, window, p0, p, rs, ll0, d0, ll1, d1) && Entry(data, lo, window, p, end, r) && CountedOne(ll, d, ll1, d1, r)
    ensures Found(data, window, p0, p + Reaches(r), rs + [r], ll0, d0, ll, d)
  {
    hide Found, Entry, CountedOne, Near, Record.Valid, Record.Tokens, Expand, Reaches;
    EntryExpands(data, lo, window, p, end, r);
    EntryEnds(data, lo, window, p, end, r);
    FoundStep(data, window, p0, p, rs, ll0, d0, ll1, d1, r, p + Reaches(r), ll, d);
  }

  lemma EntryEnds(data: seq<Byte>, lo: nat, window: nat, p: nat, end: nat, r: Record)
    requires Entry(data, lo, window, p, end, r)
    ensures p + Reaches(r) <= |data|
  {
    EntryExpands(data, lo, window, p, end, r);
  }

  lemma PairStep(data: seq<Byte>, lo: nat, window: nat, p0: nat, p: nat, end: nat, rs: seq<Record>,
                 ll0: seq<nat>, d0: seq<nat>, ll1: seq<nat>, d1: seq<nat>, r: Record, s: Record, ll: seq<nat>, d: seq<nat>)
    requires Found(data, window, p0, p, rs, ll0, d0, ll1, d1)
    requires Entry(data, lo, window, p, end, r) && Entry(data, lo, window, p + 1, end, s) && r.litLen < 257 && s.litLen < 257
    requires CountedOne(ll, d, ll1, d1, PairOf(r.litLen, s.litLen))
    ensures Found(data, window, p0, p + 2, rs + [PairOf(r.litLen, s.litLen)], ll0, d0, ll, d)
  {
    hide Found, CountedOne, Near, Record.Valid, Record.Tokens, Expand;
    EntryExpands(data, lo, window, p, end, r);
    EntryExpands(data, lo, window, p + 1, end, s);
    PairRecord(data, p);
    PairIsNear(r.litLen, s.litLen, window);
    FoundStep(data, window, p0, p, rs, ll0, d0, ll1, d1, PairOf(r.litLen, s.litLen), p + 2, ll, d);
  }

  lemma PairIsNear(a: nat, b: nat, window: nat)
    requires a < 256
    ensures Near([PairOf(a, b)], window)
  {}

  // -- candidates

  /** The candidate distance: masking what is one less than the difference. */
  function Candidate(index: int, entry: nat, mask: nat): (d: nat)
    ensures 1 <= d <= mask + 1
  {
    (index - entry - 1) % (mask + 1) + 1
  }

  /** What the entry proposes at position x lies in memory. */
  ghost predicate Fits(entry: nat, fileStart: int, lo: nat, window: nat, x: nat)
    requires window > 0
  {
    Candidate(x - fileStart, entry, window - 1) <= x - lo
  }

  /** Whatever the table proposes at p lies in memory. Without history, the first position is not looked up. */
  ghost predicate Ready(table: seq<nat>, fileStart: int, lo: nat, window: nat, p: nat, hasHist: bool) {
    window > 0 && lo <= p && forall h :: 0 <= h < |table| ==> Fits(table[h], fileStart, lo, window, if hasHist then p else p + 1)
  }

  lemma ReadyLater(table: seq<nat>, fileStart: int, lo: nat, window: nat, p: nat, p': nat)
    requires Ready(table, fileStart, lo, window, p, true) && p <= p'
    ensures Ready(table, fileStart, lo, window, p', true)
  {
    hide Fits;
    forall h | 0 <= h < |table| ensures Fits(table[h], fileStart, lo, window, p') { FitsLater(table[h], fileStart, lo, window, p, p'); }
  }

  lemma FitsLater(entry: nat, fileStart: int, lo: nat, window: nat, x: nat, x': nat)
    requires window > 0 && lo <= x <= x' && Fits(entry, fileStart, lo, window, x)
    ensures Fits(entry, fileStart, lo, window, x')
  {
    MovesOn(x - fileStart - entry - 1, x' - x, window);
  }

  /** Moving on by k adds k to a residue, or goes through 0. */
  lemma MovesOn(a: int, k: nat, w: nat)
    requires w > 0
    ensures (a + k) % w < k || (a + k) % w == a % w + k
  {
    Divided(a, w);
    Divided(a % w + k, w);
    Quotient(a % w + k, w);
    Carried(a, k, w, a / w, a % w, (a % w + k) / w, (a % w + k) % w);
  }

  lemma Divided(a: int, w: nat)
    requires w > 0
    ensures a == w * (a / w) + a % w && 0 <= a % w < w
  {}

  lemma Quotient(a: nat, w: nat)
    requires w > 0
    ensures a / w >= 0
  {}

  lemma Carried(a: int, k: nat, w: nat, q: int, r: nat, m: nat, t: nat)
    requires a == w * q + r && r + k == w * m + t && t < w && r < w
    ensures (a + k) % w < k || (a + k) % w == r + k
  {
    Distributes(w, q, m);
    Residue(w, q + m, t);
    assert a + k == w * (q + m) + t;
    if m >= 1 { AtLeastOnce(w, m); } else { NoneOf(w, m); }
  }

  lemma Distributes(w: nat, q: int, m: int)
    ensures w * (q + m) == w * q + w * m
  {}

  lemma NoneOf(w: nat, m: nat)
    requires m == 0
    ensures w * m == 0
  {}

  lemma AtLeastOnce(w: nat, m: nat)
    requires m >= 1
    ensures w * m >= w
  {}

  /** Inserting a position makes the table ready for the next one. */
  lemma ReadyInsert(table: seq<nat>, fileStart: int, lo: nat, window: nat, p: nat, hasHist: bool, h: nat, e: nat)
    requires Ready(table, fileStart, lo, window, p, hasHist) && h < |table| && Stands(e, p, fileStart) && 32768 % window == 0
    ensures Ready(table[h := e], fileStart, lo, window, p + 1, true)
  {
    hide Fits;
    StandsFits(e, p, fileStart, lo, window, p + 1);
    var now := table[h := e];
    forall g | 0 <= g < |now| ensures Fits(now[g], fileStart, lo, window, p + 1) {
      if g != h && hasHist { FitsLater(table[g], fileStart, lo, window, p, p + 1); }
    }
  }

  /** An entry that stands for a position in memory proposes nothing before it. */
  lemma StandsFits(e: nat, q: nat, fileStart: int, lo: nat, window: nat, x: nat)
    requires Stands(e, q, fileStart) && lo <= q < x && window > 0 && 32768 % window == 0
    ensures Fits(e, fileStart, lo, window, x)
  {
    SameResidue(x - fileStart, x - fileStart, e, q - fileStart, window);
  }

  /** The candidate that the code computes from its wrapping counters lies between 1 and the window size, and in memory. */
  lemma CandidateInHistory(table: seq<nat>, fileStart: int, lo: nat, window: nat, p: nat, h: nat, index: int)
    requires Ready(table, fileStart, lo, window, p, true) && h < |table| && 32768 % window == 0
    requires index % 0x1_0000_0000 == (p - fileStart) % 0x1_0000_0000
    ensures Candidate(index, table[h], window - 1) <= p - lo
  {
    assert Fits(table[h], fileStart, lo, window, p);
    WrappedCandidate(index, p - fileStart, table[h], window);
  }

  lemma WrappedCandidate(index: int, a: int, entry: nat, window: nat)
    requires index % 0x1_0000_0000 == a % 0x1_0000_0000 && window > 0 && 32768 % window == 0
    ensures (index - entry - 1) % window == (a - entry - 1) % window
  {
    var k := index / 0x1_0000_0000 - a / 0x1_0000_0000;
    assert index - entry - 1 == (a - entry - 1) + 0x1_0000_0000 * k;
    WholeWindows(a - entry - 1, window, 65536 * k);
  }

  /** Multiples of 2^16 do not matter for a window that divides it. */
  lemma WholeWindows(x: int, window: nat, k: int)
    requires window > 0 && 32768 % window == 0
    ensures (x + 65536 * k) % window == x % window
  {
    var m := 32768 / window;
    var t := 2 * m * k;
    assert 32768 == window * m;
    TwiceTimes(window, m, k);
    var q, r := x / window, x % window;
    assert x + 65536 * k == window * (q + t) + r by { Distributes(window, q, t); }
    Residue(window, q + t, r);
  }

  lemma TwiceTimes(w: nat, m: nat, k: int)
    ensures w * (2 * m * k) == 2 * (w * m) * k
  {}

  /** A table that is ready for the map is safe for the greedy finder that finishes the input. */
  lemma ReadyReach(table: seq<nat>, fileStart: int, lo: nat, window: nat, p: nat, hasHist: bool)
    requires Ready(table, fileStart, lo, window, p, hasHist) && 32768 % window == 0
    ensures Reach(table, fileStart, lo, window - 1, p)
  {
    forall h | 0 <= h < |table| ensures InReach(table[h], fileStart, lo, window - 1, p) {
      var a := p - fileStart - table[h];
      assert Fits(table[h], fileStart, lo, window, if hasHist then p else p + 1);
      var k := a / 65536;
      assert a == a % 65536 + 65536 * k;
      if a % 65536 <= window - 1 {
        if hasHist && a % 65536 > 0 {
          assert a - 1 == (a % 65536 - 1) + 65536 * k;
          WholeWindows(a % 65536 - 1, window, k);
          Residue(window, 0, a % 65536 - 1);
        } else if !hasHist {
          WholeWindows(a % 65536, window, k);
          Residue(window, 0, a % 65536);
        }
      }
    }
  }

  // -- how the table starts out

  /** After a reset there is no history, and the table is ready for the next position. */
  lemma ResetReady(table: seq<nat>, fileStart: int, window: nat, p: nat)
    requires TableOk(table, fileStart, p, p) && window > 0 && 32768 % window == 0
    ensures Ready(table, fileStart, p, window, p, false)
  {
    hide Fits;
    forall h | 0 <= h < |table| ensures Fits(table[h], fileStart, p, window, p + 1) {
      assert EntryOk(table[h], fileStart, p, p);
      StandsFits(table[h], p, fileStart, p, window, p + 1);
    }
  }

  /** When a seeded table is safe for the map: no filler is left, or the distance that the mask makes of it lies in the
      dictionary. */
  lemma DictReady(table: seq<nat>, hash: nat -> nat, dict: seq<Byte>, fileStart: int, p: nat, window: nat, totalIn: nat)
    requires Filled(table, hash, dict, HashedCount(|dict|), fileStart, p) && totalIn == (p - fileStart) % 0x1_0000_0000
    requires window > 0 && 32768 % window == 0
    ensures |dict| <= p
    ensures Ready(table, fileStart, p - |dict|, window, p, true) <==> NoFiller(|table|, hash, dict) || totalIn % window + 1 <= |dict|
  {
    hide Hashed, EntryOk;
    FillerCandidate(p - fileStart, totalIn, window);
    forall h: nat | h < |table|
      ensures Fits(table[h], fileStart, p - |dict|, window, p) <==> Hashed(hash, dict, HashedCount(|dict|), h) || totalIn % window + 1 <= |dict|
    {
      assert FilledAt(table[h], hash, dict, HashedCount(|dict|), fileStart, p, h);
      if Hashed(hash, dict, HashedCount(|dict|), h) {
        HashedSome(hash, dict, h);
        EntryFits(table[h], fileStart, p - |dict|, window, p);
      }
    }
  }

  lemma EntryFits(e: nat, fileStart: int, lo: nat, window: nat, p: nat)
    requires p > 0 && EntryOk(e, fileStart, lo, p - 1) && window > 0 && 32768 % window == 0
    ensures Fits(e, fileStart, lo, window, p)
  {
    var q: nat :| lo <= q <= p - 1 && Stands(e, q, fileStart);
    StandsFits(e, q, fileStart, lo, window, p);
  }

  lemma FillerCandidate(a: int, totalIn: nat, window: nat)
    requires totalIn == a % 0x1_0000_0000 && window > 0 && 32768 % window == 0
    ensures Candidate(a, 65535, window - 1) == totalIn % window + 1
  {
    WholeWindows(a, window, -1);
    var k := a / 0x1_0000_0000;
    assert a == totalIn + 0x1_0000_0000 * k;
    WholeWindows(totalIn, window, 65536 * k);
  }

  lemma SameResidue(index: int, a: int, entry: nat, b: int, window: nat)
    requires index % 0x1_0000_0000 == a % 0x1_0000_0000 && entry == b % 65536 && b < a && window > 0 && 32768 % window == 0
    ensures (index - entry - 1) % window <= a - b - 1
  {
    var k := (index / 0x1_0000_0000 - a / 0x1_0000_0000) * 65536 + b / 65536;
    assert index - entry - 1 == (a - b - 1) + 65536 * k;
    var m := 32768 / window;
    assert 65536 == window * (2 * m);
    Shifted(a - b - 1, window, 2 * m, k);
  }

  lemma Shifted(x: nat, w: nat, m: int, k: int)
    requires w > 0
    ensures (x + w * m * k) % w <= x
  {
    var t := m * k;
    assert w * m * k == w * t;
    ShiftedOnce(x, w, t);
    assert x % w <= x;
  }

  lemma ShiftedOnce(x: nat, w: nat, t: int)
    requires w > 0
    ensures (x + w * t) % w == x % w
  {
    var q, r := x / w, x % w;
    assert x + w * t == w * (q + t) + r;
    Residue(w, q + t, r);
  }

  lemma Residue(w: nat, q: int, r: nat)
    requires r < w
    ensures (w * q + r) % w == r
  {
    var t := w * q + r;
    SameQuotient(w, q, r, t / w, t % w);
  }

  lemma SameQuotient(w: nat, q: int, r: nat, q': int, r': nat)
    requires r < w && r' < w && w * q + r == w * q' + r'
    ensures r == r'
  {
    var k := q - q';
    assert w * k == r' - r;
    if k > 0 { AtLeast(w, k); } else if k < 0 { AtLeast(w, -k); }
  }

  lemma AtLeast(w: nat, k: nat)
    requires k > 0
    ensures w * k >= w
  {}

  /** What a store to the 16-bit table keeps. */
  function Low16(v: nat): nat { v % 65536 }

  /** The number of agreeing bytes in a word, as the trailing zero bytes of the difference. */
  lemma WordCount(data: seq<Byte>, p: nat, dist: nat)
    requires dist <= p && p + 8 <= |data|
    ensures TzByteCnt(WordXor(data, p, dist)) == CommonPrefix(data, p, dist, 8)
  {
    hide Xor, Load, CommonPrefix, Ctz;
    LoadsCompare(data, p, dist, 8);
  }

  /** What the first pass puts into the map: the common prefix within eight bytes, if there are four. */
  ghost predicate FirstPass(data: seq<Byte>, p: nat, dist: nat, r: Record) {
    1 <= dist <= p && dist <= 32768 && p + 8 <= |data|
    && r == if CommonPrefix(data, p, dist, 8) >= 4 then MatchRecord(CommonPrefix(data, p, dist, 8), dist) else Record(data[p], 30, 0)
  }

  lemma FirstPassEntry(data: seq<Byte>, lo: nat, window: nat, p: nat, dist: nat, end: nat, r: Record)
    requires FirstPass(data, p, dist, r) && dist <= window <= 32768 && dist <= p - lo && p + 8 <= end <= |data|
    ensures Entry(data, lo, window, p, end, r)
  {
    hide MatchRecord;
    var len := CommonPrefix(data, p, dist, 8);
    if len >= 4 { assert EntryMatch(data, lo, window, p, end, r, len, dist); }
  }

  lemma MapMore(data: seq<Byte>, lo: nat, window: nat, base: nat, was: seq<Record>, now: seq<Record>, i: nat, end: nat)
    requires MapOk(data, lo, window, base, was, 0, i, end) && i < |was| && |now| == |was| && now == was[i := now[i]]
    requires Entry(data, lo, window, base + i, end, now[i])
    ensures MapOk(data, lo, window, base, now, 0, i + 1, end)
  {}

  /** What the first pass puts at index i: the first position without history is a literal; any other gets the candidate of the
      last position before it with the same hash, or of the table from before the pass. */
  ghost predicate PassedAt(s: Search, t0: seq<nat>, base: nat, first: bool, m: seq<Record>, i: nat)
    requires i < |m|
  {
    if first && i == 0 then base < |s.data| && m[0] == Record(s.data[base], 30, 0)
    else
      base + i + 4 <= |s.data| && s.hash(Load(s.data, base + i, 4)) < |t0|
      && FirstPass(s.data, base + i, Candidate(base + i - s.fileStart, NoteAll(s, t0, base, i)[s.hash(Load(s.data, base + i, 4))], s.distMask), m[i])
  }

  ghost predicate Passed(s: Search, t0: seq<nat>, base: nat, first: bool, m: seq<Record>, n: nat) {
    n <= |m| && forall i :: 0 <= i < n ==> PassedAt(s, t0, base, first, m, i)
  }

  lemma PassedNothing(s: Search, t0: seq<nat>, base: nat, first: bool, m: seq<Record>)
    ensures Passed(s, t0, base, first, m, 0)
  {}

  lemma PassedMore(s: Search, t0: seq<nat>, base: nat, first: bool, was: seq<Record>, now: seq<Record>, i: nat)
    requires Passed(s, t0, base, first, was, i) && i < |was| && |now| == |was| && now == was[i := now[i]]
    requires PassedAt(s, t0, base, first, now, i)
    ensures Passed(s, t0, base, first, now, i + 1)
  {
    hide NoteAll, Load, Candidate, FirstPass;
    forall k | 0 <= k < i + 1 ensures PassedAt(s, t0, base, first, now, k) {
      if k < i { assert PassedAt(s, t0, base, first, was, k); }
    }
  }

  // -- the extension of long matches

  /** The distance of a match record. */
  function DistOf(r: Record): nat { DistStart(r.litDist) + r.distExtra }

  /** An entry of eight bytes or more, which is extended. */
  ghost predicate Extends(data: seq<Byte>, base: nat, m: seq<Record>, i: nat, end: nat) {
    i < |m| && m[i].litLen >= 262 && DistOf(m[i]) <= base + i && base + i + 8 <= end <= |data|
  }

  /** The length index of the match at i, as far as the input agrees. */
  ghost function FullLength(data: seq<Byte>, base: nat, m: seq<Record>, i: nat, end: nat): (n: nat)
    requires Extends(data, base, m, i, end)
    ensures n >= 262
  {
    CommonPrefix(data, base + i + 8, DistOf(m[i]), end - (base + i + 8)) + 262
  }

  /** Where ever shorter rests of a match stop being longer than what is there, or fall below four bytes. */
  function RunStop(m: seq<Record>, k: nat, rest: nat): (j: nat)
    ensures j >= k
    decreases rest
  {
    if k < |m| && rest > m[k].litLen && rest >= 258 then RunStop(m, k + 1, rest - 1) else k
  }

  /** The map with rests of one match from i up to j. */
  function RunOf(m: seq<Record>, i: nat, j: nat, matchLen: int, code: nat, extra: nat): (r: seq<Record>)
    ensures |r| == |m|
  {
    seq(|m|, k requires 0 <= k < |m| =>
      if i <= k < j && matchLen - (k - i) >= 0 then Record(if matchLen - (k - i) > 512 then 512 else matchLen - (k - i), code, extra) else m[k])
  }

  /** The map with its long matches extended, one after the other, from index i on. */
  ghost function Lengthened(data: seq<Byte>, base: nat, m: seq<Record>, i: nat, n: nat, end: nat): seq<Record>
    decreases n - i
  {
    if i >= n then m
    else if !Extends(data, base, m, i, end) then Lengthened(data, base, m, i + 1, n, end)
    else
      Lengthened(data, base,
               RunOf(m, i, RunStop(m, i, FullLength(data, base, m, i, end)), FullLength(data, base, m, i, end), m[i].litDist, m[i].distExtra),
               RunStop(m, i, FullLength(data, base, m, i, end)) + 1, n, end)
  }

  lemma LengthenedShort(data: seq<Byte>, base: nat, m: seq<Record>, i: nat, n: nat, end: nat)
    requires i < n && i < |m| && m[i].litLen < 262
    ensures Lengthened(data, base, m, i, n, end) == Lengthened(data, base, m, i + 1, n, end)
  {}

  lemma LengthenedDone(data: seq<Byte>, base: nat, m: seq<Record>, i: nat, n: nat, end: nat)
    requires i >= n
    ensures Lengthened(data, base, m, i, n, end) == m
  {}

  lemma LengthenedLong(data: seq<Byte>, base: nat, m: seq<Record>, now: seq<Record>, i: nat, j: nat, matchLen: nat, n: nat, end: nat)
    requires i < n && Extends(data, base, m, i, end) && matchLen == FullLength(data, base, m, i, end)
    requires RunWritten(m, now, i, j, matchLen, m[i].litDist, m[i].distExtra)
    requires j == i + matchLen - 257 || (j < |m| && matchLen - (j - i) <= m[j].litLen)
    ensures Lengthened(data, base, m, i, n, end) == Lengthened(data, base, now, j + 1, n, end)
  {
    hide Extends, FullLength, RunStop, RunOf;
    StopsThere(m, now, i, i, j, matchLen, m[i].litDist, m[i].distExtra);
    RunIs(m, now, i, j, matchLen, m[i].litDist, m[i].distExtra);
  }

  lemma LengthenedBy(data: seq<Byte>, base: nat, m: seq<Record>, now: seq<Record>, i: nat, j: nat, count: nat, dist: nat, n: nat, end: nat)
    requires i < n && i < |m| && m[i].litLen >= 262 && dist == DistStart(m[i].litDist) + m[i].distExtra && dist <= base + i && base + i + 8 <= end <= |data|
    requires count == CommonPrefix(data, base + i + 8, dist, end - (base + i + 8))
    requires RunWritten(m, now, i, j, count + 262, m[i].litDist, m[i].distExtra)
    requires j == i + count + 262 - 257 || (j < |now| && count + 262 - (j - i) <= now[j].litLen)
    ensures Lengthened(data, base, m, i, n, end) == Lengthened(data, base, now, j + 1, n, end)
  {
    hide CommonPrefix, RunRecord, Lengthened;
    LengthenedLong(data, base, m, now, i, j, count + 262, n, end);
  }

  /** A match at index i of the map at `base`, rewritten up to index j after `count` more bytes were found to agree. */
  datatype Run = Run(base: nat, i: nat, j: nat, count: nat, end: nat)

  ghost predicate RunIn(data: seq<Byte>, m: seq<Record>, now: seq<Record>, run: Run) {
    run.i < |m| && m[run.i].litLen >= 262 && DistOf(m[run.i]) <= run.base + run.i && run.base + run.i + 8 <= run.end <= |data|
    && run.count == CommonPrefix(data, run.base + run.i + 8, DistOf(m[run.i]), run.end - (run.base + run.i + 8))
    && RunWritten(m, now, run.i, run.j, run.count + 262, m[run.i].litDist, m[run.i].distExtra)
    && (run.j == run.i + run.count + 5 || (run.j < |now| && run.count + 262 - (run.j - run.i) <= now[run.j].litLen))
    && run.i + run.count + 5 < |m|
  }

  lemma IsRunIn(data: seq<Byte>, m: seq<Record>, now: seq<Record>, run: Run)
    requires run.i < |m| && m[run.i].litLen >= 262 && DistOf(m[run.i]) <= run.base + run.i && run.base + run.i + 8 <= run.end <= |data|
    requires run.count == CommonPrefix(data, run.base + run.i + 8, DistOf(m[run.i]), run.end - (run.base + run.i + 8))
    requires RunWritten(m, now, run.i, run.j, run.count + 262, m[run.i].litDist, m[run.i].distExtra)
    requires run.j == run.i + run.count + 5 || (run.j < |now| && run.count + 262 - (run.j - run.i) <= now[run.j].litLen)
    requires run.i + run.count + 5 < |m|
    ensures RunIn(data, m, now, run)
  {
    hide CommonPrefix, RunWritten, DistOf;
  }

  lemma RunMap(data: seq<Byte>, lo: nat, window: nat, m: seq<Record>, now: seq<Record>, n: nat, run: Run)
    requires RunIn(data, m, now, run) && MapOk(data, lo, window, run.base, m, 0, n, run.end) && run.i < n && window <= 32768
    ensures MapOk(data, lo, window, run.base, now, 0, n, run.end)
  {
    hide CommonPrefix, RunWritten, MapOk, Entry, IsMatch, DistIcfCode, DistStart;
    var dist := DistOf(m[run.i]);
    EntryAt(data, lo, window, run.base, m, n, run.i, run.end);
    LongEntry(data, lo, window, run.base + run.i, run.end, m[run.i]);
    MatchGrows(data, run.base + run.i, dist, run.count, run.end);
    RunKeepsMap(data, lo, window, run.base, m, now, n, run.i, run.j, run.count + 262, dist, run.end);
  }

  lemma RunProgress(data: seq<Byte>, was: seq<Record>, m: seq<Record>, now: seq<Record>, lo: nat, window: nat, n: nat, run: Run)
    requires RunIn(data, m, now, run) && LongDone(data, run.base, was, m, run.i, run.end)
    requires MapOk(data, lo, window, run.base, m, 0, n, run.end) && run.i < n
    ensures run.i <= run.j && LongDone(data, run.base, was, now, run.j + 1, run.end)
  {
    hide CommonPrefix, RunWritten, MapOk, Entry, LongDone, Maximal, DistStart;
    EntryAt(data, lo, window, run.base, m, n, run.i, run.end);
    LongEntry(data, lo, window, run.base + run.i, run.end, m[run.i]);
    GrownIsMaximal(data, run.base + run.i, m[run.i], run.count, run.end);
    RunBounds(m, now, run.i, run.j, run.count + 262, m[run.i].litDist, m[run.i].distExtra);
    LongDoneTail(data, run.base, was, m, run.i, run.end);
    RunDone(data, run.base, was, m, now, run.i, run.j, run.count + 262, run.end);
  }

  lemma RunLengthens(data: seq<Byte>, m: seq<Record>, now: seq<Record>, n: nat, run: Run)
    requires RunIn(data, m, now, run) && run.i < n
    ensures Lengthened(data, run.base, m, run.i, n, run.end) == Lengthened(data, run.base, now, run.j + 1, n, run.end)
  {
    hide CommonPrefix, RunWritten, Lengthened;
    LengthenedBy(data, run.base, m, now, run.i, run.j, run.count, DistOf(m[run.i]), n, run.end);
  }

  lemma DistOfIs(r: Record)
    ensures DistOf(r) == DistStart(r.litDist) + r.distExtra
  {}

  lemma RunBounds(m: seq<Record>, now: seq<Record>, i: nat, j: nat, matchLen: nat, code: nat, extra: nat)
    requires RunWritten(m, now, i, j, matchLen, code, extra)
    ensures i <= j <= |m| == |now| && (j < |m| ==> now[j] == m[j])
  {}

  lemma PrefixBound(data: seq<Byte>, p: nat, dist: nat, n: nat)
    requires dist <= p && p + n <= |data|
    ensures CommonPrefix(data, p, dist, n) <= n
  {}

  lemma RunIs(m: seq<Record>, now: seq<Record>, i: nat, j: nat, matchLen: nat, code: nat, extra: nat)
    requires RunWritten(m, now, i, j, matchLen, code, extra)
    ensures now == RunOf(m, i, j, matchLen, code, extra)
  {}

  lemma {:induction false} StopsThere(m: seq<Record>, now: seq<Record>, i: nat, k: nat, j: nat, matchLen: nat, code: nat, extra: nat)
    requires RunWritten(m, now, i, j, matchLen, code, extra) && i <= k <= j && k - i <= matchLen
    requires j == i + matchLen - 257 || (j < |m| && matchLen - (j - i) <= m[j].litLen)
    ensures RunStop(m, k, matchLen - (k - i)) == j
    decreases j - k
  {
    if k < j {
      assert RunRecord(m[k], now[k], matchLen - (k - i), code, extra);
      StopsThere(m, now, i, k + 1, j, matchLen, code, extra);
    }
  }

  // -- the parse of the map

  /** How many positions a record of the parse stands for. */
  function Spans(r: Record): nat { if r.litLen >= 257 then r.litLen - 254 else if r.litDist >= 31 then 2 else 1 }

  function SpanAll(rs: seq<Record>): nat {
    if |rs| == 0 then 0 else SpanAll(rs[..|rs| - 1]) + Spans(rs[|rs| - 1])
  }

  /** What is taken at index k of the map, with room for so many records: two literals together if both are in the map and there
      is room for more than one record, or else the entry as it is. */
  ghost predicate Takes(m: seq<Record>, end: nat, k: nat, room: int, r: Record) {
    k < end <= |m|
    && r == if m[k].litLen < 257 && k + 1 < end && room > 1 && m[k + 1].litLen < 257 then PairOf(m[k].litLen, m[k + 1].litLen) else m[k]
  }

  ghost predicate TakesAt(m: seq<Record>, end: nat, room: nat, from: nat, rs: seq<Record>, k: nat)
    requires k < |rs|
  {
    Takes(m, end, from + SpanAll(rs[..k]), room - k, rs[k])
  }

  /** From index `from`, the parse has taken these records and reached index i. */
  ghost predicate Taken(m: seq<Record>, end: nat, room: nat, from: nat, rs: seq<Record>, i: nat) {
    i == from + SpanAll(rs) && forall k :: 0 <= k < |rs| ==> TakesAt(m, end, room, from, rs, k)
  }

  lemma TakenNothing(m: seq<Record>, end: nat, room: nat, from: nat)
    ensures Taken(m, end, room, from, [], from)
  {}

  lemma TakenMore(m: seq<Record>, end: nat, room: nat, from: nat, rs: seq<Record>, i: nat, r: Record)
    requires Taken(m, end, room, from, rs, i) && Takes(m, end, i, room - |rs|, r)
    ensures Taken(m, end, room, from, rs + [r], i + Spans(r))
  {
    hide Takes, Spans;
    var more := rs + [r];
    assert more[..|rs|] == rs;
    forall k | 0 <= k < |more| ensures TakesAt(m, end, room, from, more, k) {
      if k < |rs| {
        assert TakesAt(m, end, room, from, rs, k);
        assert more[..k] == rs[..k];
      }
    }
  }

  lemma TakenEntry(m: seq<Record>, end: nat, room: nat, from: nat, rs: seq<Record>, i: nat)
    requires Taken(m, end, room, from, rs, i) && i < end <= |m|
    requires m[i].litLen >= 257 || i + 1 >= end || room <= |rs| + 1 || m[i + 1].litLen >= 257
    ensures Taken(m, end, room, from, rs + [m[i]], i + Spans(m[i]))
  {
    hide Taken, Spans;
    TakenMore(m, end, room, from, rs, i, m[i]);
  }

  lemma TakenPair(m: seq<Record>, end: nat, room: nat, from: nat, rs: seq<Record>, i: nat)
    requires Taken(m, end, room, from, rs, i) && i + 1 < end <= |m| && m[i].litLen < 256 && m[i + 1].litLen < 257 && room > |rs| + 1
    ensures Taken(m, end, room, from, rs + [PairOf(m[i].litLen, m[i + 1].litLen)], i + 2)
  {
    hide Taken, Spans;
    SpansPair(m[i].litLen, m[i + 1].litLen);
    TakenMore(m, end, room, from, rs, i, PairOf(m[i].litLen, m[i + 1].litLen));
  }

  // -- rounds

  /** One round: from a table and a position, n entries of a first pass, the room for records, the records taken from the map
      after its long matches were extended, and the index that the parse has reached. */
  datatype Chunk = Chunk(t0: seq<nat>, base: nat, first: bool, pass: seq<Record>, n: nat, room: nat, rs: seq<Record>, next: nat)

  ghost predicate ChunkOk(s: Search, c: Chunk) {
    Passed(s, c.t0, c.base, c.first, c.pass, c.n)
    && Taken(Lengthened(s.data, c.base, c.pass, 0, c.n, c.base + c.n + 288), c.n, c.room, 0, c.rs, c.next)
  }

  function RecordsOf(cs: seq<Chunk>): seq<Record> {
    if |cs| == 0 then [] else RecordsOf(cs[..|cs| - 1]) + cs[|cs| - 1].rs
  }

  /** Rounds that follow one another, from table t0 and position p0 to table t and position p. */
  ghost predicate Chained(s: Search, t0: seq<nat>, p0: nat, first: bool, room: nat, cs: seq<Chunk>, t: seq<nat>, p: nat) {
    if |cs| == 0 then t == t0 && p == p0
    else
      var c := cs[|cs| - 1];
      Chained(s, t0, p0, first, room, cs[..|cs| - 1], c.t0, c.base) && ChunkOk(s, c) && c.first == (first && |cs| == 1)
      && c.room == room - |RecordsOf(cs[..|cs| - 1])| && t == NoteAll(s, c.t0, c.base, c.n) && p == c.base + c.next
  }

  lemma ChainedNothing(s: Search, t: seq<nat>, p: nat, first: bool, room: nat)
    ensures Chained(s, t, p, first, room, [], t, p) && RecordsOf([]) == []
  {}

  lemma ChainedMore(s: Search, t0: seq<nat>, p0: nat, first: bool, room: nat, cs: seq<Chunk>, t: seq<nat>, p: nat, c: Chunk)
    requires Chained(s, t0, p0, first, room, cs, t, p) && ChunkOk(s, c) && c.t0 == t && c.base == p && c.first == (first && cs == [])
    requires c.room == room - |RecordsOf(cs)|
    ensures Chained(s, t0, p0, first, room, cs + [c], NoteAll(s, t, p, c.n), p + c.next) && RecordsOf(cs + [c]) == RecordsOf(cs) + c.rs
  {
    hide NoteAll, ChunkOk;
    assert (cs + [c])[..|cs|] == cs;
  }

  lemma IsChunk(s: Search, c: Chunk)
    requires Passed(s, c.t0, c.base, c.first, c.pass, c.n)
    requires Taken(Lengthened(s.data, c.base, c.pass, 0, c.n, c.base + c.n + 288), c.n, c.room, 0, c.rs, c.next)
    ensures ChunkOk(s, c)
  {
    hide Passed, Taken, Lengthened;
  }

  /** The stream and level-buffer fields of level 3. `matches` also holds the overflow area behind the map. */
  class Stream {
    const data: seq<Byte>
    const hash: nat -> nat
    const fileStart: int
    ghost const lo: nat
    const distMask: nat
    const endOfStream: bool
    const flush: bool
    var nextIn: nat
    var availIn: nat
    var totalIn: nat
    var blockEnd: nat
    var hasHist: bool
    var state: State
    const table: array<nat>
    const matches: array<Record>
    var matchesNext: nat
    var matchesEnd: nat
    ghost var mapBase: nat
    const icfBuf: array<Record>
    var icfNext: nat
    var icfBufAvailOut: nat
    const llHist: array<nat>
    const dHist: array<nat>

    /** A stream with an empty map. */
    constructor (data: seq<Byte>, hash: nat -> nat, fileStart: int, ghost lo: nat, distMask: nat, endOfStream: bool, flush: bool, nextIn: nat,
                 availIn: nat, totalIn: nat, hasHist: bool, state: State, table: array<nat>, matches: array<Record>, icfBuf: array<Record>,
                 icfNext: nat, icfBufAvailOut: nat, llHist: array<nat>, dHist: array<nat>)
      ensures this.data == data && this.hash == hash && this.fileStart == fileStart && this.lo == lo && this.distMask == distMask
      ensures this.endOfStream == endOfStream && this.flush == flush && this.nextIn == nextIn && this.availIn == availIn && this.totalIn == totalIn
      ensures this.hasHist == hasHist && this.state == state && this.table == table && this.matches == matches && this.icfBuf == icfBuf
      ensures this.icfNext == icfNext && this.icfBufAvailOut == icfBufAvailOut && this.llHist == llHist && this.dHist == dHist
      ensures matchesNext == 0 && matchesEnd == 0 && mapBase == nextIn && blockEnd == totalIn
    {
      this.data, this.hash, this.fileStart, this.lo, this.distMask := data, hash, fileStart, lo, distMask;
      this.endOfStream, this.flush, this.nextIn, this.availIn, this.totalIn, blockEnd := endOfStream, flush, nextIn, availIn, totalIn, totalIn;
      this.hasHist, this.state, this.table, this.matches, this.icfBuf, this.icfNext := hasHist, state, table, matches, icfBuf, icfNext;
      this.icfBufAvailOut, this.llHist, this.dHist, matchesNext, matchesEnd, mapBase := icfBufAvailOut, llHist, dHist, 0, 0, nextIn;
    }

    /** What the search depends on. */
    function Sought(): Search { Search(data, hash, fileStart, distMask, 0, 0) }

    ghost predicate Buffers() {
      table != llHist && table != dHist && llHist != dHist && llHist.Length == 513 && dHist.Length == 30
      && matches != icfBuf && matches.Length == 4096 + 288
      && 32768 % (distMask + 1) == 0 && distMask < 32768 && forall w :: hash(w) < table.Length
    }

    lemma Separate()
      requires Buffers()
      ensures table != llHist && table != dHist && llHist != dHist && llHist.Length == 513 && dHist.Length == 30
      ensures matches != icfBuf && matches.Length == 4384 && distMask < 32768 && 32768 % (distMask + 1) == 0
    {}

    lemma HashInRange(w: nat)
      requires Buffers()
      ensures hash(w) < table.Length
    {}

    /** The offset of a position from the start of the file, as the code computes it. */
    function Index(p: nat): nat
      requires p >= nextIn
      reads `nextIn, `totalIn
    {
      totalIn + (p - nextIn)
    }

    ghost predicate Counters()
      reads `nextIn, `availIn, `totalIn
    {
      Buffers() && nextIn + availIn <= |data| && totalIn == (nextIn - fileStart) % 0x1_0000_0000
    }

    lemma IndexStands(p: nat)
      requires Counters() && p >= nextIn
      ensures Index(p) % 0x1_0000_0000 == (p - fileStart) % 0x1_0000_0000 && Stands(Low16(Index(p)), p, fileStart)
    {
      WrapCounter(nextIn - fileStart, p - nextIn);
    }

    /** The candidate distance at p, after which p takes its place in the table. */
    method Lookup(p: nat) returns (dist: nat)
      requires Counters() && nextIn <= p && p + 4 <= |data| && Ready(table[..], fileStart, lo, distMask + 1, p, true)
      modifies table
      ensures Ready(table[..], fileStart, lo, distMask + 1, p + 1, true)
      ensures dist == Candidate(Index(p), old(table[..])[hash(Load(data, p, 4))], distMask)
      ensures 1 <= dist <= distMask + 1 && dist <= p - lo
      ensures hash(Load(data, p, 4)) < table.Length && table[..] == Note(Sought(), old(table[..]), p)
    {
      hide *;
      CounterParts();
      Separate();
      HashInRange(Load(data, p, 4));
      IndexStands(p);
      var h := hash(Load(data, p, 4));
      CandidateInHistory(table[..], fileStart, lo, distMask + 1, p, h, Index(p));
      dist := Candidate(Index(p), table[h], distMask);
      ghost var was := table[..];
      ReadyInsert(was, fileStart, lo, distMask + 1, p, true, h, Low16(Index(p)));
      table[h] := Low16(Index(p));
      assert table[..] == was[h := Low16(Index(p))];
      NoteIs(was, p);
    }

    /** Storing the computed index is storing the position, and the candidate is that of the position. */
    lemma NoteIs(t: seq<nat>, p: nat)
      requires Counters() && |t| == table.Length && p >= nextIn && p + 4 <= |data|
      ensures hash(Load(data, p, 4)) < |t| && t[hash(Load(data, p, 4)) := Low16(Index(p))] == Note(Sought(), t, p)
    {
      IndexStands(p);
      hide Load;
    }

    lemma CandidateIs(p: nat, entry: nat)
      requires Counters() && p >= nextIn
      ensures Candidate(Index(p), entry, distMask) == Candidate(p - fileStart, entry, distMask)
    {
      IndexStands(p);
      WrappedCandidate(Index(p), p - fileStart, entry, distMask + 1);
    }

    lemma CounterParts()
      requires Counters()
      ensures Buffers() && nextIn + availIn <= |data| && totalIn == (nextIn - fileStart) % 0x1_0000_0000
    {}

    /** The first pass at one position. */
    method MapOne(p: nat, i: nat, ghost end: nat)
      requires Counters() && nextIn <= p && p + 288 <= end <= |data| && i < matches.Length
      requires Ready(table[..], fileStart, lo, distMask + 1, p, true)
      modifies table, matches
      ensures Ready(table[..], fileStart, lo, distMask + 1, p + 1, true)
      ensures matches[..] == old(matches[..])[i := matches[i]]
      ensures hash(Load(data, p, 4)) < table.Length && table[..] == Note(Sought(), old(table[..]), p)
      ensures FirstPass(data, p, Candidate(p - fileStart, old(table[..])[hash(Load(data, p, 4))], distMask), matches[i])
      ensures Entry(data, lo, distMask + 1, p, end, matches[i])
    {
      hide *;
      CounterParts();
      Separate();
      HashInRange(Load(data, p, 4));
      CandidateIs(p, table[hash(Load(data, p, 4))]);
      var dist := Lookup(p);
      WordCount(data, p, dist);
      var len := TzByteCnt(WordXor(data, p, dist));
      MapConstants();
      var r := if len >= SHORTEST_MATCH then MatchRecord(len, dist) else Record(data[p], NULL_DIST_SYM, 0);
      IsFirstPass(data, p, dist, r);
      FirstPassEntry(data, lo, distMask + 1, p, dist, end, r);
      matches[i] := r;
    }

    /** The first position without history: a literal, which takes its place in the table. */
    method MapLiteral(ghost end: nat)
      requires Counters() && nextIn + 288 <= end <= |data| && Ready(table[..], fileStart, lo, distMask + 1, nextIn, false)
      modifies table, matches
      ensures Ready(table[..], fileStart, lo, distMask + 1, nextIn + 1, true)
      ensures MapOk(data, lo, distMask + 1, nextIn, matches[..], 0, 1, end)
      ensures Passed(Sought(), old(table[..]), nextIn, true, matches[..], 1) && table[..] == NoteAll(Sought(), old(table[..]), nextIn, 1)
    {
      hide *;
      CounterParts();
      Separate();
      MapConstants();
      var p := nextIn;
      matches[0] := Record(data[p], NULL_DIST_SYM, 0);
      LiteralEntry(data, lo, distMask + 1, p, end);
      HashInRange(Load(data, p, 4));
      var h := hash(Load(data, p, 4));
      IndexStands(p);
      ghost var was := table[..];
      ReadyInsert(was, fileStart, lo, distMask + 1, p, false, h, Low16(Index(p)));
      table[h] := Low16(Index(p));
      assert table[..] == was[h := Low16(Index(p))];
      NoteIs(was, p);
      NoteNext(was, 0);
      PassedStart(was, matches[..]);
      MapFirst(data, lo, distMask + 1, p, matches[..], end);
    }

    /** One pass over the input that puts a candidate into the map for every position. */
    method GenIcfMapH1(inputSize: nat) returns (processed: nat)
      requires Counters() && inputSize <= availIn && inputSize <= 4096
      requires Ready(table[..], fileStart, lo, distMask + 1, nextIn, hasHist)
      modifies table, matches, `hasHist
      ensures processed == if inputSize < 288 then 0 else if hasHist == old(hasHist) || inputSize > 288 then inputSize - 288 else 1
      ensures hasHist == (old(hasHist) || inputSize >= 288)
      ensures Ready(table[..], fileStart, lo, distMask + 1, nextIn + processed, hasHist)
      ensures MapOk(data, lo, distMask + 1, nextIn, matches[..], 0, processed, nextIn + inputSize)
      ensures Passed(Sought(), old(table[..]), nextIn, !old(hasHist), matches[..], processed)
      ensures table[..] == NoteAll(Sought(), old(table[..]), nextIn, processed)
    {
      hide *;
      CounterParts();
      Separate();
      MapConstants();
      ghost var t0 := table[..];
      NoteZero(t0);
      PassedNothing(Sought(), t0, nextIn, !hasHist, matches[..]);
      if inputSize < LOOK_AHEAD {
        EmptyMap(data, lo, distMask + 1, nextIn, matches[..], nextIn + inputSize);
        return 0;
      }
      var p, i := nextIn, 0;
      EmptyMap(data, lo, distMask + 1, nextIn, matches[..], nextIn + inputSize);
      if !hasHist {
        MapLiteral(nextIn + inputSize);
        p, i := p + 1, 1;
        hasHist := true;
      }
      var endIn := nextIn + inputSize;
      while p < endIn - LOOK_AHEAD
        invariant hasHist && p == nextIn + i && (i <= inputSize - 288 || (i == 1 && inputSize == 288 && !old(hasHist)))
        invariant Ready(table[..], fileStart, lo, distMask + 1, p, true)
        invariant MapOk(data, lo, distMask + 1, nextIn, matches[..], 0, i, endIn)
        invariant Passed(Sought(), t0, nextIn, !old(hasHist), matches[..], i) && table[..] == NoteAll(Sought(), t0, nextIn, i)
        invariant i == 0 ==> old(hasHist)
      {
        ghost var was := matches[..];
        NoteNext(t0, i);
        MapOne(p, i, endIn);
        MapMore(data, lo, distMask + 1, nextIn, was, matches[..], i, endIn);
        PassedOne(t0, !old(hasHist), was, matches[..], i);
        p, i := p + 1, i + 1;
      }
      return p - nextIn;
    }

    lemma NoteZero(t: seq<nat>)
      ensures NoteAll(Sought(), t, nextIn, 0) == t
    {}

    lemma NoteNext(t: seq<nat>, i: nat)
      ensures NoteAll(Sought(), t, nextIn, i + 1) == Note(Sought(), NoteAll(Sought(), t, nextIn, i), nextIn + i)
      ensures NoteAll(Sought(), t, nextIn, 0) == t
    {}

    lemma PassedStart(t0: seq<nat>, m: seq<Record>)
      requires |m| > 0 && nextIn < |data| && m[0] == Record(data[nextIn], 30, 0)
      ensures Passed(Sought(), t0, nextIn, true, m, 1)
    {}

    lemma PassedOne(t0: seq<nat>, first: bool, was: seq<Record>, now: seq<Record>, i: nat)
      requires Passed(Sought(), t0, nextIn, first, was, i) && i < |was| && |now| == |was| && now == was[i := now[i]] && (i == 0 ==> !first)
      requires nextIn + i + 4 <= |data| && hash(Load(data, nextIn + i, 4)) < |t0|
      requires FirstPass(data, nextIn + i, Candidate(nextIn + i - fileStart, NoteAll(Sought(), t0, nextIn, i)[hash(Load(data, nextIn + i, 4))], distMask), now[i])
      ensures Passed(Sought(), t0, nextIn, first, now, i + 1)
    {
      hide Passed, NoteAll, Load, Candidate, FirstPass;
      PassedMore(Sought(), t0, nextIn, first, was, now, i);
    }

    /** Rewrites the map from index i on with ever shorter rests of one match, while they are longer than what is there. */
    method WriteRun(i: nat, matchLen: nat, code: nat, extra: nat) returns (j: nat)
      requires matchLen >= 257 && i + matchLen - 257 < matches.Length
      modifies matches
      ensures i <= j <= matches.Length && RunWritten(old(matches[..]), matches[..], i, j, matchLen, code, extra)
      ensures j == i + matchLen - 257 || (j < matches.Length && matchLen - (j - i) <= matches[j].litLen)
      ensures j <= i + matchLen - 257
    {
      j := i;
      var rest := matchLen;
      while rest > matches[j].litLen && rest >= LEN_OFFSET + SHORTEST_MATCH
        invariant i <= j <= i + matchLen - 257 && rest == matchLen - (j - i)
        invariant RunWritten(old(matches[..]), matches[..], i, j, matchLen, code, extra)
        decreases rest
      {
        matches[j] := Record(if rest > LEN_MAX then LEN_MAX else rest, code, extra);
        j := j + 1;
        rest := rest - 1;
      }
    }

    /** Extends the long matches of the map as far as the input allows. */
    method SetLongIcfFg(processed: nat, inputSize: nat)
      requires Buffers() && inputSize <= 4096 && nextIn + inputSize <= |data|
      requires processed == 0 || processed + 288 <= inputSize
      requires MapOk(data, lo, distMask + 1, nextIn, matches[..], 0, processed, nextIn + processed + 288)
      modifies matches
      ensures MapOk(data, lo, distMask + 1, nextIn, matches[..], 0, processed, nextIn + processed + 288)
      ensures Longer(old(matches[..]), matches[..], processed)
      ensures FirstExtended(data, nextIn, old(matches[..]), matches[..], processed, nextIn + processed + 288)
      ensures matches[..] == Lengthened(data, nextIn, old(matches[..]), 0, processed, nextIn + processed + 288)
    {
      hide *;
      Separate();
      MapConstants();
      var endIn := nextIn + inputSize;
      if endIn > nextIn + processed + LOOK_AHEAD {
        endIn := nextIn + processed + LOOK_AHEAD;
      }
      var i := 0;
      ghost var was := matches[..];
      ghost var end := nextIn + processed + 288;
      NothingLong(data, nextIn, was, end);
      while i < processed
        invariant MapOk(data, lo, distMask + 1, nextIn, matches[..], 0, processed, end)
        invariant LongDone(data, nextIn, was, matches[..], i, end)
        invariant Lengthened(data, nextIn, was, 0, processed, end) == Lengthened(data, nextIn, matches[..], i, processed, end)
        decreases processed - i
      {
        EntryAt(data, lo, distMask + 1, nextIn, matches[..], processed, i, end);
        if matches[i].litLen >= 8 + LEN_OFFSET {
          i := ExtendMatch(processed, i, endIn, was);
        } else {
          ShortDone(data, nextIn, was, matches[..], i, end);
          LengthenedShort(data, nextIn, matches[..], i, processed, end);
        }
        i := i + 1;
      }
      LengthenedDone(data, nextIn, matches[..], i, processed, end);
      LongDoneParts(data, nextIn, was, matches[..], i, processed, end);
    }

    /** Extends the long match at index i, and gives the index where its rests stop being longer. */
    method ExtendMatch(ghost processed: nat, i: nat, endIn: nat, ghost was: seq<Record>) returns (j: nat)
      requires Buffers() && i < processed && endIn == nextIn + processed + 288 && processed + 288 <= 4096
      requires MapOk(data, lo, distMask + 1, nextIn, matches[..], 0, processed, endIn)
      requires i < matches.Length && matches[i].litLen >= 262 && LongDone(data, nextIn, was, matches[..], i, endIn)
      modifies matches
      ensures i <= j && MapOk(data, lo, distMask + 1, nextIn, matches[..], 0, processed, endIn)
      ensures LongDone(data, nextIn, was, matches[..], j + 1, endIn)
      ensures Lengthened(data, nextIn, old(matches[..]), i, processed, endIn) == Lengthened(data, nextIn, matches[..], j + 1, processed, endIn)
    {
      hide *;
      Separate();
      ghost var before := matches[..];
      EntryAt(data, lo, distMask + 1, nextIn, before, processed, i, endIn);
      LongEntry(data, lo, distMask + 1, nextIn + i, endIn, before[i]);
      DistOfIs(before[i]);
      var count;
      j, count := Grow(i, endIn);
      ghost var now, run := matches[..], Run(nextIn, i, j, count, endIn);
      assert RunIn(data, before, now, run) by { IsRunIn(data, before, now, run); }
      RunMap(data, lo, distMask + 1, before, now, processed, run);
      RunProgress(data, was, before, now, lo, distMask + 1, processed, run);
      RunLengthens(data, before, now, processed, run);
    }

    /** Compares on, and writes the rests of the longer match. */
    method Grow(i: nat, endIn: nat) returns (j: nat, count: nat)
      requires Buffers() && i < matches.Length && i + 288 <= 4096 && matches[i].litLen >= 262 && endIn <= |data|
      requires 1 <= DistOf(matches[i]) <= nextIn + i && nextIn + i + 8 <= endIn <= nextIn + 4096
      modifies matches
      ensures count == CommonPrefix(data, nextIn + i + 8, old(DistOf(matches[i])), endIn - (nextIn + i + 8))
      ensures RunWritten(old(matches[..]), matches[..], i, j, count + 262, old(matches[i].litDist), old(matches[i].distExtra))
      ensures j == i + count + 262 - 257 || (j < matches.Length && count + 262 - (j - i) <= matches[j].litLen)
    {
      hide *;
      Separate();
      MapConstants();
      var p, r := nextIn + i, matches[i];
      DistOfIs(r);
      var dist := DistStart(r.litDist) + r.distExtra;
      count := Compare(data, p + 8, dist, endIn - (p + 8));
      PrefixBound(data, p + 8, dist, endIn - (p + 8));
      j := WriteRun(i, count + LEN_OFFSET + 8, r.litDist, r.distExtra);
    }

    /** Writes one record of the map and counts its symbols. */
    method Put(n: nat, r: Record)
      requires Buffers() && n < icfBuf.Length && (r.IsLiteral() || r.IsMatch())
      modifies icfBuf, llHist, dHist
      ensures icfBuf[..] == old(icfBuf[..])[n := r]
      ensures CountedOne(llHist[..], dHist[..], old(llHist[..]), old(dHist[..]), r)
    {
      llHist[r.litLen] := llHist[r.litLen] + 1;
      icfBuf[n] := r;
      if r.litLen >= LEN_START {
        dHist[r.litDist] := dHist[r.litDist] + 1;
      }
    }

    method PutPair(n: nat, a: nat, b: nat)
      requires Buffers() && n < icfBuf.Length && a < 256 && b < 256
      modifies icfBuf, llHist
      ensures icfBuf[..] == old(icfBuf[..])[n := PairOf(a, b)]
      ensures CountedOne(llHist[..], dHist[..], old(llHist[..]), old(dHist[..]), PairOf(a, b))
    {
      llHist[a] := llHist[a] + 1;
      icfBuf[n] := Record(a, b + LIT_START, 0);
      llHist[b] := llHist[b] + 1;
    }

    /** Takes the map entry at index i as it is. */
    method TakeEntry(ghost start: nat, ghost p0: nat, ghost ll0: seq<nat>, ghost d0: seq<nat>, ghost to: nat, ghost end: nat, i: nat, n: nat)
      requires Buffers() && start <= n < icfBuf.Length && i < to <= matches.Length
      requires MapOk(data, lo, distMask + 1, mapBase, matches[..], i, to, end)
      requires Found(data, distMask + 1, p0, mapBase + i, icfBuf[start..n], ll0, d0, llHist[..], dHist[..])
      modifies icfBuf, llHist, dHist
      ensures icfBuf[..start] == old(icfBuf[..start]) && matches[..] == old(matches[..])
      ensures mapBase + i + Reaches(matches[i]) <= end && Reaches(matches[i]) >= 1
      ensures Found(data, distMask + 1, p0, mapBase + i + Reaches(matches[i]), icfBuf[start..n + 1], ll0, d0, llHist[..], dHist[..])
      ensures icfBuf[start..n + 1] == old(icfBuf[start..n]) + [matches[i]] && Spans(matches[i]) == Reaches(matches[i])
    {
      hide *;
      Separate();
      ghost var was, ll1, d1 := icfBuf[..], llHist[..], dHist[..];
      var r := matches[i];
      MapAt(data, lo, distMask + 1, mapBase, matches[..], i, to, i, end);
      EntryExpands(data, lo, distMask + 1, mapBase + i, end, r);
      SpansIs(r);
      Put(n, r);
      EntryStep(data, lo, distMask + 1, p0, mapBase + i, end, was[start..n], ll0, d0, ll1, d1, r, llHist[..], dHist[..]);
      Extended(was, icfBuf[..], start, n);
    }

    /** Packs two literals of the map into one record. */
    method TakePair(ghost start: nat, ghost p0: nat, ghost ll0: seq<nat>, ghost d0: seq<nat>, ghost to: nat, ghost end: nat, i: nat, n: nat)
      requires Buffers() && start <= n < icfBuf.Length && i + 1 < to <= matches.Length
      requires MapOk(data, lo, distMask + 1, mapBase, matches[..], i, to, end)
      requires matches[i].litLen < 257 && matches[i + 1].litLen < 257
      requires Found(data, distMask + 1, p0, mapBase + i, icfBuf[start..n], ll0, d0, llHist[..], dHist[..])
      modifies icfBuf, llHist
      ensures icfBuf[..start] == old(icfBuf[..start]) && matches[..] == old(matches[..])
      ensures mapBase + i + 2 <= end
      ensures Found(data, distMask + 1, p0, mapBase + i + 2, icfBuf[start..n + 1], ll0, d0, llHist[..], dHist[..])
      ensures matches[i].litLen < 256 && icfBuf[start..n + 1] == old(icfBuf[start..n]) + [PairOf(matches[i].litLen, matches[i + 1].litLen)]
    {
      hide *;
      Separate();
      ghost var was, ll1, d1 := icfBuf[..], llHist[..], dHist[..];
      MapAt(data, lo, distMask + 1, mapBase, matches[..], i, to, i, end);
      MapAt(data, lo, distMask + 1, mapBase, matches[..], i, to, i + 1, end);
      LiteralEntries(data, lo, distMask + 1, mapBase + i, end, matches[i]);
      LiteralEntries(data, lo, distMask + 1, mapBase + i + 1, end, matches[i + 1]);
      PutPair(n, matches[i].litLen, matches[i + 1].litLen);
      PairStep(data, lo, distMask + 1, p0, mapBase + i, end, was[start..n], ll0, d0, ll1, d1, matches[i], matches[i + 1], llHist[..], dHist[..]);
      Extended(was, icfBuf[..], start, n);
    }

    /** Parses while two map entries and two free records are left: a match, a literal and a match, or two literals. */
    method ParsePairs(ghost start: nat, ghost p0: nat, ghost ll0: seq<nat>, ghost d0: seq<nat>, from: nat, end: nat, m: nat, icfEnd: nat, ghost first: nat)
      returns (i: nat, n: nat)
      requires Buffers() && end <= matches.Length && start <= m <= icfEnd <= icfBuf.Length
      requires MapOk(data, lo, distMask + 1, mapBase, matches[..], from, end, mapBase + end + 288)
      requires Found(data, distMask + 1, p0, mapBase + from, icfBuf[start..m], ll0, d0, llHist[..], dHist[..])
      requires Taken(matches[..], end, icfEnd - start, first, icfBuf[start..m], from)
      modifies icfBuf, llHist, dHist
      ensures from <= i <= (if from > end + 288 then from else end + 288) && m <= n <= icfEnd && (i + 1 < end ==> n + 1 >= icfEnd) && (from >= end ==> i == from)
      ensures icfBuf[..start] == old(icfBuf[..start]) && matches[..] == old(matches[..])
      ensures Found(data, distMask + 1, p0, mapBase + i, icfBuf[start..n], ll0, d0, llHist[..], dHist[..])
      ensures Taken(matches[..], end, icfEnd - start, first, icfBuf[start..n], i)
    {
      hide *;
      Separate();
      MapConstants();
      i, n := from, m;
      while i + 1 < end && n + 1 < icfEnd
        invariant from <= i <= (if from > end + 288 then from else end + 288) && m <= n <= icfEnd && (from >= end ==> i == from)
        invariant icfBuf[..start] == old(icfBuf[..start]) && matches[..] == old(matches[..])
        invariant Found(data, distMask + 1, p0, mapBase + i, icfBuf[start..n], ll0, d0, llHist[..], dHist[..])
        invariant Taken(matches[..], end, icfEnd - start, first, icfBuf[start..n], i)
      {
        ghost var map_, rs := matches[..], icfBuf[start..n];
        MapFrom(data, lo, distMask + 1, mapBase, matches[..], from, end, i, mapBase + end + 288);
        MapFrom(data, lo, distMask + 1, mapBase, matches[..], from, end, i + 1, mapBase + end + 288);
        if matches[i].litLen >= LEN_START {
          TakeEntry(start, p0, ll0, d0, end, mapBase + end + 288, i, n);
          TakenEntry(map_, end, icfEnd - start, first, rs, i);
          ReachesMatch(matches[i]);
          i, n := i + (matches[i].litLen - LEN_OFFSET), n + 1;
        } else if matches[i + 1].litLen >= LEN_START {
          TakeEntry(start, p0, ll0, d0, end, mapBase + end + 288, i, n);
          TakenEntry(map_, end, icfEnd - start, first, rs, i);
          ReachesLiteral(matches[i]);
          ghost var rs1 := icfBuf[start..n + 1];
          TakeEntry(start, p0, ll0, d0, end, mapBase + end + 288, i + 1, n + 1);
          TakenEntry(map_, end, icfEnd - start, first, rs1, i + 1);
          ReachesMatch(matches[i + 1]);
          i, n := i + 1 + (matches[i + 1].litLen - LEN_OFFSET), n + 2;
        } else {
          TakePair(start, p0, ll0, d0, end, mapBase + end + 288, i, n);
          TakenPair(map_, end, icfEnd - start, first, rs, i);
          i, n := i + 2, n + 1;
        }
      }
    }

    /** Parses entry by entry. */
    method ParseRest(ghost start: nat, ghost p0: nat, ghost ll0: seq<nat>, ghost d0: seq<nat>, from: nat, end: nat, m: nat, icfEnd: nat, ghost first: nat)
      returns (i: nat, n: nat)
      requires Buffers() && end <= matches.Length && start <= m <= icfEnd <= icfBuf.Length
      requires MapOk(data, lo, distMask + 1, mapBase, matches[..], from, end, mapBase + end + 288)
      requires Found(data, distMask + 1, p0, mapBase + from, icfBuf[start..m], ll0, d0, llHist[..], dHist[..])
      requires Taken(matches[..], end, icfEnd - start, first, icfBuf[start..m], from) && (from + 1 >= end || m + 1 >= icfEnd)
      modifies icfBuf, llHist, dHist
      ensures from <= i <= (if from > end + 288 then from else end + 288) && m <= n <= icfEnd && (i < end ==> n == icfEnd) && (from >= end ==> i == from)
      ensures icfBuf[..start] == old(icfBuf[..start]) && matches[..] == old(matches[..])
      ensures Found(data, distMask + 1, p0, mapBase + i, icfBuf[start..n], ll0, d0, llHist[..], dHist[..])
      ensures Taken(matches[..], end, icfEnd - start, first, icfBuf[start..n], i)
    {
      hide *;
      Separate();
      MapConstants();
      i, n := from, m;
      while i < end && n < icfEnd
        invariant from <= i <= (if from > end + 288 then from else end + 288) && m <= n <= icfEnd && (from >= end ==> i == from)
        invariant icfBuf[..start] == old(icfBuf[..start]) && matches[..] == old(matches[..])
        invariant Found(data, distMask + 1, p0, mapBase + i, icfBuf[start..n], ll0, d0, llHist[..], dHist[..])
        invariant Taken(matches[..], end, icfEnd - start, first, icfBuf[start..n], i) && (i + 1 >= end || n + 1 >= icfEnd)
      {
        ghost var map_, rs := matches[..], icfBuf[start..n];
        MapFrom(data, lo, distMask + 1, mapBase, matches[..], from, end, i, mapBase + end + 288);
        TakeEntry(start, p0, ll0, d0, end, mapBase + end + 288, i, n);
        TakenEntry(map_, end, icfEnd - start, first, rs, i);
        if matches[i].litLen >= LEN_START {
          ReachesMatch(matches[i]);
          i := i + (matches[i].litLen - LEN_OFFSET);
        } else {
          ReachesLiteral(matches[i]);
          i := i + 1;
        }
        n := n + 1;
      }
    }

    /** The parse has consumed `pos - from` bytes: the records it wrote decode to them, and the histograms count their symbols. */
    ghost predicate Parsed(from: nat, pos: nat, records: nat, buf0: seq<Record>, ll0: seq<nat>, d0: seq<nat>)
      reads `icfNext, icfBuf, llHist, dHist
    {
      records <= icfNext <= icfBuf.Length && icfBuf[..records] == buf0
      && Found(data, distMask + 1, from, pos, icfBuf[records..icfNext], ll0, d0, llHist[..], dHist[..])
    }

    /** Writes the parse positions back. */
    method Settle(next: nat, end: nat, i: nat, n: nat, icfEnd: nat)
      requires nextIn + availIn <= |data| && totalIn == (nextIn - fileStart) % 0x1_0000_0000 && next <= i && n <= icfEnd
      requires nextIn == mapBase + (if next > end then next else end) && (next < end ==> availIn >= 288 && i <= end + 288)
      requires blockEnd == (mapBase + next - fileStart) % 0x1_0000_0000 && (next >= end ==> i == next)
      modifies `nextIn, `availIn, `totalIn, `blockEnd, `icfNext, `icfBufAvailOut
      ensures nextIn + availIn == old(nextIn + availIn) && totalIn == (nextIn - fileStart) % 0x1_0000_0000
      ensures nextIn == mapBase + (if i > end then i else end) && blockEnd == (mapBase + i - fileStart) % 0x1_0000_0000
      ensures icfNext == n && icfBufAvailOut == (icfEnd - n) * 4
    {
      icfNext := n;
      icfBufAvailOut := (icfEnd - n) * 4;
      WrapCounter(mapBase + next - fileStart, i - next);
      blockEnd := (blockEnd + (i - next)) % 0x1_0000_0000;
      if i > end && next < end {
        WrapCounter(nextIn - fileStart, i - end);
        nextIn := nextIn + (i - end);
        availIn := availIn - (i - end);
        totalIn := (totalIn + (i - end)) % 0x1_0000_0000;
      }
    }

    /** Parses the map from index `next` to index `end`; a last match may reach over into the input behind the map. */
    method CompressIcfMapG(next: nat, end: nat) returns (i: nat)
      requires Counters() && end <= 4096 && icfNext + icfBufAvailOut / 4 <= icfBuf.Length && mapBase + next <= |data|
      requires nextIn == mapBase + (if next > end then next else end)
      requires blockEnd == (mapBase + next - fileStart) % 0x1_0000_0000
      requires next < end ==> availIn >= 288
      requires MapOk(data, lo, distMask + 1, mapBase, matches[..], next, end, mapBase + end + 288)
      modifies `nextIn, `availIn, `totalIn, `blockEnd, `icfNext, `icfBufAvailOut, icfBuf, llHist, dHist
      ensures Counters() && next <= i && nextIn == mapBase + (if i > end then i else end) && nextIn + availIn == old(nextIn + availIn)
      ensures blockEnd == (mapBase + i - fileStart) % 0x1_0000_0000
      ensures icfNext + icfBufAvailOut / 4 <= icfBuf.Length && (i < end ==> icfBufAvailOut == 0 && nextIn == old(nextIn))
      ensures matches[..] == old(matches[..]) && (next >= end ==> i == next)
      ensures Parsed(mapBase + next, mapBase + i, old(icfNext), old(icfBuf[..icfNext]), old(llHist[..]), old(dHist[..]))
      ensures old(icfNext) <= icfNext <= icfBuf.Length && Taken(matches[..], end, old(icfBufAvailOut / 4), next, icfBuf[old(icfNext)..icfNext], i)
      ensures icfBufAvailOut / 4 == old(icfBufAvailOut / 4) - (icfNext - old(icfNext))
    {
      hide *;
      CounterParts();
      Separate();
      TakenNothing(matches[..], end, icfBufAvailOut / 4, next);
      var icfEnd := icfNext + icfBufAvailOut / 4;
      ghost var start, p0, ll0, d0 := icfNext, mapBase + next, llHist[..], dHist[..];
      FoundNothing(data, distMask + 1, p0, ll0, d0);
      assert icfBuf[start..start] == [];
      var n := icfNext;
      i, n := ParsePairs(start, p0, ll0, d0, next, end, n, icfEnd, next);
      MapFrom(data, lo, distMask + 1, mapBase, matches[..], next, end, i, mapBase + end + 288);
      i, n := ParseRest(start, p0, ll0, d0, i, end, n, icfEnd, next);
      Settle(next, end, i, n, icfEnd);
      NowParsed(start, p0, mapBase + i, ll0, d0);
    }

    /** Fills the map from the next input; nothing is done unless more than a look-ahead is left. */
    method FillMap() returns (processed: nat, ghost pass: seq<Record>)
      requires Counters() && Ready(table[..], fileStart, lo, distMask + 1, nextIn, hasHist)
      modifies table, matches, `hasHist, `mapBase, `nextIn, `availIn, `totalIn
      ensures Counters() && Ready(table[..], fileStart, lo, distMask + 1, nextIn, hasHist)
      ensures nextIn + availIn == old(nextIn + availIn) && nextIn == old(nextIn) + processed
      ensures processed == if old(availIn) > 4096 then 3808 else if old(availIn) > 288 then old(availIn) - 288 else 0
      ensures processed > 0 ==> mapBase == old(nextIn) && availIn >= 288 && hasHist
      ensures processed > 0 ==> MapOk(data, lo, distMask + 1, mapBase, matches[..], 0, processed, nextIn + 288)
      ensures processed == 0 ==> mapBase == old(mapBase) && hasHist == old(hasHist) && matches[..] == old(matches[..])
      ensures processed > 0 ==> Passed(Sought(), old(table[..]), mapBase, !old(hasHist), pass, processed)
      ensures processed > 0 ==> table[..] == NoteAll(Sought(), old(table[..]), mapBase, processed)
      ensures processed > 0 ==> matches[..] == Lengthened(data, mapBase, pass, 0, processed, nextIn + 288)
    {
      hide *;
      CounterParts();
      Separate();
      MapConstants();
      var inputSize := 4096;
      if inputSize > availIn { inputSize := availIn; }
      if inputSize <= LOOK_AHEAD { return 0, []; }
      processed := GenIcfMapH1(inputSize);
      pass := matches[..];
      SetLongIcfFg(processed, inputSize);
      mapBase := nextIn;
      Forward(processed);
    }

    method Forward(processed: nat)
      requires Counters() && processed <= availIn
      modifies `nextIn, `availIn, `totalIn
      ensures Counters() && nextIn == old(nextIn) + processed && availIn == old(availIn) - processed
    {
      WrapCounter(nextIn - fileStart, processed);
      nextIn := nextIn + processed;
      availIn := availIn - processed;
      totalIn := (totalIn + processed) % 0x1_0000_0000;
    }

    /** Where the parse stands between calls: `next` of `end` map entries are consumed, and the input behind a match that
        reached over the end of the map is skipped. */
    ghost predicate At(next: nat, end: nat)
      reads `nextIn, `availIn, `totalIn, `mapBase, `blockEnd, `hasHist, `icfNext, `icfBufAvailOut, table, matches
    {
      Counters() && Ready(table[..], fileStart, lo, distMask + 1, nextIn, hasHist) && icfNext + icfBufAvailOut / 4 <= icfBuf.Length
      && end <= 4096 && nextIn == mapBase + (if next > end then next else end)
      && blockEnd == (mapBase + next - fileStart) % 0x1_0000_0000 && (next < end ==> availIn >= 288 && hasHist)
      && MapOk(data, lo, distMask + 1, mapBase, matches[..], next, end, mapBase + end + 288)
    }

    ghost predicate Valid()
      reads this, table, matches
    {
      At(matchesNext, matchesEnd)
    }

    /** An empty map in front of a table that is ready makes a sound stream. */
    lemma Starts()
      requires table != llHist && table != dHist && llHist != dHist && llHist.Length == 513 && dHist.Length == 30
      requires matches != icfBuf && matches.Length == 4096 + 288 && 32768 % (distMask + 1) == 0 && distMask < 32768
      requires (forall w :: hash(w) < table.Length) && nextIn + availIn <= |data| && totalIn == (nextIn - fileStart) % 0x1_0000_0000
      requires Ready(table[..], fileStart, lo, distMask + 1, nextIn, hasHist) && icfNext + icfBufAvailOut / 4 <= icfBuf.Length
      requires matchesNext == 0 && matchesEnd == 0 && mapBase == nextIn && blockEnd == totalIn
      ensures Valid() && Cursor() == nextIn
    {
      hide Ready, Entry;
    }

    /** The position up to which the input has been turned into records. */
    ghost function Cursor(): nat
      reads `mapBase, `matchesNext
    {
      mapBase + matchesNext
    }

    /** Fills the map once more and parses it. */
    method Round(ghost next: nat, ghost end: nat, ghost p0: nat, ghost n0: nat, ghost buf0: seq<Record>, ghost ll0: seq<nat>, ghost d0: seq<nat>)
      returns (next': nat, end': nat, ghost c: Chunk)
      requires At(next, end) && next >= end && availIn > 288 && Parsed(p0, mapBase + next, n0, buf0, ll0, d0)
      modifies table, matches, `hasHist, `mapBase, `nextIn, `availIn, `totalIn, `blockEnd, `icfNext, `icfBufAvailOut, icfBuf, llHist, dHist
      ensures At(next', end') && nextIn + availIn == old(nextIn + availIn) && availIn < old(availIn)
      ensures (next' < end' ==> icfBufAvailOut == 0) && Parsed(p0, mapBase + next', n0, buf0, ll0, d0)
      ensures ChunkOk(Sought(), c) && c.t0 == old(table[..]) && c.base == old(mapBase) + next == mapBase && c.first == !old(hasHist) && hasHist
      ensures c.room == old(icfBufAvailOut / 4) && c.next == next' && table[..] == NoteAll(Sought(), c.t0, c.base, c.n)
      ensures old(icfNext) <= icfNext <= icfBuf.Length && icfBuf[..old(icfNext)] == old(icfBuf[..icfNext]) && c.rs == icfBuf[old(icfNext)..icfNext]
      ensures icfBufAvailOut / 4 == c.room - |c.rs|
    {
      hide *;
      AtParts(next, end);
      CounterParts();
      Separate();
      ParsedParts(p0, nextIn, n0, buf0, ll0, d0);
      ghost var q, n1, buf1, ll1, d1 := nextIn, icfNext, icfBuf[..], llHist[..], dHist[..];
      ghost var pass;
      end', pass := FillMap();
      AtStart(q, end');
      ghost var first, room := !old(hasHist), icfBufAvailOut / 4;
      next' := Parse(0, end');
      c := Chunk(old(table[..]), q, first, pass, end', room, icfBuf[n1..icfNext], next');
      RoundIs(c, n1, buf1);
      ParsedFront(q, mapBase + next', n1, buf1[..n1], ll1, d1);
      ParsedMore(p0, q, mapBase + next', n0, n1, buf0, buf1, ll0, d0, ll1, d1);
    }

    lemma RoundIs(c: Chunk, n1: nat, buf1: seq<Record>)
      requires Passed(Sought(), c.t0, c.base, c.first, c.pass, c.n)
      requires Taken(Lengthened(data, c.base, c.pass, 0, c.n, c.base + c.n + 288), c.n, c.room, 0, c.rs, c.next)
      ensures ChunkOk(Sought(), c)
    {
      IsChunk(Sought(), c);
    }

    lemma ParsedFront(p0: nat, p1: nat, n0: nat, buf0: seq<Record>, ll0: seq<nat>, d0: seq<nat>)
      requires Parsed(p0, p1, n0, buf0, ll0, d0)
      ensures n0 <= icfNext <= icfBuf.Length && icfBuf[..n0] == buf0
    {}

    /** Fills and parses the map until the output or the input is used up. */
    method IcfBodyHash1FillgreedyLazy() returns (ghost rs0: seq<Record>, ghost i0: nat, ghost cs: seq<Chunk>)
      requires Valid()
      modifies this, table, matches, icfBuf, llHist, dHist
      ensures Valid() && nextIn + availIn == old(nextIn + availIn)
      ensures Parsed(old(Cursor()), Cursor(), old(icfNext), old(icfBuf[..icfNext]), old(llHist[..]), old(dHist[..]))
      ensures matchesNext < matchesEnd ==> icfBufAvailOut == 0
      ensures matchesNext >= matchesEnd ==> availIn <= 288 && Cursor() == nextIn
      ensures state == if icfBufAvailOut == 0 then CreateHdr
                       else if availIn <= 288 && (endOfStream || flush) then FlushReadBuffer else old(state)
      ensures Taken(old(matches[..]), old(matchesEnd), old(icfBufAvailOut / 4), old(matchesNext), rs0, i0) && |rs0| <= old(icfBufAvailOut / 4)
      ensures Chained(Sought(), old(table[..]), old(mapBase) + i0, !old(hasHist), old(icfBufAvailOut / 4) - |rs0|, cs, table[..], Cursor())
      ensures old(icfNext) <= icfNext <= icfBuf.Length && icfBuf[old(icfNext)..icfNext] == rs0 + RecordsOf(cs)
    {
      hide *;
      ValidAt();
      ghost var p0, n0, buf0, ll0, d0 := Cursor(), icfNext, icfBuf[..icfNext], llHist[..], dHist[..];
      var next, end := matchesNext, matchesEnd;
      CursorAt();
      next, end, rs0, i0, cs := ParseOn(next, end);
      ghost var t, out := table[..], icfBuf[n0..icfNext];
      matchesNext := next;
      matchesEnd := end;
      NextState();
      AtValid();
      CursorAt();
      assert table[..] == t && icfBuf[n0..icfNext] == out;
    }

    /** Parses what the map still holds, and goes on in rounds. */
    method ParseOn(next0: nat, end0: nat) returns (next: nat, end: nat, ghost rs0: seq<Record>, ghost i0: nat, ghost cs: seq<Chunk>)
      requires At(next0, end0)
      modifies `hasHist, `mapBase, `nextIn, `availIn, `totalIn, `blockEnd, `icfNext, `icfBufAvailOut, table, matches, icfBuf, llHist, dHist
      ensures At(next, end) && nextIn + availIn == old(nextIn + availIn)
      ensures Parsed(old(mapBase) + next0, mapBase + next, old(icfNext), old(icfBuf[..icfNext]), old(llHist[..]), old(dHist[..]))
      ensures if next < end then icfBufAvailOut == 0 else availIn <= 288 && nextIn == mapBase + next
      ensures Taken(old(matches[..]), end0, old(icfBufAvailOut / 4), next0, rs0, i0) && |rs0| <= old(icfBufAvailOut / 4)
      ensures Chained(Sought(), old(table[..]), old(mapBase) + i0, !old(hasHist), old(icfBufAvailOut / 4) - |rs0|, cs, table[..], mapBase + next)
      ensures old(icfNext) <= icfNext <= icfBuf.Length && icfBuf[old(icfNext)..icfNext] == rs0 + RecordsOf(cs)
    {
      hide *;
      AtParts(next0, end0);
      CounterParts();
      Separate();
      ghost var p0, n0, buf0, ll0, d0, t0 := mapBase + next0, icfNext, icfBuf[..icfNext], llHist[..], dHist[..], table[..];
      var i := Parse(next0, end0);
      i0, rs0 := i, icfBuf[n0..icfNext];
      ghost var n1, done, base := icfNext, icfBuf[..icfNext], mapBase;
      assert table[..] == t0;
      next, end, cs := Rounds(i, end0, p0, n0, buf0, ll0, d0);
      Appended(done, icfBuf[..icfNext], n0, n1, icfNext);
      assert icfBuf[..n1] == done && icfBuf[..icfNext][n1..icfNext] == icfBuf[n1..icfNext] && icfBuf[..icfNext][n0..icfNext] == icfBuf[n0..icfNext];
    }

    /** Rounds of filling and parsing, from where the parse stands. */
    method Rounds(next0: nat, end0: nat, ghost p0: nat, ghost n0: nat, ghost buf0: seq<Record>, ghost ll0: seq<nat>, ghost d0: seq<nat>)
      returns (next: nat, end: nat, ghost cs: seq<Chunk>)
      requires At(next0, end0) && (next0 < end0 ==> icfBufAvailOut == 0) && Parsed(p0, mapBase + next0, n0, buf0, ll0, d0)
      modifies `hasHist, `mapBase, `nextIn, `availIn, `totalIn, `blockEnd, `icfNext, `icfBufAvailOut, table, matches, icfBuf, llHist, dHist
      ensures At(next, end) && nextIn + availIn == old(nextIn + availIn) && Parsed(p0, mapBase + next, n0, buf0, ll0, d0)
      ensures if next < end then icfBufAvailOut == 0 else availIn <= 288 && nextIn == mapBase + next
      ensures Chained(Sought(), old(table[..]), old(mapBase) + next0, !old(hasHist), old(icfBufAvailOut / 4), cs, table[..], mapBase + next)
      ensures old(icfNext) <= icfNext <= icfBuf.Length && icfBuf[..old(icfNext)] == old(icfBuf[..icfNext]) && icfBuf[old(icfNext)..icfNext] == RecordsOf(cs)
    {
      hide *;
      next, end, cs := next0, end0, [];
      ghost var all, room, from := nextIn + availIn, icfBufAvailOut / 4, mapBase + next0;
      ChainedNothing(Sought(), table[..], from, !hasHist, room);
      ParsedParts(p0, from, n0, buf0, ll0, d0);
      assert icfBuf[icfNext..icfNext] == [];
      while next >= end
        invariant At(next, end) && nextIn + availIn == all && (next < end ==> icfBufAvailOut == 0)
        invariant Parsed(p0, mapBase + next, n0, buf0, ll0, d0)
        invariant Chained(Sought(), old(table[..]), from, !old(hasHist), room, cs, table[..], mapBase + next)
        invariant old(icfNext) <= icfNext <= icfBuf.Length && icfBuf[..old(icfNext)] == old(icfBuf[..icfNext]) && icfBuf[old(icfNext)..icfNext] == RecordsOf(cs)
        invariant icfBufAvailOut / 4 == room - |RecordsOf(cs)| && (if cs == [] then hasHist == old(hasHist) else hasHist)
        decreases availIn + (if next >= end then 1 else 0)
      {
        AtParts(next, end);
        MapConstants();
        if availIn <= LOOK_AHEAD { return; }
        ghost var t, p, n1, done := table[..], mapBase + next, icfNext, icfBuf[..icfNext];
        ghost var c;
        next, end, c := Round(next, end, p0, n0, buf0, ll0, d0);
        ChainedMore(Sought(), old(table[..]), from, !old(hasHist), room, cs, t, p, c);
        Appended(done, icfBuf[..icfNext], old(icfNext), n1, icfNext);
        assert icfBuf[..n1] == done && icfBuf[..icfNext][n1..icfNext] == icfBuf[n1..icfNext];
        assert icfBuf[..icfNext][old(icfNext)..icfNext] == icfBuf[old(icfNext)..icfNext];
        cs := cs + [c];
      }
    }

    method NextState()
      modifies `state
      ensures state == if icfBufAvailOut == 0 then CreateHdr
                       else if availIn <= 288 && (endOfStream || flush) then FlushReadBuffer else old(state)
    {
      if icfBufAvailOut <= 0 {
        state := CreateHdr;
      } else if availIn <= LOOK_AHEAD && (endOfStream || flush) {
        state := FlushReadBuffer;
      }
    }

    /** The parse as seen by the driver. */
    method Parse(next: nat, end: nat) returns (i: nat)
      requires At(next, end)
      modifies `nextIn, `availIn, `totalIn, `blockEnd, `icfNext, `icfBufAvailOut, icfBuf, llHist, dHist
      ensures At(i, end) && nextIn + availIn == old(nextIn + availIn) && (i < end ==> icfBufAvailOut == 0)
      ensures availIn <= old(availIn)
      ensures Parsed(mapBase + next, mapBase + i, old(icfNext), old(icfBuf[..icfNext]), old(llHist[..]), old(dHist[..]))
      ensures old(icfNext) <= icfNext <= icfBuf.Length && Taken(matches[..], end, old(icfBufAvailOut / 4), next, icfBuf[old(icfNext)..icfNext], i)
      ensures icfBufAvailOut / 4 == old(icfBufAvailOut / 4) - (icfNext - old(icfNext)) && next <= i
    {
      hide *;
      AtParts(next, end);
      CounterParts();
      Separate();
      ghost var p := nextIn;
      i := CompressIcfMapG(next, end);
      MapFrom(data, lo, distMask + 1, mapBase, matches[..], next, end, i, mapBase + end + 288);
      if hasHist { ReadyLater(table[..], fileStart, lo, distMask + 1, p, nextIn); }
      NowAt(i, end);
    }

    lemma ValidAt()
      requires Valid()
      ensures At(matchesNext, matchesEnd)
    {}

    lemma AtValid()
      requires At(matchesNext, matchesEnd)
      ensures Valid()
    {}

    lemma CursorAt()
      ensures Cursor() == mapBase + matchesNext
    {}

    lemma AtParts(next: nat, end: nat)
      requires At(next, end)
      ensures Counters() && Ready(table[..], fileStart, lo, distMask + 1, nextIn, hasHist)
      ensures icfNext + icfBufAvailOut / 4 <= icfBuf.Length && nextIn + availIn <= |data|
      ensures end <= 4096 && nextIn == mapBase + (if next > end then next else end)
      ensures blockEnd == (mapBase + next - fileStart) % 0x1_0000_0000 && (next < end ==> availIn >= 288 && hasHist)
      ensures MapOk(data, lo, distMask + 1, mapBase, matches[..], next, end, mapBase + end + 288)
    {}

    lemma NowAt(next: nat, end: nat)
      requires Counters() && Ready(table[..], fileStart, lo, distMask + 1, nextIn, hasHist)
      requires icfNext + icfBufAvailOut / 4 <= icfBuf.Length
      requires end <= 4096 && nextIn == mapBase + (if next > end then next else end)
      requires blockEnd == (mapBase + next - fileStart) % 0x1_0000_0000 && (next < end ==> availIn >= 288 && hasHist)
      requires MapOk(data, lo, distMask + 1, mapBase, matches[..], next, end, mapBase + end + 288)
      ensures At(next, end)
    {}

    /** A freshly filled map starts where the last one was used up. */
    lemma AtStart(q: nat, end: nat)
      requires Counters() && Ready(table[..], fileStart, lo, distMask + 1, nextIn, hasHist) && icfNext + icfBufAvailOut / 4 <= icfBuf.Length
      requires 0 < end <= 4096 && nextIn == q + end && mapBase == q && availIn >= 288 && hasHist
      requires blockEnd == (q - fileStart) % 0x1_0000_0000
      requires MapOk(data, lo, distMask + 1, mapBase, matches[..], 0, end, nextIn + 288)
      ensures At(0, end)
    {}

    lemma ParsedParts(p0: nat, p1: nat, n0: nat, buf0: seq<Record>, ll0: seq<nat>, d0: seq<nat>)
      requires Parsed(p0, p1, n0, buf0, ll0, d0)
      ensures n0 <= icfNext <= icfBuf.Length && icfBuf[..n0] == buf0
      ensures Found(data, distMask + 1, p0, p1, icfBuf[n0..icfNext], ll0, d0, llHist[..], dHist[..])
    {}

    lemma ParsedMore(p0: nat, p1: nat, p2: nat, n0: nat, n1: nat, buf0: seq<Record>, buf1: seq<Record>,
                     ll0: seq<nat>, d0: seq<nat>, ll1: seq<nat>, d1: seq<nat>)
      requires n0 <= n1 <= |buf1| == icfBuf.Length && buf1[..n0] == buf0
      requires Found(data, distMask + 1, p0, p1, buf1[n0..n1], ll0, d0, ll1, d1) && Parsed(p1, p2, n1, buf1[..n1], ll1, d1)
      ensures Parsed(p0, p2, n0, buf0, ll0, d0)
    {
      hide Found;
      assert buf1[n0..n1] == buf1[..n1][n0..n1] && buf1[..n0] == buf1[..n1][..n0];
      FoundConcat(data, distMask + 1, p0, p1, p2, buf1[n0..n1], icfBuf[n1..icfNext], ll0, d0, ll1, d1, llHist[..], dHist[..]);
      assert icfBuf[n0..icfNext] == icfBuf[..n1][n0..n1] + icfBuf[n1..icfNext];
      assert icfBuf[..n0] == icfBuf[..n1][..n0];
    }

    lemma NowParsed(start: nat, p0: nat, pos: nat, ll0: seq<nat>, d0: seq<nat>)
      requires start <= icfNext <= icfBuf.Length && Buffers()
      requires Found(data, distMask + 1, p0, pos, icfBuf[start..icfNext], ll0, d0, llHist[..], dHist[..])
      requires nextIn + availIn <= |data| && totalIn == (nextIn - fileStart) % 0x1_0000_0000
      ensures Counters() && Parsed(p0, pos, start, icfBuf[..start], ll0, d0)
    {}
  }

  /** What was there before, and what came behind it. */
  lemma Appended(was: seq<Record>, now: seq<Record>, a: nat, b: nat, c: nat)
    requires a <= b <= c && |was| == b && |now| == c && now[..b] == was
    ensures now[a..c] == was[a..b] + now[b..c] && now[..a] == was[..a]
  {}

  lemma SpansIs(r: Record)
    requires r.litLen < 257 ==> r.litDist == 30
    ensures Spans(r) == Reaches(r)
  {}

  lemma SpansPair(a: nat, b: nat)
    requires a < 256
    ensures Spans(PairOf(a, b)) == 2
  {}

  lemma ReachesMatch(r: Record)
    requires r.litLen >= 257
    ensures Reaches(r) == r.litLen - 254
  {}

  lemma ReachesLiteral(r: Record)
    requires r.litLen < 257
    ensures Reaches(r) == 1
  {}

  lemma LiteralEntries(data: seq<Byte>, lo: nat, window: nat, p: nat, end: nat, r: Record)
    requires Entry(data, lo, window, p, end, r) && r.litLen < 257
    ensures r.litLen < 256 && p + 1 <= end
  {
    EntryExpands(data, lo, window, p, end, r);
  }

  lemma MapAt(data: seq<Byte>, lo: nat, window: nat, base: nat, map_: seq<Record>, from: nat, to: nat, i: nat, end: nat)
    requires MapOk(data, lo, window, base, map_, from, to, end) && from <= i < to
    ensures i < |map_| && Entry(data, lo, window, base + i, end, map_[i])
  {}

  lemma MapFrom(data: seq<Byte>, lo: nat, window: nat, base: nat, map_: seq<Record>, from: nat, to: nat, i: nat, end: nat)
    requires MapOk(data, lo, window, base, map_, from, to, end) && from <= i
    ensures MapOk(data, lo, window, base, map_, i, to, end)
  {}

  lemma GrownIsMaximal(data: seq<Byte>, p: nat, r: Record, count: nat, end: nat)
    requires DistStart(r.litDist) + r.distExtra <= p && p + 8 <= end <= |data|
    requires count == CommonPrefix(data, p + 8, DistStart(r.litDist) + r.distExtra, end - (p + 8))
    ensures Maximal(data, p, r, Record(if count + 262 > 512 then 512 else count + 262, r.litDist, r.distExtra), end)
  {}

  /** Entries i to j have become ever shorter rests of one match, the others are as they were. */
  ghost predicate RunWritten(was: seq<Record>, now: seq<Record>, i: nat, j: nat, matchLen: nat, code: nat, extra: nat) {
    i <= j <= |was| == |now| && (forall k :: 0 <= k < i || j <= k < |was| ==> now[k] == was[k])
    && forall k :: i <= k < j ==> RunRecord(was[k], now[k], matchLen - (k - i), code, extra)
  }

  ghost predicate RunRecord(was: Record, now: Record, rest: int, code: nat, extra: nat) {
    rest >= 258 && rest > was.litLen && now == Record(if rest > 512 then 512 else rest, code, extra)
  }

  /** No entry loses length. */
  ghost predicate Longer(was: seq<Record>, now: seq<Record>, n: nat) {
    n <= |was| == |now| && forall k :: 0 <= k < n ==> LongerAt(was[k], now[k])
  }

  ghost predicate LongerAt(was: Record, now: Record) {
    now == was || now.litLen >= was.litLen || was.litLen > 512
  }

  ghost predicate NoLong(was: seq<Record>, n: nat) {
    forall k :: 0 <= k < n && k < |was| ==> was[k].litLen < 262
  }

  /** A match of eight bytes, extended up to `end` and cut at the longest length there is. */
  ghost predicate Maximal(data: seq<Byte>, p: nat, was: Record, now: Record, end: nat) {
    var dist := DistStart(was.litDist) + was.distExtra;
    dist <= p && p + 8 <= end <= |data|
    && now == Record(if CommonPrefix(data, p + 8, dist, end - (p + 8)) > 250 then 512 else CommonPrefix(data, p + 8, dist, end - (p + 8)) + 262,
                     was.litDist, was.distExtra)
  }

  /** If f is the first long match of the map, it has been extended in full. */
  ghost predicate FirstLongExtended(data: seq<Byte>, base: nat, was: seq<Record>, now: seq<Record>, f: nat, end: nat) {
    f < |was| == |now| && (NoLong(was, f) && was[f].litLen >= 262 ==> Maximal(data, base + f, was[f], now[f], end))
  }

  ghost predicate FirstExtended(data: seq<Byte>, base: nat, was: seq<Record>, now: seq<Record>, n: nat, end: nat) {
    forall f :: 0 <= f < n ==> FirstLongExtended(data, base, was, now, f, end)
  }

  /** Progress of the extension up to index i. */
  ghost predicate LongDone(data: seq<Byte>, base: nat, was: seq<Record>, now: seq<Record>, i: nat, end: nat) {
    i <= |was| == |now| && (forall k :: i <= k < |was| ==> now[k] == was[k])
    && Longer(was, now, i) && FirstExtended(data, base, was, now, i, end)
  }

  lemma NothingLong(data: seq<Byte>, base: nat, was: seq<Record>, end: nat)
    ensures LongDone(data, base, was, was, 0, end)
  {}

  lemma LongDoneParts(data: seq<Byte>, base: nat, was: seq<Record>, now: seq<Record>, i: nat, n: nat, end: nat)
    requires LongDone(data, base, was, now, i, end)
    ensures i <= |was| == |now|
    ensures n <= i ==> Longer(was, now, n) && FirstExtended(data, base, was, now, n, end)
  {}

  lemma EntryAt(data: seq<Byte>, lo: nat, window: nat, base: nat, map_: seq<Record>, n: nat, i: nat, end: nat)
    requires MapOk(data, lo, window, base, map_, 0, n, end) && i < n
    ensures i < |map_| && Entry(data, lo, window, base + i, end, map_[i])
  {}

  /** A match of at least eight bytes agrees on the first eight, and no further than the comparison of the rest says. */
  lemma LongEntry(data: seq<Byte>, lo: nat, window: nat, p: nat, end: nat, r: Record)
    requires Entry(data, lo, window, p, end, r) && r.litLen >= 262
    ensures var dist := DistStart(r.litDist) + r.distExtra;
            1 <= dist <= p && dist <= window && dist <= p - lo && p + 8 <= end <= |data| && IsMatch(data, p, dist, 8)
            && DistIcfCode(dist) == DistSymbol(r.litDist, r.distExtra)
            && CommonPrefix(data, p + 8, dist, end - (p + 8)) + 262 >= r.litLen && r.litLen <= 512
  {
    hide DistStart, CommonPrefix, DistIcfCode;
    EntryDistance(data, lo, window, p, end, r);
    var dist := DistStart(r.litDist) + r.distExtra;
    CommonPrefixSkip(data, p + 8, dist, end - (p + 8), r.litLen - 262);
  }

  lemma MatchGrows(data: seq<Byte>, p: nat, dist: nat, count: nat, end: nat)
    requires IsMatch(data, p, dist, 8) && p + 8 <= end <= |data| && count == CommonPrefix(data, p + 8, dist, end - (p + 8))
    ensures IsMatch(data, p, dist, count + 8) && p + 8 + count <= end
  {}

  lemma RunEntry(data: seq<Byte>, lo: nat, window: nat, p: nat, k: nat, end: nat, dist: nat, matchLen: nat, was: Record, now: Record)
    requires matchLen >= 262 && IsMatch(data, p, dist, matchLen - 254) && p + matchLen - 254 <= end <= |data| && dist <= window <= 32768 && dist <= p - lo
    requires RunRecord(was, now, matchLen - k, DistIcfCode(dist).code, DistIcfCode(dist).extra)
    ensures Entry(data, lo, window, p + k, end, now)
  {
    hide DistIcfCode;
    var len := (if matchLen - k > 512 then 512 else matchLen - k) - 254;
    assert now == MatchRecord(len, dist);
    assert EntryMatch(data, lo, window, p + k, end, now, len, dist);
  }

  lemma RunKeepsMap(data: seq<Byte>, lo: nat, window: nat, base: nat, was: seq<Record>, now: seq<Record>, n: nat, i: nat, j: nat,
                    matchLen: nat, dist: nat, end: nat)
    requires MapOk(data, lo, window, base, was, 0, n, end) && window <= 32768 && matchLen >= 262
    requires IsMatch(data, base + i, dist, matchLen - 254) && base + i + matchLen - 254 <= end <= |data| && dist <= window && dist <= base + i - lo
    requires dist <= 32768 && RunWritten(was, now, i, j, matchLen, DistIcfCode(dist).code, DistIcfCode(dist).extra)
    ensures MapOk(data, lo, window, base, now, 0, n, end)
  {
    hide Entry, IsMatch, RunRecord, DistIcfCode;
    forall k | 0 <= k < n ensures Entry(data, lo, window, base + k, end, now[k]) {
      if i <= k < j {
        RunEntry(data, lo, window, base + i, k - i, end, dist, matchLen, was[k], now[k]);
      } else {
        assert Entry(data, lo, window, base + k, end, was[k]);
      }
    }
  }

  lemma ShortDone(data: seq<Byte>, base: nat, was: seq<Record>, now: seq<Record>, i: nat, end: nat)
    requires LongDone(data, base, was, now, i, end) && i < |was| && now[i].litLen < 262
    ensures LongDone(data, base, was, now, i + 1, end)
  {
    hide Maximal, LongerAt;
    assert LongerAt(was[i], now[i]) by { LongerSame(was[i]); }
  }

  lemma LongerSame(r: Record)
    ensures LongerAt(r, r)
  {}

  lemma RunDone(data: seq<Byte>, base: nat, was: seq<Record>, before: seq<Record>, now: seq<Record>, i: nat, j: nat, matchLen: nat, end: nat)
    requires LongDone(data, base, was, before, i, end) && i < |was| && j < |was| && before[i].litLen >= 262
    requires RunWritten(before, now, i, j, matchLen, before[i].litDist, before[i].distExtra)
    requires before[i].litLen <= matchLen && (j == i ==> matchLen <= before[i].litLen)
    requires Maximal(data, base + i, before[i], Record(if matchLen > 512 then 512 else matchLen, before[i].litDist, before[i].distExtra), end)
    requires before[i].litLen <= 512
    ensures LongDone(data, base, was, now, j + 1, end)
  {
    hide Maximal, LongDone;
    LongDoneTail(data, base, was, before, i, end);
    forall k | 0 <= k < j + 1 ensures LongerAt(was[k], now[k]) {
      if k < i {
        LongDoneBefore(data, base, was, before, i, k, end);
      }
    }
    forall f | 0 <= f < j + 1 ensures FirstLongExtended(data, base, was, now, f, end) {
      if f < i {
        LongDoneBefore(data, base, was, before, i, f, end);
      } else if f > i {
        assert !NoLong(was, f) by { assert was[i].litLen >= 262; }
      }
    }
    NowDone(data, base, was, now, j + 1, end);
  }

  lemma NowDone(data: seq<Byte>, base: nat, was: seq<Record>, now: seq<Record>, i: nat, end: nat)
    requires i <= |was| == |now| && (forall k :: i <= k < |was| ==> now[k] == was[k])
    requires (forall k :: 0 <= k < i ==> LongerAt(was[k], now[k])) && forall f :: 0 <= f < i ==> FirstLongExtended(data, base, was, now, f, end)
    ensures LongDone(data, base, was, now, i, end)
  {}

  lemma LongDoneTail(data: seq<Byte>, base: nat, was: seq<Record>, now: seq<Record>, i: nat, end: nat)
    requires LongDone(data, base, was, now, i, end)
    ensures |was| == |now| && forall k :: i <= k < |was| ==> now[k] == was[k]
  {}

  lemma LongDoneBefore(data: seq<Byte>, base: nat, was: seq<Record>, now: seq<Record>, i: nat, k: nat, end: nat)
    requires LongDone(data, base, was, now, i, end) && k < i
    ensures |was| == |now| && LongerAt(was[k], now[k]) && FirstLongExtended(data, base, was, now, k, end)
  {}

  lemma MapConstants()
    ensures SHORTEST_MATCH == 4 && NULL_DIST_SYM == 30 && LOOK_AHEAD == 288 && LEN_OFFSET == 254 && LEN_START == 257
  {}

  lemma IsFirstPass(data: seq<Byte>, p: nat, dist: nat, r: Record)
    requires 1 <= dist <= p && dist <= 32768 && p + 8 <= |data|
    requires r == if CommonPrefix(data, p, dist, 8) >= 4 then MatchRecord(CommonPrefix(data, p, dist, 8), dist) else Record(data[p], 30, 0)
    ensures FirstPass(data, p, dist, r)
  {}

  lemma EmptyMap(data: seq<Byte>, lo: nat, window: nat, base: nat, map_: seq<Record>, end: nat)
    ensures MapOk(data, lo, window, base, map_, 0, 0, end)
  {}

  lemma LiteralEntry(data: seq<Byte>, lo: nat, window: nat, p: nat, end: nat)
    requires p < end <= |data| && window <= 32768
    ensures Entry(data, lo, window, p, end, Record(data[p], 30, 0))
  {}

  lemma MapFirst(data: seq<Byte>, lo: nat, window: nat, base: nat, map_: seq<Record>, end: nat)
    requires |map_| > 0 && Entry(data, lo, window, base, end, map_[0])
    ensures MapOk(data, lo, window, base, map_, 0, 1, end)
  {}
}
