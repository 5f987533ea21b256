/** Greedy match finding through a hash table of 16-bit positions, into the intermediate format. */
module IcfHash {
  import opened Bits
  import opened LZ77
  import opened Icf

  datatype State = Body | FlushReadBuffer | CreateHdr | Trl | SyncFlush

  /** A 16-bit table entry stands for a position, modulo 2^16 relative to the start of the file. */
  ghost predicate Stands(entry: nat, q: int, fileStart: int) { entry == (q - fileStart) % 65536 }

  /** The entry stands for some position of the history, at most p. */
  ghost predicate EntryOk(entry: nat, fileStart: int, lo: nat, p: nat) {
    exists q: nat :: lo <= q <= p && Stands(entry, q, fileStart)
  }

  ghost predicate TableOk(table: seq<nat>, fileStart: int, lo: nat, p: nat) {
    forall h :: 0 <= h < |table| ==> EntryOk(table[h], fileStart, lo, p)
  }

  /** The distance that the entry proposes at p, if it is in the window, stays in the memory from `lo` on. */
  ghost predicate InReach(entry: nat, fileStart: int, lo: nat, distMask: nat, p: nat)
    requires lo <= p
  {
    (p - fileStart - entry) % 65536 <= distMask ==> (p - fileStart - entry) % 65536 <= p - lo
  }

  /** Whatever the table proposes at p lies in the memory from `lo` on. */
  ghost predicate Reach(table: seq<nat>, fileStart: int, lo: nat, distMask: nat, p: nat) {
    lo <= p && forall h :: 0 <= h < |table| ==> InReach(table[h], fileStart, lo, distMask, p)
  }

  lemma EntryInReach(entry: nat, fileStart: int, lo: nat, distMask: nat, p: nat)
    requires EntryOk(entry, fileStart, lo, p)
    ensures lo <= p && InReach(entry, fileStart, lo, distMask, p)
  {
    var q: nat :| lo <= q <= p && Stands(entry, q, fileStart);
    ModDifference(p - fileStart, q - fileStart);
    SameDifference(p - fileStart, q - fileStart);
  }

  /** A table whose entries stand for positions in memory proposes nothing else, whatever the window. */
  lemma TableReach(table: seq<nat>, fileStart: int, lo: nat, distMask: nat, p: nat)
    requires TableOk(table, fileStart, lo, p) && lo <= p
    ensures Reach(table, fileStart, lo, distMask, p)
  {
    forall h | 0 <= h < |table| ensures InReach(table[h], fileStart, lo, distMask, p) {
      assert EntryOk(table[h], fileStart, lo, p);
      EntryInReach(table[h], fileStart, lo, distMask, p);
    }
  }

  lemma ReachInsert(table: seq<nat>, fileStart: int, lo: nat, distMask: nat, p: nat, h: nat, q: nat, e: nat)
    requires Reach(table, fileStart, lo, distMask, p) && h < |table| && lo <= q <= p && Stands(e, q, fileStart)
    ensures Reach(table[h := e], fileStart, lo, distMask, p)
  {
    assert EntryOk(e, fileStart, lo, p);
    EntryInReach(e, fileStart, lo, distMask, p);
    hide InReach;
  }

  lemma ReachLater(table: seq<nat>, fileStart: int, lo: nat, distMask: nat, p: nat, p': nat)
    requires Reach(table, fileStart, lo, distMask, p) && p <= p'
    ensures Reach(table, fileStart, lo, distMask, p')
  {
    hide InReach;
    forall h | 0 <= h < |table| ensures InReach(table[h], fileStart, lo, distMask, p') {
      InReachLater(table[h], fileStart, lo, distMask, p, p');
    }
  }

  lemma InReachLater(entry: nat, fileStart: int, lo: nat, distMask: nat, p: nat, p': nat)
    requires lo <= p <= p' && InReach(entry, fileStart, lo, distMask, p)
    ensures InReach(entry, fileStart, lo, distMask, p')
  {
    Advances(p - fileStart - entry, p' - p);
  }

  /** Moving on by k adds k to the residue, or goes through 0. */
  lemma Advances(a: int, k: nat)
    ensures (a + k) % 65536 <= k || (a + k) % 65536 == a % 65536 + k
  {
    var q := a / 65536;
    assert a == 65536 * q + a % 65536;
    if a % 65536 + k < 65536 {
      WholeWraps(a % 65536 + k, q);
    } else {
      var m := (a % 65536 + k) / 65536;
      assert a + k == (a % 65536 + k - 65536 * m) + 65536 * (q + m);
      WholeWraps(a % 65536 + k - 65536 * m, q + m);
    }
  }

  lemma WholeWraps(x: int, k: int)
    ensures (x + 65536 * k) % 65536 == x % 65536
  {}

  /** Reducing a subtrahend first does not change the residue of the difference. */
  lemma SameDifference(a: int, b: int)
    ensures (a - b % 65536) % 65536 == (a - b) % 65536 == (a % 65536 - b % 65536) % 65536
  {
    var q, r := a / 65536, b / 65536;
    assert a == 65536 * q + a % 65536 && b == 65536 * r + b % 65536;
    assert a - b % 65536 == (a - b) + 65536 * r;
    WholeWraps(a - b, r);
    assert a - b == (a % 65536 - b % 65536) + 65536 * (q - r);
    WholeWraps(a % 65536 - b % 65536, q - r);
  }

  /** The 16-bit difference that the code computes never overshoots: within the window, it stays in memory. */
  lemma DistanceInHistory(table: seq<nat>, fileStart: int, lo: nat, distMask: nat, p: nat, h: nat, index: nat)
    requires Reach(table, fileStart, lo, distMask, p) && Stands(index, p, fileStart) && h < |table|
    requires (index - table[h]) % 65536 <= distMask
    ensures (index - table[h]) % 65536 <= p - lo
  {
    assert InReach(table[h], fileStart, lo, distMask, p);
    IndexDifference(p - fileStart, table[h]);
  }

  lemma IndexDifference(a: int, e: nat)
    ensures (a % 65536 - e) % 65536 == (a - e) % 65536
  {
    var q := a / 65536;
    assert a - e == (a % 65536 - e) + 65536 * q;
    WholeWraps(a % 65536 - e, q);
  }

  lemma ModDifference(a: int, b: int)
    requires a >= b
    ensures (a % 65536 - b % 65536) % 65536 <= a - b
  {
    var k := a / 65536 - b / 65536;
    assert a - b == 65536 * k + (a % 65536 - b % 65536);
  }

  lemma WrapCounter(a: int, k: nat)
    ensures (a % 0x1_0000_0000 + k) % 65536 == (a + k) % 65536
    ensures (a % 0x1_0000_0000 + k) % 0x1_0000_0000 == (a + k) % 0x1_0000_0000
  {
    var q := a / 0x1_0000_0000;
    assert a + k == a % 0x1_0000_0000 + k + 65536 * (65536 * q);
    assert a + k == a % 0x1_0000_0000 + k + 0x1_0000_0000 * q;
  }

  /** A literal, or the longest match at some distance in the window and in memory, cut at `limit`. */
  ghost predicate Chosen(data: seq<Byte>, lo: nat, distMask: nat, p: nat, limit: nat, r: Record, p': nat) {
    p < p' <= |data| && distMask < 32768 && p + limit <= |data| && limit <= 258
    && ((r == Record(data[p], 30, 0) && p' == p + 1)
        || exists dist: nat :: ChosenAt(data, lo, distMask, p, limit, r, p', dist))
  }

  ghost predicate ChosenAt(data: seq<Byte>, lo: nat, distMask: nat, p: nat, limit: nat, r: Record, p': nat, dist: nat)
    requires p < p' <= |data| && distMask < 32768 && p + limit <= |data|
  {
    1 <= dist <= distMask && dist <= p - lo && 4 <= p' - p && r == MatchRecord(p' - p, dist)
    && CommonPrefix(data, p, dist, limit) == p' - p
  }

  /** A match is taken exactly when the candidate distance is in the window and four bytes or more agree. */
  ghost predicate Greedy(data: seq<Byte>, distMask: nat, p: nat, limit: nat, dist: nat, r: Record) {
    p < |data| && p + limit <= |data| && distMask < 32768
    && if 1 <= dist <= distMask && dist <= p && CommonPrefix(data, p, dist, limit) >= 4
       then r == MatchRecord(CommonPrefix(data, p, dist, limit), dist)
       else r == Record(data[p], 30, 0)
  }

  /** Matches are at least four bytes long and reach back no further than the window. */
  ghost predicate Near(rs: seq<Record>, distMask: nat) {
    forall i :: 0 <= i < |rs| && rs[i].litLen >= 257 ==> rs[i].litLen >= 258 && DistStart(rs[i].litDist) + rs[i].distExtra <= distMask
  }

  lemma ChosenExpands(data: seq<Byte>, lo: nat, distMask: nat, p: nat, limit: nat, r: Record, p': nat)
    requires Chosen(data, lo, distMask, p, limit, r, p')
    ensures r.Valid() && Expand(data[..p], r.Tokens()) == Text(data[..p']) && Near([r], distMask)
  {
    hide Expand, Record.Tokens, DistStart, DistExtraBits, DistIcfCode;
    if r == Record(data[p], 30, 0) && p' == p + 1 {
      LiteralRecord(data, p);
    } else {
      var dist: nat :| ChosenAt(data, lo, distMask, p, limit, r, p', dist);
      MatchRecordExpands(data, p, p' - p, dist);
      DistRoundTrip(dist);
    }
  }

  lemma NearMore(rs: seq<Record>, r: Record, distMask: nat)
    requires Near(rs, distMask) && Near([r], distMask)
    ensures Near(rs + [r], distMask)
  {
    assert [r][0] == r;
  }

  /** What the finder has done from position p0 up to p: the records it wrote, and their symbol counts. */
  ghost predicate Found(data: seq<Byte>, distMask: nat, p0: nat, p: nat, rs: seq<Record>,
                        ll0: seq<nat>, d0: seq<nat>, ll: seq<nat>, d: seq<nat>) {
    p0 <= p <= |data| && Produces(data[..p0], rs, data[..p]) && Near(rs, distMask) && Counted(ll, d, ll0, d0, rs)
  }

  lemma FoundNothing(data: seq<Byte>, distMask: nat, p: nat, ll: seq<nat>, d: seq<nat>)
    requires p <= |data| && |ll| == 513 && |d| == 30
    ensures Found(data, distMask, p, p, [], ll, d, ll, d)
  {}

  /** One more record that expands to the next bytes. */
  lemma FoundStep(data: seq<Byte>, window: nat, p0: nat, p: nat, rs: seq<Record>,
                  ll0: seq<nat>, d0: seq<nat>, ll1: seq<nat>, d1: seq<nat>, r: Record, p': nat, ll: seq<nat>, d: seq<nat>)
    requires Found(data, window, p0, p, rs, ll0, d0, ll1, d1) && p <= p' <= |data|
    requires r.Valid() && Expand(data[..p], r.Tokens()) == Text(data[..p']) && Near([r], window) && CountedOne(ll, d, ll1, d1, r)
    ensures Found(data, window, p0, p', rs + [r], ll0, d0, ll, d)
  {
    hide Produces, Near, Counted, CountedOne, Record.Valid, Record.Tokens, Expand;
    ProducesMore(data[..p0], rs, data[..p], r, data[..p']);
    NearMore(rs, r, window);
    CountedMore(ll, d, ll1, d1, ll0, d0, rs, r);
  }

  lemma FoundMore(data: seq<Byte>, lo: nat, distMask: nat, p0: nat, p: nat, rs: seq<Record>,
                  ll0: seq<nat>, d0: seq<nat>, ll1: seq<nat>, d1: seq<nat>,
                  limit: nat, r: Record, p': nat, ll: seq<nat>, d: seq<nat>)
    requires Found(data, distMask, p0, p, rs, ll0, d0, ll1, d1)
    requires Chosen(data, lo, distMask, p, limit, r, p') && CountedOne(ll, d, ll1, d1, r)
    ensures Found(data, distMask, p0, p', rs + [r], ll0, d0, ll, d)
  {
    hide Found, Produces, Near, Counted, CountedOne, Record.Valid, Record.Tokens, Expand;
    ChosenExpands(data, lo, distMask, p, limit, r, p');
    FoundStep(data, distMask, p0, p, rs, ll0, d0, ll1, d1, r, p', ll, d);
  }

  /** Two stretches of work in a row. */
  lemma FoundConcat(data: seq<Byte>, window: nat, p0: nat, p1: nat, p2: nat, rs: seq<Record>, ss: seq<Record>,
                    ll0: seq<nat>, d0: seq<nat>, ll1: seq<nat>, d1: seq<nat>, ll: seq<nat>, d: seq<nat>)
    requires Found(data, window, p0, p1, rs, ll0, d0, ll1, d1) && Found(data, window, p1, p2, ss, ll1, d1, ll, d)
    ensures Found(data, window, p0, p2, rs + ss, ll0, d0, ll, d)
  {
    hide Produces, Counted;
    ProducesConcat(data[..p0], rs, data[..p1], ss, data[..p2]);
    CountedConcat(ll, d, ll1, d1, ll0, d0, rs, ss);
  }

  // -- the search, turn by turn

  /** What a search depends on: the text, the hash of four bytes, where the file starts, the window, the end of the input, and
      how many positions behind the start of a match are stored too. */
  datatype Search = Search(data: seq<Byte>, hash: nat -> nat, fileStart: int, distMask: nat, end: nat, extra: nat)

  /** The 16-bit form of a position. */
  function Form(s: Search, q: nat): nat { (q - s.fileStart) % 65536 }

  /** The table after position q has been stored. */
  function Note(s: Search, t: seq<nat>, q: nat): (r: seq<nat>)
    ensures |r| == |t|
  {
    if q + 4 <= |s.data| && s.hash(Load(s.data, q, 4)) < |t| then t[s.hash(Load(s.data, q, 4)) := Form(s, q)] else t
  }

  /** The table after n positions from q on have been stored. */
  function NoteAll(s: Search, t: seq<nat>, q: nat, n: nat): (r: seq<nat>)
    ensures |r| == |t|
  {
    if n == 0 then t else Note(s, NoteAll(s, t, q, n - 1), q + n - 1)
  }

  /** How many bytes a record of the greedy search stands for. */
  function Covers(r: Record): nat { if r.litLen >= 257 then r.litLen - 254 else 1 }

  function Span(rs: seq<Record>): nat {
    if |rs| == 0 then 0 else Span(rs[..|rs| - 1]) + Covers(rs[|rs| - 1])
  }

  /** How many positions are stored at a turn. */
  function StoredAt(s: Search, p: nat, r: Record): nat {
    if p + 4 > s.end then 0 else if r.litLen >= 257 then 1 + s.extra else 1
  }

  /** The table behind the records of a search that started with table t0 at p0. */
  function TableAfter(s: Search, t0: seq<nat>, p0: nat, rs: seq<Record>): (t: seq<nat>)
    ensures |t| == |t0|
  {
    if |rs| == 0 then t0
    else
      NoteAll(s, TableAfter(s, t0, p0, rs[..|rs| - 1]), p0 + Span(rs[..|rs| - 1]), StoredAt(s, p0 + Span(rs[..|rs| - 1]), rs[|rs| - 1]))
  }

  /** The right record at p, with the table as it is: the match at the candidate that the table gives, if it is one, or else the
      literal. */
  ghost predicate Right(s: Search, t: seq<nat>, p: nat, r: Record) {
    if p + 4 <= s.end then
      p + 4 <= |s.data| && s.hash(Load(s.data, p, 4)) < |t|
      && Greedy(s.data, s.distMask, p, if s.end - p > 258 then 258 else s.end - p, (Form(s, p) - t[s.hash(Load(s.data, p, 4))]) % 65536, r)
    else
      p < |s.data| && r == Record(s.data[p], 30, 0)
  }

  /** Every record is the right one, for the table that the turns before it have left. */
  ghost predicate AllRight(s: Search, t0: seq<nat>, p0: nat, rs: seq<Record>) {
    forall i :: 0 <= i < |rs| ==> RightAt(s, t0, p0, rs, i)
  }

  ghost predicate RightAt(s: Search, t0: seq<nat>, p0: nat, rs: seq<Record>, i: nat)
    requires i < |rs|
  {
    Right(s, TableAfter(s, t0, p0, rs[..i]), p0 + Span(rs[..i]), rs[i])
  }

  /** The search from p0 with table t0 has reached p with table t, and written these records. */
  ghost predicate Searched(s: Search, t0: seq<nat>, p0: nat, t: seq<nat>, p: nat, rs: seq<Record>) {
    p == p0 + Span(rs) && t == TableAfter(s, t0, p0, rs) && AllRight(s, t0, p0, rs)
  }

  lemma SearchedNothing(s: Search, t: seq<nat>, p: nat)
    ensures Searched(s, t, p, t, p, [])
  {}

  lemma SearchedMore(s: Search, t0: seq<nat>, p0: nat, t: seq<nat>, p: nat, rs: seq<Record>, r: Record, t': seq<nat>, p': nat)
    requires Searched(s, t0, p0, t, p, rs) && Right(s, t, p, r) && p' == p + Covers(r) && t' == NoteAll(s, t, p, StoredAt(s, p, r))
    ensures Searched(s, t0, p0, t', p', rs + [r])
  {
    hide NoteAll, Right, StoredAt, Covers;
    var more := rs + [r];
    assert more[..|rs|] == rs;
    forall i | 0 <= i < |more| ensures RightAt(s, t0, p0, more, i) {
      if i < |rs| {
        assert RightAt(s, t0, p0, rs, i);
        assert more[..i] == rs[..i];
      }
    }
  }

  /** The positions that a search has stored, in order. */
  function Positions(s: Search, p0: nat, rs: seq<Record>): (qs: seq<nat>) {
    if |rs| == 0 then []
    else
      Positions(s, p0, rs[..|rs| - 1])
      + seq(StoredAt(s, p0 + Span(rs[..|rs| - 1]), rs[|rs| - 1]), k requires k >= 0 => p0 + Span(rs[..|rs| - 1]) + k)
  }

  /** Nothing with hash h is stored from index j on. */
  ghost predicate NoneFrom(s: Search, qs: seq<nat>, j: nat, h: nat) {
    forall k :: j <= k < |qs| ==> qs[k] + 4 <= |s.data| && s.hash(Load(s.data, qs[k], 4)) != h
  }

  lemma {:induction false} NotedPositions(s: Search, t: seq<nat>, q: nat, n: nat, qs: seq<nat>)
    requires qs == seq(n, k requires k >= 0 => q + k)
    ensures NoteAll(s, t, q, n) == NoteSeq(s, t, qs)
    decreases n
  {
    hide Note;
    if n > 0 {
      assert qs[..n - 1] == seq(n - 1, k requires k >= 0 => q + k);
      NotedPositions(s, t, q, n - 1, qs[..n - 1]);
    }
  }

  function NoteSeq(s: Search, t: seq<nat>, qs: seq<nat>): (r: seq<nat>)
    ensures |r| == |t|
  {
    if |qs| == 0 then t else Note(s, NoteSeq(s, t, qs[..|qs| - 1]), qs[|qs| - 1])
  }

  lemma {:induction false} NoteSeqConcat(s: Search, t: seq<nat>, qs: seq<nat>, more: seq<nat>)
    ensures NoteSeq(s, t, qs + more) == NoteSeq(s, NoteSeq(s, t, qs), more)
    decreases |more|
  {
    hide Note;
    if |more| == 0 {
      assert qs + more == qs;
    } else {
      assert (qs + more)[..|qs + more| - 1] == qs + more[..|more| - 1];
      NoteSeqConcat(s, t, qs, more[..|more| - 1]);
    }
  }

  lemma {:induction false} TableOfPositions(s: Search, t0: seq<nat>, p0: nat, rs: seq<Record>)
    ensures TableAfter(s, t0, p0, rs) == NoteSeq(s, t0, Positions(s, p0, rs))
  {
    hide NoteAll, NoteSeq, StoredAt, Span;
    if |rs| == 0 {
      NoteNothing(s, t0);
    } else {
      var front := rs[..|rs| - 1];
      var p, n := p0 + Span(front), StoredAt(s, p0 + Span(front), rs[|rs| - 1]);
      TableOfPositions(s, t0, p0, front);
      NotedPositions(s, TableAfter(s, t0, p0, front), p, n, seq(n, k requires k >= 0 => p + k));
      NoteSeqConcat(s, t0, Positions(s, p0, front), seq(n, k requires k >= 0 => p + k));
    }
  }

  lemma NoteNothing(s: Search, t: seq<nat>)
    ensures NoteSeq(s, t, []) == t
  {}

  /** Index j holds the last position stored with hash h. */
  ghost predicate IsLast(s: Search, qs: seq<nat>, j: nat, h: nat) {
    j < |qs| && qs[j] + 4 <= |s.data| && s.hash(Load(s.data, qs[j], 4)) == h && NoneFrom(s, qs, j + 1, h)
  }

  /** The entry of a hash is the 16-bit form of the last stored position with that hash, and if there is none, the entry from
      before the search. */
  lemma LastStored(s: Search, t0: seq<nat>, p0: nat, rs: seq<Record>, h: nat, j: nat)
    requires h < |t0|
    ensures NoneFrom(s, Positions(s, p0, rs), 0, h) ==> TableAfter(s, t0, p0, rs)[h] == t0[h]
    ensures IsLast(s, Positions(s, p0, rs), j, h) ==> TableAfter(s, t0, p0, rs)[h] == Form(s, Positions(s, p0, rs)[j])
  {
    hide Positions, TableAfter, NoneFrom, Load, Form, Note;
    TableOfPositions(s, t0, p0, rs);
    var qs := Positions(s, p0, rs);
    if NoneFrom(s, qs, 0, h) {
      KeptEntry(s, t0, qs, h, 0);
      assert qs[..0] == [];
    }
    if IsLast(s, qs, j, h) { NewEntry(s, t0, qs, h, j); }
  }

  /** The same for consecutive positions. */
  lemma LastNoted(s: Search, t: seq<nat>, q: nat, n: nat, h: nat, j: nat)
    requires h < |t|
    ensures NoneFrom(s, seq(n, k requires k >= 0 => q + k), 0, h) ==> NoteAll(s, t, q, n)[h] == t[h]
    ensures IsLast(s, seq(n, k requires k >= 0 => q + k), j, h) ==> NoteAll(s, t, q, n)[h] == Form(s, q + j)
  {
    hide NoteAll, NoneFrom, Load, Form, Note;
    var qs := seq(n, k requires k >= 0 => q + k);
    NotedPositions(s, t, q, n, qs);
    if NoneFrom(s, qs, 0, h) {
      KeptEntry(s, t, qs, h, 0);
      assert qs[..0] == [];
    }
    if IsLast(s, qs, j, h) { NewEntry(s, t, qs, h, j); }
  }

  lemma {:induction false} KeptEntry(s: Search, t: seq<nat>, qs: seq<nat>, h: nat, j: nat)
    requires h < |t| && j <= |qs| && NoneFrom(s, qs, j, h)
    ensures NoteSeq(s, t, qs)[h] == NoteSeq(s, t, qs[..j])[h]
    decreases |qs|
  {
    hide Load, Form;
    if j == |qs| {
      assert qs[..j] == qs;
    } else {
      var front := qs[..|qs| - 1];
      KeptEntry(s, t, front, h, j);
      assert front[..j] == qs[..j];
    }
  }

  lemma NewEntry(s: Search, t: seq<nat>, qs: seq<nat>, h: nat, j: nat)
    requires h < |t| && IsLast(s, qs, j, h)
    ensures NoteSeq(s, t, qs)[h] == Form(s, qs[j])
  {
    hide Load, Form, NoneFrom;
    KeptEntry(s, t, qs, h, j + 1);
    assert qs[..j + 1][..j] == qs[..j];
  }

  /** The stream and level-buffer fields that the match finder uses. `data` is the memory that `next_in` points into, the
      history before it included; `hash` is any hash of four bytes, already masked to the table. */
  class Stream {
    const data: seq<Byte>
    const hash: nat -> nat
    const fileStart: int
    ghost const lo: nat
    const distMask: nat
    const endOfStream: bool
    const flush: bool
    var nextIn: nat
    var availIn: nat
    var totalIn: nat
    var blockEnd: nat
    var hasHist: bool
    var state: State
    const table: array<nat>
    const icfBuf: array<Record>
    var icfNext: nat
    var icfBufAvailOut: nat
    const llHist: array<nat>
    const dHist: array<nat>

    /** The view that a match finder has of a stream and its buffers. */
    constructor (data: seq<Byte>, hash: nat -> nat, fileStart: int, ghost lo: nat, distMask: nat, endOfStream: bool, flush: bool, nextIn: nat,
                 availIn: nat, totalIn: nat, hasHist: bool, state: State, table: array<nat>, icfBuf: array<Record>, icfNext: nat,
                 icfBufAvailOut: nat, llHist: array<nat>, dHist: array<nat>)
      ensures this.data == data && this.hash == hash && this.fileStart == fileStart && this.lo == lo && this.distMask == distMask
      ensures this.endOfStream == endOfStream && this.flush == flush && this.nextIn == nextIn && this.availIn == availIn && this.totalIn == totalIn
      ensures this.hasHist == hasHist && this.state == state && this.table == table && this.icfBuf == icfBuf && this.icfNext == icfNext
      ensures this.icfBufAvailOut == icfBufAvailOut && this.llHist == llHist && this.dHist == dHist
    {
      this.data, this.hash, this.fileStart, this.lo, this.distMask := data, hash, fileStart, lo, distMask;
      this.endOfStream, this.flush, this.nextIn, this.availIn, this.totalIn, blockEnd := endOfStream, flush, nextIn, availIn, totalIn, totalIn;
      this.hasHist, this.state, this.table, this.icfBuf, this.icfNext := hasHist, state, table, icfBuf, icfNext;
      this.icfBufAvailOut, this.llHist, this.dHist := icfBufAvailOut, llHist, dHist;
    }

    /** The search of a call. */
    function Sought(end: nat, extra: nat): Search { Search(data, hash, fileStart, distMask, end, extra) }

    ghost predicate Searchable() {
      distMask < 32768 && forall w :: hash(w) < table.Length
    }

    ghost predicate Buffers() {
      Searchable() && table != llHist && table != dHist && llHist != dHist && llHist.Length == 513 && dHist.Length == 30
    }

    ghost predicate Valid()
      reads this, table
    {
      Buffers() && nextIn + availIn <= |data| && totalIn == (nextIn - fileStart) % 0x1_0000_0000
      && icfNext + icfBufAvailOut / 4 <= icfBuf.Length && Reach(table[..], fileStart, lo, distMask, nextIn)
    }

    lemma Starts()
      requires distMask < 32768 && (forall w :: hash(w) < table.Length) && table != llHist && table != dHist && llHist != dHist
      requires llHist.Length == 513 && dHist.Length == 30
      requires nextIn + availIn <= |data| && totalIn == (nextIn - fileStart) % 0x1_0000_0000
      requires icfNext + icfBufAvailOut / 4 <= icfBuf.Length && Reach(table[..], fileStart, lo, distMask, nextIn)
      ensures Valid()
    {}

    /** The 16-bit form of a position, as the code computes it from the position counters. */
    function Index(p: nat): nat
      requires p >= nextIn
      reads this
    {
      (totalIn + (p - nextIn)) % 65536
    }

    lemma IndexStands(p: nat)
      requires totalIn == (nextIn - fileStart) % 0x1_0000_0000 && p >= nextIn
      ensures Stands(Index(p), p, fileStart)
    {
      WrapCounter(nextIn - fileStart, p - nextIn);
    }

    lemma HashInRange(w: nat)
      requires Searchable()
      ensures hash(w) < table.Length && distMask < 32768
    {}

    lemma Separate()
      requires Buffers()
      ensures Searchable() && table != llHist && table != dHist && NULL_DIST_SYM == 30 && SHORTEST_MATCH == 4
    {}

    /** Records position q in the table. */
    method InsertHash(q: nat, ghost p: nat)
      requires Searchable() && totalIn == (nextIn - fileStart) % 0x1_0000_0000
      requires nextIn <= q <= p && lo <= q && q + 4 <= |data| && Reach(table[..], fileStart, lo, distMask, p)
      modifies table
      ensures Reach(table[..], fileStart, lo, distMask, p)
      ensures table[..] == Note(Sought(0, 0), old(table[..]), q)
    {
      hide *;
      IndexStands(q);
      NoteIs(table[..], q);
      HashInRange(Load(data, q, 4));
      ghost var was := table[..];
      var h := hash(Load(data, q, 4));
      ReachInsert(was, fileStart, lo, distMask, p, h, q, Index(q));
      table[h] := Index(q);
      assert table[..] == was[h := Index(q)];
    }

    /** Storing the computed index is storing the position. */
    lemma NoteIs(t: seq<nat>, q: nat)
      requires Searchable() && |t| == table.Length && totalIn == (nextIn - fileStart) % 0x1_0000_0000 && q >= nextIn && q + 4 <= |data|
      ensures hash(Load(data, q, 4)) < |t| && Index(q) == Form(Sought(0, 0), q)
      ensures t[hash(Load(data, q, 4)) := Index(q)] == Note(Sought(0, 0), t, q)
    {
      IndexStands(q);
      hide Load;
    }

    /** Records the positions from q on, up to hashEnd. */
    method InsertHashes(q: nat, hashEnd: nat, ghost p: nat)
      requires Searchable() && totalIn == (nextIn - fileStart) % 0x1_0000_0000
      requires nextIn <= q && lo <= q && hashEnd <= p + 1 && (hashEnd <= q || hashEnd + 3 <= |data|)
      requires Reach(table[..], fileStart, lo, distMask, p)
      modifies table
      ensures Reach(table[..], fileStart, lo, distMask, p)
      ensures table[..] == NoteAll(Sought(0, 0), old(table[..]), q, if hashEnd > q then hashEnd - q else 0)
    {
      hide *;
      NoteNone(table[..], q);
      var nextHash := q;
      while nextHash < hashEnd
        invariant q <= nextHash && (nextHash <= hashEnd || nextHash == q) && Reach(table[..], fileStart, lo, distMask, p)
        invariant table[..] == NoteAll(Sought(0, 0), old(table[..]), q, nextHash - q)
      {
        NoteOneMore(old(table[..]), q, nextHash - q);
        InsertHash(nextHash, p);
        nextHash := nextHash + 1;
      }
    }

    lemma NoteNone(t: seq<nat>, q: nat)
      ensures NoteAll(Sought(0, 0), t, q, 0) == t
    {}

    lemma NoteOneMore(t: seq<nat>, q: nat, n: nat)
      ensures NoteAll(Sought(0, 0), t, q, n + 1) == Note(Sought(0, 0), NoteAll(Sought(0, 0), t, q, n), q + n)
    {}

    /** Writes one record and counts its symbols. */
    method Emit(n: nat, r: Record)
      requires Buffers() && n < icfBuf.Length && (r.IsLiteral() || r.IsMatch())
      modifies icfBuf, llHist, dHist
      ensures icfBuf[..] == old(icfBuf[..])[n := r]
      ensures CountedOne(llHist[..], dHist[..], old(llHist[..]), old(dHist[..]), r)
    {
      llHist[r.litLen] := llHist[r.litLen] + 1;
      if r.litLen >= LEN_START {
        dHist[r.litDist] := dHist[r.litDist] + 1;
      }
      icfBuf[n] := r;
    }

    /** The candidate distance at p, after which p takes its place in the table. */
    method Lookup(p: nat) returns (dist: nat)
      requires Searchable() && totalIn == (nextIn - fileStart) % 0x1_0000_0000
      requires nextIn <= p && p + 4 <= |data| && Reach(table[..], fileStart, lo, distMask, p)
      modifies table
      ensures Reach(table[..], fileStart, lo, distMask, p) && lo <= p && distMask < 32768
      ensures dist == (Index(p) - old(table[..])[hash(Load(data, p, 4))]) % 65536
      ensures table[..] == Note(Sought(0, 0), old(table[..]), p)
      ensures dist <= distMask ==> dist <= p - lo
    {
      hide *;
      HashInRange(Load(data, p, 4));
      IndexStands(p);
      ReachAt(table[..], fileStart, lo, distMask, p);
      var h := hash(Load(data, p, 4));
      dist := (Index(p) - table[h]) % 65536;
      if dist <= distMask { DistanceInHistory(table[..], fileStart, lo, distMask, p, h, Index(p)); }
      InsertHash(p, p);
    }

    /** Looks the next four bytes up, and gives the length and distance of a match there, or length 0 for a literal. */
    method FindMatch(p: nat, limit: nat, hashEnd: nat) returns (p': nat, length: nat, dist: nat, ghost r: Record)
      requires Searchable() && totalIn == (nextIn - fileStart) % 0x1_0000_0000
      requires nextIn <= p && p + 4 <= |data| && limit <= 258 && p + limit <= |data|
      requires hashEnd <= p + 3 && (hashEnd <= p + 1 || p + 7 <= |data|)
      requires Reach(table[..], fileStart, lo, distMask, p)
      modifies table
      ensures p < p' <= |data| && Reach(table[..], fileStart, lo, distMask, p')
      ensures if length == 0 then p' == p + 1 && r == Record(data[p], 30, 0)
              else 4 <= length <= 258 && p' == p + length && 1 <= dist <= 32768 && r == MatchRecord(length, dist)
      ensures (r.IsLiteral() || r.IsMatch()) && Chosen(data, lo, distMask, p, limit, r, p')
      ensures Greedy(data, distMask, p, limit, (Index(p) - old(table[..])[hash(Load(data, p, 4))]) % 65536, r)
      ensures Covers(r) == p' - p && (length > 0 <==> r.litLen >= 257)
      ensures table[..] == NoteAll(Sought(0, 0), old(table[..]), p, if r.litLen >= 257 && hashEnd > p + 1 then hashEnd - p else 1)
    {
      hide *;
      Constants();
      dist := Lookup(p);
      length := 0;
      if 1 <= dist <= distMask {
        length := Compare258(data, p, dist, limit);
        if length >= SHORTEST_MATCH {
          p' := p + length;
          ReachLater(table[..], fileStart, lo, distMask, p, p');
          InsertHashes(p + 1, hashEnd, p');
          MatchIsChosen(data, lo, distMask, p, limit, p', dist);
          r := MatchRecord(length, dist);
          CoversMatch(length, dist);
          NoteJoins(Sought(0, 0), old(table[..]), p, if hashEnd > p + 1 then hashEnd - (p + 1) else 0);
          return;
        }
      }
      p' := p + 1;
      ReachLater(table[..], fileStart, lo, distMask, p, p');
      LiteralIsChosen(data, lo, distMask, p, limit);
      LiteralIsGreedy(data, distMask, p, limit, dist);
      length := 0;
      r := Record(data[p], 30, 0);
      CoversLiteral(data[p]);
      NoteJoins(Sought(0, 0), old(table[..]), p, 0);
      NoteNone(table[..], p + 1);
    }

    /** One turn of the search loop: write a match or a literal. */
    method OneSymbol(p: nat, n: nat, limit: nat, hashEnd: nat) returns (p': nat)
      requires Buffers() && totalIn == (nextIn - fileStart) % 0x1_0000_0000
      requires nextIn <= p && p + 4 <= |data| && limit <= 258 && p + limit <= |data| && n < icfBuf.Length
      requires hashEnd <= p + 3 && (hashEnd <= p + 1 || p + 7 <= |data|)
      requires Reach(table[..], fileStart, lo, distMask, p)
      modifies table, icfBuf, llHist, dHist
      ensures p < p' <= |data| && Reach(table[..], fileStart, lo, distMask, p')
      ensures icfBuf[..] == old(icfBuf[..])[n := icfBuf[n]]
      ensures Chosen(data, lo, distMask, p, limit, icfBuf[n], p')
      ensures CountedOne(llHist[..], dHist[..], old(llHist[..]), old(dHist[..]), icfBuf[n])
      ensures Greedy(data, distMask, p, limit, (Index(p) - old(table[..])[hash(Load(data, p, 4))]) % 65536, icfBuf[n])
      ensures Covers(icfBuf[n]) == p' - p
      ensures table[..] == NoteAll(Sought(0, 0), old(table[..]), p, if icfBuf[n].litLen >= 257 && hashEnd > p + 1 then hashEnd - p else 1)
    {
      hide *;
      Separate();
      var length, dist;
      ghost var r;
      p', length, dist, r := FindMatch(p, limit, hashEnd);
      if length >= SHORTEST_MATCH {
        Emit(n, MatchRecord(length, dist));
      } else {
        Emit(n, Record(data[p], NULL_DIST_SYM, 0));
      }
    }

    lemma Constants()
      ensures SHORTEST_MATCH == 4 && NULL_DIST_SYM == 30
    {}

    /** One turn of the search loop, seen from the start of the call. */
    method Advance(ghost start: nat, ghost p0: nat, ghost ll0: seq<nat>, ghost d0: seq<nat>, p: nat, n: nat, limit: nat, hashEnd: nat,
                   ghost end: nat, ghost extra: nat, ghost t0: seq<nat>)
      returns (p': nat)
      requires p + 4 <= end && limit == (if end - p > 258 then 258 else end - p) && hashEnd == (if extra == 0 then p else p + 1 + extra)
      requires Buffers() && totalIn == (nextIn - fileStart) % 0x1_0000_0000
      requires nextIn <= p && p + 4 <= |data| && limit <= 258 && p + limit <= |data| && start <= n < icfBuf.Length
      requires hashEnd <= p + 3 && (hashEnd <= p + 1 || p + 7 <= |data|)
      requires Reach(table[..], fileStart, lo, distMask, p)
      requires Found(data, distMask, p0, p, icfBuf[start..n], ll0, d0, llHist[..], dHist[..])
      requires Searched(Sought(end, extra), t0, p0, table[..], p, icfBuf[start..n])
      modifies table, icfBuf, llHist, dHist
      ensures p < p' <= |data| && p' <= p + (if limit > 1 then limit else 1) && Reach(table[..], fileStart, lo, distMask, p')
      ensures icfBuf[..start] == old(icfBuf[..start])
      ensures Found(data, distMask, p0, p', icfBuf[start..n + 1], ll0, d0, llHist[..], dHist[..])
      ensures Searched(Sought(end, extra), t0, p0, table[..], p', icfBuf[start..n + 1])
    {
      hide *;
      ghost var was, ll1, d1, t1 := icfBuf[..], llHist[..], dHist[..], table[..];
      Separate();
      HashInRange(Load(data, p, 4));
      p' := OneSymbol(p, n, limit, hashEnd);
      NowSearched(end, extra, t0, p0, t1, p, was[start..n], icfBuf[n], table[..], p', limit, hashEnd);
      ChosenStep(data, lo, distMask, p, limit, icfBuf[n], p');
      FoundMore(data, lo, distMask, p0, p, was[start..n], ll0, d0, ll1, d1, limit, icfBuf[n], p', llHist[..], dHist[..]);
      Extended(was, icfBuf[..], start, n);
    }

    lemma NowSearched(end: nat, extra: nat, t0: seq<nat>, p0: nat, t: seq<nat>, p: nat, rs: seq<Record>, r: Record, t': seq<nat>, p': nat,
                      limit: nat, hashEnd: nat)
      requires Searchable() && |t| == table.Length && totalIn == (nextIn - fileStart) % 0x1_0000_0000 && nextIn <= p && p + 4 <= |data|
      requires p + 4 <= end && limit == (if end - p > 258 then 258 else end - p) && hashEnd == (if extra == 0 then p else p + 1 + extra)
      requires Searched(Sought(end, extra), t0, p0, t, p, rs) && p' == p + Covers(r)
      requires hash(Load(data, p, 4)) < |t| && Greedy(data, distMask, p, limit, (Index(p) - t[hash(Load(data, p, 4))]) % 65536, r)
      requires t' == NoteAll(Sought(0, 0), t, p, if r.litLen >= 257 && hashEnd > p + 1 then hashEnd - p else 1)
      ensures Searched(Sought(end, extra), t0, p0, t', p', rs + [r])
    {
      hide Searched, Greedy, Load, NoteAll, Covers, Index;
      NoteIs(t, p);
      var n := StoredAt(Sought(end, extra), p, r);
      NoteSame(t, p, n, end, extra);
      SearchedMore(Sought(end, extra), t0, p0, t, p, rs, r, t', p');
    }

    /** What is stored does not depend on the end of the input. */
    lemma {:induction false} NoteSame(t: seq<nat>, q: nat, n: nat, end: nat, extra: nat)
      ensures NoteAll(Sought(0, 0), t, q, n) == NoteAll(Sought(end, extra), t, q, n)
    {
      if n > 0 { NoteSame(t, q, n - 1, end, extra); }
    }

    /** A literal where no four bytes are left to look up. */
    method AdvanceLiteral(ghost start: nat, ghost p0: nat, ghost ll0: seq<nat>, ghost d0: seq<nat>, p: nat, n: nat)
      requires Buffers() && p < |data| && start <= n < icfBuf.Length
      requires Found(data, distMask, p0, p, icfBuf[start..n], ll0, d0, llHist[..], dHist[..])
      modifies icfBuf, llHist, dHist
      ensures icfBuf[..start] == old(icfBuf[..start]) && icfBuf[start..n + 1] == old(icfBuf[start..n]) + [Record(data[p], 30, 0)]
      ensures Found(data, distMask, p0, p + 1, icfBuf[start..n + 1], ll0, d0, llHist[..], dHist[..])
    {
      hide *;
      Separate();
      HashInRange(0);
      ghost var was, ll1, d1 := icfBuf[..], llHist[..], dHist[..];
      LiteralIsChosen(data, lo, distMask, p, 0);
      Emit(n, Record(data[p], NULL_DIST_SYM, 0));
      FoundMore(data, lo, distMask, p0, p, was[start..n], ll0, d0, ll1, d1, 0, icfBuf[n], p + 1, llHist[..], dHist[..]);
      Extended(was, icfBuf[..], start, n);
    }

    lemma LiteralSearched(end: nat, t0: seq<nat>, p0: nat, t: seq<nat>, p: nat, rs: seq<Record>)
      requires Searched(Sought(end, 0), t0, p0, t, p, rs) && end < p + 4 && p < |data|
      ensures Searched(Sought(end, 0), t0, p0, t, p + 1, rs + [Record(data[p], 30, 0)])
    {
      hide Searched;
      SearchedMore(Sought(end, 0), t0, p0, t, p, rs, Record(data[p], 30, 0), t, p + 1);
    }

    /** Literals up to the end of the input, or until the buffer is full. */
    method LiteralTail(ghost start: nat, ghost p0: nat, ghost ll0: seq<nat>, ghost d0: seq<nat>, q: nat, m: nat, endIn: nat, endOut: nat,
                       ghost t0: seq<nat>)
      returns (p: nat, n: nat)
      requires Buffers() && q <= endIn <= |data| && start <= m <= endOut <= icfBuf.Length
      requires Reach(table[..], fileStart, lo, distMask, q)
      requires Found(data, distMask, p0, q, icfBuf[start..m], ll0, d0, llHist[..], dHist[..])
      requires q + 4 > endIn && Searched(Sought(endIn, 0), t0, p0, table[..], q, icfBuf[start..m])
      modifies icfBuf, llHist, dHist
      ensures q <= p <= endIn && m <= n <= endOut && (p < endIn ==> n == endOut)
      ensures icfBuf[..start] == old(icfBuf[..start]) && table[..] == old(table[..])
      ensures Reach(table[..], fileStart, lo, distMask, p)
      ensures Found(data, distMask, p0, p, icfBuf[start..n], ll0, d0, llHist[..], dHist[..])
      ensures Searched(Sought(endIn, 0), t0, p0, table[..], p, icfBuf[start..n])
    {
      hide *;
      Separate();
      p, n := q, m;
      while p < endIn && n < endOut
        invariant q <= p <= endIn && m <= n <= endOut
        invariant icfBuf[..start] == old(icfBuf[..start]) && table[..] == old(table[..])
        invariant Reach(table[..], fileStart, lo, distMask, p)
        invariant Found(data, distMask, p0, p, icfBuf[start..n], ll0, d0, llHist[..], dHist[..])
        invariant Searched(Sought(endIn, 0), t0, p0, table[..], p, icfBuf[start..n])
      {
        LiteralSearched(endIn, t0, p0, table[..], p, icfBuf[start..n]);
        AdvanceLiteral(start, p0, ll0, d0, p, n);
        ReachLater(table[..], fileStart, lo, distMask, p, p + 1);
        p := p + 1;
        n := n + 1;
      }
    }

    /** Writes the local positions back. As in the source, the space left is stored as a number of records, although it is
        read as a number of bytes. */
    method UpdateState(p: nat, n: nat, endIn: nat, endOut: nat)
      requires p >= nextIn && p <= endIn && n <= endOut && totalIn == (nextIn - fileStart) % 0x1_0000_0000
      modifies this
      ensures nextIn == p && availIn == endIn - p && icfNext == n && icfBufAvailOut == endOut - n && blockEnd == totalIn
      ensures hasHist == (old(hasHist) || p > old(nextIn)) && state == old(state)
      ensures totalIn == (nextIn - fileStart) % 0x1_0000_0000
    {
      WrapCounter(nextIn - fileStart, p - nextIn);
      if p > nextIn { hasHist := true; }
      totalIn := (totalIn + (p - nextIn)) % 0x1_0000_0000;
      nextIn := p;
      blockEnd := totalIn;
      availIn := endIn - p;
      icfNext := n;
      icfBufAvailOut := endOut - n;
    }

    /** Since the given earlier state, the input has been consumed up to next_in, the records written decode to it, and the
        histograms have grown by their symbols. */
    ghost predicate Consumed(from: nat, endIn: nat, records: nat, buf0: seq<Record>, ll0: seq<nat>, d0: seq<nat>)
      reads this, icfBuf, llHist, dHist
    {
      from <= nextIn && nextIn + availIn == endIn && records <= icfNext <= icfBuf.Length && icfBuf[..records] == buf0
      && Found(data, distMask, from, nextIn, icfBuf[records..icfNext], ll0, d0, llHist[..], dHist[..])
    }

    /** Finds matches while a whole look-ahead is left. */
    method IcfBodyHashHist()
      requires Valid()
      modifies this, table, icfBuf, llHist, dHist
      ensures Valid()
      ensures Consumed(old(nextIn), old(nextIn + availIn), old(icfNext), old(icfBuf[..icfNext]), old(llHist[..]), old(dHist[..]))
      ensures availIn > 288 ==> state == CreateHdr && icfBufAvailOut == 0
      ensures availIn <= 288 ==> state == if endOfStream || flush then FlushReadBuffer else old(state)
      ensures icfNext + icfBufAvailOut / 4 <= old(icfNext + icfBufAvailOut / 4)
      ensures hasHist == (old(hasHist) || nextIn > old(nextIn))
      ensures Searched(Sought(old(nextIn + availIn), 2), old(table[..]), old(nextIn), table[..], nextIn, icfBuf[old(icfNext)..icfNext])
    {
      hide *;
      ValidParts();
      ghost var p0, n0, end0, buf0, ll0, d0 := nextIn, icfNext, nextIn + availIn, icfBuf[..icfNext], llHist[..], dHist[..];
      ghost var t0 := table[..];
      FoundNothing(data, distMask, nextIn, ll0, d0);
      SearchedNothing(Sought(end0, 2), t0, p0);
      assert icfBuf[icfNext..icfNext] == [];
      if availIn == 0 {
        if endOfStream || flush { state := FlushReadBuffer; }
        NowConsumed(p0, end0, n0, buf0, ll0, d0);
        return;
      }
      var p, n := nextIn, icfNext;
      var endIn, endOut := nextIn + availIn, icfNext + icfBufAvailOut / 4;
      while p + 288 < endIn
        invariant unchanged(this) && p0 <= p <= endIn && n0 <= n <= endOut
        invariant Reach(table[..], fileStart, lo, distMask, p)
        invariant icfBuf[..icfNext] == buf0
        invariant Found(data, distMask, nextIn, p, icfBuf[icfNext..n], ll0, d0, llHist[..], dHist[..])
        invariant Searched(Sought(endIn, 2), t0, p0, table[..], p, icfBuf[icfNext..n])
        decreases endIn - p
      {
        if n >= endOut {
          state := CreateHdr;
          UpdateState(p, n, endIn, endOut);
          NowConsumed(p0, end0, n0, buf0, ll0, d0);
          return;
        }
        p := Advance(icfNext, nextIn, ll0, d0, p, n, 258, p + 3, endIn, 2, t0);
        n := n + 1;
      }
      UpdateState(p, n, endIn, endOut);
      if endOfStream || flush { state := FlushReadBuffer; }
      NowConsumed(p0, end0, n0, buf0, ll0, d0);
    }

    /** Finds matches to the end of the input; the last bytes become literals. */
    method IcfFinish()
      requires Valid()
      modifies this, table, icfBuf, llHist, dHist
      ensures Valid()
      ensures Consumed(old(nextIn), old(nextIn + availIn), old(icfNext), old(icfBuf[..icfNext]), old(llHist[..]), old(dHist[..]))
      ensures availIn > 0 ==> state == CreateHdr && icfBufAvailOut == 0
      ensures availIn == 0 ==> state == if endOfStream || flush then CreateHdr else old(state)
      ensures icfNext + icfBufAvailOut / 4 <= old(icfNext + icfBufAvailOut / 4)
      ensures hasHist == (old(hasHist) || nextIn > old(nextIn))
      ensures Searched(Sought(old(nextIn + availIn), 0), old(table[..]), old(nextIn), table[..], nextIn, icfBuf[old(icfNext)..icfNext])
    {
      hide *;
      ValidParts();
      ghost var p0, n0, end0, buf0, ll0, d0 := nextIn, icfNext, nextIn + availIn, icfBuf[..icfNext], llHist[..], dHist[..];
      ghost var t0 := table[..];
      FoundNothing(data, distMask, nextIn, ll0, d0);
      SearchedNothing(Sought(end0, 0), t0, p0);
      assert icfBuf[icfNext..icfNext] == [];
      if availIn == 0 {
        if endOfStream || flush { state := CreateHdr; }
        NowConsumed(p0, end0, n0, buf0, ll0, d0);
        return;
      }
      var p, n := nextIn, icfNext;
      var endIn, endOut := nextIn + availIn, icfNext + icfBufAvailOut / 4;
      while p + 3 < endIn
        invariant unchanged(this) && p0 <= p <= endIn && n0 <= n <= endOut
        invariant Reach(table[..], fileStart, lo, distMask, p)
        invariant icfBuf[..icfNext] == buf0
        invariant Found(data, distMask, nextIn, p, icfBuf[icfNext..n], ll0, d0, llHist[..], dHist[..])
        invariant Searched(Sought(endIn, 0), t0, p0, table[..], p, icfBuf[icfNext..n])
        decreases endIn - p
      {
        if n >= endOut {
          state := CreateHdr;
          UpdateState(p, n, endIn, endOut);
          NowConsumed(p0, end0, n0, buf0, ll0, d0);
          return;
        }
        p := Advance(icfNext, nextIn, ll0, d0, p, n, if endIn - p > 258 then 258 else endIn - p, p, endIn, 0, t0);
        n := n + 1;
      }
      p, n := LiteralTail(n0, p0, ll0, d0, p, n, endIn, endOut, t0);
      if p < endIn {
        state := CreateHdr;
        UpdateState(p, n, endIn, endOut);
        NowConsumed(p0, end0, n0, buf0, ll0, d0);
        return;
      }
      if endOfStream || flush { state := CreateHdr; }
      UpdateState(p, n, endIn, endOut);
      NowConsumed(p0, end0, n0, buf0, ll0, d0);
    }

    lemma NowConsumed(p0: nat, end0: nat, n0: nat, buf0: seq<Record>, ll0: seq<nat>, d0: seq<nat>)
      requires Buffers() && nextIn + availIn == end0 <= |data| && totalIn == (nextIn - fileStart) % 0x1_0000_0000
      requires icfNext + icfBufAvailOut / 4 <= icfBuf.Length && Reach(table[..], fileStart, lo, distMask, nextIn)
      requires p0 <= nextIn && n0 <= icfNext && icfBuf[..n0] == buf0
      requires Found(data, distMask, p0, nextIn, icfBuf[n0..icfNext], ll0, d0, llHist[..], dHist[..])
      ensures Valid() && Consumed(p0, end0, n0, buf0, ll0, d0)
    {}

    lemma ValidParts()
      requires Valid()
      ensures Buffers() && nextIn + availIn <= |data| && totalIn == (nextIn - fileStart) % 0x1_0000_0000
      ensures icfNext + icfBufAvailOut / 4 <= icfBuf.Length && Reach(table[..], fileStart, lo, distMask, nextIn)
      ensures llHist.Length == 513 && dHist.Length == 30 && table != llHist && table != dHist
    {}
  }

  lemma CoversMatch(length: nat, dist: nat)
    requires 4 <= length <= 258 && 1 <= dist <= 32768
    ensures Covers(MatchRecord(length, dist)) == length && MatchRecord(length, dist).litLen >= 257
  {}

  lemma CoversLiteral(b: Byte)
    ensures Covers(Record(b, 30, 0)) == 1 && Record(b, 30, 0).litLen < 257
  {}

  /** One position, and then n more. */
  lemma {:induction false} NoteJoins(s: Search, t: seq<nat>, q: nat, n: nat)
    ensures NoteAll(s, Note(s, t, q), q + 1, n) == NoteAll(s, t, q, n + 1)
  {
    hide Note;
    if n > 0 { NoteJoins(s, t, q, n - 1); }
  }

  lemma ChosenStep(data: seq<Byte>, lo: nat, distMask: nat, p: nat, limit: nat, r: Record, p': nat)
    requires Chosen(data, lo, distMask, p, limit, r, p')
    ensures p' <= p + (if limit > 1 then limit else 1)
  {}

  lemma Extended(was: seq<Record>, now: seq<Record>, start: nat, n: nat)
    requires start <= n < |was| && |now| == |was| && now == was[n := now[n]]
    ensures now[start..n + 1] == was[start..n] + [now[n]] && now[..start] == was[..start]
  {}

  lemma ReachAt(table: seq<nat>, fileStart: int, lo: nat, distMask: nat, p: nat)
    requires Reach(table, fileStart, lo, distMask, p)
    ensures lo <= p
  {}

  lemma MatchIsChosen(data: seq<Byte>, lo: nat, distMask: nat, p: nat, limit: nat, p': nat, dist: nat)
    requires p < p' && distMask < 32768 && p + limit <= |data| && limit <= 258
    requires 1 <= dist <= distMask && dist <= p - lo && 4 <= p' - p && CommonPrefix(data, p, dist, limit) == p' - p
    ensures p' <= |data| && MatchRecord(p' - p, dist).IsMatch()
    ensures Chosen(data, lo, distMask, p, limit, MatchRecord(p' - p, dist), p')
    ensures Greedy(data, distMask, p, limit, dist, MatchRecord(p' - p, dist)) && p' - p <= 258
  {
    DistRoundTrip(dist);
    assert ChosenAt(data, lo, distMask, p, limit, MatchRecord(p' - p, dist), p', dist);
  }

  lemma LiteralIsGreedy(data: seq<Byte>, distMask: nat, p: nat, limit: nat, dist: nat)
    requires p < |data| && distMask < 32768 && p + limit <= |data|
    requires 1 <= dist <= distMask && dist <= p ==> CommonPrefix(data, p, dist, limit) < 4
    ensures Greedy(data, distMask, p, limit, dist, Record(data[p], 30, 0))
  {}

  lemma LiteralIsChosen(data: seq<Byte>, lo: nat, distMask: nat, p: nat, limit: nat)
    requires p < |data| && distMask < 32768 && p + limit <= |data| && limit <= 258
    ensures Record(data[p], 30, 0).IsLiteral()
    ensures Chosen(data, lo, distMask, p, limit, Record(data[p], 30, 0), p + 1)
  {}

  // -- how the table starts out

  /** All entries stand for the current position: nothing before it can be matched. */
  method ResetMatchHistory(table: array<nat>, totalIn: nat, ghost fileStart: int, ghost p: nat)
    requires totalIn == (p - fileStart) % 0x1_0000_0000
    modifies table
    ensures TableOk(table[..], fileStart, p, p)
  {
    var i := 0;
    while i < table.Length
      invariant 0 <= i <= table.Length && forall k :: 0 <= k < i ==> table[k] == totalIn % 65536
    {
      table[i] := totalIn % 65536;
      i := i + 1;
    }
    WrapCounter(p - fileStart, 0);
    forall h | 0 <= h < |table[..]| ensures EntryOk(table[..][h], fileStart, p, p) {
      assert Stands(totalIn % 65536, p, fileStart);
    }
  }

  /** The entry for the four bytes at i stands for the last of the first n positions with the same hash. */
  ghost predicate SeededAt(table: seq<nat>, hash: nat -> nat, dict: seq<Byte>, base: int, n: nat, i: nat)
    requires i < n && n + 3 <= |dict| && hash(Load(dict, i, 4)) < |table|
  {
    exists j :: i <= j < n && hash(Load(dict, j, 4)) == hash(Load(dict, i, 4)) && table[hash(Load(dict, i, 4))] == (base + j) % 65536
  }

  ghost predicate Seeded(table: seq<nat>, hash: nat -> nat, dict: seq<Byte>, base: int, n: int)
    requires n <= 0 || n + 3 <= |dict|
    requires forall w :: hash(w) < |table|
  {
    forall i :: 0 <= i < n ==> SeededAt(table, hash, dict, base, n, i)
  }

  lemma SeededAll(table: seq<nat>, hash: nat -> nat, dict: seq<Byte>, base: int, n: nat)
    requires (forall w :: hash(w) < |table|) && n + 4 <= |dict| && Seeded(table, hash, dict, base, n)
    ensures Seeded(table[hash(Load(dict, n, 4)) := (base + n) % 65536], hash, dict, base, n + 1)
  {
    var now, m := table[hash(Load(dict, n, 4)) := (base + n) % 65536], n + 1;
    forall i | 0 <= i < m ensures SeededAt(now, hash, dict, base, m, i) {
      SeededMore(table, hash, dict, base, n, i);
    }
  }

  lemma SeededMore(table: seq<nat>, hash: nat -> nat, dict: seq<Byte>, base: int, n: nat, i: nat)
    requires i <= n && n + 4 <= |dict| && hash(Load(dict, i, 4)) < |table| && hash(Load(dict, n, 4)) < |table|
    requires i < n ==> SeededAt(table, hash, dict, base, n, i)
    ensures SeededAt(table[hash(Load(dict, n, 4)) := (base + n) % 65536], hash, dict, base, n + 1, i)
  {
    if hash(Load(dict, i, 4)) != hash(Load(dict, n, 4)) {
      var j :| i <= j < n && hash(Load(dict, j, 4)) == hash(Load(dict, i, 4)) && table[hash(Load(dict, i, 4))] == (base + j) % 65536;
    }
  }

  /** Some four bytes of the dictionary have hash h. */
  ghost predicate Hashed(hash: nat -> nat, dict: seq<Byte>, n: nat, h: nat)
    requires n == 0 || n + 3 <= |dict|
  {
    exists i: nat :: i < n && hash(Load(dict, i, 4)) == h
  }

  /** How many positions of a dictionary are hashed. */
  function HashedCount(len: nat): nat { if len > 3 then len - 3 else 0 }

  /** Entries with a hash of the dictionary stand for its positions; all others hold the filler 0xffff. */
  ghost predicate Filled(table: seq<nat>, hash: nat -> nat, dict: seq<Byte>, n: nat, fileStart: int, p: nat)
    requires n == 0 || n + 3 <= |dict|
  {
    |dict| <= p && forall h :: 0 <= h < |table| ==> FilledAt(table[h], hash, dict, n, fileStart, p, h)
  }

  ghost predicate FilledAt(entry: nat, hash: nat -> nat, dict: seq<Byte>, n: nat, fileStart: int, p: nat, h: nat)
    requires (n == 0 || n + 3 <= |dict|) && |dict| <= p
  {
    if Hashed(hash, dict, n, h) then EntryOk(entry, fileStart, p - |dict|, p - 1) else entry == 65535
  }

  /** Seeds the table with a dictionary that ends where the input goes on. */
  method DeflateHash(table: array<nat>, hash: nat -> nat, currentIndex: nat, dict: seq<Byte>, ghost fileStart: int, ghost p: nat)
    requires (forall w :: hash(w) < table.Length) && currentIndex == (p - fileStart) % 0x1_0000_0000 && |dict| <= p
    modifies table
    ensures Filled(table[..], hash, dict, HashedCount(|dict|), fileStart, p)
    ensures Seeded(table[..], hash, dict, currentIndex - |dict|, |dict| - 3)
  {
    hide FilledAt, Load;
    var k := 0;
    while k < table.Length
      invariant 0 <= k <= table.Length && forall i :: 0 <= i < k ==> table[i] == 65535
    {
      table[k] := 65535;
      k := k + 1;
    }
    NothingHashed(table[..], hash, dict, fileStart, p);
    var n := 0;
    while n + 4 <= |dict|
      invariant 0 <= n <= (if |dict| > 3 then |dict| - 3 else 0)
      invariant Filled(table[..], hash, dict, n, fileStart, p)
      invariant Seeded(table[..], hash, dict, currentIndex - |dict|, n)
    {
      ghost var was := table[..];
      var h, index := hash(Load(dict, n, 4)), (currentIndex - |dict| + n) % 65536;
      SeededAll(was, hash, dict, currentIndex - |dict|, n);
      IndexOfDict(p - fileStart, |dict|, n);
      FilledMore(was, hash, dict, n, fileStart, p, index);
      table[h] := index;
      assert table[..] == was[h := index];
      n := n + 1;
    }
  }

  lemma NothingHashed(table: seq<nat>, hash: nat -> nat, dict: seq<Byte>, fileStart: int, p: nat)
    requires |dict| <= p && forall h :: 0 <= h < |table| ==> table[h] == 65535
    ensures Filled(table, hash, dict, 0, fileStart, p)
  {}

  lemma FilledMore(table: seq<nat>, hash: nat -> nat, dict: seq<Byte>, n: nat, fileStart: int, p: nat, index: nat)
    requires n + 4 <= |dict| <= p && Filled(table, hash, dict, n, fileStart, p) && hash(Load(dict, n, 4)) < |table|
    requires Stands(index, p - |dict| + n, fileStart)
    ensures Filled(table[hash(Load(dict, n, 4)) := index], hash, dict, n + 1, fileStart, p)
  {
    hide Load, Stands;
    var g := hash(Load(dict, n, 4));
    var now := table[g := index];
    assert EntryOk(index, fileStart, p - |dict|, p - 1);
    forall h | 0 <= h < |now| ensures FilledAt(now[h], hash, dict, n + 1, fileStart, p, h) {
      assert FilledAt(table[h], hash, dict, n, fileStart, p, h);
      HashedMore(hash, dict, n, h);
    }
  }

  lemma HashedMore(hash: nat -> nat, dict: seq<Byte>, n: nat, h: nat)
    requires n + 4 <= |dict|
    ensures Hashed(hash, dict, n + 1, h) <==> Hashed(hash, dict, n, h) || hash(Load(dict, n, 4)) == h
  {
    hide Load;
    if Hashed(hash, dict, n, h) {
      var i: nat :| i < n && hash(Load(dict, i, 4)) == h;
      assert i < n + 1;
    }
    if hash(Load(dict, n, 4)) == h { assert n < n + 1; }
  }

  /** No entry is left with the filler. */
  ghost predicate NoFiller(size: nat, hash: nat -> nat, dict: seq<Byte>) {
    forall h: nat :: h < size ==> Hashed(hash, dict, HashedCount(|dict|), h)
  }

  /** When a seeded table is safe for greedy matching: no filler is left, or the distance it stands for, which is one more
      than the input position modulo 2^16, lies in the dictionary or outside of the window. */
  lemma DictReach(table: seq<nat>, hash: nat -> nat, dict: seq<Byte>, fileStart: int, p: nat, distMask: nat, totalIn: nat)
    requires Filled(table, hash, dict, HashedCount(|dict|), fileStart, p) && totalIn == (p - fileStart) % 0x1_0000_0000
    ensures |dict| <= p
    ensures Reach(table, fileStart, p - |dict|, distMask, p) <==>
              NoFiller(|table|, hash, dict) || (totalIn + 1) % 65536 <= |dict| || (totalIn + 1) % 65536 > distMask
  {
    hide Hashed, EntryOk;
    FillerDistance(p - fileStart);
    WrapCounter(p - fileStart, 1);
    forall h: nat | h < |table|
      ensures InReach(table[h], fileStart, p - |dict|, distMask, p) <==>
                Hashed(hash, dict, HashedCount(|dict|), h) || (totalIn + 1) % 65536 <= |dict| || (totalIn + 1) % 65536 > distMask
    {
      assert FilledAt(table[h], hash, dict, HashedCount(|dict|), fileStart, p, h);
      if Hashed(hash, dict, HashedCount(|dict|), h) {
        HashedSome(hash, dict, h);
        EntryOkLater(table[h], fileStart, p - |dict|, p - 1, p);
        EntryInReach(table[h], fileStart, p - |dict|, distMask, p);
      }
    }
  }

  lemma HashedSome(hash: nat -> nat, dict: seq<Byte>, h: nat)
    requires Hashed(hash, dict, HashedCount(|dict|), h)
    ensures |dict| > 3
  {}

  lemma EntryOkLater(entry: nat, fileStart: int, lo: nat, p: int, p': nat)
    requires p <= p' && p >= 0 && EntryOk(entry, fileStart, lo, p)
    ensures EntryOk(entry, fileStart, lo, p')
  {
    var q: nat :| lo <= q <= p && Stands(entry, q, fileStart);
  }

  lemma FillerDistance(a: int)
    ensures (a - 65535) % 65536 == (a + 1) % 65536
  {
    WholeWraps(a + 1, -1);
  }

  /** A dictionary of ten bytes set after 1000 bytes of input, all with the same hash: the filler in the other slot proposes
      the distance 1001. */
  lemma ShortDictionary(dict: seq<Byte>)
    requires |dict| == 10
    ensures Filled([996, 65535], w => 0, dict, 7, 0, 1000) && !Reach([996, 65535], 0, 990, 32767, 1000)
  {
    hide Load;
    var table: seq<nat>, hash: nat -> nat := [996, 65535], w => 0;
    assert hash(Load(dict, 0, 4)) == 0;
    assert Stands(996, 996, 0);
    assert EntryOk(table[0], 0, 990, 999);
    assert Hashed(hash, dict, 7, 0) && !Hashed(hash, dict, 7, 1);
    assert FilledAt(table[0], hash, dict, 7, 0, 1000, 0) && FilledAt(table[1], hash, dict, 7, 0, 1000, 1);
    assert !InReach(table[1], 0, 990, 32767, 1000);
  }

  lemma IndexOfDict(a: int, dictLen: nat, n: nat)
    ensures (a % 0x1_0000_0000 - dictLen + n) % 65536 == (a - dictLen + n) % 65536
  {
    var q := a / 0x1_0000_0000;
    WholeWraps(a % 0x1_0000_0000 - dictLen + n, 65536 * q);
  }
}
