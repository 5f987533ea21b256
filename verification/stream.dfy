/** The input side of the resumable stream: how a call divides the user's input between the compressor and the internal
    buffer, and how much history it keeps in front of the compressor, whatever the compressor consumes. */
module StreamBuffer {
  import opened Bits
  import IcfHash
  import IcfMap

  const LOOK_AHEAD: nat := 288
  const NO_FLUSH: nat := 0
  const FULL_FLUSH: nat := 2

  /** What the buffering needs to know of the compressor's state: between blocks, inside a stored block, at or behind the
      trailer (also while the temporary output is drained), or any other. */
  datatype State = NewHdr | Stored | Ending | TmpEnding | Other {
    predicate Done() { Ending? || TmpEnding? }
  }

  /** What the compressor may do in a turn: the bytes it would like to consume and to write, whether it forgets its history,
      the state it turns to, and where a stored block would start. */
  datatype Turn = Turn(consumed: nat, written: nat, forgets: bool, next: State, block: nat)

  /** What a turn of the compressor was: how many bytes it had in memory in front of the input, how many it was handed, how many
      more the user had, with which flush and end of stream, and how many bytes it took and wrote. */
  datatype Handed = Handed(held: nat, offered: nat, beyond: nat, flush: nat, end: bool, taken: nat, wrote: int)

  datatype Ret = CompOk | InvalidFlush | InvalidLevel

  function Min(a: int, b: int): int { if a < b then a else b }

  function Max(a: int, b: int): int { if a < b then b else a }

  /** The last n bytes of a text. */
  function Last(text: seq<Byte>, n: nat): seq<Byte>
    requires n <= |text|
  {
    text[|text| - n..]
  }

  /** The pending bytes are what was accepted and not fed. */
  ghost predicate Splits(fed: seq<Byte>, pending: seq<Byte>, accepted: seq<Byte>) { fed + pending == accepted }

  /** The bytes `before` are the end of the text. */
  ghost predicate Behind(before: seq<Byte>, past: seq<Byte>) { |before| <= |past| && before == Last(past, |before|) }

  /** What was fed since `fed0` stands behind the text `past0`. */
  ghost predicate Grown(fed0: seq<Byte>, past0: seq<Byte>, fed: seq<Byte>, past: seq<Byte>)
  {
    fed0 <= fed && past == past0 + fed[|fed0|..]
  }

  /** One stream. `fed` is everything the compressor has consumed and `accepted` everything taken from the user. `past` is the
      text behind the compressor's position, dictionaries included, and `live` how many bytes of it matches may still refer to
      (`histSize` at most at a time). `served` says whether the call at work began with the window in place, or with nothing to
      compress. `turns` counts the turns of the compressor, and `last` is the last of them. */
  class Zstream {
    const histSize: nat
    const buffer: array<Byte>
    var level: nat
    var bBytesValid: nat
    var bBytesProcessed: nat
    var nextIn: nat
    var availIn: nat
    var totalIn: nat
    var availOut: nat
    var totalOut: nat
    var blockNext: nat
    var flush: nat
    var endOfStream: bool
    var hasHist: bool
    var state: State
    ghost var fed: seq<Byte>
    ghost var accepted: seq<Byte>
    ghost var past: seq<Byte>
    ghost var live: nat
    ghost var served: bool
    ghost var turns: nat
    ghost var last: Handed

    constructor (histSize: nat, level: nat)
      ensures Valid() && fed == accepted == past == [] && this.histSize == histSize && this.level == level
      ensures fresh(buffer) && bBytesProcessed == bBytesValid == blockNext == 0 && buffer.Length == 2 * histSize + LOOK_AHEAD
      ensures nextIn == availIn == totalIn == live == 0 && flush == NO_FLUSH && !endOfStream && !hasHist && state == NewHdr
    {
      this.histSize, this.level := histSize, level;
      buffer := new Byte[2 * histSize + LOOK_AHEAD](_ => 0);
      bBytesValid, bBytesProcessed, nextIn, availIn, totalIn, availOut, totalOut, blockNext := 0, 0, 0, 0, 0, 0, 0, 0;
      flush, endOfStream, hasHist, state := NO_FLUSH, false, false, NewHdr;
      fed, accepted, past, live, served, turns, last := [], [], [], 0, true, 0, Handed(0, 0, 0, 0, false, 0, 0);
    }

    /** What holds between calls. */
    ghost predicate Valid()
      reads `totalIn, `bBytesProcessed, `bBytesValid, `accepted, `past, `live, `state, `hasHist, `fed, `blockNext, buffer
    {
      buffer.Length == 2 * histSize + LOOK_AHEAD && totalIn == |accepted|
      && Conserved() && StateFits() && (!state.Done() ==> HistoryInPlace())
    }

    /** The buffer holds the accepted bytes that the compressor has not consumed. */
    ghost predicate Conserved()
      reads `bBytesProcessed, `bBytesValid, `fed, `accepted, buffer
    {
      bBytesProcessed <= bBytesValid <= buffer.Length && Splits(fed, buffer[bBytesProcessed..bBytesValid], accepted)
    }

    ghost predicate StateFits()
      reads `state, `hasHist, `live, `past, `blockNext, `fed
    {
      (!hasHist ==> live == 0 && !state.Stored?) && live <= |past| && blockNext <= |fed|
      && (state.Stored? ==> |fed| - blockNext <= buffer.Length)
    }

    /** In front of those bytes it holds the text before them, as far as it goes, and all of a stored block that is not
        written yet. */
    ghost predicate HistoryInPlace()
      reads `bBytesProcessed, `past, `state, `fed, `blockNext, buffer
    {
      bBytesProcessed <= buffer.Length && Behind(buffer[..bBytesProcessed], past) && StoredHeld(bBytesProcessed)
    }

    ghost predicate StoredHeld(n: nat)
      reads `state, `fed, `blockNext
    {
      state.Stored? ==> |fed| - blockNext <= n
    }

    /** n bytes of history are all that matches may refer to. */
    ghost predicate Window(n: nat)
      reads `live
    {
      Min(histSize, live) <= n
    }

    /** The buffer holds all the history that matches may refer to, if there is anything to come. */
    ghost predicate Kept()
      reads `bBytesProcessed, `live, `state
    {
      !state.Done() ==> Window(bBytesProcessed)
    }

    /** Nothing is left to compress. */
    ghost predicate Nothing()
      reads `availIn, `bBytesProcessed, `bBytesValid
    {
      availIn == 0 && bBytesProcessed == bBytesValid
    }

    /** The guard under which no history is asked for. */
    predicate Guard()
      reads `availIn, `endOfStream, `flush, `state
    {
      availIn == 0 && (endOfStream || flush == FULL_FLUSH) && !state.Stored?
    }

    /** What it takes to lose live history: a call whose last turn was on the user's memory, that left nothing to compress at
        the end of the stream or at a full flush, but still has output to write, outside of a stored block. */
    ghost predicate Loses(inUser: bool)
      reads `availIn, `endOfStream, `flush, `state, `live, `bBytesProcessed, `bBytesValid
    {
      inUser && Nothing() && Guard() && !state.Done() && Min(histSize, live) > 0
    }

    /** What a call may leave undone, with `rest` bytes not consumed: few enough to wait, and neither flush nor end asked for. */
    ghost predicate Waiting(rest: nat)
      reads `flush, `endOfStream, `fed, `blockNext
    {
      !endOfStream && flush == NO_FLUSH && rest <= histSize && |fed| - blockNext <= histSize
    }

    /** The last turn was on all there was, with the flush and the end of stream that the user asked for; or, while the user had
        more, on a full buffer without any, and then the output was full or nothing moved any more. */
    ghost predicate HandedOver(rest: nat)
      reads `last, `flush, `endOfStream, `availOut
    {
      last.offered + last.beyond == last.taken + rest
      && if last.beyond == 0 then last.flush == flush && last.end == endOfStream
         else last.flush == NO_FLUSH && !last.end && last.held + last.offered == buffer.Length && (availOut == 0 || last.taken == last.wrote == 0)
    }

    /** What a call has done that began when so many turns had been taken. */
    ghost predicate Worked(rest: nat, turns0: nat)
      reads `turns, `last, `flush, `endOfStream, `availOut, `fed, `blockNext
    {
      Waiting(rest) || (turns > turns0 && HandedOver(rest))
    }

    /** How much input is taken for the next call. */
    function TopUpSize(avail: nat, valid: nat): (n: nat)
      requires valid <= buffer.Length
      reads `availOut, `level
    {
      if avail > 0 && (availOut > 0 || level == 3) then
        if avail < buffer.Length - valid then avail else if LOOK_AHEAD < buffer.Length - valid then LOOK_AHEAD else buffer.Length - valid
      else 0
    }

    /** Copies bytes into the buffer. */
    method Copy(at: nat, bytes: seq<Byte>)
      requires at + |bytes| <= buffer.Length
      modifies buffer
      ensures buffer[at..at + |bytes|] == bytes && buffer[..at] == old(buffer[..at]) && buffer[at + |bytes|..] == old(buffer[at + |bytes|..])
    {
      var i := 0;
      while i < |bytes|
        invariant 0 <= i <= |bytes| && buffer[at..at + i] == bytes[..i] && buffer[..at] == old(buffer[..at])
        invariant buffer[at + |bytes|..] == old(buffer[at + |bytes|..])
      {
        buffer[at + i] := bytes[i];
        assert buffer[at..at + i + 1] == buffer[at..at + i] + [bytes[i]];
        i := i + 1;
      }
    }

    /** Sets the history between blocks, with nothing pending. Of a long dictionary the last bytes are kept. */
    method SetDict(dict: seq<Byte>) returns (ok: bool)
      requires Valid()
      modifies this, buffer
      ensures Valid() && fed == old(fed) && accepted == old(accepted) && totalIn == old(totalIn)
      ensures ok == (old(state) == NewHdr && old(bBytesProcessed == bBytesValid))
      ensures ok && |dict| > 0 ==> past == dict && bBytesProcessed == bBytesValid == Min(histSize, |dict|) && hasHist
      ensures ok && |dict| > 0 ==> buffer[..bBytesProcessed] == Last(dict, bBytesProcessed)
      ensures !ok || |dict| == 0 ==> unchanged(this) && unchanged(buffer)
    {
      if state != NewHdr || bBytesProcessed != bBytesValid {
        return false;
      }
      ok := true;
      if |dict| == 0 { return; }
      var n := if |dict| > histSize then histSize else |dict|;
      Copy(0, dict[|dict| - n..]);
      assert buffer[..n] == buffer[0..n];
      bBytesProcessed := n;
      bBytesValid := n;
      hasHist := true;
      past := dict;
      live := |dict|;
    }

    /** The history that the buffer has to keep for what follows. */
    function GetHistSize(avail: nat, inputHistory: nat, bufHistStart: nat): (r: nat)
      requires bufHistStart <= bBytesProcessed <= bBytesValid && (state.Stored? ==> blockNext <= totalIn)
      reads this
      ensures state.Stored? ==> totalIn - blockNext <= r
      ensures state.Stored? || avail + (bBytesValid - bBytesProcessed) > 0 || !(endOfStream || flush == FULL_FLUSH)
           ==> Min(histSize, inputHistory) <= r && (hasHist ==> Min(histSize, bBytesProcessed - bufHistStart) <= r)
      ensures !state.Stored? && avail + (bBytesValid - bBytesProcessed) == 0 && (endOfStream || flush == FULL_FLUSH) ==> r == 0
      ensures r == 0 || (state.Stored? && r == totalIn - blockNext)
           || r == Min(histSize, Max(if hasHist then bBytesProcessed - bufHistStart else 0, inputHistory))
    {
      var bufferedHistory := if hasHist then bBytesProcessed - bufHistStart else 0;
      var size := if bufferedHistory >= inputHistory then bufferedHistory else inputHistory;
      var history := if size > histSize then histSize else size;
      if state == Stored then
        if totalIn - blockNext > history then totalIn - blockNext else history
      else if avail + (bBytesValid - bBytesProcessed) == 0 && (endOfStream || flush == FULL_FLUSH) then 0
      else history
    }

    /** The compressor, as far as its effect on the input goes. It is handed `from`, with `before` standing in memory in front
        of it, and `rest` is what the user has beyond that. It may consume any part of `from`, from the front, and write any
        amount; it may forget history, but in a served call it refers to nothing older than before. It turns to a stored block only with the
        block's bytes in front of its position and with what the output cannot take fitting the internal buffer, and at the
        trailer it consumes nothing more. */
    method DeflateInt(before: seq<Byte>, from: seq<Byte>, ghost rest: seq<Byte>) returns (k: nat)
      requires StateFits() && totalIn == |fed|
      requires state.Stored? ==> |fed| - blockNext <= |before|
      requires !state.Done() && from != [] ==> Behind(before, past) && (served ==> Window(|before|))
      requires endOfStream || flush != NO_FLUSH ==> rest == []
      modifies `fed, `past, `live, `totalIn, `availOut, `totalOut, `blockNext, `state, `hasHist, `turns, `last
      ensures turns == old(turns) + 1
      ensures last == Handed(|before|, |from|, |rest|, flush, endOfStream, k, totalOut - old(totalOut))
      ensures k <= |from| && fed == old(fed) + from[..k] && past == old(past) + from[..k] && totalIn == old(totalIn) + k
      ensures availOut + totalOut == old(availOut + totalOut) && totalOut >= old(totalOut)
      ensures StateFits() && live <= old(live) + k && (old(state).Done() ==> state.Done() && k == 0)
      ensures state.Stored? ==> 0 < |fed| - blockNext <= |before| + k
    {
      hide Behind, Last, Splits;
      var turn: Turn := *;
      k := Perform(before, from, turn);
      turns, last := turns + 1, Handed(|before|, |from|, |rest|, flush, endOfStream, k, totalOut - old(totalOut));
    }

    /** One such turn. */
    method Perform(before: seq<Byte>, from: seq<Byte>, turn: Turn) returns (k: nat)
      requires StateFits() && totalIn == |fed|
      requires state.Stored? ==> |fed| - blockNext <= |before|
      modifies `fed, `past, `live, `totalIn, `availOut, `totalOut, `blockNext, `state, `hasHist
      ensures k == (if turn.consumed > |from| || old(state).Done() then 0 else turn.consumed)
      ensures fed == old(fed) + from[..k] && past == old(past) + from[..k] && totalIn == old(totalIn) + k
      ensures totalOut >= old(totalOut) && availOut == old(availOut) - Min(turn.written, old(availOut))
      ensures totalOut == old(totalOut) + Min(turn.written, old(availOut))
      ensures live == (if turn.forgets then 0 else old(live) + k) && hasHist == (!turn.forgets && (old(hasHist) || k > 0))
      ensures StateFits() && (old(state).Done() ==> state.Done())
      ensures state.Stored? ==> 0 < |fed| - blockNext <= |before| + k
      ensures turn.next.Other? && !old(state).Done() ==> state == Other && blockNext == Min(turn.block, totalIn)
    {
      k := if turn.consumed > |from| || state.Done() then 0 else turn.consumed;
      var written := if turn.written > availOut then availOut else turn.written;
      availOut := availOut - written;
      totalOut := totalOut + written;
      totalIn := totalIn + k;
      fed := fed + from[..k];
      past := past + from[..k];
      live := if turn.forgets then 0 else live + k;
      hasHist := !turn.forgets && (hasHist || k > 0);
      Proceed(|before| + k, turn);
    }

    /** The next state, if the position allows it, with `reach` bytes in memory in front of it. */
    method Proceed(reach: nat, turn: Turn)
      requires totalIn == |fed|
      modifies `state, `blockNext
      ensures blockNext <= |fed| && (old(state).Done() ==> state.Done()) && (!hasHist ==> !state.Stored?)
      ensures state.Stored? ==> 0 < |fed| - blockNext <= reach && |fed| - blockNext <= buffer.Length
      ensures turn.next.Other? && !old(state).Done() ==> state == Other && blockNext == Min(turn.block, totalIn)
    {
      blockNext := if turn.block <= totalIn then turn.block else totalIn;
      var unwritten := totalIn - blockNext;
      if turn.next.Done() {
        state := turn.next;
      } else if !state.Done() {
        state := if turn.next.Stored? && (!hasHist || unwritten == 0 || unwritten > reach || unwritten > buffer.Length) then Other else turn.next;
      }
    }

    lemma HeldParts()
      requires Valid()
      ensures buffer.Length == 2 * histSize + LOOK_AHEAD && totalIn == |accepted| && bBytesProcessed <= bBytesValid <= buffer.Length
      ensures Splits(fed, buffer[bBytesProcessed..bBytesValid], accepted) && StateFits()
      ensures !state.Done() ==> Behind(buffer[..bBytesProcessed], past) && StoredHeld(bBytesProcessed)
    {}

    lemma HeldIs()
      requires buffer.Length == 2 * histSize + LOOK_AHEAD && totalIn == |accepted| && bBytesProcessed <= bBytesValid <= buffer.Length
      requires Splits(fed, buffer[bBytesProcessed..bBytesValid], accepted) && StateFits()
      requires !state.Done() ==> Behind(buffer[..bBytesProcessed], past) && StoredHeld(bBytesProcessed)
      ensures Valid()
    {}

    /** Keeps only `hist` bytes of history in the buffer. */
    method ShiftDown(hist: nat)
      requires Valid() && (!state.Done() ==> StoredHeld(hist)) && hist < bBytesProcessed
      modifies `bBytesValid, `bBytesProcessed, buffer
      ensures Valid() && bBytesProcessed == hist && bBytesValid - bBytesProcessed == old(bBytesValid - bBytesProcessed)
    {
      hide *;
      HeldParts();
      var offset := bBytesProcessed - hist;
      ghost var front := buffer[..bBytesValid];
      ghost var pending, history := front[bBytesProcessed..], front[..bBytesProcessed];
      var moved := buffer[offset..bBytesValid];
      assert pending == buffer[bBytesProcessed..bBytesValid] && history == buffer[..bBytesProcessed] && moved == front[offset..];
      SliceOfSlice(front, offset, bBytesProcessed);
      bBytesValid := bBytesValid - offset;
      bBytesProcessed := bBytesProcessed - offset;
      Copy(0, moved);
      assert buffer[..bBytesValid] == buffer[0..|moved|] == moved;
      assert buffer[bBytesProcessed..bBytesValid] == moved[hist..] == pending;
      assert buffer[..bBytesProcessed] == moved[..hist] == history[offset..];
      if !state.Done() { BehindShifts(history, past, offset); }
      HeldIs();
    }

    /** Takes the next bytes of the user's input into the buffer. */
    method Take(user: seq<Byte>, size: nat, ghost before: seq<Byte>)
      requires Valid() && nextIn + availIn == |user| && size <= availIn && bBytesValid + size <= buffer.Length
      requires accepted == before + user[..nextIn]
      modifies `bBytesValid, `nextIn, `availIn, `totalIn, `accepted, buffer
      ensures nextIn == old(nextIn) + size && availIn == old(availIn) - size
      ensures bBytesValid == old(bBytesValid) + size && accepted == before + user[..nextIn] && Valid()
    {
      hide *;
      HeldParts();
      ghost var pending, history, front := buffer[bBytesProcessed..bBytesValid], buffer[..bBytesProcessed], buffer[..bBytesValid];
      TakeJoins(fed, pending, before, user, nextIn, size);
      var at, bytes := bBytesValid, user[nextIn..nextIn + size];
      nextIn := nextIn + size;
      availIn := availIn - size;
      totalIn := totalIn + size;
      bBytesValid := bBytesValid + size;
      accepted := before + user[..nextIn];
      Copy(at, bytes);
      assert buffer[..bBytesProcessed] == front[..bBytesProcessed] == history;
      assert buffer[bBytesProcessed..at] == front[bBytesProcessed..] == pending;
      assert buffer[bBytesProcessed..bBytesValid] == pending + bytes;
      HeldIs();
    }

    /** A call at work: the user's bytes in front of nextIn are accepted, and what the compressor consumed since the call began
        stands behind the text it began with. */
    ghost predicate Running(user: seq<Byte>, accepted0: seq<Byte>, fed0: seq<Byte>, past0: seq<Byte>)
      reads `nextIn, `availIn, `accepted, `fed, `past, `totalIn
    {
      nextIn + availIn == |user| && accepted == accepted0 + user[..nextIn] && |fed0| <= |accepted0|
      && Grown(fed0, past0, fed, past) && totalIn == |accepted|
    }

    /** `hist` is enough history for what follows; the part of the buffer before `bufHistStart` is not history. */
    ghost predicate HistFits(hist: nat, bufHistStart: nat)
      reads `bBytesProcessed, `state, `nextIn, `live, `fed, `blockNext
    {
      bufHistStart <= bBytesProcessed && (!state.Done() ==> StoredHeld(hist) && (Kept() ==> Window(hist)))
      && Min(histSize, bBytesProcessed - bufHistStart) <= hist
      && (bufHistStart > 0 ==> hist == 0 && nextIn == 0)
    }

    /** A call with nothing to compress any more. */
    ghost predicate Idle(hist: nat, bufHistStart: nat)
      reads this
    {
      hist == nextIn == availIn == 0 && bufHistStart <= bBytesProcessed == bBytesValid && !state.Stored?
      && (endOfStream || flush == FULL_FLUSH)
    }

    /** Makes room in the internal buffer and takes as much input as fits. */
    method Gather(user: seq<Byte>, hist: nat, bufHistStart: nat, ghost accepted0: seq<Byte>) returns (newStart: nat)
      requires Valid() && nextIn + availIn == |user| && accepted == accepted0 + user[..nextIn] && HistFits(hist, bufHistStart)
      modifies `bBytesValid, `bBytesProcessed, `nextIn, `availIn, `totalIn, `accepted, buffer
      ensures Valid() && nextIn + availIn == |user| && accepted == accepted0 + user[..nextIn] && newStart == 0
      ensures availIn + (bBytesValid - bBytesProcessed) == old(availIn + (bBytesValid - bBytesProcessed)) && (old(Kept()) ==> Kept())
      ensures availIn > 0 ==> bBytesValid == buffer.Length
    {
      newStart := bufHistStart;
      if bBytesProcessed > hist {
        var offset := bBytesProcessed - hist;
        newStart := if newStart < offset then 0 else newStart - offset;
        ShiftDown(hist);
      }
      var size := availIn;
      if size > buffer.Length - bBytesValid { size := buffer.Length - bBytesValid; }
      Take(user, size, accepted0);
    }

    /** The last turn was on the internal buffer. */
    ghost predicate OnBuffer()
      reads `last, `flush, `endOfStream, `availIn, `bBytesProcessed, `bBytesValid
    {
      last.beyond == availIn && last.offered + bBytesProcessed == last.taken + bBytesValid
      && last.flush == (if availIn > 0 then NO_FLUSH else flush) && last.end == (availIn == 0 && endOfStream)
      && (availIn > 0 ==> last.held + last.offered == buffer.Length)
    }

    lemma IsOnBuffer()
      requires last.beyond == availIn && last.offered + bBytesProcessed == last.taken + bBytesValid
      requires last.flush == (if availIn > 0 then NO_FLUSH else flush) && last.end == (availIn == 0 && endOfStream)
      requires availIn > 0 ==> last.held + last.offered == buffer.Length
      ensures OnBuffer()
    {}

    lemma IsWaiting(rest: nat)
      requires !endOfStream && flush == NO_FLUSH && rest <= histSize && |fed| - blockNext <= histSize
      ensures Waiting(rest)
    {}

    /** One round in the internal buffer. */
    method Internally(user: seq<Byte>, hist: nat, bufHistStart: nat, ghost accepted0: seq<Byte>, ghost fed0: seq<Byte>, ghost past0: seq<Byte>)
        returns (newHist: nat, newStart: nat)
      requires Valid() && Running(user, accepted0, fed0, past0) && HistFits(hist, bufHistStart) && (served ==> Kept() || Nothing())
      modifies this, buffer
      ensures Valid() && Running(user, accepted0, fed0, past0) && (old(Kept()) ==> Kept()) && (old(Nothing()) ==> Nothing())
      ensures bBytesProcessed <= bBytesValid
      ensures (availIn == 0 && Waiting(bBytesValid - bBytesProcessed))
           || (turns == old(turns) + 1 && OnBuffer() && last.taken == old(availIn + (bBytesValid - bBytesProcessed)) - (availIn + (bBytesValid - bBytesProcessed))
               && last.wrote == totalOut - old(totalOut))
      ensures turns >= old(turns)
      ensures availIn > 0 ==> newStart == 0 && HistFits(newHist, newStart)
      ensures served == old(served)
      ensures availOut + totalOut == old(availOut + totalOut) && totalOut >= old(totalOut)
      ensures availIn + (bBytesValid - bBytesProcessed) <= old(availIn + (bBytesValid - bBytesProcessed))
      ensures flush == old(flush) && endOfStream == old(endOfStream) && level == old(level)
    {
      hide *;
      RunningParts(user, accepted0, fed0, past0);
      ghost var nothing := Nothing();
      if nothing { NothingParts(); }
      newHist := hist;
      newStart := Gather(user, hist, bufHistStart, accepted0);
      ValidParts();
      RunningIs(user, accepted0, fed0, past0);
      if nothing { NothingIs(); }
      var buffered := bBytesValid - bBytesProcessed;
      if availIn == 0 && buffered <= histSize && totalIn - buffered - blockNext <= histSize && !endOfStream && flush == NO_FLUSH {
        IsWaiting(buffered);
        return;
      }
      newHist := InTurn(user, newStart, accepted0, fed0, past0);
      IsOnBuffer();
    }

    /** The compressor's turn; while input is left in the user's memory, no flush and no end of stream are asked of it. */
    method InTurn(user: seq<Byte>, bufHistStart: nat, ghost accepted0: seq<Byte>, ghost fed0: seq<Byte>, ghost past0: seq<Byte>) returns (hist: nat)
      requires Valid() && Running(user, accepted0, fed0, past0) && bufHistStart == 0 && (served ==> Kept() || Nothing())
      modifies `bBytesProcessed, `fed, `past, `live, `totalIn, `availOut, `totalOut, `blockNext, `state, `hasHist, `flush, `endOfStream,
               `turns, `last
      ensures Valid() && Running(user, accepted0, fed0, past0) && (old(Kept()) ==> Kept()) && (old(Nothing()) ==> Nothing())
      ensures availIn > 0 ==> HistFits(hist, bufHistStart)
      ensures availOut + totalOut == old(availOut + totalOut) && totalOut >= old(totalOut) && bBytesProcessed >= old(bBytesProcessed)
      ensures flush == old(flush) && endOfStream == old(endOfStream) && turns == old(turns) + 1 && bBytesProcessed <= bBytesValid
      ensures last == Handed(old(bBytesProcessed), bBytesValid - old(bBytesProcessed), availIn, if availIn > 0 then NO_FLUSH else flush,
                             availIn == 0 && endOfStream, bBytesProcessed - old(bBytesProcessed), totalOut - old(totalOut))
    {
      hide *;
      RunningParts(user, accepted0, fed0, past0);
      ghost var nothing := Nothing();
      if nothing { NothingParts(); }
      var flushType, end := flush, endOfStream;
      if availIn > 0 {
        flush, endOfStream := NO_FLUSH, false;
      }
      hist := InBuffer(bufHistStart, user[nextIn..], fed0, past0);
      flush, endOfStream := flushType, end;
      ValidParts();
      RunningIs(user, accepted0, fed0, past0);
      if nothing { NothingIs(); }
    }

    lemma NothingParts()
      requires Nothing()
      ensures availIn == 0 && bBytesProcessed == bBytesValid
    {}

    lemma NothingIs()
      requires availIn == 0 && bBytesProcessed == bBytesValid
      ensures Nothing()
    {}

    lemma RunningParts(user: seq<Byte>, accepted0: seq<Byte>, fed0: seq<Byte>, past0: seq<Byte>)
      requires Running(user, accepted0, fed0, past0)
      ensures nextIn + availIn == |user| && accepted == accepted0 + user[..nextIn] && |fed0| <= |accepted0| && Grown(fed0, past0, fed, past)
    {}

    lemma RunningIs(user: seq<Byte>, accepted0: seq<Byte>, fed0: seq<Byte>, past0: seq<Byte>)
      requires nextIn + availIn == |user| && accepted == accepted0 + user[..nextIn] && |fed0| <= |accepted0| && Grown(fed0, past0, fed, past)
      requires totalIn == |accepted|
      ensures Running(user, accepted0, fed0, past0)
    {}

    lemma ValidParts()
      requires Valid()
      ensures totalIn == |accepted| == |fed| + (bBytesValid - bBytesProcessed) && blockNext <= |fed|
      ensures bBytesProcessed <= bBytesValid <= buffer.Length
    {}

    /** The compressor's turn, with what was pending split into what it took and what it left. */
    method Feed(before: seq<Byte>, from: seq<Byte>, ghost rest: seq<Byte>, ghost all: seq<Byte>, ghost fed0: seq<Byte>, ghost past0: seq<Byte>)
        returns (k: nat)
      requires StateFits() && totalIn == |fed| && Splits(fed, from, all) && Grown(fed0, past0, fed, past)
      requires !state.Done() ==> Behind(before, past) && StoredHeld(|before|) && (served ==> Window(|before|) || from == [])
      requires endOfStream || flush != NO_FLUSH ==> rest == []
      modifies `fed, `past, `live, `totalIn, `availOut, `totalOut, `blockNext, `state, `hasHist, `turns, `last
      ensures turns == old(turns) + 1
      ensures last == Handed(|before|, |from|, |rest|, flush, endOfStream, k, totalOut - old(totalOut))
      ensures k <= |from| && totalIn == |fed| == |old(fed)| + k && Splits(fed, from[k..], all) && Grown(fed0, past0, fed, past)
      ensures !state.Done() && Behind(before, old(past)) ==> Behind(before + from[..k], past)
      ensures StateFits() && live <= old(live) + k && (old(state).Done() ==> state.Done() && k == 0)
      ensures state.Stored? ==> 0 < |fed| - blockNext <= |before| + k
      ensures availOut + totalOut == old(availOut + totalOut) && totalOut >= old(totalOut)
    {
      hide Behind, Splits, Grown, Last;
      ghost var fed1, past1 := fed, past;
      k := DeflateInt(before, from, rest);
      Consumes(fed1, from, k, all);
      GrowsTogether(fed0, past0, fed1, past1, from[..k]);
      if Behind(before, past1) { BehindGrows(before, past1, from[..k]); }
    }

    /** The compressor's turn on the internal buffer. */
    method InBuffer(bufHistStart: nat, ghost rest: seq<Byte>, ghost fed0: seq<Byte>, ghost past0: seq<Byte>) returns (hist: nat)
      requires Valid() && bufHistStart == 0 && Grown(fed0, past0, fed, past) && (served ==> Kept() || bBytesProcessed == bBytesValid)
      requires endOfStream || flush != NO_FLUSH ==> rest == []
      modifies `bBytesProcessed, `fed, `past, `live, `totalIn, `availOut, `totalOut, `blockNext, `state, `hasHist, `turns, `last
      ensures Valid() && Grown(fed0, past0, fed, past) && old(bBytesProcessed) <= bBytesProcessed <= bBytesValid
      ensures turns == old(turns) + 1
      ensures last == Handed(old(bBytesProcessed), bBytesValid - old(bBytesProcessed), |rest|, flush, endOfStream,
                             bBytesProcessed - old(bBytesProcessed), totalOut - old(totalOut))
      ensures (old(Kept()) ==> Kept()) && (!endOfStream && flush == NO_FLUSH ==> HistFits(hist, bufHistStart))
      ensures availOut + totalOut == old(availOut + totalOut) && totalOut >= old(totalOut)
    {
      hide Behind, Splits, Grown, Last, GetHistSize, StateFits, Valid;
      HeldParts();
      var buffered := bBytesValid - bBytesProcessed;
      var before, from := buffer[..bBytesProcessed], buffer[bBytesProcessed..bBytesValid];
      SplitsLength(fed, from, accepted);
      totalIn := totalIn - buffered;
      var processed := Feed(before, from, rest, accepted, fed0, past0);
      hist := GetHistSize(buffered - processed, bBytesProcessed + processed, bufHistStart);
      Advance(buffered, processed);
    }

    /** What has been taken becomes history. */
    method Advance(buffered: nat, processed: nat)
      requires buffer.Length == 2 * histSize + LOOK_AHEAD && bBytesProcessed + buffered == bBytesValid <= buffer.Length && processed <= buffered
      requires totalIn + (buffered - processed) == |accepted| && StateFits()
      requires Splits(fed, buffer[bBytesProcessed..bBytesValid][processed..], accepted)
      requires !state.Done() ==> Behind(buffer[..bBytesProcessed] + buffer[bBytesProcessed..bBytesValid][..processed], past) && StoredHeld(bBytesProcessed + processed)
      modifies `bBytesProcessed, `totalIn
      ensures Valid() && bBytesProcessed == old(bBytesProcessed) + processed
    {
      hide *;
      Moves(buffer, bBytesProcessed, processed, bBytesValid);
      bBytesProcessed := bBytesProcessed + processed;
      totalIn := totalIn + (buffered - processed);
      HeldIs();
    }

    /** After the turn on the user's own memory: nothing is pending, and `hist` bytes in front of nextIn are worth keeping. */
    ghost predicate Aside(user: seq<Byte>, hist: nat)
      reads `fed, `accepted, `nextIn, `past, `bBytesProcessed, `bBytesValid, `state, `hasHist, `live, `blockNext
    {
      fed == accepted && bBytesProcessed == bBytesValid <= buffer.Length && buffer.Length == 2 * histSize + LOOK_AHEAD
      && StateFits() && nextIn <= |user| && Behind(user[..nextIn], past)
      && hist <= nextIn && hist <= buffer.Length && (!state.Done() ==> StoredHeld(hist))
    }

    /** The compressor's turn on the user's own memory, which holds enough history: what was buffered is handed back first. */
    method Externally(user: seq<Byte>, hist: nat, bufHistStart: nat, ghost accepted0: seq<Byte>, ghost fed0: seq<Byte>, ghost past0: seq<Byte>)
        returns (newHist: nat)
      requires Valid() && Running(user, accepted0, fed0, past0) && nextIn >= hist + (bBytesValid - bBytesProcessed)
      requires (HistFits(hist, bufHistStart) && (served ==> Kept() || Nothing())) || Idle(hist, bufHistStart)
      modifies `bBytesProcessed, `bBytesValid, `nextIn, `availIn, `accepted, `fed, `past, `live, `totalIn, `availOut, `totalOut,
               `blockNext, `state, `hasHist, `turns, `last
      ensures Running(user, accepted0, fed0, past0) && Aside(user, newHist)
      ensures turns == old(turns) + 1 && last.beyond == 0 && last.flush == flush && last.end == endOfStream && last.offered == last.taken + availIn
      ensures (Guard() ==> newHist == 0) && (old(Kept()) && !Guard() && !state.Done() ==> Window(newHist))
      ensures availIn + (bBytesValid - bBytesProcessed) <= old(availIn + (bBytesValid - bBytesProcessed))
      ensures availOut + totalOut == old(availOut + totalOut) && totalOut >= old(totalOut)
    {
      hide Behind, Splits, Grown, Last, GetHistSize;
      ghost var kept, idle, over := Kept(), Idle(hist, bufHistStart), state.Done();
      HandBack(user, accepted0);
      assert idle ==> Idle(0, bufHistStart);
      assert kept && !idle && !over ==> Window(nextIn);
      newHist := OnUser(user, bufHistStart, accepted0, fed0, past0);
    }

    method OnUser(user: seq<Byte>, bufHistStart: nat, ghost accepted0: seq<Byte>, ghost fed0: seq<Byte>, ghost past0: seq<Byte>)
        returns (hist: nat)
      requires Running(user, accepted0, fed0, past0) && fed == accepted && Splits(fed, user[nextIn..], accepted0 + user)
      requires StateFits() && bufHistStart <= bBytesProcessed == bBytesValid <= buffer.Length == 2 * histSize + LOOK_AHEAD
      requires ((!state.Done() ==> StoredHeld(nextIn) && (served ==> Window(nextIn) || availIn == 0)) && Min(histSize, bBytesProcessed - bufHistStart) <= nextIn)
            || Idle(0, bufHistStart)
      modifies `nextIn, `availIn, `accepted, `fed, `past, `live, `totalIn, `availOut, `totalOut, `blockNext, `state, `hasHist, `turns, `last
      ensures Running(user, accepted0, fed0, past0) && Aside(user, hist) && availIn <= old(availIn)
      ensures turns == old(turns) + 1 && last.beyond == 0 && last.flush == flush && last.end == endOfStream && last.offered == last.taken + availIn
      ensures (Guard() ==> hist == 0) && (!Guard() && !state.Done() ==> Window(hist) || !old(Window(nextIn)))
      ensures (old(Idle(0, bufHistStart)) ==> Guard()) && (old(state).Done() ==> state.Done())
      ensures availOut + totalOut == old(availOut + totalOut) && totalOut >= old(totalOut)
    {
      hide Behind, Splits, Grown, Last, GetHistSize;
      var k := FeedUser(user, accepted0, fed0, past0);
      hist := GetHistSize(availIn, nextIn, bufHistStart);
    }

    method FeedUser(user: seq<Byte>, ghost accepted0: seq<Byte>, ghost fed0: seq<Byte>, ghost past0: seq<Byte>) returns (k: nat)
      requires Running(user, accepted0, fed0, past0) && fed == accepted && Splits(fed, user[nextIn..], accepted0 + user) && StateFits()
      requires !state.Done() ==> StoredHeld(nextIn) && (served ==> Window(nextIn) || availIn == 0)
      modifies `nextIn, `availIn, `accepted, `fed, `past, `live, `totalIn, `availOut, `totalOut, `blockNext, `state, `hasHist, `turns, `last
      ensures turns == old(turns) + 1 && last.beyond == 0 && last.flush == flush && last.end == endOfStream && last.offered == last.taken + availIn
      ensures Running(user, accepted0, fed0, past0) && fed == accepted && Behind(user[..nextIn], past) && StateFits()
      ensures k <= old(availIn) && nextIn == old(nextIn) + k && live <= old(live) + k && (old(state).Done() ==> state.Done())
      ensures state.Stored? ==> 0 < |fed| - blockNext <= nextIn && totalIn == |fed|
      ensures availOut + totalOut == old(availOut + totalOut) && totalOut >= old(totalOut)
    {
      hide Behind, Splits, Grown, Last;
      UserBehind(user, nextIn, accepted0, fed0, past0, fed, past);
      k := Feed(user[..nextIn], user[nextIn..], [], accepted0 + user, fed0, past0);
      assert user[nextIn..][k..] == user[nextIn + k..];
      Onward(user, k, accepted0);
      FedIs(fed, user, nextIn, accepted0);
      UserBehind(user, nextIn, accepted0, fed0, past0, fed, past);
    }

    /** Moves on in the user's memory. */
    method Onward(user: seq<Byte>, k: nat, ghost accepted0: seq<Byte>)
      requires k <= availIn && nextIn + availIn == |user|
      modifies `nextIn, `availIn, `accepted
      ensures nextIn == old(nextIn) + k && availIn == old(availIn) - k && accepted == accepted0 + user[..nextIn]
    {
      nextIn := nextIn + k;
      availIn := availIn - k;
      accepted := accepted0 + user[..nextIn];
    }

    /** Hands the pending bytes back to the user's memory. */
    method HandBack(user: seq<Byte>, ghost accepted0: seq<Byte>)
      requires Valid() && nextIn + availIn == |user| && accepted == accepted0 + user[..nextIn]
      requires bBytesValid - bBytesProcessed <= nextIn
      modifies `bBytesProcessed, `bBytesValid, `nextIn, `availIn, `totalIn, `accepted
      ensures nextIn == old(nextIn) - old(bBytesValid - bBytesProcessed) && nextIn + availIn == |user|
      ensures bBytesProcessed == bBytesValid == (if old(bBytesProcessed < bBytesValid) then 0 else old(bBytesProcessed))
      ensures fed == accepted == accepted0 + user[..nextIn] && totalIn == |fed| && Splits(fed, user[nextIn..], accepted0 + user)
    {
      hide Splits;
      var buffered := bBytesValid - bBytesProcessed;
      ghost var pending := buffer[bBytesProcessed..bBytesValid];
      Rewinds(fed, pending, accepted0, user, nextIn);
      if buffered > 0 {
        nextIn := nextIn - buffered;
        availIn := availIn + buffered;
        totalIn := totalIn - buffered;
        bBytesValid := 0;
        bBytesProcessed := 0;
        accepted := accepted0 + user[..nextIn];
      }
    }

    /** Saves the last bytes of the user's memory as history for the next call. */
    method KeepHistory(user: seq<Byte>, hist: nat)
      requires Aside(user, hist) && totalIn == |accepted|
      modifies `bBytesProcessed, `bBytesValid, buffer
      ensures Valid() && bBytesProcessed == bBytesValid == hist
    {
      hide Last, Behind, Splits;
      Copy(0, user[nextIn - hist..nextIn]);
      bBytesProcessed := hist;
      bBytesValid := hist;
      assert buffer[..hist] == buffer[0..hist] == user[..nextIn][nextIn - hist..];
      BehindShifts(user[..nextIn], past, nextIn - hist);
      assert buffer[hist..hist] == [];
      SplitsNothing(fed);
    }

    /** One call. The user's input is `user`, from nextIn 0 on. A call is served if it finds the window in place, or nothing to
        compress; the input is conserved in every call. */
    method IsalDeflate(user: seq<Byte>, levelOk: bool) returns (ret: Ret, inUser: bool, ghost topped: nat)
      requires Valid() && nextIn == 0 && availIn == |user|
      modifies this, buffer
      ensures ret == (if flush >= 3 then InvalidFlush else if !levelOk then InvalidLevel else CompOk)
      ensures ret != CompOk ==> unchanged(this) && unchanged(buffer)
      ensures Valid() && nextIn + availIn == |user| && accepted == old(accepted) + user[..nextIn]
      ensures Grown(old(fed), old(past), fed, past)
      ensures availOut + totalOut == old(availOut + totalOut) && totalOut >= old(totalOut)
      ensures flush == old(flush) && endOfStream == old(endOfStream) && level == old(level)
      ensures ret == CompOk ==> served == old(Kept() || Nothing())
      ensures ret == CompOk && old(Kept()) ==> (Kept() <==> !Loses(inUser))
      ensures bBytesProcessed <= bBytesValid <= buffer.Length && (ret == CompOk ==> Worked(availIn + (bBytesValid - bBytesProcessed), old(turns)))
      ensures ret == CompOk ==> topped <= bBytesValid - bBytesProcessed && topped == TopUpSize(availIn + topped, bBytesValid - topped)
    {
      hide *;
      HeldParts();
      inUser, topped := false, 0;
      if flush >= 3 {
        GrownNothing(fed, past);
        return InvalidFlush, false, 0;
      }
      if !levelOk {
        GrownNothing(fed, past);
        return InvalidLevel, false, 0;
      }
      served := Kept() || Nothing();
      inUser, topped := Compress(user);
      ret := CompOk;
    }

    /** The work of a call: its rounds, and what is kept for the next one. */
    method Compress(user: seq<Byte>) returns (inUser: bool, ghost topped: nat)
      requires Valid() && nextIn == 0 && availIn == |user| && (served ==> Kept() || Nothing())
      modifies this, buffer
      ensures Valid() && nextIn + availIn == |user| && accepted == old(accepted) + user[..nextIn] && served == old(served)
      ensures Grown(old(fed), old(past), fed, past)
      ensures availOut + totalOut == old(availOut + totalOut) && totalOut >= old(totalOut)
      ensures flush == old(flush) && endOfStream == old(endOfStream) && level == old(level)
      ensures old(Kept()) ==> (Kept() <==> !Loses(inUser))
      ensures bBytesProcessed <= bBytesValid && Worked(availIn + (bBytesValid - bBytesProcessed), old(turns))
      ensures topped <= bBytesValid <= buffer.Length && topped <= bBytesValid - bBytesProcessed && topped == TopUpSize(availIn + topped, bBytesValid - topped)
    {
      hide *;
      ghost var accepted0, fed0, past0 := accepted, fed, past;
      var internal, hist := Rounds(user, accepted0, fed0, past0);
      inUser := !internal;
      RunningParts(user, accepted0, fed0, past0);
      RunningTotal(user, accepted0, fed0, past0);
      ghost var rest, turns0 := availIn + (bBytesValid - bBytesProcessed), old(turns);
      if !internal && state != Ending {
        AsideEmpty(user, hist);
        KeepHistory(user, hist);
        InUserKept(hist);
      } else {
        OtherwiseKept(inUser);
      }
      topped := TopUpAll(user, accepted0, inUser, rest, turns0);
    }

    /** Takes input for the next call; what is kept and what was done stay as they are. */
    method TopUpAll(user: seq<Byte>, ghost accepted0: seq<Byte>, ghost inUser: bool, ghost rest: nat, ghost turns0: nat) returns (ghost topped: nat)
      requires Valid() && nextIn + availIn == |user| && accepted == accepted0 + user[..nextIn]
      requires bBytesProcessed <= bBytesValid && availIn + (bBytesValid - bBytesProcessed) == rest && Worked(rest, turns0)
      modifies `bBytesValid, `nextIn, `availIn, `totalIn, `accepted, buffer
      ensures Valid() && nextIn + availIn == |user| && accepted == accepted0 + user[..nextIn]
      ensures Kept() == old(Kept()) && Loses(inUser) == old(Loses(inUser))
      ensures bBytesProcessed <= bBytesValid && availIn + (bBytesValid - bBytesProcessed) == rest && Worked(rest, turns0)
      ensures topped <= bBytesValid <= buffer.Length && topped <= bBytesValid - bBytesProcessed && topped == TopUpSize(availIn + topped, bBytesValid - topped)
    {
      hide *;
      HeldParts();
      LosesIs(inUser);
      ghost var valid, avail := bBytesValid, availIn;
      TopUp(user, accepted0);
      topped := bBytesValid - valid;
      assert availIn + topped == avail && bBytesValid - topped == valid;
      LosesIs(inUser);
      HeldParts();
    }

    lemma AsideEmpty(user: seq<Byte>, hist: nat)
      requires Aside(user, hist)
      ensures bBytesProcessed == bBytesValid
    {}

    /** What decides about losing history, apart from nothing being left to compress. */
    ghost predicate AtEnd()
      reads `endOfStream, `flush, `state, `live
    {
      (endOfStream || flush == FULL_FLUSH) && !state.Stored? && !state.Done() && Min(histSize, live) > 0
    }

    lemma LosesIs(inUser: bool)
      ensures Loses(inUser) == (inUser && Nothing() && AtEnd())
    {}

    lemma InUserKept(hist: nat)
      requires bBytesProcessed == bBytesValid == hist && (Guard() ==> hist == 0)
      ensures (!Guard() && !state.Done() ==> Window(hist)) ==> (Kept() <==> !Loses(true))
    {}

    lemma OtherwiseKept(inUser: bool)
      requires inUser ==> state == Ending
      ensures !Loses(inUser) && (inUser ==> Kept())
    {}

    /** Takes input for the next call, if the output did not stop the compressor. */
    method TopUp(user: seq<Byte>, ghost accepted0: seq<Byte>)
      requires Valid() && nextIn + availIn == |user| && accepted == accepted0 + user[..nextIn]
      modifies `bBytesValid, `nextIn, `availIn, `totalIn, `accepted, buffer
      ensures Valid() && nextIn + availIn == |user| && accepted == accepted0 + user[..nextIn]
      ensures Kept() == old(Kept()) && Nothing() == old(Nothing()) && old(bBytesValid) <= buffer.Length
      ensures nextIn == old(nextIn) + old(TopUpSize(availIn, bBytesValid)) && bBytesValid == old(bBytesValid) + (nextIn - old(nextIn))
    {
      hide *;
      HeldParts();
      TopUpIs();
      ghost var empty := Nothing();
      if empty { NothingParts(); }
      if availIn > 0 && (availOut > 0 || level == 3) {
        var size := buffer.Length - bBytesValid;
        if availIn < size {
          size := availIn;
        } else if LOOK_AHEAD < size {
          size := LOOK_AHEAD;
        }
        Take(user, size, accepted0);
        if Nothing() { NothingParts(); }
      }
    }

    lemma TopUpIs()
      requires bBytesValid <= buffer.Length
      ensures TopUpSize(availIn, bBytesValid) ==
                if availIn > 0 && (availOut > 0 || level == 3) then
                  if availIn < buffer.Length - bBytesValid then availIn
                  else if 288 < buffer.Length - bBytesValid then 288 else buffer.Length - bBytesValid
                else 0
      ensures LOOK_AHEAD == 288
    {}

    /** The rounds of a call, in the internal buffer as long as the user's memory holds too little history. */
    method Rounds(user: seq<Byte>, ghost accepted0: seq<Byte>, ghost fed0: seq<Byte>, ghost past0: seq<Byte>)
        returns (internal: bool, hist: nat)
      requires Valid() && nextIn == 0 && availIn == |user| && accepted == accepted0 && fed == fed0 && past == past0
      requires served ==> Kept() || Nothing()
      modifies this, buffer
      ensures Running(user, accepted0, fed0, past0) && (if internal then Valid() && (old(Kept()) ==> Kept()) else Aside(user, hist))
      ensures !internal ==> (Guard() ==> hist == 0) && (old(Kept()) && !Guard() && !state.Done() ==> Window(hist))
      ensures served == old(served) && (internal || state == Ending ==> Valid())
      ensures bBytesProcessed <= bBytesValid && turns >= old(turns) && Worked(availIn + (bBytesValid - bBytesProcessed), old(turns))
      ensures availOut + totalOut == old(availOut + totalOut) && totalOut >= old(totalOut)
      ensures flush == old(flush) && endOfStream == old(endOfStream) && level == old(level)
    {
      hide *;
      GrownNothing(fed, past);
      HeldParts();
      ValidParts();
      var bufHistStart;
      hist, bufHistStart := FirstHist(user);
      RunningStarts(user, accepted0);
      internal := true;
      var again := true;
      while again
        invariant Running(user, accepted0, fed0, past0)
        invariant internal ==> Valid() && (old(Kept()) ==> Kept()) && (old(Nothing()) ==> Nothing())
        invariant served == old(served) && turns >= old(turns) && bBytesProcessed <= bBytesValid
        invariant !again ==> Worked(availIn + (bBytesValid - bBytesProcessed), old(turns))
        invariant again ==> internal && (HistFits(hist, bufHistStart) || Idle(hist, bufHistStart))
        invariant !internal ==> Aside(user, hist) && (Guard() ==> hist == 0) && (old(Kept()) && !Guard() && !state.Done() ==> Window(hist))
        invariant availOut + totalOut == old(availOut + totalOut) && totalOut >= old(totalOut)
        invariant flush == old(flush) && endOfStream == old(endOfStream) && level == old(level)
        decreases availIn + (bBytesValid - bBytesProcessed) + availOut, again
      {
        var inSize, outSize := availIn + (bBytesValid - bBytesProcessed), totalOut;
        if Idle(hist, bufHistStart) { IdleParts(hist, bufHistStart); }
        if nextIn < hist + (bBytesValid - bBytesProcessed) {
          hist, bufHistStart := Internally(user, hist, bufHistStart, accepted0, fed0, past0);
          if !(availIn > 0 && availOut > 0 && (inSize != availIn + (bBytesValid - bBytesProcessed) || outSize != totalOut)) {
            DoneInBuffer(inSize, outSize, old(turns));
          }
        } else {
          hist := Externally(user, hist, bufHistStart, accepted0, fed0, past0);
          internal := false;
          DoneOutside(user, hist, old(turns));
        }
        again := internal && availIn > 0 && availOut > 0
          && (inSize != availIn + (bBytesValid - bBytesProcessed) || outSize != totalOut);
      }
      RunningTotal(user, accepted0, fed0, past0);
      if !internal && state == Ending { AsideEnds(user, hist); }
    }

    /** How much history the first round needs. */
    method FirstHist(user: seq<Byte>) returns (hist: nat, bufHistStart: nat)
      requires Valid() && nextIn == 0 && availIn == |user|
      ensures HistFits(hist, bufHistStart) || Idle(hist, bufHistStart)
    {
      hide Behind, Splits, Grown, Last, GetHistSize;
      SplitsLength(fed, buffer[bBytesProcessed..bBytesValid], accepted);
      hist := GetHistSize(availIn, 0, 0);
      bufHistStart := if hasHist then 0 else bBytesProcessed;
    }

    lemma IdleParts(hist: nat, bufHistStart: nat)
      requires Idle(hist, bufHistStart)
      ensures hist == nextIn == 0 && bBytesProcessed == bBytesValid
    {}

    lemma RunningTotal(user: seq<Byte>, accepted0: seq<Byte>, fed0: seq<Byte>, past0: seq<Byte>)
      requires Running(user, accepted0, fed0, past0)
      ensures totalIn == |accepted|
    {}

    lemma RunningStarts(user: seq<Byte>, accepted0: seq<Byte>)
      requires Valid() && nextIn == 0 && availIn == |user| && accepted == accepted0
      ensures Running(user, accepted0, fed, past)
    {
      hide Behind, Last;
      ValidParts();
      GrownNothing(fed, past);
      assert accepted0 == accepted0 + user[..0];
    }

    lemma DoneInBuffer(inSize: nat, outSize: nat, turns0: nat)
      requires bBytesProcessed <= bBytesValid && outSize <= totalOut
      requires availIn == 0 || availOut == 0 || (inSize == availIn + (bBytesValid - bBytesProcessed) && outSize == totalOut)
      requires (availIn == 0 && Waiting(bBytesValid - bBytesProcessed))
            || (turns > turns0 && OnBuffer() && last.taken == inSize - (availIn + (bBytesValid - bBytesProcessed)) && last.wrote == totalOut - outSize)
      ensures Worked(availIn + (bBytesValid - bBytesProcessed), turns0)
    {}

    lemma DoneOutside(user: seq<Byte>, hist: nat, turns0: nat)
      requires Aside(user, hist) && turns > turns0
      requires last.beyond == 0 && last.flush == flush && last.end == endOfStream && last.offered == last.taken + availIn
      ensures bBytesProcessed == bBytesValid && Worked(availIn + (bBytesValid - bBytesProcessed), turns0)
    {}

    lemma AsideEnds(user: seq<Byte>, hist: nat)
      requires Aside(user, hist) && totalIn == |accepted| && state == Ending
      ensures Valid()
    {
      assert buffer[bBytesProcessed..bBytesValid] == [];
    }
  }

  // -- what the window is for

  /** History of n bytes with the window in it serves every table of the greedy finders that refers to live text only. */
  lemma LiveReach(table: seq<nat>, fileStart: int, p: nat, live: nat, n: nat, histSize: nat, distMask: nat)
    requires live <= p && n <= p && distMask <= histSize && Min(histSize, live) <= n
    requires IcfHash.Reach(table, fileStart, p - live, distMask, p)
    ensures IcfHash.Reach(table, fileStart, p - n, distMask, p)
  {
    forall h | 0 <= h < |table| ensures IcfHash.InReach(table[h], fileStart, p - n, distMask, p) {
      assert IcfHash.InReach(table[h], fileStart, p - live, distMask, p);
    }
  }

  /** So it does for the map. */
  lemma LiveReady(table: seq<nat>, fileStart: int, p: nat, live: nat, n: nat, histSize: nat, window: nat)
    requires live <= p && n <= p && window <= histSize && Min(histSize, live) <= n
    requires IcfMap.Ready(table, fileStart, p - live, window, p, true)
    ensures IcfMap.Ready(table, fileStart, p - n, window, p, true)
  {
    forall h | 0 <= h < |table| ensures IcfMap.Fits(table[h], fileStart, p - n, window, p) {
      assert IcfMap.Fits(table[h], fileStart, p - live, window, p);
    }
  }

  /** The map refers to live text only, but not only to the last n bytes. */
  ghost predicate Escapes(table: seq<nat>, fileStart: int, p: nat, live: nat, n: nat, histSize: nat) {
    live <= p && n <= p && IcfMap.Ready(table, fileStart, p - live, histSize, p, true) && !IcfMap.Ready(table, fileStart, p - n, histSize, p, true)
  }

  /** Less history does not: some such table makes the map look in front of the memory. */
  lemma LiveNeeded(fileStart: int, p: nat, live: nat, n: nat, histSize: nat)
    requires live <= p && n < Min(histSize, live) && histSize > 0 && 32768 % histSize == 0
    ensures exists table: seq<nat> :: Escapes(table, fileStart, p, live, n, histSize)
  {
    var q: nat := p - (n + 1);
    var e: nat := (q - fileStart) % 65536;
    var table := [e];
    IcfMap.StandsFits(e, q, fileStart, p - live, histSize, p);
    ExactCandidate(p - fileStart, q - fileStart, n, histSize);
    assert !IcfMap.Fits(table[0], fileStart, p - n, histSize, p);
    assert Escapes(table, fileStart, p, live, n, histSize);
  }

  lemma ExactCandidate(a: int, b: int, n: nat, window: nat)
    requires a == b + n + 1 && n < window && 32768 % window == 0
    ensures IcfMap.Candidate(a, b % 65536, window - 1) == n + 1
  {
    var k := b / 65536;
    assert a - b % 65536 - 1 == n + 65536 * k;
    IcfMap.WholeWindows(n, window, k);
    IcfMap.Residue(window, 0, n);
  }

  lemma WholeBehind(text: seq<Byte>)
    ensures Behind(text, text)
  {}

  /** A new stream at the start of its first call: a full flush with one byte of input and room for one byte of output. No
      history is worth keeping, so that the turn is on the user's memory. */
  method FirstCall() returns (z: Zstream)
    ensures fresh(z) && fresh(z.buffer) && z.Valid() && z.histSize == 32768 && z.flush == FULL_FLUSH && !z.endOfStream && z.state == NewHdr
    ensures z.fed == z.accepted == z.past == [] && z.totalIn == z.nextIn == z.live == z.bBytesProcessed == z.bBytesValid == 0
    ensures z.availIn == z.availOut == 1 && z.GetHistSize(1, 0, 0) <= z.nextIn
  {
    hide Behind, Splits, Last, Zstream.Valid;
    z := new Zstream(32768, 1);
    z.flush, z.availIn, z.availOut := FULL_FLUSH, 1, 1;
  }

  /** The compressor consumes the byte and fills the output, but has more to write. */
  method FlushCutShort() returns (z: Zstream)
    ensures fresh(z) && fresh(z.buffer) && z.histSize == 32768 && z.flush == FULL_FLUSH && !z.endOfStream && z.state == Other
    ensures z.fed == z.accepted == z.past == [7] && z.totalIn == z.nextIn == 1 && z.availIn == z.availOut == z.bBytesProcessed == z.bBytesValid == 0
    ensures z.hasHist && z.live == 1 && z.blockNext == 0 && z.buffer.Length == 2 * z.histSize + LOOK_AHEAD
  {
    hide Behind, Splits, Last, Zstream.Valid;
    OneByte(7);
    z := FirstCall();
    z.HeldParts();
    z.HandBack([7], []);
    var k := z.Perform([], [7], Turn(1, 1, false, Other, 0));
    z.Onward([7], k, []);
  }

  lemma OneByte(b: Byte)
    ensures [] + [b][..0] == [] && [] + [b][..1] == [b] && [b][..1] == [b]
  {}

  /** Nothing is kept for the next call, although the byte can still be referred to. */
  method SavesNothing() returns (z: Zstream)
    ensures fresh(z) && z.Valid() && z.fed == [7] && z.live == 1 && z.hasHist && z.Loses(true) && !z.Kept() && z.bBytesProcessed == 0
  {
    hide Behind, Splits, Last;
    z := FlushCutShort();
    assert [7][..1] == [7];
    WholeBehind([7]);
    var hist := z.GetHistSize(z.availIn, z.nextIn, 0);
    z.KeepHistory([7], hist);
    z.TopUp([7], []);
  }

  lemma SplitsNothing(fed: seq<Byte>)
    ensures Splits(fed, [], fed)
  {}

  lemma GrownNothing(fed: seq<Byte>, past: seq<Byte>)
    ensures Grown(fed, past, fed, past)
  {}

  /** Handing the pending bytes back to the user leaves what was fed as all that is accepted. */
  lemma Rewinds(fed: seq<Byte>, pending: seq<Byte>, before: seq<Byte>, user: seq<Byte>, at: nat)
    requires at <= |user| && |pending| <= at && Splits(fed, pending, before + user[..at])
    ensures fed == before + user[..at - |pending|] && Splits(fed, user[at - |pending|..], before + user)
  {
    var n := |fed|;
    assert fed == (before + user[..at])[..n] == before + user[..at - |pending|];
    assert user == user[..at - |pending|] + user[at - |pending|..];
  }

  lemma FedIs(fed: seq<Byte>, user: seq<Byte>, at: nat, before: seq<Byte>)
    requires at <= |user| && Splits(fed, user[at..], before + user)
    ensures fed == before + user[..at]
  {
    assert user == user[..at] + user[at..];
    assert fed == (before + user)[..|fed|];
  }

  /** The user's memory in front of the position is the text behind it. */
  lemma UserBehind(user: seq<Byte>, at: nat, accepted0: seq<Byte>, fed0: seq<Byte>, past0: seq<Byte>, fed: seq<Byte>, past: seq<Byte>)
    requires at <= |user| && fed == accepted0 + user[..at] && |fed0| <= |accepted0| && Grown(fed0, past0, fed, past)
    ensures Behind(user[..at], past)
  {
    assert fed[|fed0|..] == accepted0[|fed0|..] + user[..at];
    assert past == (past0 + accepted0[|fed0|..]) + user[..at];
  }

  lemma Moves(a: array<Byte>, i: nat, k: nat, n: nat)
    requires i + k <= n <= a.Length
    ensures a[..i + k] == a[..i] + a[i..n][..k] && a[i + k..n] == a[i..n][k..]
  {}

  lemma SliceOfSlice(s: seq<Byte>, i: nat, j: nat)
    requires i <= j <= |s|
    ensures s[i..][..j - i] == s[..j][i..] && s[i..][j - i..] == s[j..]
  {}

  lemma BehindGrows(before: seq<Byte>, past: seq<Byte>, more: seq<Byte>)
    requires Behind(before, past)
    ensures Behind(before + more, past + more)
  {
    assert past == past[..|past| - |before|] + before;
    assert past + more == past[..|past| - |before|] + (before + more);
  }

  lemma BehindShifts(before: seq<Byte>, past: seq<Byte>, at: nat)
    requires Behind(before, past) && at <= |before|
    ensures Behind(before[at..], past)
  {}

  /** Consuming a piece from the front of the pending bytes conserves the whole. */
  lemma Consumes(fed: seq<Byte>, pending: seq<Byte>, k: nat, all: seq<Byte>)
    requires k <= |pending| && Splits(fed, pending, all)
    ensures Splits(fed + pending[..k], pending[k..], all)
  {
    assert pending == pending[..k] + pending[k..];
  }

  lemma SplitsLength(fed: seq<Byte>, pending: seq<Byte>, all: seq<Byte>)
    requires Splits(fed, pending, all)
    ensures |fed| + |pending| == |all|
  {}

  lemma GrowsTogether(fed0: seq<Byte>, past0: seq<Byte>, fed: seq<Byte>, past: seq<Byte>, more: seq<Byte>)
    requires Grown(fed0, past0, fed, past)
    ensures Grown(fed0, past0, fed + more, past + more)
  {
    assert (fed + more)[|fed0|..] == fed[|fed0|..] + more;
  }

  lemma TakeJoins(fed: seq<Byte>, pending: seq<Byte>, before: seq<Byte>, user: seq<Byte>, at: nat, size: nat)
    requires at + size <= |user| && Splits(fed, pending, before + user[..at])
    ensures Splits(fed, pending + user[at..at + size], before + user[..at + size])
  {
    var more := user[at..at + size];
    assert fed + (pending + more) == (fed + pending) + more == before + (user[..at] + more);
    assert user[..at + size] == user[..at] + more;
  }
}
