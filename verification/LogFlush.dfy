/** The logger's flush cursor over the ring buffer: every entry is to be written exactly once, in order. */
module LogFlush {
  import opened Sequences
  import opened SlidingRing

  /** Everything pushed, the flush cursor, and everything written to the log file. */
  datatype Log<T> = Log(history: seq<T>, position: nat, written: seq<T>)

  function Head<T>(log: Log<T>): nat {
    if log.history == [] then 0 else |log.history| - 1
  }

  /** A flush that finds the pending entries still in the ring. */
  function Flushed<T>(log: Log<T>): Log<T> {
    if |log.history| <= 1 || log.position > Head(log) then log
    else Log(log.history, |log.history|, log.written + log.history[log.position..])
  }

  /** The pending entries fit the ring. */
  predicate Fits<T>(log: Log<T>, n: nat) {
    log.position > Head(log) || Head(log) - log.position < n
  }

  /** What a flush takes from a ring of n slots: the pending entries, or as many as there are slots, each as the newest
      entry of its slot. */
  function Batch<T>(log: Log<T>, n: nat): seq<T>
    requires n > 0
  {
    if |log.history| <= 1 || log.position > Head(log) then []
    else
      seq(SnapshotSize(0, |log.history| - log.position, n),
          i requires 0 <= i < |log.history| - log.position =>
            log.history[NewestAt(log.position + i, |log.history| - 1, n)])
  }

  /** A flush, whatever is pending. */
  function FlushedFrom<T>(log: Log<T>, n: nat): Log<T>
    requires n > 0
  {
    var batch := Batch(log, n);
    Log(log.history, log.position + |batch|, log.written + batch)
  }

  /** A flush writes exactly the pending entries if and only if they fit the ring. */
  lemma FlushIsExact<T>(log: Log<T>, n: nat)
    requires n > 0
    ensures FlushedFrom(log, n) == Flushed(log) <==> Fits(log, n)
  {
    if |log.history| <= 1 || log.position > Head(log) {
      assert Batch(log, n) == [];
    } else {
      PendingInOrder(log.history, log.position, n, Batch(log, n));
    }
  }

  /** Milliseconds since the last flush, in 64-bit arithmetic. */
  function Elapsed(now: nat, last: nat): nat {
    (now - last) % 0x1_0000_0000_0000_0000
  }

  const FLUSH_INTERVAL_MS := 10000

  predicate SizeReached<T>(log: Log<T>, n: nat) {
    Head(log) >= log.position && Head(log) - log.position >= n / 2
  }

  /** The file holds exactly the entries before the cursor. */
  ghost predicate Consistent<T>(log: Log<T>) {
    log.position <= |log.history| && log.written == log.history[..log.position]
  }

  lemma FlushKeepsConsistent<T>(log: Log<T>)
    requires Consistent(log)
    ensures Consistent(Flushed(log))
    ensures Flushed(log) != log ==> Flushed(log).position == Head(log) + 1
    ensures Flushed(log).written == (if |log.history| == 1 then log.written else log.history)
  {
    if |log.history| > 1 && log.position <= Head(log) {
      assert log.history[..log.position] + log.history[log.position..] == log.history;
    }
    assert log.history[..|log.history|] == log.history;
  }

  /** One turn of the flusher thread: what was pushed since the last one, and whether the interval is over. */
  datatype Round<T> = Round(pushed: seq<T>, timeUp: bool)

  function Pushed<T>(log: Log<T>, entries: seq<T>): Log<T> {
    log.(history := log.history + entries)
  }

  function AfterTurn<T>(log: Log<T>, round: Round<T>, n: nat): Log<T>
    requires n > 0
  {
    var pushed := Pushed(log, round.pushed);
    if SizeReached(pushed, n) || round.timeUp then FlushedFrom(pushed, n) else pushed
  }

  function AfterTurns<T>(log: Log<T>, turns: seq<Round<T>>, n: nat): Log<T>
    requires n > 0
    decreases |turns|
  {
    if turns == [] then log else AfterTurns(AfterTurn(log, turns[0], n), turns[1..], n)
  }

  /** The flush of a turn, if there is one, finds everything pending in the ring. */
  predicate TurnFits<T>(log: Log<T>, round: Round<T>, n: nat) {
    var pushed := Pushed(log, round.pushed);
    SizeReached(pushed, n) || round.timeUp ==> Fits(pushed, n)
  }

  ghost predicate FitsThroughout<T>(log: Log<T>, turns: seq<Round<T>>, n: nat)
    requires n > 0
    decreases |turns|
  {
    turns == [] || (TurnFits(log, turns[0], n) && FitsThroughout(AfterTurn(log, turns[0], n), turns[1..], n))
  }

  lemma TurnKeepsConsistent<T>(log: Log<T>, round: Round<T>, n: nat)
    requires n > 0 && Consistent(log) && TurnFits(log, round, n)
    ensures Consistent(AfterTurn(log, round, n))
  {
    var pushed := Pushed(log, round.pushed);
    assert pushed.history[..log.position] == log.history[..log.position];
    FlushIsExact(pushed, n);
    FlushKeepsConsistent(pushed);
    hide Batch, FlushedFrom, Flushed, Fits, SizeReached;
  }

  /** When every flush of a run fits, whatever the pace of the pushes, the file holds exactly the entries before the
      cursor: none lost, repeated or out of order. */
  lemma {:induction false} FittingRunIsConsistent<T>(log: Log<T>, turns: seq<Round<T>>, n: nat)
    requires n > 0 && Consistent(log) && FitsThroughout(log, turns, n)
    ensures Consistent(AfterTurns(log, turns, n))
    decreases |turns|
  {
    if turns != [] {
      TurnKeepsConsistent(log, turns[0], n);
      hide Consistent, TurnFits, AfterTurn;
      FittingRunIsConsistent(AfterTurn(log, turns[0], n), turns[1..], n);
    }
  }

  /** The file has a wrong entry at p, before the cursor. */
  predicate WrongAt<T(==)>(log: Log<T>, p: nat) {
    p < log.position && p < |log.written| && p < |log.history| && log.written[p] != log.history[p]
  }

  lemma Grows<T>(log: Log<T>, round: Round<T>, n: nat)
    requires n > 0
    ensures var next := AfterTurn(log, round, n);
      log.history <= next.history && log.written <= next.written && log.position <= next.position
  {
    assert log.written + [] == log.written;
  }

  lemma {:induction false} HistoryGrows<T>(log: Log<T>, turns: seq<Round<T>>, n: nat)
    requires n > 0
    ensures log.history <= AfterTurns(log, turns, n).history
    decreases |turns|
  {
    if turns != [] {
      Grows(log, turns[0], n);
      hide AfterTurn;
      HistoryGrows(AfterTurn(log, turns[0], n), turns[1..], n);
    }
  }

  /** A wrong entry stays in the file. */
  lemma {:induction false} WrongStays<T>(log: Log<T>, turns: seq<Round<T>>, n: nat, p: nat)
    requires n > 0 && WrongAt(log, p)
    ensures WrongAt(AfterTurns(log, turns, n), p)
    decreases |turns|
  {
    if turns != [] {
      Grows(log, turns[0], n);
      hide AfterTurn;
      WrongStays(AfterTurn(log, turns[0], n), turns[1..], n, p);
    }
  }

  /** A flush that does not fit writes a newer entry where the oldest pending one belongs. */
  lemma LappedFlushIsWrong<T>(log: Log<T>, n: nat)
    requires n > 0 && Consistent(log) && Distinct(log.history) && !Fits(log, n)
    ensures WrongAt(FlushedFrom(log, n), log.position)
  {
    var head := |log.history| - 1;
    assert NewestAt(log.position, head, n) > log.position;
    assert Batch(log, n)[0] == log.history[NewestAt(log.position, head, n)];
  }

  /** With all entries different, a run leaves a wrong entry in the file if and only if one of its flushes did not
      fit; otherwise the file is exact. */
  lemma {:induction false} RunIsConsistentExactly<T>(log: Log<T>, turns: seq<Round<T>>, n: nat)
    requires n > 0 && Consistent(log) && Distinct(AfterTurns(log, turns, n).history)
    ensures FitsThroughout(log, turns, n) ==> Consistent(AfterTurns(log, turns, n))
    ensures !FitsThroughout(log, turns, n) ==> exists p :: WrongAt(AfterTurns(log, turns, n), p)
    decreases |turns|
  {
    if FitsThroughout(log, turns, n) {
      FittingRunIsConsistent(log, turns, n);
    } else {
      var round := turns[0];
      var next := AfterTurn(log, round, n);
      HistoryGrows(next, turns[1..], n);
      if TurnFits(log, round, n) {
        TurnKeepsConsistent(log, round, n);
        RunIsConsistentExactly(next, turns[1..], n);
      } else {
        var pushed := Pushed(log, round.pushed);
        assert next == FlushedFrom(pushed, n) && next.history == pushed.history;
        assert pushed.history[..log.position] == log.history[..log.position];
        LappedFlushIsWrong(pushed, n);
        WrongStays(next, turns[1..], n, log.position);
      }
      hide AfterTurn, Consistent, WrongAt, TurnFits, Distinct;
    }
  }

  ghost predicate GapsWithin<T>(turns: seq<Round<T>>, gap: nat) {
    forall i :: 0 <= i < |turns| ==> |turns[i].pushed| <= gap
  }

  /** Few enough entries are left pending after every turn. */
  ghost predicate Caught<T>(log: Log<T>, n: nat) {
    Consistent(log) && |log.history| - log.position <= n / 2
  }

  lemma TurnStaysCaught<T>(log: Log<T>, round: Round<T>, n: nat)
    requires n >= 2 && Caught(log, n) && |round.pushed| <= n / 2
    ensures TurnFits(log, round, n) && Caught(AfterTurn(log, round, n), n)
  {
    var pushed := Pushed(log, round.pushed);
    TurnKeepsConsistent(log, round, n);
    FlushIsExact(pushed, n);
    hide Batch, FlushedFrom;
  }

  lemma {:induction false} PolledRunFits<T>(log: Log<T>, turns: seq<Round<T>>, n: nat)
    requires n >= 2 && Caught(log, n) && GapsWithin(turns, n / 2)
    ensures FitsThroughout(log, turns, n) && Caught(AfterTurns(log, turns, n), n)
    decreases |turns|
  {
    if turns != [] {
      TurnStaysCaught(log, turns[0], n);
      assert forall i :: 0 <= i < |turns[1..]| ==> turns[1..][i] == turns[i + 1];
      PolledRunFits(AfterTurn(log, turns[0], n), turns[1..], n);
    }
  }

  /** Polled at least once every n/2 pushes, all of them finished by then, the logger never loses, repeats or
      reorders an entry. */
  lemma PolledRunIsSafe<T>(log: Log<T>, turns: seq<Round<T>>, n: nat)
    requires n >= 2 && Caught(log, n) && GapsWithin(turns, n / 2)
    ensures Consistent(AfterTurns(log, turns, n)) && Caught(AfterTurns(log, turns, n), n)
  {
    PolledRunFits(log, turns, n);
    FittingRunIsConsistent(log, turns, n);
  }

  function Repeat<T>(x: T, k: nat): (s: seq<T>)
    ensures |s| == k
  {
    seq(k, _ => x)
  }

  /** Half the ring is exactly the gap between polls at which no run loses, repeats or reorders an entry. */
  lemma HalfARingIsTheGap<T(!new)>(x: T, y: T, n: nat, gap: nat)
    requires n >= 4 && n % 2 == 0 && x != y
    ensures (forall turns: seq<Round<T>> | GapsWithin(turns, gap) :: Consistent(AfterTurns(Log([], 0, []), turns, n)))
            <==> gap <= n / 2
  {
    if gap <= n / 2 {
      forall turns: seq<Round<T>> | GapsWithin(turns, gap)
        ensures Consistent(AfterTurns(Log([], 0, []), turns, n))
      {
        PolledRunIsSafe(Log([], 0, []), turns, n);
      }
    } else {
      var first, second := Round(Repeat(x, n / 2), false), Round(Repeat(x, n / 2) + [y], false);
      var turns := [first, second];
      assert GapsWithin(turns, gap);
      assert turns[1..] == [second] && turns[1..][1..] == [];
      var log := AfterTurn(Log([], 0, []), first, n);
      assert log == Log([] + Repeat(x, n / 2), 0, []);
      LappedFlush(log, second, x, y, n);
      assert AfterTurns(Log([], 0, []), turns, n) == AfterTurns(log, [second], n);
      assert AfterTurns(log, [second], n) == AfterTurn(log, second, n);
    }
  }

  /** One entry too many: the flush writes the newest entry where the oldest belongs. */
  lemma LappedFlush<T>(log: Log<T>, round: Round<T>, x: T, y: T, n: nat)
    requires n >= 4 && n % 2 == 0 && x != y
    requires log == Log(Repeat(x, n / 2), 0, []) && round == Round(Repeat(x, n / 2) + [y], false)
    ensures !Consistent(AfterTurn(log, round, n))
  {
    var pushed := Pushed(log, round.pushed);
    assert |pushed.history| == n + 1 && pushed.history[0] == x && pushed.history[n] == y;
    assert NewestAt(0, n, n) == NewestAt(n, n, n) == n;
    assert Batch(pushed, n)[0] == y;
    assert FlushedFrom(pushed, n).written[0] == y && FlushedFrom(pushed, n).history[0] == x;
  }

  /** The last flush, at shutdown, leaves everything that was ever pushed in the file if every flush fits, unless that
      is a single entry: a read head of 0 looks empty. With all entries different, only then. */
  lemma ShutdownWritesAll<T>(turns: seq<Round<T>>, n: nat)
    requires n > 0
    ensures var log := AfterTurns(Log([], 0, []), turns, n);
      FitsThroughout(Log([], 0, []), turns, n) && Fits(log, n) && |log.history| != 1 ==>
      FlushedFrom(log, n).written == log.history
    ensures var log := AfterTurns(Log([], 0, []), turns, n);
      Distinct(log.history) && FlushedFrom(log, n).written == log.history ==>
      FitsThroughout(Log([], 0, []), turns, n) && Fits(log, n)
    ensures var log := AfterTurns(Log([], 0, []), turns, n);
      |log.history| == 1 ==> FlushedFrom(log, n).written == []
  {
    var start: Log<T> := Log([], 0, []);
    var log := AfterTurns(start, turns, n);
    if FitsThroughout(start, turns, n) {
      FittingRunIsConsistent(start, turns, n);
    }
    if Fits(log, n) {
      FlushIsExact(log, n);
      if Consistent(log) {
        FlushKeepsConsistent(log);
      }
    }
    if |log.history| == 1 {
      SingleEntryWaits(start, turns, n);
    }
    if Distinct(log.history) {
      RunIsConsistentExactly(start, turns, n);
      if Consistent(log) && !Fits(log, n) {
        LappedFlushIsWrong(log, n);
      }
    }
    hide AfterTurns, Batch, Consistent, Distinct, FitsThroughout;
  }

  /** Polled often enough, the shutdown flush leaves everything in the file if and only if that is not one entry. */
  lemma PolledShutdown<T>(turns: seq<Round<T>>, n: nat)
    requires n >= 2 && GapsWithin(turns, n / 2)
    ensures var log := AfterTurns(Log([], 0, []), turns, n);
      FlushedFrom(log, n).written == log.history <==> |log.history| != 1
  {
    PolledRunFits(Log([], 0, []), turns, n);
    ShutdownWritesAll(turns, n);
  }

  /** As long as there is at most one entry the cursor stays at 0 and nothing is written. */
  lemma {:induction false} SingleEntryWaits<T>(log: Log<T>, turns: seq<Round<T>>, n: nat)
    requires n > 0 && |AfterTurns(log, turns, n).history| <= 1 && log.position == 0 && log.written == []
    ensures AfterTurns(log, turns, n).position == 0 && AfterTurns(log, turns, n).written == []
    decreases |turns|
  {
    if turns != [] {
      HistoryGrows(AfterTurn(log, turns[0], n), turns[1..], n);
      SingleEntryWaits(AfterTurn(log, turns[0], n), turns[1..], n);
    }
  }

  /** A snapshot of the ring at rest, from the cursor on, is the batch. */
  lemma SnapshotIsBatch<T>(r: Ring<T>, log: Log<T>)
    requires AtRest(r, log.history)
    ensures Snapshot(r, 0, log.position) == Batch(log, |r.slots|)
  {
    SnapshotAtRest(r, log.history, 0, log.position);
    hide AtRest, Snapshot;
  }

  /** The state of the log file's stream. A stream that was never opened has not failed yet: its first write fails. */
  datatype Stream = Unopened | Open | Failed

  function StreamAfter<T>(stream: Stream, batch: seq<T>): Stream {
    if stream == Unopened && batch != [] then Failed else stream
  }

  /** A flush, whatever the stream: nothing once it has failed, and a batch that moves the cursor but goes nowhere when
      it was never opened. */
  function FlushedTo<T>(log: Log<T>, stream: Stream, n: nat): Log<T>
    requires n > 0
  {
    match stream
    case Open => FlushedFrom(log, n)
    case Unopened => log.(position := log.position + |Batch(log, n)|)
    case Failed => log
  }

  /** A flush before the file is opened loses exactly the entries it finds: the file stays consistent if and only if
      there are none. */
  lemma EarlyFlush<T>(log: Log<T>, n: nat)
    requires n > 0 && Consistent(log)
    ensures Consistent(FlushedTo(log, Unopened, n)) <==> Batch(log, n) == []
    ensures Batch(log, n) == [] <==> |log.history| <= 1 || log.position > Head(log)
  {
    if Consistent(FlushedTo(log, Unopened, n)) {
      assert |log.written| == log.position + |Batch(log, n)|;
    }
  }

  /** As long as the clock neither runs backwards nor wraps, a poll flushes when ten seconds are over or half a ring is
      pending behind the newest entry. */
  lemma PollIsTimely<T>(log: Log<T>, now: nat, last: nat, n: nat)
    requires last <= now < 0x1_0000_0000_0000_0000 && n >= 2 && log.position <= |log.history|
    ensures Elapsed(now, last) >= FLUSH_INTERVAL_MS <==> now >= last + 10000
    ensures SizeReached(log, n) <==> |log.history| - 1 - log.position >= n / 2
  {
  }

  /** A clock that has been set back looks like one that has run far ahead: the next poll flushes, unless it is within
      ten seconds of having wrapped all the way round. */
  lemma ClockSetBack(now: nat, last: nat)
    requires now < last < 0x1_0000_0000_0000_0000
    ensures Elapsed(now, last) >= FLUSH_INTERVAL_MS <==> last - now <= 0x1_0000_0000_0000_0000 - 10000
  {
  }

  /** A flush of a file that is exact so far leaves all of two or more entries in it, when the pending ones fit the
      ring. */
  lemma DueFlushWritesAll<T>(log: Log<T>, n: nat)
    requires n > 0
    ensures Consistent(log) && |log.history| - log.position <= n && |log.history| >= 2 ==>
      FlushedFrom(log, n).written == log.history && FlushedFrom(log, n).position == |log.history|
  {
    if Consistent(log) && |log.history| - log.position <= n && |log.history| >= 2 {
      FlushIsExact(log, n);
      FlushKeepsConsistent(log);
      hide Batch, FlushedFrom;
    }
  }

  class Logger<T> {
    const ring: SlidingRing<T>
    var stream: Stream
    var lastFlushPos: nat
    var lastFlushTime: nat
    /** The log file's entries. */
    var written: seq<T>
    ghost var history: seq<T>

    ghost predicate Valid()
      reads this, ring, ring.buffer
    {
      ring.buffer.Length >= 16 && AtRest(ring.Value(), history) && lastFlushPos <= |history|
    }

    ghost function Value(): Log<T>
      reads this
    {
      Log(history, lastFlushPos, written)
    }

    constructor (size: nat, empty: T)
      requires size >= 16
      ensures Valid() && Value() == Log([], 0, []) && stream == Unopened && ring.buffer.Length == size
      ensures fresh(ring) && fresh(ring.buffer)
    {
      ring := new SlidingRing(size, empty);
      stream, lastFlushPos, lastFlushTime, written, history := Unopened, 0, 0, [], [];
    }

    /** Opens the log file, which may fail; success clears an earlier failure. An open file cannot be opened again. */
    method CreateLog(success: bool)
      requires Valid()
      modifies this`stream
      ensures Valid() && Value() == old(Value())
      ensures stream == if success && old(stream) != Open then Open else Failed
    {
      stream := if success && stream != Open then Open else Failed;
    }

    method PushEntry(entry: T)
      requires Valid()
      modifies this`history, ring, ring.buffer
      ensures Valid() && Value() == Pushed(old(Value()), [entry])
    {
      ring.Push(entry, 0, history);
      history := history + [entry];
    }

    /** test_flush_size. */
    method TestFlushSize() returns (reached: bool)
      requires Valid()
      ensures reached <==> SizeReached(Value(), ring.buffer.Length)
      ensures reached <==> |history| - 1 - lastFlushPos >= ring.buffer.Length / 2
    {
      var head := ring.readHead;
      reached := head >= lastFlushPos && head - lastFlushPos >= ring.buffer.Length / 2;
    }

    /** Writes entries to the stream as it is. */
    method WriteAll(entries: seq<T>)
      modifies this`written, this`stream
      ensures stream == StreamAfter(old(stream), entries)
      ensures written == if old(stream) == Open then old(written) + entries else old(written)
    {
      for i := 0 to |entries|
        invariant stream == StreamAfter(old(stream), entries[..i])
        invariant written == if old(stream) == Open then old(written) + entries[..i] else old(written)
      {
        if stream == Open {
          written := written + [entries[i]];
        } else {
          stream := Failed;
        }
      }
      assert entries[..|entries|] == entries;
    }

    /** One flush: the batch found in the ring goes to the stream and the cursor past it, unless the stream has
        failed. */
    method Flush(now: nat)
      requires Valid()
      modifies this`lastFlushPos, this`lastFlushTime, this`written, this`stream
      ensures Valid() && lastFlushTime == if old(stream) == Failed then old(lastFlushTime) else now
      ensures Value() == FlushedTo(old(Value()), old(stream), ring.buffer.Length)
      ensures stream == StreamAfter(old(stream), Batch(old(Value()), ring.buffer.Length))
      ensures old(stream) == Failed ==> Value() == old(Value()) && stream == Failed
      ensures old(stream) == Unopened ==> written == old(written)
      ensures old(stream) == Unopened && |history| >= 2 && old(lastFlushPos) < |history| ==>
        stream == Failed && lastFlushPos > old(lastFlushPos)
    {
      hide AtRest, Batch, Snapshot;
      BatchWithin(Value(), ring.buffer.Length);
      BatchSome(Value(), ring.buffer.Length);
      if stream == Failed {
        return;
      }
      SnapshotIsBatch(ring.Value(), Value());
      var snapshot := ring.SnapshotRange(0, lastFlushPos, history);
      if |snapshot| == 0 {
        lastFlushTime := now;
        return;
      }
      WriteAll(snapshot);
      lastFlushPos := lastFlushPos + |snapshot|;
      lastFlushTime := now;
    }

    /** One turn of the flusher thread. */
    method Poll(now: nat)
      requires Valid()
      modifies this`lastFlushPos, this`lastFlushTime, this`written, this`stream
      ensures Valid()
      ensures var due := SizeReached(old(Value()), ring.buffer.Length) ||
                         Elapsed(now, old(lastFlushTime)) >= FLUSH_INTERVAL_MS;
        Value() == if due then FlushedTo(old(Value()), old(stream), ring.buffer.Length) else old(Value())
      ensures old(stream) == Open ==> stream == Open
      ensures old(stream) == Failed ==> Value() == old(Value()) && stream == Failed
      ensures old(stream) == Open ==>
        Value() == AfterTurn(old(Value()), Round([], Elapsed(now, old(lastFlushTime)) >= FLUSH_INTERVAL_MS),
                             ring.buffer.Length)
      ensures lastFlushTime == if old(stream) != Failed && (SizeReached(old(Value()), ring.buffer.Length) ||
                                  Elapsed(now, old(lastFlushTime)) >= FLUSH_INTERVAL_MS)
                               then now else old(lastFlushTime)
      ensures old(lastFlushTime) <= now < 0x1_0000_0000_0000_0000 && now < old(lastFlushTime) + 10000 &&
              |history| - 1 - old(lastFlushPos) < ring.buffer.Length / 2 ==>
        Value() == old(Value()) && lastFlushTime == old(lastFlushTime) && stream == old(stream)
      ensures old(lastFlushTime) <= now < 0x1_0000_0000_0000_0000 &&
              (now >= old(lastFlushTime) + 10000 || |history| - 1 - old(lastFlushPos) >= ring.buffer.Length / 2) &&
              old(stream) == Open && old(written) == history[..old(lastFlushPos)] &&
              |history| - old(lastFlushPos) <= ring.buffer.Length && |history| >= 2 ==>
        written == history && lastFlushPos == |history| && lastFlushTime == now
    {
      hide Batch, AtRest, FlushedFrom;
      ghost var log := Value();
      assert Pushed(log, []) == log;
      if lastFlushTime <= now < 0x1_0000_0000_0000_0000 {
        PollIsTimely(log, now, lastFlushTime, ring.buffer.Length);
      }
      DueFlushWritesAll(log, ring.buffer.Length);
      var reached := TestFlushSize();
      if reached || Elapsed(now, lastFlushTime) >= FLUSH_INTERVAL_MS {
        Flush(now);
      }
    }
  }

  lemma BatchSome<T>(log: Log<T>, n: nat)
    requires n > 0
    ensures |log.history| >= 2 && log.position < |log.history| ==> |Batch(log, n)| > 0
  {
  }

  lemma BatchWithin<T>(log: Log<T>, n: nat)
    requires n > 0 && log.position <= |log.history|
    ensures log.position + |Batch(log, n)| <= |log.history|
  {
  }

  lemma {:induction false} OneMoreTurn<T>(log: Log<T>, turns: seq<Round<T>>, round: Round<T>, n: nat)
    requires n > 0
    ensures AfterTurns(log, turns + [round], n) == AfterTurn(AfterTurns(log, turns, n), round, n)
    decreases |turns|
  {
    hide AfterTurn;
    if turns == [] {
      assert turns + [round] == [round] && [round][1..] == [];
    } else {
      assert (turns + [round])[1..] == turns[1..] + [round];
      OneMoreTurn(AfterTurn(log, turns[0], n), turns[1..], round, n);
    }
  }

  lemma PushedTogether<T>(log: Log<T>, entries: seq<T>, timeUp: bool, n: nat)
    requires n > 0
    ensures AfterTurn(Pushed(log, entries), Round([], timeUp), n) == AfterTurn(log, Round(entries, timeUp), n)
    ensures Pushed(log, []) == log
  {
    assert Pushed(Pushed(log, entries), []) == Pushed(log, entries);
    assert log.history + [] == log.history;
  }

  lemma PushedOneMore<T>(log: Log<T>, entries: seq<T>, entry: T)
    ensures Pushed(Pushed(log, entries), [entry]) == Pushed(log, entries + [entry])
  {
    assert log.history + entries + [entry] == log.history + (entries + [entry]);
  }

  /** The turns follow their times: `flushes[i]` is the time of the last flush before turn i, whose interval is over
      ten seconds after it, and a turn flushes when it is over or half a ring is pending. */
  ghost predicate Timed<T>(log: Log<T>, turns: seq<Round<T>>, times: seq<nat>, flushes: seq<nat>, n: nat)
    requires n > 0
  {
    |turns| <= |times| && |flushes| == |turns| + 1 &&
    forall i :: 0 <= i < |turns| ==> TimedAt(AfterTurns(log, turns[..i], n), turns[i], times[i], flushes[i],
                                             flushes[i + 1], n)
  }

  predicate TimedAt<T>(before: Log<T>, round: Round<T>, now: nat, last: nat, next: nat, n: nat) {
    (last <= now < 0x1_0000_0000_0000_0000 ==> (round.timeUp <==> now >= last + 10000)) &&
    next == if round.timeUp || |before.history| + |round.pushed| - 1 - before.position >= n / 2 then now else last
  }

  lemma TimedOneMore<T>(log: Log<T>, turns: seq<Round<T>>, round: Round<T>, times: seq<nat>, flushes: seq<nat>,
                        next: nat, n: nat)
    requires n > 0 && Timed(log, turns, times, flushes, n) && |turns| < |times|
    requires TimedAt(AfterTurns(log, turns, n), round, times[|turns|], flushes[|turns|], next, n)
    ensures Timed(log, turns + [round], times, flushes + [next], n)
  {
    hide AfterTurns, TimedAt;
    assert (turns + [round])[..|turns|] == turns;
    assert forall i :: 0 <= i < |turns| ==> (turns + [round])[..i] == turns[..i];
  }

  /** Pushes entries one after the other. */
  method PushAll<T>(logger: Logger<T>, entries: seq<T>)
    requires logger.Valid()
    modifies logger`history, logger.ring, logger.ring.buffer
    ensures logger.Valid() && logger.Value() == Pushed(old(logger.Value()), entries)
  {
    hide AtRest;
    ghost var before := logger.Value();
    assert before.history + [] == before.history;
    for j := 0 to |entries|
      invariant logger.Valid() && logger.Value() == Pushed(before, entries[..j])
    {
      PushedOneMore(before, entries[..j], entries[j]);
      logger.PushEntry(entries[j]);
      assert entries[..j + 1] == entries[..j] + [entries[j]];
    }
    assert entries[..|entries|] == entries;
  }

  /** A logger with an open file serving batches of entries, polled at the given time after each. */
  method Serve<T>(logger: Logger<T>, batches: seq<seq<T>>, times: seq<nat>) returns (ghost turns: seq<Round<T>>,
                                                                                   ghost flushes: seq<nat>)
    requires logger.Valid() && logger.stream == Open && |batches| == |times|
    modifies logger, logger.ring, logger.ring.buffer
    ensures logger.Valid() && logger.stream == Open && |turns| == |batches|
    ensures forall i :: 0 <= i < |turns| ==> turns[i].pushed == batches[i]
    ensures logger.Value() == AfterTurns(old(logger.Value()), turns, logger.ring.buffer.Length)
    ensures flushes != [] && flushes[0] == old(logger.lastFlushTime)
    ensures Timed(old(logger.Value()), turns, times, flushes, logger.ring.buffer.Length)
  {
    hide AfterTurn, AtRest, TimedAt, Timed;
    ghost var start, n := logger.Value(), logger.ring.buffer.Length;
    turns, flushes := [], [logger.lastFlushTime];
    TimedNone(start, times, logger.lastFlushTime, n);
    for i := 0 to |batches|
      invariant logger.Valid() && logger.stream == Open && |turns| == i && |flushes| == i + 1
      invariant forall j :: 0 <= j < i ==> turns[j].pushed == batches[j]
      invariant logger.Value() == AfterTurns(start, turns, n)
      invariant flushes[0] == old(logger.lastFlushTime) && flushes[i] == logger.lastFlushTime
      invariant Timed(start, turns, times, flushes, n)
    {
      ghost var before, last := logger.Value(), logger.lastFlushTime;
      ghost var timeUp := Elapsed(times[i], last) >= FLUSH_INTERVAL_MS;
      ghost var round := Round(batches[i], timeUp);
      PushAll(logger, batches[i]);
      PushedTogether(before, batches[i], timeUp, n);
      logger.Poll(times[i]);
      OneMoreTurn(start, turns, round, n);
      TurnIsTimed(before, round, times[i], last, n);
      TimedOneMore(start, turns, round, times, flushes, logger.lastFlushTime, n);
      turns, flushes := turns + [round], flushes + [logger.lastFlushTime];
    }
  }

  lemma TimedNone<T>(log: Log<T>, times: seq<nat>, last: nat, n: nat)
    requires n > 0
    ensures Timed(log, [], times, [last], n)
  {
  }

  lemma TurnIsTimed<T>(before: Log<T>, round: Round<T>, now: nat, last: nat, n: nat)
    requires n >= 2 && before.position <= |before.history|
    requires round.timeUp <==> Elapsed(now, last) >= FLUSH_INTERVAL_MS
    ensures TimedAt(before, round, now, last,
                    if SizeReached(Pushed(before, round.pushed), n) || round.timeUp then now else last, n)
  {
    if last <= now < 0x1_0000_0000_0000_0000 {
      PollIsTimely(before, now, last, n);
    }
  }
}
