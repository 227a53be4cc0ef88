/** The logger's flusher running against pushing threads: what reaches the file when pushes are still under way. */
module LogRace {
  import opened Arithmetic
  import opened Sequences
  import opened SlidingRing

  /** The pushing threads and their ring, the flush cursor and the file, and the flush under way: what it has read
      so far and how many entries it has still to read. */
  datatype Live<T> = Live(
    sys: System<T>, position: nat, written: seq<T>, flushing: bool, output: seq<T>, left: nat)

  /** A step of a pushing thread, or one of the flusher: the head is loaded, one slot is read, the batch is written
      and the cursor moved. */
  datatype Action<T> = Push(event: Event<T>) | Begin | Read | Finish

  predicate Possible<T>(l: Live<T>, a: Action<T>) {
    match a
    case Push(event) => Enabled(l.sys, event)
    case Begin => !l.flushing
    case Read => l.flushing && l.left > 0
    case Finish => l.flushing && l.left == 0
  }

  /** The index read next. */
  function Cursor<T>(l: Live<T>): nat {
    l.position + |l.output|
  }

  function Act<T>(l: Live<T>, a: Action<T>): Live<T>
    requires l.sys.ring.slots != [] && Possible(l, a)
  {
    match a
    case Push(event) => l.(sys := Step(l.sys, event))
    case Begin => l.(flushing := true, output := [], left := |Snapshot(l.sys.ring, 0, l.position)|)
    case Read =>
      l.(output := l.output + [l.sys.ring.slots[Cursor(l) % |l.sys.ring.slots|]], left := l.left - 1)
    case Finish =>
      l.(position := Cursor(l), written := l.written + l.output, flushing := false, output := [])
  }

  ghost predicate Happens<T>(l: Live<T>, actions: seq<Action<T>>)
    requires l.sys.ring.slots != []
    decreases |actions|
  {
    actions == [] || (Possible(l, actions[0]) && Happens(Act(l, actions[0]), actions[1..]))
  }

  function Outcome<T>(l: Live<T>, actions: seq<Action<T>>): (m: Live<T>)
    requires l.sys.ring.slots != [] && Happens(l, actions)
    ensures |m.sys.ring.slots| == |l.sys.ring.slots|
    decreases |actions|
  {
    if actions == [] then l else Outcome(Act(l, actions[0]), actions[1..])
  }

  /** No reservation in the run is a whole ring ahead of a store still to come. */
  ghost predicate KeepsRing<T>(l: Live<T>, actions: seq<Action<T>>)
    requires l.sys.ring.slots != [] && Happens(l, actions)
    decreases |actions|
  {
    actions == [] ||
    ((actions[0].Push? ==> !Laps(l.sys, actions[0].event, |l.sys.ring.slots|)) &&
     KeepsRing(Act(l, actions[0]), actions[1..]))
  }

  /** The index read next is settled: stored, and not overwritten since. */
  ghost predicate Clean<T>(l: Live<T>)
    requires l.sys.ring.slots != []
  {
    Cursor(l) in l.sys.stored && NewestOfResidue(l.sys, Cursor(l))
  }

  ghost predicate AllClean<T>(l: Live<T>, actions: seq<Action<T>>)
    requires l.sys.ring.slots != [] && Happens(l, actions)
    decreases |actions|
  {
    actions == [] || ((actions[0].Read? ==> Clean(l)) && AllClean(Act(l, actions[0]), actions[1..]))
  }

  /** What every run that keeps to the ring's size keeps; the flusher stays within the entries reserved. */
  ghost predicate Sound<T>(l: Live<T>, initial: seq<T>) {
    Inv(l.sys) && NewestHeld(l.sys) && NoLap(l.sys, |l.sys.ring.slots|) && Untouched(l.sys, initial) &&
    |l.written| == l.position && Cursor(l) + l.left <= |l.sys.history| &&
    (!l.flushing ==> l.left == 0 && l.output == [])
  }

  /** Everything taken from the ring so far, in the file or on its way there. */
  function Taken<T>(l: Live<T>): seq<T> {
    l.written + l.output
  }

  lemma ActKeepsSound<T>(l: Live<T>, a: Action<T>, initial: seq<T>)
    requires Sound(l, initial) && Possible(l, a)
    requires a.Push? ==> !Laps(l.sys, a.event, |l.sys.ring.slots|)
    ensures Sound(Act(l, a), initial)
    ensures |Act(l, a).sys.ring.slots| == |l.sys.ring.slots|
    ensures l.sys.history <= Act(l, a).sys.history && Taken(l) <= Taken(Act(l, a))
  {
    match a
    case Push(e) =>
      StepKeepsInv(l.sys, e);
      NoLapNoLoss(l.sys, e, |l.sys.ring.slots|);
      StepKeepsNewest(l.sys, e);
      StepKeepsNoLap(l.sys, e, |l.sys.ring.slots|);
      StepKeepsUntouched(l.sys, e, initial);
      assert |Step(l.sys, e).ring.slots| == |l.sys.ring.slots|;
      hide Inv, NewestHeld, NoLap, Untouched, Laps, Overwrites;
    case Begin =>
      if 0 < l.sys.ring.readHead && l.position <= l.sys.ring.readHead {
        SnapshotEntries(l.sys, l.position);
      }
      hide Inv, NewestHeld, NoLap, Untouched;
    case _ =>
      hide Inv, NewestHeld, NoLap, Untouched;
  }

  /** What has been taken is what was pushed, every entry once and in order. */
  ghost predicate Exact<T>(l: Live<T>) {
    Taken(l) <= l.sys.history
  }

  lemma ActKeepsExact<T>(l: Live<T>, a: Action<T>, initial: seq<T>)
    requires Sound(l, initial) && Possible(l, a) && Exact(l) && (a.Read? ==> Clean(l))
    ensures Exact(Act(l, a))
  {
    hide NewestHeld, NoLap, Untouched, Snapshot, ThreadsOk, Accounted, HeadOk, NewestOfResidue;
    if a.Read? {
      SettledEntry(l.sys, Cursor(l));
    }
  }

  /** Over every interleaving of pushes and flushes that keeps to the ring's size, if each slot is read while its
      index is settled, the file holds every entry before the cursor once and in order. */
  lemma {:induction false} CleanRunIsExact<T>(l: Live<T>, actions: seq<Action<T>>, initial: seq<T>)
    requires Sound(l, initial) && Exact(l) && Happens(l, actions) && KeepsRing(l, actions) && AllClean(l, actions)
    ensures Sound(Outcome(l, actions), initial) && Exact(Outcome(l, actions))
    ensures Outcome(l, actions).written == Outcome(l, actions).sys.history[..Outcome(l, actions).position]
    decreases |actions|
  {
    if actions != [] {
      ActKeepsSound(l, actions[0], initial);
      ActKeepsExact(l, actions[0], initial);
      hide Sound, Exact, Clean, Laps;
      CleanRunIsExact(Act(l, actions[0]), actions[1..], initial);
    } else {
      assert l.written == Taken(l)[..l.position];
    }
  }

  /** What has been pushed and taken only grows. */
  lemma {:induction false} OutcomeGrows<T>(l: Live<T>, actions: seq<Action<T>>, initial: seq<T>)
    requires Sound(l, initial) && Happens(l, actions) && KeepsRing(l, actions)
    ensures Sound(Outcome(l, actions), initial)
    ensures l.sys.history <= Outcome(l, actions).sys.history && Taken(l) <= Taken(Outcome(l, actions))
    decreases |actions|
  {
    if actions != [] {
      ActKeepsSound(l, actions[0], initial);
      hide Sound, Laps;
      OutcomeGrows(Act(l, actions[0]), actions[1..], initial);
    }
  }

  /** Reading an index that is not settled takes a wrong entry. */
  lemma UncleanRead<T>(l: Live<T>, initial: seq<T>)
    requires Sound(l, initial) && Possible(l, Read) && AllDifferent(l.sys.history, initial) && !Clean(l)
    ensures !Exact(Act(l, Read))
  {
    var m := Act(l, Read);
    if l.sys.ring.slots[Cursor(l) % |l.sys.ring.slots|] == l.sys.history[Cursor(l)] {
      EntryIsSettled(l.sys, initial, Cursor(l), Cursor(l) % |l.sys.ring.slots|);
    }
    assert Taken(m)[Cursor(l)] != m.sys.history[Cursor(l)];
    hide Inv, NewestHeld, NoLap, Untouched, AllDifferent, NewestOfResidue;
  }

  /** A wrong entry stays. */
  lemma InexactStays<T>(l: Live<T>, m: Live<T>)
    requires |Taken(l)| <= |l.sys.history| && l.sys.history <= m.sys.history && Taken(l) <= Taken(m) && !Exact(l)
    ensures !Exact(m)
  {
  }

  lemma PartDifferent<T>(part: seq<T>, history: seq<T>, initial: seq<T>)
    requires part <= history && AllDifferent(history, initial)
    ensures AllDifferent(part, initial)
  {
  }

  /** With all contents different, what has been taken is exact at the end if and only if every slot was read while
      its index was settled. */
  lemma {:induction false} RunIsExactExactly<T>(l: Live<T>, actions: seq<Action<T>>, initial: seq<T>)
    requires Sound(l, initial) && Exact(l) && Happens(l, actions) && KeepsRing(l, actions)
    requires AllDifferent(Outcome(l, actions).sys.history, initial)
    ensures Exact(Outcome(l, actions)) <==> AllClean(l, actions)
    decreases |actions|
  {
    if actions != [] {
      var a, m := actions[0], Act(l, actions[0]);
      ActKeepsSound(l, a, initial);
      OutcomeGrows(m, actions[1..], initial);
      PartDifferent(l.sys.history, Outcome(m, actions[1..]).sys.history, initial);
      if a.Read? && !Clean(l) {
        UncleanRead(l, initial);
        InexactStays(m, Outcome(m, actions[1..]));
      } else {
        ActKeepsExact(l, a, initial);
        RunIsExactExactly(m, actions[1..], initial);
      }
      hide Inv, NewestHeld, NoLap, Untouched, Snapshot, AllDifferent, Clean, Act, Exact;
    }
  }

  function Fresh<T>(slots: seq<T>): Live<T> {
    Live(Start(slots), 0, [], false, [], 0)
  }

  lemma FreshIsSound<T>(slots: seq<T>)
    requires slots != []
    ensures Sound(Fresh(slots), slots) && Exact(Fresh(slots))
  {
  }

  /** In every run from a fresh ring. */
  lemma FreshRunIsExactExactly<T>(slots: seq<T>, actions: seq<Action<T>>)
    requires slots != [] && Happens(Fresh(slots), actions) && KeepsRing(Fresh(slots), actions)
    requires AllDifferent(Outcome(Fresh(slots), actions).sys.history, slots)
    ensures Exact(Outcome(Fresh(slots), actions)) <==> AllClean(Fresh(slots), actions)
  {
    FreshIsSound(slots);
    hide Happens, KeepsRing, Outcome, Exact, AllClean, Sound, AllDifferent;
    RunIsExactExactly(Fresh(slots), actions, slots);
  }

  /** A read is clean when its index is stored and no push has come round to it. */
  lemma StoredReadIsClean<T>(l: Live<T>)
    requires l.sys.ring.slots != [] && Cursor(l) in l.sys.stored
    requires l.sys.ring.pushHead <= Cursor(l) + |l.sys.ring.slots|
    requires forall i :: i in l.sys.stored ==> i < l.sys.ring.pushHead
    ensures Clean(l)
  {
    var i, n := Cursor(l), |l.sys.ring.slots|;
    forall j | j in l.sys.stored && j % n == i % n
      ensures j <= i
    {
      if i < j {
        SameResidue(i, j, n);
      }
    }
  }

  /** The reads of k slots and the end of a flush. */
  function Reads<T>(k: nat): seq<Action<T>> {
    if k == 0 then [Finish] else [Read] + Reads(k - 1)
  }

  lemma Then<T>(l: Live<T>, a: Action<T>, rest: seq<Action<T>>)
    requires l.sys.ring.slots != [] && Possible(l, a) && Act(l, a).sys.ring.slots != [] && Happens(Act(l, a), rest)
    ensures Happens(l, [a] + rest) && Outcome(l, [a] + rest) == Outcome(Act(l, a), rest)
  {
    assert ([a] + rest)[1..] == rest;
    hide Act, Possible;
  }

  /** The flush under way has read part of a snapshot of the ring. */
  ghost predicate ReadingOf<T>(l: Live<T>, snapshot: seq<T>) {
    l.sys.ring.slots != [] && l.flushing && |l.output| + l.left == |snapshot| && l.output == snapshot[..|l.output|] &&
    forall i: nat | i < |snapshot| :: snapshot[i] == l.sys.ring.slots[(l.position + i) % |l.sys.ring.slots|]
  }

  lemma OneRead<T>(l: Live<T>, snapshot: seq<T>)
    requires ReadingOf(l, snapshot) && l.left > 0
    ensures Possible(l, Read) && ReadingOf(Act(l, Read), snapshot)
    ensures Act(l, Read) == l.(output := Act(l, Read).output, left := l.left - 1)
  {
    var x := l.sys.ring.slots[Cursor(l) % |l.sys.ring.slots|];
    assert snapshot[|l.output|] == x;
    assert Act(l, Read).output == l.output + [x];
  }

  lemma LastStep<T>(l: Live<T>, snapshot: seq<T>)
    requires ReadingOf(l, snapshot) && l.left == 0
    ensures Happens(l, [Finish])
    ensures Outcome(l, [Finish]) == Live(l.sys, l.position + |snapshot|, l.written + snapshot, false, [], 0)
  {
    assert l.output == snapshot;
    Then(l, Finish, []);
    var last: seq<Action<T>> := [Finish];
    assert last + [] == last;
    assert Outcome(Act(l, Finish), []) == Act(l, Finish);
  }

  /** With no push in between, the reads of a flush take the snapshot. */
  lemma {:induction false} ReadsTakeSnapshot<T>(l: Live<T>, snapshot: seq<T>)
    requires ReadingOf(l, snapshot)
    ensures Happens(l, Reads(l.left))
    ensures Outcome(l, Reads(l.left)) == Live(l.sys, l.position + |snapshot|, l.written + snapshot, false, [], 0)
    decreases l.left
  {
    if l.left == 0 {
      LastStep(l, snapshot);
    } else {
      OneRead(l, snapshot);
      ReadsTakeSnapshot(Act(l, Read), snapshot);
      Then(l, Read, Reads(l.left - 1));
    }
    hide Act, Possible, Happens, Outcome, ReadingOf;
  }

  /** The steps of one flush that nothing interrupts. */
  function WholeFlush<T>(l: Live<T>): seq<Action<T>>
    requires l.sys.ring.slots != []
  {
    [Begin] + Reads(|Snapshot(l.sys.ring, 0, l.position)|)
  }

  lemma FlushTakesSnapshot<T>(l: Live<T>)
    requires l.sys.ring.slots != [] && !l.flushing && l.left == 0 && l.output == []
    ensures Happens(l, WholeFlush(l))
    ensures var snapshot := Snapshot(l.sys.ring, 0, l.position);
      Outcome(l, WholeFlush(l)) == Live(l.sys, l.position + |snapshot|, l.written + snapshot, false, [], 0)
  {
    var snapshot := Snapshot(l.sys.ring, 0, l.position);
    assert ReadingOf(Act(l, Begin), snapshot);
    ReadsTakeSnapshot(Act(l, Begin), snapshot);
    hide Reads, Snapshot, ReadingOf;
    Then(l, Begin, Reads(|snapshot|));
  }

  lemma HistoryIsReserved<T>(s: System<T>)
    requires Inv(s)
    ensures |s.history| == s.ring.pushHead
  {
  }

  /** The flush at shutdown, after the last push has finished: everything is in the file, unless the pending entries
      have outgrown the ring or there was a single push. */
  lemma ShutdownAfterPushes<T>(l: Live<T>, initial: seq<T>)
    requires Sound(l, initial) && Exact(l) && l.sys.threads == map[] && !l.flushing
    requires |l.sys.history| <= l.position + |l.sys.ring.slots| && |l.sys.history| != 1
    ensures Happens(l, WholeFlush(l)) && Outcome(l, WholeFlush(l)).written == l.sys.history
  {
    hide NewestHeld, NoLap, Untouched, WholeFlush, Outcome, Happens, ThreadsOk, Accounted, HeadOk;
    FlushTakesSnapshot(l);
    QuiescentHead(l.sys);
    HistoryIsReserved(l.sys);
    if 0 < l.sys.ring.readHead && l.position <= l.sys.ring.readHead {
      SnapshotDuringPushes(l.sys, l.position);
      hide Snapshot;
      assert l.sys.history[..l.position] + l.sys.history[l.position..] == l.sys.history;
    }
  }

  function Pushes<T>(events: seq<Event<T>>): seq<Action<T>>
    decreases |events|
  {
    if events == [] then [] else [Push(events[0])] + Pushes(events[1..])
  }

  lemma {:induction false} AfterPushes<T>(l: Live<T>, events: seq<Event<T>>, rest: seq<Action<T>>)
    requires l.sys.ring.slots != [] && Runs(l.sys, events) && Happens(l.(sys := Run(l.sys, events)), rest)
    ensures Happens(l, Pushes(events) + rest)
    ensures Outcome(l, Pushes(events) + rest) == Outcome(l.(sys := Run(l.sys, events)), rest)
    decreases |events|
  {
    if events == [] {
      assert Pushes(events) + rest == rest && l.(sys := Run(l.sys, events)) == l;
    } else {
      hide Step, Enabled;
      var m := Act(l, Push(events[0]));
      assert (Pushes(events) + rest)[1..] == Pushes(events[1..]) + rest;
      assert m.(sys := Run(m.sys, events[1..])) == l.(sys := Run(l.sys, events));
      AfterPushes(m, events[1..], rest);
    }
  }

  /** Two pushes, the second of which finishes first, and one flush: the first entry never reaches the file, though
      only two entries were pending. */
  lemma RaceLosesEntry<T>(slots: seq<T>, a: T, b: T) returns (actions: seq<Action<T>>)
    requires |slots| >= 2 && slots[0] != a
    ensures Runs(Start(slots), SecondFirst(a, b)) && Happens(Fresh(slots), actions)
    ensures actions ==
      Pushes(SecondFirst(a, b)) + WholeFlush(Fresh(slots).(sys := Run(Start(slots), SecondFirst(a, b))))
    ensures var l := Outcome(Fresh(slots), actions);
      l.sys.history == [a, b] && l.position == 2 && l.written == [slots[0], b] && !Exact(l)
  {
    HeadPassesStore(slots, a, b);
    var l := Fresh(slots).(sys := Run(Start(slots), SecondFirst(a, b)));
    FlushTakesSnapshot(l);
    AfterPushes(Fresh(slots), SecondFirst(a, b), WholeFlush(l));
    actions := Pushes(SecondFirst(a, b)) + WholeFlush(l);
    hide Run, Runs, Snapshot, WholeFlush, Outcome, Happens, Pushes;
    assert [slots[0], b][0] != [a, b][0];
  }
}
