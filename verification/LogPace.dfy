/** How fast pushes may come for the logger's file to be right whatever the interleaving with its flusher. */
module LogPace {
  import opened Arithmetic
  import opened SlidingRing
  import opened LogRace

  predicate Reserves<T>(a: Action<T>) {
    a.Push? && a.event.Reserve?
  }

  /** Every reservation finds fewer than k pushes under way and fewer than m entries reserved beyond the cursor. */
  ghost predicate Paced<T>(l: Live<T>, actions: seq<Action<T>>, k: nat, m: nat)
    requires l.sys.ring.slots != [] && Happens(l, actions)
    decreases |actions|
  {
    actions == [] ||
    ((Reserves(actions[0]) ==> |l.sys.threads| < k && l.sys.ring.pushHead < l.position + m) &&
     Paced(Act(l, actions[0]), actions[1..], k, m))
  }

  // One push at a time.

  /** What a run keeps in which one push is under way at a time and no more than a ring is pending: the push under way
      has the last index, and the flusher reads up to a head that it has seen stored. */
  ghost predicate Orderly<T>(l: Live<T>, initial: seq<T>) {
    Sound(l, initial) && Exact(l) && l.sys.ring.pushHead <= l.position + |l.sys.ring.slots| &&
    (forall t :: t in l.sys.threads ==> l.sys.threads[t].index + 1 == l.sys.ring.pushHead) &&
    (l.left > 0 ==> 0 < l.sys.ring.readHead && Cursor(l) + l.left <= l.sys.ring.readHead + 1)
  }

  /** Every index that no thread is still to store is stored. */
  lemma OtherwiseStored<T>(s: System<T>, i: nat)
    requires Inv(s) && i < s.ring.pushHead
    requires forall t :: t in s.threads ==> s.threads[t].index != i
    ensures i in s.stored
  {
  }

  lemma EmptyIsNothing<T>(threads: map<nat, Pusher<T>>)
    requires |threads| == 0
    ensures threads == map[]
  {
  }

  /** A reservation made alone laps nothing. */
  lemma AloneNoLap<T>(s: System<T>, e: Event<T>)
    requires Inv(s) && (e.Reserve? ==> s.threads == map[])
    ensures !Laps(s, e, |s.ring.slots|)
  {
    var n := |s.ring.slots|;
    if e.Reserve? && s.ring.pushHead >= n {
      OtherwiseStored(s, s.ring.pushHead - n);
    }
    hide Inv;
  }

  /** The flusher reads stored indexes only. */
  lemma OrderlyReadIsClean<T>(l: Live<T>, initial: seq<T>)
    requires Orderly(l, initial) && Possible(l, Read)
    ensures Clean(l)
  {
    var i := Cursor(l);
    if i < l.sys.ring.readHead {
      OtherwiseStored(l.sys, i);
    }
    StoredReadIsClean(l);
    hide NewestHeld, NoLap, Untouched, Clean, Exact;
  }

  /** A push's own steps leave the other threads, the last index and the flusher alone and never lower the head. */
  lemma PushLeaves<T>(s: System<T>, e: Event<T>, t: nat)
    requires Inv(s) && Enabled(s, e) && t in Step(s, e).threads
    ensures e.Reserve? ==> Step(s, e).ring.pushHead == s.ring.pushHead + 1
    ensures !e.Reserve? ==> Step(s, e).ring.pushHead == s.ring.pushHead
    ensures e.Reserve? && t == e.tid ==> Step(s, e).threads[t].index == s.ring.pushHead
    ensures !(e.Reserve? && t == e.tid) ==> t in s.threads && Step(s, e).threads[t].index == s.threads[t].index
  {
  }

  lemma HeadsAfter<T>(s: System<T>, e: Event<T>)
    requires Inv(s) && Enabled(s, e)
    ensures Step(s, e).ring.pushHead == s.ring.pushHead + if e.Reserve? then 1 else 0
    ensures |Step(s, e).ring.slots| == |s.ring.slots| && s.ring.readHead <= Step(s, e).ring.readHead
  {
    StepKeepsInv(s, e);
    hide Inv;
  }

  lemma PushKeepsOrderly<T>(l: Live<T>, e: Event<T>, initial: seq<T>)
    requires Orderly(l, initial) && Enabled(l.sys, e)
    requires e.Reserve? ==> l.sys.threads == map[] && l.sys.ring.pushHead < l.position + |l.sys.ring.slots|
    ensures Orderly(Act(l, Push(e)), initial)
  {
    AloneNoLap(l.sys, e);
    ActKeepsSound(l, Push(e), initial);
    ActKeepsExact(l, Push(e), initial);
    HeadsAfter(l.sys, e);
    var m := Act(l, Push(e));
    hide Exact, NewestHeld, NoLap, Untouched;
    forall t | t in m.sys.threads
      ensures m.sys.threads[t].index + 1 == m.sys.ring.pushHead
    {
      PushLeaves(l.sys, e, t);
    }
    hide Inv, Step, Enabled, Laps;
  }

  lemma FlushKeepsOrderly<T>(l: Live<T>, a: Action<T>, initial: seq<T>)
    requires Orderly(l, initial) && Possible(l, a) && !a.Push?
    ensures Orderly(Act(l, a), initial)
  {
    if a.Read? {
      OrderlyReadIsClean(l, initial);
    }
    if a.Begin? && 0 < l.sys.ring.readHead && l.position <= l.sys.ring.readHead {
      SnapshotEntries(l.sys, l.position);
    }
    ActKeepsSound(l, a, initial);
    ActKeepsExact(l, a, initial);
    hide Inv, Exact, NewestHeld, NoLap, Untouched, Clean;
  }

  lemma {:induction false} OrderlyRun<T>(l: Live<T>, actions: seq<Action<T>>, m: nat, initial: seq<T>)
    requires Orderly(l, initial) && m <= |l.sys.ring.slots| && Happens(l, actions) && Paced(l, actions, 1, m)
    ensures Exact(Outcome(l, actions))
    decreases |actions|
  {
    if actions != [] {
      var a := actions[0];
      if a.Push? {
        EmptyOnReserve(l, a);
        PushKeepsOrderly(l, a.event, initial);
        HeadsAfter(l.sys, a.event);
      } else {
        FlushKeepsOrderly(l, a, initial);
      }
      hide Exact, Sound;
      OrderlyRun(Act(l, a), actions[1..], m, initial);
    }
  }

  lemma EmptyOnReserve<T>(l: Live<T>, a: Action<T>)
    requires Reserves(a) ==> |l.sys.threads| < 1
    ensures Reserves(a) ==> l.sys.threads == map[]
  {
    if |l.sys.threads| == 0 {
      EmptyIsNothing(l.sys.threads);
    }
  }

  // At most one entry.

  /** With a single entry ever reserved the read head stays at 0 and the flusher takes nothing. */
  ghost predicate Lone<T>(l: Live<T>) {
    Inv(l.sys) && l.sys.ring.pushHead <= 1 && l.position == 0 && l.left == 0 && Taken(l) == []
  }

  lemma ActKeepsLone<T>(l: Live<T>, a: Action<T>)
    requires Lone(l) && Possible(l, a) && (Reserves(a) ==> l.sys.ring.pushHead == 0)
    ensures Lone(Act(l, a))
  {
    if a.Push? {
      StepKeepsInv(l.sys, a.event);
      HeadsAfter(l.sys, a.event);
    } else {
      assert l.sys.ring.readHead == 0;
      assert Snapshot(l.sys.ring, 0, l.position) == [];
    }
    hide Inv, Step, Enabled;
  }

  lemma {:induction false} LoneRun<T>(l: Live<T>, actions: seq<Action<T>>, k: nat, m: nat)
    requires Lone(l) && (k == 0 || m <= 1) && Happens(l, actions) && Paced(l, actions, k, m)
    ensures Exact(Outcome(l, actions))
    decreases |actions|
  {
    if actions != [] {
      ActKeepsLone(l, actions[0]);
      LoneRun(Act(l, actions[0]), actions[1..], k, m);
    } else {
      assert [] <= l.sys.history;
    }
  }

  // The runs that go wrong.

  lemma {:induction false} Concat<T>(l: Live<T>, first: seq<Action<T>>, rest: seq<Action<T>>, k: nat, m: nat)
    requires l.sys.ring.slots != [] && Happens(l, first) && Happens(Outcome(l, first), rest)
    ensures Happens(l, first + rest) && Outcome(l, first + rest) == Outcome(Outcome(l, first), rest)
    ensures Paced(l, first, k, m) && Paced(Outcome(l, first), rest, k, m) ==> Paced(l, first + rest, k, m)
    decreases |first|
  {
    if first == [] {
      assert first + rest == rest;
    } else {
      assert (first + rest)[1..] == first[1..] + rest;
      hide Act, Possible;
      Concat(Act(l, first[0]), first[1..], rest, k, m);
    }
  }

  lemma {:induction false} NoReserves<T>(l: Live<T>, actions: seq<Action<T>>, k: nat, m: nat)
    requires l.sys.ring.slots != [] && Happens(l, actions)
    requires forall i :: 0 <= i < |actions| ==> !Reserves(actions[i])
    ensures Paced(l, actions, k, m)
    decreases |actions|
  {
    if actions != [] {
      hide Act, Possible;
      NoReserves(Act(l, actions[0]), actions[1..], k, m);
    }
  }

  lemma {:induction false} MorePaced<T>(l: Live<T>, actions: seq<Action<T>>, k: nat, m: nat, k': nat, m': nat)
    requires l.sys.ring.slots != [] && Happens(l, actions) && Paced(l, actions, k, m) && k <= k' && m <= m'
    ensures Paced(l, actions, k', m')
    decreases |actions|
  {
    if actions != [] {
      hide Act, Possible;
      MorePaced(Act(l, actions[0]), actions[1..], k, m, k', m');
    }
  }

  lemma {:induction false} ReadsReserveNothing<T>(n: nat)
    ensures forall i :: 0 <= i < |Reads<T>(n)| ==> !Reserves(Reads<T>(n)[i])
  {
    if n > 0 {
      ReadsReserveNothing<T>(n - 1);
    }
  }

  lemma FlushIsPaced<T>(l: Live<T>, k: nat, m: nat)
    requires l.sys.ring.slots != [] && Happens(l, WholeFlush(l))
    ensures Paced(l, WholeFlush(l), k, m)
  {
    ReadsReserveNothing<T>(|Snapshot(l.sys.ring, 0, l.position)|);
    hide Reads, Snapshot;
    NoReserves(l, WholeFlush(l), k, m);
  }

  lemma PushesHappen<T>(l: Live<T>, events: seq<Event<T>>)
    requires l.sys.ring.slots != [] && Runs(l.sys, events)
    ensures Happens(l, Pushes(events)) && Outcome(l, Pushes(events)) == l.(sys := Run(l.sys, events))
  {
    AfterPushes(l, events, []);
    assert Pushes(events) + [] == Pushes(events);
    hide Runs, Run, Pushes;
  }

  lemma {:induction false} PushesAre<T>(events: seq<Event<T>>)
    ensures |Pushes(events)| == |events| && forall i :: 0 <= i < |events| ==> Pushes(events)[i] == Push(events[i])
    decreases |events|
  {
    if events != [] {
      PushesAre(events[1..]);
    }
  }

  lemma SecondFirstIsPaced<T>(slots: seq<T>, a: T, b: T)
    requires |slots| >= 2 && Runs(Start(slots), SecondFirst(a, b))
    ensures Happens(Fresh(slots), Pushes(SecondFirst(a, b))) && Paced(Fresh(slots), Pushes(SecondFirst(a, b)), 2, 2)
  {
    var l, pushes := Fresh(slots), Pushes(SecondFirst(a, b));
    PushesHappen(l, SecondFirst(a, b));
    PushesAre(SecondFirst(a, b));
    hide Run, Runs, Pushes, Outcome;
    var l1 := Act(l, pushes[0]);
    assert l1.sys.threads == map[0 := Reserving(0, a)];
    assert pushes[1..][1..] == pushes[2..];
    NoReserves(Act(l1, pushes[1]), pushes[2..], 2, 2);
    assert Paced(l1, pushes[1..], 2, 2);
  }

  /** The race of two pushes keeps two under way and two entries pending. */
  lemma RaceIsPaced<T>(slots: seq<T>, a: T, b: T) returns (actions: seq<Action<T>>)
    requires |slots| >= 2 && slots[0] != a
    ensures Happens(Fresh(slots), actions) && Paced(Fresh(slots), actions, 2, 2)
    ensures !Exact(Outcome(Fresh(slots), actions))
  {
    actions := RaceLosesEntry(slots, a, b);
    var l := Fresh(slots);
    var m := l.(sys := Run(l.sys, SecondFirst(a, b)));
    PushesHappen(l, SecondFirst(a, b));
    SecondFirstIsPaced(slots, a, b);
    FlushTakesSnapshot(m);
    FlushIsPaced(m, 2, 2);
    hide Run, Runs, Pushes, WholeFlush, Snapshot, Paced, Happens, Outcome, Exact;
    Concat(l, Pushes(SecondFirst(a, b)), WholeFlush(m), 2, 2);
  }

  /** Pushes made one after another: the ring is at rest and every index stored. */
  ghost predicate Done<T>(s: System<T>, values: seq<T>) {
    AtRest(s.ring, values) && s.history == values && s.threads == map[]
  }

  lemma OnePush<T>(s: System<T>, values: seq<T>, v: T)
    requires Done(s, values)
    ensures Runs(s, WholePush(v)) && Done(Run(s, WholePush(v)), values + [v])
  {
    var es := WholePush(v);
    RunsOn(s, es, 0);
    RunsOn(s, es, 1);
    RunsOn(s, es, 2);
    RunsOn(s, es, 3);
    assert es[..0] == [] && es[..4] == es;
    PushKeepsRest(s.ring, values, v);
    RestHeads(s.ring, values);
    hide Runs, Run, AtRest;
    assert Run(s, es).threads == map[];
  }

  lemma OnePushIsPaced<T>(l: Live<T>, values: seq<T>, v: T, m: nat)
    requires Done(l.sys, values) && |values| < l.position + m
    ensures Runs(l.sys, WholePush(v)) && Happens(l, Pushes(WholePush(v)))
    ensures Outcome(l, Pushes(WholePush(v))) == l.(sys := Run(l.sys, WholePush(v)))
    ensures Paced(l, Pushes(WholePush(v)), 1, m)
  {
    OnePush(l.sys, values, v);
    PushesHappen(l, WholePush(v));
    var actions: seq<Action<T>> := Pushes(WholePush(v));
    PushesAre(WholePush(v));
    assert forall i :: 0 <= i < |actions[1..]| ==> !Reserves(actions[1..][i]);
    RestHeads(l.sys.ring, values);
    hide Run, Runs, AtRest, Outcome, Pushes, WholePush;
    NoReserves(Act(l, actions[0]), actions[1..], 1, m);
  }

  lemma {:induction false} SoloPushes<T>(slots: seq<T>, values: seq<T>, m: nat) returns (actions: seq<Action<T>>)
    requires slots != [] && |values| <= m
    ensures Happens(Fresh(slots), actions) && Paced(Fresh(slots), actions, 1, m)
    ensures var l := Outcome(Fresh(slots), actions);
      Done(l.sys, values) && l == Fresh(slots).(sys := l.sys) && |l.sys.ring.slots| == |slots|
  {
    if values == [] {
      actions := [];
    } else {
      var before, v := values[..|values| - 1], values[|values| - 1];
      var done := SoloPushes(slots, before, m);
      var l := Outcome(Fresh(slots), done);
      OnePushIsPaced(l, before, v, m);
      OnePush(l.sys, before, v);
      assert values == before + [v];
      actions := done + Pushes(WholePush(v));
      hide Done, Pushes, WholePush, Run, Runs;
      Concat(Fresh(slots), done, Pushes(WholePush(v)), 1, m);
    }
  }

  /** One entry more than the ring holds, then a flush: the last entry is written where the first belongs. */
  lemma OverflowIsPaced<T>(slots: seq<T>, a: T, b: T) returns (actions: seq<Action<T>>)
    requires slots != [] && a != b
    ensures Happens(Fresh(slots), actions) && Paced(Fresh(slots), actions, 1, |slots| + 1)
    ensures !Exact(Outcome(Fresh(slots), actions))
  {
    var n := |slots|;
    var values: seq<T> := [a] + seq(n, _ => b);
    var pushes := SoloPushes(slots, values, n + 1);
    var l := Outcome(Fresh(slots), pushes);
    FlushTakesSnapshot(l);
    FlushIsPaced(l, 1, n + 1);
    actions := pushes + WholeFlush(l);
    Concat(Fresh(slots), pushes, WholeFlush(l), 1, n + 1);
    hide Paced, Happens, Outcome, WholeFlush, Snapshot, AtRest;
    OverflowShows(l.sys.ring, values);
    var m := Outcome(Fresh(slots), actions);
    assert m.written == [] + Snapshot(l.sys.ring, 0, 0) && m.output == [];
    assert Taken(m)[0] == values[n] == b && m.sys.history[0] == values[0] == a;
  }

  /** A ring that was given one entry too many shows the last one in place of the first. */
  lemma OverflowShows<T>(r: Ring<T>, values: seq<T>)
    requires AtRest(r, values) && |values| == |r.slots| + 1
    ensures Snapshot(r, 0, 0) != [] && Snapshot(r, 0, 0)[0] == values[|r.slots|]
  {
    var n := |r.slots|;
    SnapshotAtRest(r, values, 0, 0);
    assert NewestAt(0, n, n) == NewestAt(n, n, n) == n;
    hide AtRest, Snapshot, NewestAt;
  }

  /** Whatever the interleaving, the flusher takes every entry once and in order if and only if no push is ever made,
      or a single one, or pushes come one at a time with no more than a ring of them pending. */
  lemma PaceIsExactly<T(!new)>(slots: seq<T>, a: T, b: T, k: nat, m: nat)
    requires |slots| >= 2 && slots[0] != a && a != b
    ensures (forall actions: seq<Action<T>> | Happens(Fresh(slots), actions) && Paced(Fresh(slots), actions, k, m) ::
               Exact(Outcome(Fresh(slots), actions)))
            <==> k == 0 || m <= 1 || (k == 1 && m <= |slots|)
  {
    hide Exact, Paced, Happens, Outcome;
    if k == 0 || m <= 1 || (k == 1 && m <= |slots|) {
      forall actions: seq<Action<T>> | Happens(Fresh(slots), actions) && Paced(Fresh(slots), actions, k, m)
        ensures Exact(Outcome(Fresh(slots), actions))
      {
        FreshIsSound(slots);
        if k == 0 || m <= 1 {
          LoneRun(Fresh(slots), actions, k, m);
        } else {
          OrderlyRun(Fresh(slots), actions, m, slots);
        }
      }
    } else if k >= 2 {
      var actions := RaceIsPaced(slots, a, b);
      MorePaced(Fresh(slots), actions, 2, 2, k, m);
    } else {
      var actions := OverflowIsPaced(slots, a, b);
      MorePaced(Fresh(slots), actions, 1, |slots| + 1, k, m);
    }
  }

  /** With as many pending as the ring holds, one push at a time is exactly the safe number. */
  lemma OnePushAtATime<T(!new)>(slots: seq<T>, a: T, b: T, k: nat)
    requires |slots| >= 2 && slots[0] != a && a != b
    ensures (forall actions: seq<Action<T>> |
               Happens(Fresh(slots), actions) && Paced(Fresh(slots), actions, k, |slots|) ::
               Exact(Outcome(Fresh(slots), actions)))
            <==> k <= 1
  {
    PaceIsExactly(slots, a, b, k, |slots|);
  }
}
