/** A ring buffer that any number of threads push into: one head for reserving indexes, one for publishing them. */
module SlidingRing {
  import opened Arithmetic
  import opened Sequences

  /** The shared memory. Indexes only grow; index i lives in slot i % |slots|. */
  datatype Ring<T> = Ring(slots: seq<T>, pushHead: nat, readHead: nat)

  /** m_push_head.fetch_add(1). */
  function Reserved<T>(r: Ring<T>): Ring<T> {
    r.(pushHead := r.pushHead + 1)
  }

  /** The slot store of push_. */
  function Stored<T>(r: Ring<T>, index: nat, value: T): Ring<T>
    requires r.slots != []
  {
    r.(slots := r.slots[index % |r.slots| := value])
  }

  /** m_read_head.compare_exchange_weak: it may fail for no reason. */
  function Swapped<T>(r: Ring<T>, expected: nat, index: nat, spurious: bool): Ring<T> {
    if r.readHead == expected && !spurious then r.(readHead := index) else r
  }

  /** Where a pushing thread stands: it has reserved its index, has stored its value, or has read the head. */
  datatype Pusher<T> = Reserving(index: nat, value: T) | Storing(index: nat) | Raising(index: nat, expected: nat)

  /** All threads inside push, and what has happened so far: the values by reserved index, the indexes stored. */
  datatype System<T> = System(ring: Ring<T>, threads: map<nat, Pusher<T>>, history: seq<T>, stored: set<nat>)

  /** The atomic steps of push: reserve, store, first head load, one turn of the compare-exchange loop. */
  datatype Event<T> =
    | Reserve(tid: nat, value: T)
    | Store(tid: nat)
    | LoadHead(tid: nat)
    | Turn(tid: nat, spurious: bool)

  predicate Enabled<T>(s: System<T>, e: Event<T>) {
    match e
    case Reserve(tid, _) => tid !in s.threads
    case Store(tid) => tid in s.threads && s.threads[tid].Reserving?
    case LoadHead(tid) => tid in s.threads && s.threads[tid].Storing?
    case Turn(tid, _) => tid in s.threads && s.threads[tid].Raising?
  }

  function Step<T>(s: System<T>, e: Event<T>): System<T>
    requires s.ring.slots != [] && Enabled(s, e)
  {
    match e
    case Reserve(tid, value) =>
      System(Reserved(s.ring), s.threads[tid := Reserving(s.ring.pushHead, value)], s.history + [value], s.stored)
    case Store(tid) =>
      var p := s.threads[tid];
      System(Stored(s.ring, p.index, p.value), s.threads[tid := Storing(p.index)], s.history, s.stored + {p.index})
    case LoadHead(tid) =>
      s.(threads := s.threads[tid := Raising(s.threads[tid].index, s.ring.readHead)])
    case Turn(tid, spurious) =>
      var p := s.threads[tid];
      if p.expected >= p.index then s.(threads := s.threads - {tid})
      else
        var r := Swapped(s.ring, p.expected, p.index, spurious);
        if s.ring.readHead == p.expected && !spurious then s.(ring := r, threads := s.threads - {tid})
        else s.(threads := s.threads[tid := Raising(p.index, s.ring.readHead)])
  }

  /** Thread t still has to store index i. */
  ghost predicate Waiting<T>(s: System<T>, t: nat, i: nat) {
    t in s.threads && s.threads[t].index == i && s.threads[t].Reserving?
  }

  /** Thread t has stored index i and is raising the read head to it. */
  ghost predicate Lifting<T>(s: System<T>, t: nat, i: nat) {
    t in s.threads && s.threads[t].index == i && !s.threads[t].Reserving?
  }

  /** Threads hold distinct reserved indexes; what a thread has yet to store is what its push was given. */
  ghost predicate ThreadsOk<T>(s: System<T>) {
    |s.history| == s.ring.pushHead &&
    (forall t :: t in s.threads ==> s.threads[t].index < s.ring.pushHead) &&
    (forall t, u :: t in s.threads && u in s.threads && t != u ==> s.threads[t].index != s.threads[u].index) &&
    (forall t :: t in s.threads ==>
      match s.threads[t]
      case Reserving(i, v) => i !in s.stored && s.history[i] == v
      case Storing(i) => i in s.stored
      case Raising(i, expected) => i in s.stored && expected <= s.ring.readHead)
  }

  /** Each reserved index is stored or about to be. */
  ghost predicate Accounted<T>(s: System<T>) {
    (forall i :: i in s.stored ==> i < s.ring.pushHead) &&
    (forall i: nat :: i < s.ring.pushHead && i !in s.stored ==> exists t :: Waiting(s, t, i))
  }

  /** The read head is a stored index, and every stored index beyond it is being raised to. */
  ghost predicate HeadOk<T>(s: System<T>) {
    (s.ring.readHead == 0 || s.ring.readHead in s.stored) &&
    (forall i :: i in s.stored && s.ring.readHead < i ==> exists t :: Lifting(s, t, i))
  }

  /** What every interleaving keeps. */
  ghost predicate Inv<T>(s: System<T>) {
    s.ring.slots != [] && ThreadsOk(s) && Accounted(s) && HeadOk(s)
  }

  lemma StepKeepsThreads<T>(s: System<T>, e: Event<T>)
    requires Inv(s) && Enabled(s, e)
    ensures ThreadsOk(Step(s, e)) && s.ring.readHead <= Step(s, e).ring.readHead
  {
    hide HeadOk;
  }

  lemma StepKeepsAccounted<T>(s: System<T>, e: Event<T>)
    requires Inv(s) && Enabled(s, e)
    ensures Accounted(Step(s, e))
  {
    hide HeadOk;
    var s' := Step(s, e);
    forall i: nat | i < s'.ring.pushHead && i !in s'.stored
      ensures exists t :: Waiting(s', t, i)
    {
      if i < s.ring.pushHead {
        var t :| Waiting(s, t, i);
        assert Waiting(s', t, i);
      } else {
        assert Waiting(s', e.tid, i);
      }
    }
  }

  /** A thread goes on raising the head until it is at its index. */
  lemma LiftingKept<T>(s: System<T>, e: Event<T>, t: nat, i: nat)
    requires s.ring.slots != [] && ThreadsOk(s) && Enabled(s, e) && Lifting(s, t, i)
    requires Step(s, e).ring.readHead < i
    ensures Lifting(Step(s, e), t, i)
  {
  }

  lemma HeadIsStored<T>(s: System<T>, e: Event<T>)
    requires s.ring.slots != [] && ThreadsOk(s) && Enabled(s, e)
    requires s.ring.readHead == 0 || s.ring.readHead in s.stored
    ensures Step(s, e).ring.readHead == 0 || Step(s, e).ring.readHead in Step(s, e).stored
  {
  }

  lemma NewlyStored<T>(s: System<T>, e: Event<T>, i: nat)
    requires s.ring.slots != [] && Enabled(s, e) && i in Step(s, e).stored && i !in s.stored
    ensures Lifting(Step(s, e), e.tid, i)
  {
  }

  lemma StepKeepsHead<T>(s: System<T>, e: Event<T>)
    requires Inv(s) && Enabled(s, e)
    ensures HeadOk(Step(s, e))
  {
    hide Accounted;
    var s' := Step(s, e);
    HeadIsStored(s, e);
    StepKeepsThreads(s, e);
    hide Step, ThreadsOk, Lifting;
    forall i | i in s'.stored && s'.ring.readHead < i
      ensures exists t :: Lifting(s', t, i)
    {
      if i in s.stored {
        var t :| Lifting(s, t, i);
        LiftingKept(s, e, t, i);
      } else {
        NewlyStored(s, e, i);
      }
    }
  }

  /** Every step keeps the invariant, and no step lowers the read head. */
  lemma StepKeepsInv<T>(s: System<T>, e: Event<T>)
    requires Inv(s) && Enabled(s, e)
    ensures Inv(Step(s, e)) && s.ring.readHead <= Step(s, e).ring.readHead
  {
    StepKeepsThreads(s, e);
    StepKeepsAccounted(s, e);
    StepKeepsHead(s, e);
    hide ThreadsOk, Accounted, HeadOk;
  }

  function Start<T>(slots: seq<T>): System<T> {
    System(Ring(slots, 0, 0), map[], [], {})
  }

  ghost predicate Runs<T>(s: System<T>, events: seq<Event<T>>)
    requires s.ring.slots != []
    decreases |events|
  {
    events == [] || (Enabled(s, events[0]) && Runs(Step(s, events[0]), events[1..]))
  }

  function Run<T>(s: System<T>, events: seq<Event<T>>): (t: System<T>)
    requires s.ring.slots != [] && Runs(s, events)
    ensures |t.ring.slots| == |s.ring.slots|
    decreases |events|
  {
    if events == [] then s else Run(Step(s, events[0]), events[1..])
  }

  lemma {:induction false} RunKeepsInv<T>(s: System<T>, events: seq<Event<T>>)
    requires Inv(s) && Runs(s, events)
    ensures Inv(Run(s, events)) && s.ring.readHead <= Run(s, events).ring.readHead
    decreases |events|
  {
    if events != [] {
      StepKeepsInv(s, events[0]);
      RunKeepsInv(Step(s, events[0]), events[1..]);
    }
  }

  /** Once every push has returned, whatever the interleaving, the read head is the last index. */
  lemma QuiescentHead<T>(s: System<T>)
    requires Inv(s) && s.threads == map[]
    ensures s.ring.readHead == if s.ring.pushHead == 0 then 0 else s.ring.pushHead - 1
    ensures forall i: nat :: i < s.ring.pushHead ==> i in s.stored
  {
    if s.ring.pushHead > 0 {
      assert s.ring.pushHead - 1 in s.stored;
    }
  }

  /** No index has been reserved more than d ahead of one whose store was still to come. */
  ghost predicate NoLap<T>(s: System<T>, d: nat) {
    forall i: nat :: i + d < s.ring.pushHead ==> i in s.stored
  }

  /** Every slot that was stored to holds the newest stored value of its residue. */
  ghost predicate NewestHeld<T>(s: System<T>)
    requires s.ring.slots != []
  {
    forall i :: i in s.stored && i < |s.history| && NewestOfResidue(s, i) ==>
      s.ring.slots[i % |s.ring.slots|] == s.history[i]
  }

  ghost predicate NewestOfResidue<T>(s: System<T>, i: nat)
    requires s.ring.slots != []
  {
    forall j :: j in s.stored && j % |s.ring.slots| == i % |s.ring.slots| ==> j <= i
  }

  /** Distinct indexes that share a slot are at least one ring apart. */
  lemma SameResidue(i: nat, j: nat, n: nat)
    requires n > 0 && i < j && i % n == j % n
    ensures i + n <= j
  {
    assert i == (i / n) * n + i % n && j == (j / n) * n + j % n;
    MulMono(j / n, i / n, n);
    MulLess(i / n, j / n, n);
  }

  /** A store that puts its value over a newer, different one in the same slot. */
  ghost predicate Overwrites<T>(s: System<T>, e: Event<T>)
    requires s.ring.slots != [] && Enabled(s, e)
  {
    e.Store? && exists newer :: OverwritesAt(s, s.threads[e.tid], newer)
  }

  ghost predicate OverwritesAt<T>(s: System<T>, p: Pusher<T>, newer: nat)
    requires s.ring.slots != [] && p.Reserving?
  {
    newer in s.stored && newer < |s.history| && p.index < newer && newer % |s.ring.slots| == p.index % |s.ring.slots| &&
    NewestOfResidue(s, newer) && s.history[newer] != p.value
  }

  /** A late store into a lapped slot does lose the newer value. */
  lemma LateStoreLoses<T>(s: System<T>, tid: nat, newer: nat)
    requires Inv(s) && Enabled(s, Store(tid)) && OverwritesAt(s, s.threads[tid], newer)
    ensures !NewestHeld(Step(s, Store(tid)))
  {
    assert NewestOfResidue(Step(s, Store(tid)), newer);
  }

  /** Such a store loses the newer value, and no other step loses one. */
  lemma StepKeepsNewest<T>(s: System<T>, e: Event<T>)
    requires Inv(s) && Enabled(s, e) && NewestHeld(s)
    ensures NewestHeld(Step(s, e)) <==> !Overwrites(s, e)
  {
    if Overwrites(s, e) {
      var newer :| OverwritesAt(s, s.threads[e.tid], newer);
      LateStoreLoses(s, e.tid, newer);
    } else {
      var s', n := Step(s, e), |s.ring.slots|;
      forall i | i in s'.stored && i < |s'.history| && NewestOfResidue(s', i)
        ensures s'.ring.slots[i % n] == s'.history[i]
      {
        if e.Store? && i != s.threads[e.tid].index && i % n == s.threads[e.tid].index % n {
          assert s.threads[e.tid].index in s'.stored;
          assert NewestOfResidue(s, i) && !OverwritesAt(s, s.threads[e.tid], i);
        } else if i in s.stored {
          assert NewestOfResidue(s, i);
        }
      }
    }
  }

  /** Every store in the run finds its slot without a newer, different value. */
  ghost predicate Timely<T>(s: System<T>, events: seq<Event<T>>)
    requires s.ring.slots != [] && Runs(s, events)
    decreases |events|
  {
    events == [] || (!Overwrites(s, events[0]) && Timely(Step(s, events[0]), events[1..]))
  }

  /** Every state of the run, first and last included, holds the newest values. */
  ghost predicate AlwaysNewest<T>(s: System<T>, events: seq<Event<T>>)
    requires s.ring.slots != [] && Runs(s, events)
    decreases |events|
  {
    NewestHeld(s) && (events != [] ==> AlwaysNewest(Step(s, events[0]), events[1..]))
  }

  /** A run holds the newest value in every slot at all times if and only if every store in it is timely. */
  lemma {:induction false} NewestExactlyWhenTimely<T>(s: System<T>, events: seq<Event<T>>)
    requires Inv(s) && NewestHeld(s) && Runs(s, events)
    ensures AlwaysNewest(s, events) <==> Timely(s, events)
    decreases |events|
  {
    if events != [] {
      StepKeepsInv(s, events[0]);
      StepKeepsNewest(s, events[0]);
      hide Inv, NewestHeld, Overwrites;
      if NewestHeld(Step(s, events[0])) {
        NewestExactlyWhenTimely(Step(s, events[0]), events[1..]);
      } else {
        NotNewestNow(Step(s, events[0]), events[1..]);
      }
    }
  }

  lemma NotNewestNow<T>(s: System<T>, events: seq<Event<T>>)
    requires s.ring.slots != [] && Runs(s, events) && !NewestHeld(s)
    ensures !AlwaysNewest(s, events)
  {
  }

  /** A reservation more than d ahead of an index still to be stored. */
  ghost predicate Laps<T>(s: System<T>, e: Event<T>, d: nat) {
    e.Reserve? && s.ring.pushHead >= d && s.ring.pushHead - d !in s.stored
  }

  lemma StepKeepsNoLap<T>(s: System<T>, e: Event<T>, d: nat)
    requires s.ring.slots != [] && Enabled(s, e) && NoLap(s, d) && !Laps(s, e, d)
    ensures NoLap(Step(s, e), d)
  {
  }

  /** Within a ring's size, no store comes late. */
  lemma NoLapNoLoss<T>(s: System<T>, e: Event<T>, d: nat)
    requires Inv(s) && Enabled(s, e) && NoLap(s, d) && d <= |s.ring.slots|
    ensures !Overwrites(s, e)
  {
    if Overwrites(s, e) {
      var newer :| OverwritesAt(s, s.threads[e.tid], newer);
      SameResidue(s.threads[e.tid].index, newer, |s.ring.slots|);
    }
  }

  /** Each reservation finds the index d back stored: a condition on reservations alone. */
  ghost predicate KeepsDistance<T>(s: System<T>, events: seq<Event<T>>, d: nat)
    requires s.ring.slots != [] && Runs(s, events)
    decreases |events|
  {
    events == [] || (!Laps(s, events[0], d) && KeepsDistance(Step(s, events[0]), events[1..], d))
  }

  /** Runs that keep a distance of at most the ring's size keep the newest value in every slot. */
  lemma {:induction false} RunKeepsNewest<T>(s: System<T>, events: seq<Event<T>>, d: nat)
    requires Inv(s) && NewestHeld(s) && NoLap(s, d) && d <= |s.ring.slots|
    requires Runs(s, events) && KeepsDistance(s, events, d)
    ensures Inv(Run(s, events)) && NewestHeld(Run(s, events)) && NoLap(Run(s, events), d) && Timely(s, events)
    decreases |events|
  {
    if events != [] {
      StepKeepsInv(s, events[0]);
      NoLapNoLoss(s, events[0], d);
      StepKeepsNewest(s, events[0]);
      StepKeepsNoLap(s, events[0], d);
      assert |Step(s, events[0]).ring.slots| == |s.ring.slots|;
      hide Inv, NewestHeld, NoLap, Laps, Overwrites;
      RunKeepsNewest(Step(s, events[0]), events[1..], d);
    }
  }

  lemma {:induction false} RunConcat<T>(s: System<T>, first: seq<Event<T>>, rest: seq<Event<T>>)
    requires s.ring.slots != [] && Runs(s, first) && Runs(Run(s, first), rest)
    ensures Runs(s, first + rest) && Run(s, first + rest) == Run(Run(s, first), rest)
    decreases |first|
  {
    if first == [] {
      assert first + rest == rest;
    } else {
      assert (first + rest)[1..] == first[1..] + rest;
      RunConcat(Step(s, first[0]), first[1..], rest);
    }
  }

  /** Thread 0 has reserved index 0 and not stored yet, while k later pushes of v have finished. */
  ghost predicate LeftBehind<T>(s: System<T>, n: nat, late: T, v: T, k: nat) {
    |s.ring.slots| == n && s.ring.pushHead == k + 1 == |s.history| && s.ring.readHead == k &&
    s.threads == map[0 := Reserving(0, late)] && (forall i: nat :: i in s.stored <==> 1 <= i <= k) &&
    forall i :: 1 <= i <= k ==> s.history[i] == v
  }

  /** The four steps of one undisturbed push by thread 1. */
  function WholePush<T>(v: T): seq<Event<T>> {
    [Reserve(1, v), Store(1), LoadHead(1), Turn(1, false)]
  }

  lemma PushOvertakes<T>(s: System<T>, n: nat, late: T, v: T, k: nat)
    requires n > 0 && LeftBehind(s, n, late, v, k)
    ensures Runs(s, WholePush(v)) && LeftBehind(Run(s, WholePush(v)), n, late, v, k + 1)
  {
    var events := WholePush(v);
    var a := Step(s, events[0]);
    var b := Step(a, events[1]);
    var c := Step(b, events[2]);
    var d := Step(c, events[3]);
    assert events[1..][1..] == events[2..] && events[2..][1..] == events[3..] && events[3..][1..] == [];
    assert Run(c, events[3..]) == d && Runs(c, events[3..]);
    assert Run(b, events[2..]) == d && Runs(b, events[2..]);
    assert Run(a, events[1..]) == d && Runs(a, events[1..]);
    assert d.threads == s.threads;
    assert d.stored == s.stored + {k + 1};
  }

  lemma {:induction false} PushesOvertake<T>(slots: seq<T>, late: T, v: T, k: nat) returns (events: seq<Event<T>>)
    requires slots != []
    ensures Runs(Start(slots), events) && LeftBehind(Run(Start(slots), events), |slots|, late, v, k)
  {
    if k == 0 {
      events := [Reserve(0, late)];
      assert Step(Start(slots), events[0]).threads == map[0 := Reserving(0, late)];
      assert Run(Step(Start(slots), events[0]), events[1..]) == Step(Start(slots), events[0]);
    } else {
      var before := PushesOvertake(slots, late, v, k - 1);
      PushOvertakes(Run(Start(slots), before), |slots|, late, v, k - 1);
      RunConcat(Start(slots), before, WholePush(v));
      events := before + WholePush(v);
    }
  }

  /** For every size of ring there is a run that loses the newest value of a slot: one store delayed by a whole ring
      of pushes. */
  lemma SomeRunLosesNewest<T>(slots: seq<T>, late: T, v: T) returns (events: seq<Event<T>>)
    requires slots != [] && late != v
    ensures Runs(Start(slots), events) && !NewestHeld(Run(Start(slots), events))
    ensures Run(Start(slots), events).ring.pushHead == |slots| + 1
  {
    var before := PushesOvertake(slots, late, v, |slots|);
    var s := Run(Start(slots), before);
    events := before + [Store(0)];
    RunConcat(Start(slots), before, [Store(0)]);
    RunKeepsInv(Start(slots), before);
    DivUnique(|slots|, 1, 0, |slots|);
    LateStoreLoses(s, 0, |slots|);
    assert Run(s, [Store(0)]) == Run(Step(s, Store(0)), []);
  }

  lemma {:induction false} ShortRunKeepsDistance<T>(s: System<T>, events: seq<Event<T>>, d: nat)
    requires s.ring.slots != [] && Runs(s, events) && Run(s, events).ring.pushHead <= d
    ensures s.ring.pushHead <= d && KeepsDistance(s, events, d)
    decreases |events|
  {
    if events != [] {
      ShortRunKeepsDistance(Step(s, events[0]), events[1..], d);
    }
  }

  /** The ring's size is exactly the distance at which no run from an empty ring loses a newest value. */
  lemma RingSizeIsTheDistance<T(!new)>(slots: seq<T>, late: T, v: T, d: nat)
    requires slots != [] && late != v
    ensures (forall events: seq<Event<T>> | Runs(Start(slots), events) && KeepsDistance(Start(slots), events, d) ::
               NewestHeld(Run(Start(slots), events)))
            <==> d <= |slots|
  {
    if d <= |slots| {
      forall events: seq<Event<T>> | Runs(Start(slots), events) && KeepsDistance(Start(slots), events, d)
        ensures NewestHeld(Run(Start(slots), events))
      {
        RunKeepsNewest(Start(slots), events, d);
      }
    } else {
      var events := SomeRunLosesNewest(slots, late, v);
      ShortRunKeepsDistance(Start(slots), events, d);
    }
  }

  /** How many entries a snapshot asked for `count` returns, with `available` there; 0 asks for all. */
  function SnapshotSize(count: nat, available: nat, n: nat): nat {
    var dist := Min(available, n);
    if count != 0 then Min(count, dist) else dist
  }

  /** The most that the entries there, the ring and the count asked for allow. */
  lemma SnapshotSizeIs(count: nat, available: nat, n: nat)
    ensures var size := SnapshotSize(count, available, n);
      size <= available && size <= n && (count != 0 ==> size <= count) &&
      (size == available || size == n || (count != 0 && size == count))
  {
  }

  /** A range snapshot of the ring as it stands, from index `begin` on. */
  function Snapshot<T>(r: Ring<T>, count: nat, begin: nat): (output: seq<T>)
    requires r.slots != []
  {
    if r.readHead == 0 || begin > r.readHead then []
    else
      seq(SnapshotSize(count, r.readHead - begin + 1, |r.slots|),
          i requires i >= 0 => r.slots[(begin + i) % |r.slots|])
  }

  /** Slots that no store has reached still hold what they held at first. */
  ghost predicate Untouched<T>(s: System<T>, initial: seq<T>) {
    |initial| == |s.ring.slots| &&
    forall k: nat | k < |initial| :: s.ring.slots[k] == initial[k] || exists j :: StoredAt(s, j, k)
  }

  ghost predicate StoredAt<T>(s: System<T>, j: nat, k: nat)
    requires s.ring.slots != []
  {
    j in s.stored && j % |s.ring.slots| == k
  }

  lemma StepKeepsUntouched<T>(s: System<T>, e: Event<T>, initial: seq<T>)
    requires s.ring.slots != [] && Enabled(s, e) && Untouched(s, initial)
    ensures Untouched(Step(s, e), initial)
  {
    var s' := Step(s, e);
    forall k: nat | k < |initial| && s'.ring.slots[k] != initial[k]
      ensures exists j :: StoredAt(s', j, k)
    {
      if s.ring.slots[k] != initial[k] {
        var j :| StoredAt(s, j, k);
        assert StoredAt(s', j, k);
      } else {
        assert StoredAt(s', s.threads[e.tid].index, k);
      }
    }
  }

  lemma {:induction false} RunKeepsUntouched<T>(s: System<T>, events: seq<Event<T>>, initial: seq<T>)
    requires s.ring.slots != [] && Runs(s, events) && Untouched(s, initial)
    ensures Untouched(Run(s, events), initial)
    decreases |events|
  {
    if events != [] {
      StepKeepsUntouched(s, events[0], initial);
      RunKeepsUntouched(Step(s, events[0]), events[1..], initial);
    }
  }

  /** A slot that was stored to has a newest store, among the indexes up to `bound`. */
  lemma {:induction false} NewestOfSlot<T>(s: System<T>, j: nat, k: nat, bound: nat) returns (m: nat)
    requires s.ring.slots != [] && StoredAt(s, j, k)
    requires forall i :: i in s.stored ==> i < bound
    ensures StoredAt(s, m, k) && NewestOfResidue(s, m)
    decreases bound - j
  {
    if next :| next > j && StoredAt(s, next, k) {
      m := NewestOfSlot(s, next, k, bound);
    } else {
      m := j;
      assert forall i :: i in s.stored && i % |s.ring.slots| == k ==> StoredAt(s, i, k);
    }
  }

  /** Every index of the stretch has been stored, and none of them overwritten since. */
  ghost predicate Settled<T>(s: System<T>, begin: nat, end: nat)
    requires s.ring.slots != []
  {
    forall i: nat | begin <= i < end :: i in s.stored && NewestOfResidue(s, i)
  }

  /** No pushed value is pushed again or was in the ring from the start. */
  ghost predicate AllDifferent<T>(history: seq<T>, initial: seq<T>) {
    Distinct(history) &&
    forall i, k :: 0 <= i < |history| && 0 <= k < |initial| ==> history[i] != initial[k]
  }

  lemma SettledEntry<T>(s: System<T>, i: nat)
    requires Inv(s) && NewestHeld(s) && i in s.stored && NewestOfResidue(s, i)
    ensures i < |s.history| && s.ring.slots[i % |s.ring.slots|] == s.history[i]
  {
    hide HeadOk, NewestOfResidue;
  }

  /** A slot that has changed holds the entry of some settled index. */
  lemma ChangedSlot<T>(s: System<T>, initial: seq<T>, k: nat) returns (m: nat)
    requires Inv(s) && NewestHeld(s) && Untouched(s, initial)
    requires k < |initial| && s.ring.slots[k] != initial[k]
    ensures m in s.stored && NewestOfResidue(s, m) && m < |s.history| && s.ring.slots[k] == s.history[m]
  {
    var j :| StoredAt(s, j, k);
    assert forall i :: i in s.stored ==> i < |s.history|;
    m := NewestOfSlot(s, j, k, |s.history|);
    SettledEntry(s, m);
    hide Inv, Untouched, NewestHeld, NewestOfResidue;
  }

  /** With all contents different, an entry is found in a slot only while its index is settled. */
  lemma EntryIsSettled<T>(s: System<T>, initial: seq<T>, i: nat, k: nat)
    requires Inv(s) && NewestHeld(s) && Untouched(s, initial) && AllDifferent(s.history, initial)
    requires i < |s.history| && k < |s.ring.slots| && s.ring.slots[k] == s.history[i]
    ensures i in s.stored && NewestOfResidue(s, i)
  {
    assert s.ring.slots != [] && |initial| == |s.ring.slots|;
    hide Inv, NewestHeld, NewestOfResidue, Untouched;
    assert s.history[i] != initial[k];
    var m := ChangedSlot(s, initial, k);
    SameIndex(s.history, m, i);
    hide AllDifferent, Distinct;
  }

  lemma SnapshotEntries<T>(s: System<T>, begin: nat)
    requires Inv(s) && 0 < s.ring.readHead && begin <= s.ring.readHead
    ensures s.ring.slots != []
    ensures begin + |Snapshot(s.ring, 0, begin)| <= s.ring.readHead + 1 <= |s.history|
    ensures forall i: nat | begin <= i < begin + |Snapshot(s.ring, 0, begin)| ::
      Snapshot(s.ring, 0, begin)[i - begin] == s.ring.slots[i % |s.ring.slots|]
  {
    assert s.ring.readHead < s.ring.pushHead;
  }

  /** A snapshot taken while pushes are under way shows the entries of its indexes when all of them are settled. */
  lemma SettledSnapshot<T>(s: System<T>, begin: nat)
    requires Inv(s) && NewestHeld(s) && 0 < s.ring.readHead && begin <= s.ring.readHead
    requires Settled(s, begin, begin + |Snapshot(s.ring, 0, begin)|)
    ensures begin + |Snapshot(s.ring, 0, begin)| <= s.ring.readHead + 1 <= |s.history|
    ensures Snapshot(s.ring, 0, begin) == s.history[begin..begin + |Snapshot(s.ring, 0, begin)|]
  {
    SnapshotEntries(s, begin);
    hide Inv, NewestHeld, NewestOfResidue, Snapshot;
    forall i: nat | begin <= i < begin + |Snapshot(s.ring, 0, begin)|
      ensures Snapshot(s.ring, 0, begin)[i - begin] == s.history[i]
    {
      SettledEntry(s, i);
    }
  }

  lemma ShownAt<T>(output: seq<T>, history: seq<T>, begin: nat, i: nat)
    requires begin <= i < begin + |output| <= |history| && output == history[begin..begin + |output|]
    ensures output[i - begin] == history[i]
  {
  }

  /** An index whose entry is in an exact snapshot is settled. */
  lemma ShownIsSettled<T>(s: System<T>, initial: seq<T>, begin: nat, i: nat)
    requires Inv(s) && NewestHeld(s) && 0 < s.ring.readHead && begin <= s.ring.readHead
    requires Untouched(s, initial) && AllDifferent(s.history, initial)
    requires begin <= i < begin + |Snapshot(s.ring, 0, begin)| <= |s.history|
    requires Snapshot(s.ring, 0, begin) == s.history[begin..begin + |Snapshot(s.ring, 0, begin)|]
    ensures i in s.stored && NewestOfResidue(s, i)
  {
    hide *;
    SnapshotEntries(s, begin);
    ShownAt(Snapshot(s.ring, 0, begin), s.history, begin, i);
    EntryIsSettled(s, initial, i, i % |s.ring.slots|);
  }

  /** With all contents different, only then. */
  lemma ExactSnapshot<T>(s: System<T>, initial: seq<T>, begin: nat)
    requires Inv(s) && NewestHeld(s) && 0 < s.ring.readHead && begin <= s.ring.readHead
    requires Untouched(s, initial) && AllDifferent(s.history, initial)
    ensures begin + |Snapshot(s.ring, 0, begin)| <= s.ring.readHead + 1 <= |s.history|
    ensures Snapshot(s.ring, 0, begin) == s.history[begin..begin + |Snapshot(s.ring, 0, begin)|] <==>
            Settled(s, begin, begin + |Snapshot(s.ring, 0, begin)|)
  {
    SnapshotSize0(s, begin);
    if Settled(s, begin, begin + |Snapshot(s.ring, 0, begin)|) {
      SettledSnapshot(s, begin);
    }
    hide Inv, NewestHeld, Untouched, NewestOfResidue, AllDifferent, Snapshot;
    if Snapshot(s.ring, 0, begin) == s.history[begin..begin + |Snapshot(s.ring, 0, begin)|] {
      forall i: nat | begin <= i < begin + |Snapshot(s.ring, 0, begin)|
        ensures i in s.stored && NewestOfResidue(s, i)
      {
        ShownIsSettled(s, initial, begin, i);
      }
    }
  }

  lemma SnapshotSize0<T>(s: System<T>, begin: nat)
    requires Inv(s) && 0 < s.ring.readHead && begin <= s.ring.readHead
    ensures begin + |Snapshot(s.ring, 0, begin)| <= s.ring.readHead + 1 <= |s.history|
  {
    SnapshotEntries(s, begin);
  }

  /** What holds after every run from an empty ring that keeps to its size. */
  lemma AfterKeepingRun<T>(slots: seq<T>, events: seq<Event<T>>)
    requires slots != [] && Runs(Start(slots), events) && KeepsDistance(Start(slots), events, |slots|)
    ensures var s := Run(Start(slots), events); Inv(s) && NewestHeld(s) && Untouched(s, slots)
  {
    RunKeepsNewest(Start(slots), events, |slots|);
    RunKeepsUntouched(Start(slots), events, slots);
    hide Run, Runs, KeepsDistance;
  }

  /** The same for the state that any such run ends in. */
  lemma ExactSnapshotOfRun<T>(slots: seq<T>, events: seq<Event<T>>, begin: nat)
    requires slots != [] && Runs(Start(slots), events) && KeepsDistance(Start(slots), events, |slots|)
    requires AllDifferent(Run(Start(slots), events).history, slots)
    requires 0 < Run(Start(slots), events).ring.readHead && begin <= Run(Start(slots), events).ring.readHead
    ensures var s := Run(Start(slots), events);
      begin + |Snapshot(s.ring, 0, begin)| <= |s.history| &&
      (Snapshot(s.ring, 0, begin) == s.history[begin..begin + |Snapshot(s.ring, 0, begin)|] <==>
       Settled(s, begin, begin + |Snapshot(s.ring, 0, begin)|))
  {
    hide Run, Runs, KeepsDistance, Snapshot, Settled, AllDifferent, Inv, NewestHeld, Untouched;
    AfterKeepingRun(slots, events);
    ExactSnapshot(Run(Start(slots), events), slots, begin);
  }

  /** Everything pending, when it is stored and no push has come round to it: the snapshot is exact. */
  lemma SnapshotDuringPushes<T>(s: System<T>, begin: nat)
    requires Inv(s) && NewestHeld(s) && 0 < s.ring.readHead && begin <= s.ring.readHead
    requires forall i: nat | begin <= i <= s.ring.readHead :: i in s.stored
    requires s.ring.pushHead <= begin + |s.ring.slots|
    ensures Snapshot(s.ring, 0, begin) == s.history[begin..s.ring.readHead + 1]
  {
    var n := |s.ring.slots|;
    forall i: nat | begin <= i <= s.ring.readHead
      ensures NewestOfResidue(s, i)
    {
      forall j | j in s.stored && j % n == i % n
        ensures j <= i
      {
        if i < j {
          SameResidue(i, j, n);
        }
      }
    }
    SnapshotEntries(s, begin);
    SettledSnapshot(s, begin);
  }

  /** Two pushes of which the second finishes first. */
  function SecondFirst<T>(a: T, b: T): seq<Event<T>> {
    [Reserve(0, a), Reserve(1, b), Store(1), LoadHead(1), Turn(1, false)]
  }

  /** The read head passes an index that is still to be stored, and a snapshot shows the slot's old content in place
      of the entry. */
  lemma HeadPassesStore<T>(slots: seq<T>, a: T, b: T)
    requires |slots| >= 2
    ensures Runs(Start(slots), SecondFirst(a, b))
    ensures var s := Run(Start(slots), SecondFirst(a, b));
      s.history == [a, b] && s.ring.readHead == 1 && 0 !in s.stored && Snapshot(s.ring, 0, 0) == [slots[0], b]
  {
    DivUnique(1, 0, 1, |slots|);
    DivUnique(0, 0, 0, |slots|);
    var es: seq<Event<T>> := SecondFirst(a, b);
    RunsOn(Start(slots), es, 0);
    RunsOn(Start(slots), es, 1);
    RunsOn(Start(slots), es, 2);
    RunsOn(Start(slots), es, 3);
    RunsOn(Start(slots), es, 4);
    assert es[..0] == [] && es[..5] == es;
    hide Run, Runs;
    var s := Run(Start(slots), es);
    assert s.ring == Ring(slots[1 := b], 2, 1) && s.history == [a, b] && s.stored == {1};
    assert |Snapshot(s.ring, 0, 0)| == 2;
  }

  /** One more step of a run. */
  lemma RunsOn<T>(s: System<T>, es: seq<Event<T>>, k: nat)
    requires s.ring.slots != [] && k < |es|
    ensures Runs(s, es[..k]) && Enabled(Run(s, es[..k]), es[k]) ==>
      Runs(s, es[..k + 1]) && Run(s, es[..k + 1]) == Step(Run(s, es[..k]), es[k])
  {
    if Runs(s, es[..k]) && Enabled(Run(s, es[..k]), es[k]) {
      var t := Run(s, es[..k]);
      assert [es[k]][1..] == [] && Run(t, [es[k]]) == Run(Step(t, es[k]), []);
      hide Enabled, Step;
      RunConcat(s, es[..k], [es[k]]);
      assert es[..k + 1] == es[..k] + [es[k]];
    }
  }

  /** A ring at rest after the pushes in `history`: both heads agree and the last |slots| pushes are in their slots. */
  ghost predicate AtRest<T>(r: Ring<T>, history: seq<T>) {
    r.slots != [] && r.pushHead == |history| &&
    r.readHead == (if history == [] then 0 else |history| - 1) &&
    forall i: nat :: i < |history| <= i + |r.slots| ==> r.slots[i % |r.slots|] == history[i]
  }

  /** The slots that no push has reached hold the default. */
  ghost predicate Blank<T>(r: Ring<T>, history: seq<T>, empty: T) {
    forall k: nat :: |history| <= k < |r.slots| ==> r.slots[k] == empty
  }

  /** Counting back from head around a ring of n slots: to an index still held, or past the first one. */
  lemma PlacesBack(head: nat, index: nat, n: nat)
    requires n > 0
    ensures index % n <= head ==> (head + n - index) % n == (head - index % n) % n
    ensures index % n > head ==> (head + n - index) % n > head
  {
    var back := index % n;
    assert index == (index / n) * n + back;
    if back <= head {
      var q := (head - back) / n;
      assert head - back == q * n + (head - back) % n;
      assert (q + 1 - index / n) * n == q * n + n - (index / n) * n;
      DivUnique(head + n - index, q + 1 - index / n, (head - back) % n, n);
    } else {
      assert (0 - index / n) * n == 0 - (index / n) * n;
      DivUnique(head + n - index, 0 - index / n, head + n - back, n);
    }
  }

  /** Every run that keeps its distance ends, once all pushes have returned, in a ring at rest after its history. */
  lemma QuiescentRunIsAtRest<T>(slots: seq<T>, events: seq<Event<T>>)
    requires slots != [] && Runs(Start(slots), events) && KeepsDistance(Start(slots), events, |slots|)
    requires Run(Start(slots), events).threads == map[]
    ensures AtRest(Run(Start(slots), events).ring, Run(Start(slots), events).history)
  {
    var s := Run(Start(slots), events);
    RunKeepsNewest(Start(slots), events, |slots|);
    QuiescentHead(s);
    forall i: nat | i < |s.history| <= i + |s.ring.slots|
      ensures s.ring.slots[i % |s.ring.slots|] == s.history[i]
    {
      forall j | j in s.stored && j % |s.ring.slots| == i % |s.ring.slots|
        ensures j <= i
      {
        if i < j {
          SameResidue(i, j, |s.ring.slots|);
        }
      }
      assert NewestOfResidue(s, i);
    }
  }

  /** The newest index, up to head, that shares a slot with p. */
  function NewestAt(p: nat, head: nat, n: nat): (j: nat)
    requires n > 0
    ensures p <= head ==> p <= j <= head < j + n
    decreases head - p
  {
    if p + n <= head then NewestAt(p + n, head, n) else p
  }

  lemma {:induction false} NewestAtSlot(p: nat, head: nat, n: nat)
    requires n > 0
    ensures NewestAt(p, head, n) % n == p % n
    decreases head - p
  {
    if p + n <= head {
      NewestAtSlot(p + n, head, n);
      AddModulus(p, n);
    }
  }

  /** The object. Sequential calls take a ring at rest to a ring at rest. */
  class SlidingRing<T> {
    const buffer: array<T>
    /** What the buffer is cleared to. */
    const empty: T
    var pushHead: nat
    var readHead: nat

    ghost function Value(): Ring<T>
      reads this, buffer
    {
      Ring(buffer[..], pushHead, readHead)
    }

    constructor (size: nat, empty: T)
      requires size > 0
      ensures AtRest(Value(), []) && Blank(Value(), [], empty) && buffer.Length == size && fresh(buffer)
      ensures this.empty == empty
    {
      this.empty := empty;
      buffer := new T[size](_ => empty);
      pushHead, readHead := 0, 0;
    }

    method FetchAdd() returns (index: nat)
      modifies this
      ensures index == old(pushHead) && Value() == Reserved(old(Value()))
    {
      index := pushHead;
      pushHead := pushHead + 1;
    }

    method StoreSlot(index: nat, value: T)
      requires buffer.Length > 0
      modifies buffer
      ensures Value() == Stored(old(Value()), index, value)
    {
      buffer[index % buffer.Length] := value;
    }

    /** compare_exchange_weak on the read head; on failure `seen` is what it held. */
    method CompareExchange(expected: nat, index: nat, spurious: bool) returns (ok: bool, seen: nat)
      modifies this`readHead
      ensures ok <==> old(readHead) == expected && !spurious
      ensures seen == old(readHead) && Value() == Swapped(old(Value()), expected, index, spurious)
    {
      seen := readHead;
      ok := readHead == expected && !spurious;
      if ok {
        readHead := index;
      }
    }

    /** One push without interference. The weak compare-exchange may fail any number of times first. */
    method Push(value: T, spuriousFailures: nat, ghost history: seq<T>)
      requires AtRest(Value(), history)
      modifies this, buffer
      ensures AtRest(Value(), history + [value])
      ensures old(Blank(Value(), history, empty)) ==> Blank(Value(), history + [value], empty)
    {
      hide AtRest, Blank;
      RestHeads(Value(), history);
      var index := FetchAdd();
      StoreSlot(index, value);
      var expected := readHead;
      var failures := spuriousFailures;
      var done := expected >= index;
      while !done
        invariant Value() == Stored(Reserved(old(Value())), index, value).(readHead := readHead)
        invariant done ==> readHead == index
        invariant !done ==> expected == readHead == old(readHead) < index
        decreases !done, failures
      {
        done, expected := CompareExchange(expected, index, failures > 0);
        failures := if failures > 0 then failures - 1 else 0;
      }
      PushKeepsRest(old(Value()), history, value);
      PushKeepsBlank(old(Value()), history, value, empty);
    }

    /** The entry `index` places before the newest, for any index: beyond the ring's size it comes round again, and
        a slot that no push has reached yields the default. The size divides the range of the 64-bit index
        arithmetic, so a difference below zero does not show. */
    method At(index: nat, ghost history: seq<T>) returns (value: T)
      requires AtRest(Value(), history)
      ensures index % buffer.Length < |history| ==> value == history[|history| - 1 - index % buffer.Length]
      ensures index % buffer.Length >= |history| && Blank(Value(), history, empty) ==> value == empty
    {
      PlacesBack(readHead, index, buffer.Length);
      value := buffer[(readHead + buffer.Length - index) % buffer.Length];
      ghost var back := index % buffer.Length;
      if back < |history| {
        assert Value().slots[(|history| - 1 - back) % buffer.Length] == history[|history| - 1 - back];
      }
    }

    /** The newest `count` entries, or all there are, oldest first. A read head of 0 is taken for an empty ring,
        so that a single push does not show yet. */
    method SnapshotCount(count: nat, ghost history: seq<T>) returns (output: seq<T>)
      requires AtRest(Value(), history)
      ensures |history| != 1 ==>
        output == history[|history| - SnapshotSize(count, |history|, buffer.Length)..]
      ensures |history| == 1 ==> output == []
      ensures |output| <= buffer.Length && (count != 0 ==> |output| <= count)
      ensures |history| != 1 && |output| < |history| && |output| < buffer.Length ==> count == |output|
    {
      SnapshotSizeIs(count, |history|, buffer.Length);
      var head := readHead;
      if head == 0 {
        return [];
      }
      var size := SnapshotSize(count, head + 1, buffer.Length);
      output := [];
      for i := 0 to size
        invariant output == history[|history| - size..|history| - size + i]
      {
        DivUnique(size - 1 - i, 0, size - 1 - i, buffer.Length);
        var value := At(size - 1 - i, history);
        output := output + [value];
      }
    }

    /** Up to `count` entries from index `begin` on. At rest, entries overwritten since come out as their successors. */
    method SnapshotRange(count: nat, begin: nat, ghost history: seq<T>) returns (output: seq<T>)
      requires buffer.Length > 0
      ensures output == Snapshot(Value(), count, begin)
      ensures AtRest(Value(), history) && (|history| <= 1 || begin >= |history|) ==> output == []
      ensures AtRest(Value(), history) && 1 < |history| && begin < |history| ==>
        |output| == SnapshotSize(count, |history| - begin, buffer.Length) &&
        forall i: nat | i < |output| :: output[i] == history[NewestAt(begin + i, |history| - 1, buffer.Length)]
    {
      hide AtRest, SnapshotSize;
      if AtRest(Value(), history) {
        SnapshotAtRest(Value(), history, count, begin);
      }
      var head := readHead;
      if head == 0 || begin > head {
        return [];
      }
      var size := SnapshotSize(count, head - begin + 1, buffer.Length);
      output := [];
      for i := 0 to size
        invariant |output| == i
        invariant forall k: nat | k < i :: output[k] == buffer[(begin + k) % buffer.Length]
      {
        output := output + [buffer[(begin + i) % buffer.Length]];
      }
    }
  }

  lemma SnapshotAtRest<T>(r: Ring<T>, history: seq<T>, count: nat, begin: nat)
    requires AtRest(r, history)
    ensures |history| <= 1 || begin >= |history| ==> Snapshot(r, count, begin) == []
    ensures 1 < |history| && begin < |history| ==>
      |Snapshot(r, count, begin)| == SnapshotSize(count, |history| - begin, |r.slots|) &&
      forall i: nat | i < |Snapshot(r, count, begin)| ::
        Snapshot(r, count, begin)[i] == history[NewestAt(begin + i, |history| - 1, |r.slots|)]
  {
    if 1 < |history| && begin < |history| {
      var n := |r.slots|;
      forall i: nat | i < |Snapshot(r, count, begin)|
        ensures Snapshot(r, count, begin)[i] == history[NewestAt(begin + i, |history| - 1, n)]
      {
        NewestAtSlot(begin + i, |history| - 1, n);
        assert r.slots[NewestAt(begin + i, |history| - 1, n) % n] == history[NewestAt(begin + i, |history| - 1, n)];
      }
    }
  }

  lemma RestHeads<T>(r: Ring<T>, history: seq<T>)
    requires AtRest(r, history)
    ensures r.slots != [] && r.pushHead == |history| && r.readHead == if history == [] then 0 else |history| - 1
  {
  }

  lemma PushKeepsBlank<T>(r: Ring<T>, history: seq<T>, value: T, empty: T)
    requires AtRest(r, history)
    ensures Blank(r, history, empty) ==>
            Blank(Stored(Reserved(r), r.pushHead, value).(readHead := r.pushHead), history + [value], empty)
  {
    var j, n := |history|, |r.slots|;
    if j < n {
      DivUnique(j, 0, j, n);
    }
  }

  lemma PushKeepsRest<T>(r: Ring<T>, history: seq<T>, value: T)
    requires AtRest(r, history)
    ensures var r' := Stored(Reserved(r), r.pushHead, value).(readHead := r.pushHead);
            AtRest(r', history + [value])
  {
    var n, j := |r.slots|, |history|;
    var r' := Stored(Reserved(r), r.pushHead, value).(readHead := r.pushHead);
    forall i: nat | i < j + 1 <= i + n
      ensures r'.slots[i % n] == (history + [value])[i]
    {
      if i < j && i % n == j % n {
        SameResidue(i, j, n);
        assert false;
      }
    }
  }

  /** A range snapshot of everything pending is exactly the pending entries just when they fit the ring. */
  lemma PendingInOrder<T>(history: seq<T>, begin: nat, n: nat, output: seq<T>)
    requires n > 0 && begin < |history|
    requires |output| == SnapshotSize(0, |history| - begin, n)
    requires forall i: nat | i < |output| :: output[i] == history[NewestAt(begin + i, |history| - 1, n)]
    ensures output == history[begin..] <==> |history| - 1 - begin < n
  {
    if |history| - 1 - begin < n {
      forall i: nat | i < |output|
        ensures output[i] == history[begin..][i]
      {
        assert NewestAt(begin + i, |history| - 1, n) == begin + i;
      }
    }
  }
}
