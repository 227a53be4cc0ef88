/** The hexadecimal keypad: which keys are down, which are hidden from the held checks because a wait for input
    caught them, and the timed repeat of the last one caught. */
module Keypad {
  import opened Arithmetic
  import opened KeyBits

  datatype Keys = Keys(down: bv32, before: bv32, hidden: bv32, loop: bv32, tickLast: nat, tickSpan: nat)

  /** A new frame with the given keys down. */
  function Updated(k: Keys, held: bv32): Keys {
    var hidden := And(k.hidden, Steady(k.down, held));
    k.(down := held, before := k.down, hidden := hidden, loop := And(k.loop, hidden))
  }

  /** 32-bit unsigned arithmetic. */
  function Wrap32(n: nat): nat {
    n % TWO_TO_THE_32
  }

  /** When the repeat is due. */
  function Due(k: Keys): nat {
    Wrap32(k.tickLast + k.tickSpan)
  }

  /** The keys taken for already down: a repeat that is due forgets that its key was. */
  function Known(k: Keys, frame: nat): bv32 {
    if frame >= Due(k) then Minus(k.before, k.loop) else k.before
  }

  function Pressed(k: Keys, frame: nat): bv32 {
    Minus(k.down, Known(k, frame))
  }

  /** What a catch takes: newly pressed keys, or else the repeating one. */
  function Taken(k: Keys, frame: nat): bv32 {
    var fresh' := Minus(Pressed(k, frame), k.loop);
    if fresh' != 0 then fresh' else k.loop
  }

  /** An attempt to catch a press in a frame. */
  function Attempted(k: Keys, frame: nat): Keys {
    if Pressed(k, frame) == 0 then k.(before := Known(k, frame))
    else
      var taken := Taken(k, frame);
      Keys(k.down, Known(k, frame), Or(k.hidden, taken), Lowest(taken), frame, if taken != k.loop then 20 else 5)
  }

  /** The repeating key is at most one, and hidden; hidden keys are down. */
  ghost predicate Inv(k: Keys) {
    AtMostOne(k.loop) && Subset(k.loop, k.hidden) && Subset(k.hidden, k.down)
  }

  lemma UpdateKeepsInv(k: Keys, held: bv32)
    requires Inv(k)
    ensures Inv(Updated(k, held))
  {
    hide AtMostOne, Subset, Steady, And;
    HiddenAfterFrame(k.hidden, k.down, held);
    PartOfOne(k.loop, And(k.hidden, Steady(k.down, held)));
  }

  /** Whatever is taken is down, and something is. */
  lemma TakenIsDown(k: Keys, frame: nat)
    requires Inv(k) && Pressed(k, frame) != 0
    ensures Taken(k, frame) != 0 && Subset(Taken(k, frame), k.down)
  {
    hide Subset, Minus, AtMostOne, Known, And;
    var press := Minus(k.down, Known(k, frame));
    MinusIsSubset(k.down, Known(k, frame));
    MinusIsSubset(press, k.loop);
    if Minus(press, k.loop) != 0 {
      SubsetTrans(Minus(press, k.loop), press, k.down);
    } else {
      SubsetTrans(k.loop, k.hidden, k.down);
      if k.loop == 0 {
        SubsetOfNothing(press, k.loop);
      }
    }
  }

  lemma AttemptKeepsInv(k: Keys, frame: nat)
    requires Inv(k)
    ensures Inv(Attempted(k, frame))
    ensures Subset(k.hidden, Attempted(k, frame).hidden)
    ensures Pressed(k, frame) != 0 ==>
      Subset(Taken(k, frame), Attempted(k, frame).hidden) && Attempted(k, frame).loop != 0
  {
    hide Subset, Minus, AtMostOne, Known, Lowest, Or, And, Pressed, Taken;
    SubsetRefl(k.hidden);
    if Pressed(k, frame) != 0 {
      var taken := Taken(k, frame);
      TakenIsDown(k, frame);
      SubsetOr(k.hidden, taken);
      OrSubset(k.hidden, taken, k.down);
      LowestIsOne(taken);
      SubsetTrans(Lowest(taken), taken, Or(k.hidden, taken));
    }
  }

  datatype Event = Frame(held: bv32) | Attempt(frame: nat)

  function Next(k: Keys, e: Event): Keys {
    match e
    case Frame(held) => Updated(k, held)
    case Attempt(frame) => Attempted(k, frame)
  }

  function Run(k: Keys, events: seq<Event>): Keys
    decreases |events|
  {
    if events == [] then k else Run(Next(k, events[0]), events[1..])
  }

  lemma NextKeepsInv(k: Keys, e: Event)
    requires Inv(k)
    ensures Inv(Next(k, e))
  {
    hide Inv, Updated, Attempted;
    match e
    case Frame(held) => UpdateKeepsInv(k, held);
    case Attempt(frame) => AttemptKeepsInv(k, frame);
  }

  /** The three parts of the invariant hold after every run from a reset. */
  lemma {:induction false} RunKeepsInv(k: Keys, events: seq<Event>)
    requires Inv(k)
    ensures Inv(Run(k, events))
    decreases |events|
  {
    if events != [] {
      NextKeepsInv(k, events[0]);
      RunKeepsInv(Next(k, events[0]), events[1..]);
    }
  }

  lemma ResetInv()
    ensures Inv(Keys(0, 0, 0, 0, 0, 0))
  {
  }

  /** The keys that the held checks report. */
  function Shown(k: Keys): bv32 {
    Minus(k.down, k.hidden)
  }

  lemma NextKeepsHidden(k: Keys, e: Event, key: bv32)
    requires Inv(k) && Subset(key, k.hidden) && (e.Frame? ==> Subset(key, e.held))
    ensures Inv(Next(k, e)) && Subset(key, Next(k, e).hidden)
  {
    hide Subset, AtMostOne, Steady, And, Pressed, Taken, Known;
    NextKeepsInv(k, e);
    match e
    case Frame(held) => HiddenWhileDown(k.hidden, k.down, held, key);
    case Attempt(frame) =>
      AttemptKeepsInv(k, frame);
      SubsetTrans(key, k.hidden, Attempted(k, frame).hidden);
  }

  /** A hidden key is not reported as held in any later state until a frame in which it was up. */
  lemma {:induction false} HiddenUntilReleased(k: Keys, events: seq<Event>, key: bv32)
    requires Inv(k) && Subset(key, k.hidden)
    requires forall i :: 0 <= i < |events| && events[i].Frame? ==> Subset(key, events[i].held)
    ensures Subset(key, Run(k, events).hidden) && And(key, Shown(Run(k, events))) == 0
    decreases |events|
  {
    if events == [] {
      HiddenNotShown(key, k.down, k.hidden);
    } else {
      NextKeepsHidden(k, events[0], key);
      HiddenUntilReleased(Next(k, events[0]), events[1..], key);
    }
  }

  /** In particular every key that a catch takes, from that catch on. */
  lemma CaughtUntilReleased(k: Keys, frame: nat, events: seq<Event>)
    requires Inv(k) && Pressed(k, frame) != 0
    requires forall i :: 0 <= i < |events| && events[i].Frame? ==> Subset(Taken(k, frame), events[i].held)
    ensures And(Taken(k, frame), Shown(Run(Attempted(k, frame), events))) == 0
  {
    hide Subset, And, Shown, Taken, Pressed, Inv, Attempted;
    AttemptKeepsInv(k, frame);
    HiddenUntilReleased(Attempted(k, frame), events, Taken(k, frame));
  }

  // The same, key by key.

  /** One frame: a hidden key stays hidden when its state is the same as in the frame before, and no other key is
      hidden. */
  lemma FrameByKey(k: Keys, held: bv32, i: nat)
    ensures Updated(k, held).down == held && Updated(k, held).before == k.down
    ensures HasKey(Updated(k, held).hidden, i) <==>
            HasKey(k.hidden, i) && (HasKey(k.down, i) <==> HasKey(held, i))
    ensures HasKey(Updated(k, held).loop, i) <==> HasKey(k.loop, i) && HasKey(Updated(k, held).hidden, i)
  {
    hide And, Steady, HasKey;
    var hidden := And(k.hidden, Steady(k.down, held));
    SteadyHasKey(k.hidden, k.down, held, i);
    AndHasKey(k.loop, hidden, i);
  }

  /** Key i counts as newly pressed: it was up in the last frame, or it is the repeating key and its repeat is due. */
  predicate NewlyDown(k: Keys, frame: nat, i: nat) {
    HasKey(k.down, i) &&
    (!HasKey(k.before, i) || (frame >= (k.tickLast + k.tickSpan) % 0x1_0000_0000 && HasKey(k.loop, i)))
  }

  /** Some newly pressed key is not the repeating one. */
  ghost predicate AnyOther(k: Keys, frame: nat) {
    exists j: nat :: NewlyDown(k, frame, j) && !HasKey(k.loop, j)
  }

  /** An attempt takes key i: all newly pressed keys but the repeating one, or else the repeating one if that is newly
      pressed. */
  ghost predicate Takes(k: Keys, frame: nat, i: nat) {
    if AnyOther(k, frame) then NewlyDown(k, frame, i) && !HasKey(k.loop, i)
    else HasKey(k.loop, i) && exists j: nat :: NewlyDown(k, frame, j)
  }

  lemma KnownByKey(k: Keys, frame: nat, i: nat)
    ensures HasKey(Known(k, frame), i) <==>
            HasKey(k.before, i) && !(frame >= (k.tickLast + k.tickSpan) % 0x1_0000_0000 && HasKey(k.loop, i))
  {
    hide HasKey, Minus;
    MinusHasKey(k.before, k.loop, i);
  }

  lemma PressedByKey(k: Keys, frame: nat, i: nat)
    ensures HasKey(Pressed(k, frame), i) <==> NewlyDown(k, frame, i)
  {
    hide HasKey, Minus, Known;
    MinusHasKey(k.down, Known(k, frame), i);
    KnownByKey(k, frame, i);
  }

  lemma OtherByKey(k: Keys, frame: nat, i: nat)
    ensures HasKey(Minus(Pressed(k, frame), k.loop), i) <==> NewlyDown(k, frame, i) && !HasKey(k.loop, i)
  {
    hide HasKey, Minus, Pressed, NewlyDown;
    MinusHasKey(Pressed(k, frame), k.loop, i);
    PressedByKey(k, frame, i);
  }

  lemma AnyPressed(k: Keys, frame: nat)
    ensures Pressed(k, frame) != 0 ==> exists j: nat :: NewlyDown(k, frame, j)
    ensures Pressed(k, frame) == 0 ==> forall j: nat :: !NewlyDown(k, frame, j)
    ensures Minus(Pressed(k, frame), k.loop) != 0 ==> AnyOther(k, frame)
    ensures Minus(Pressed(k, frame), k.loop) == 0 ==> !AnyOther(k, frame)
  {
    hide HasKey, Minus, Pressed, NewlyDown;
    SomeKey(Pressed(k, frame));
    SomeKey(Minus(Pressed(k, frame), k.loop));
    forall j: nat
      ensures HasKey(Pressed(k, frame), j) <==> NewlyDown(k, frame, j)
      ensures HasKey(Minus(Pressed(k, frame), k.loop), j) <==> NewlyDown(k, frame, j) && !HasKey(k.loop, j)
    {
      PressedByKey(k, frame, j);
      OtherByKey(k, frame, j);
    }
  }

  lemma TakenByKey(k: Keys, frame: nat, i: nat)
    requires Pressed(k, frame) != 0
    ensures HasKey(Taken(k, frame), i) <==> Takes(k, frame, i)
    ensures Taken(k, frame) != k.loop <==> AnyOther(k, frame)
  {
    hide HasKey, Minus, Pressed, NewlyDown, AnyOther;
    AnyPressed(k, frame);
    OtherByKey(k, frame, i);
    var fresh' := Minus(Pressed(k, frame), k.loop);
    if fresh' != 0 {
      SomeKey(fresh');
      var j: nat :| HasKey(fresh', j);
      MinusHasKey(Pressed(k, frame), k.loop, j);
    }
  }

  /** One attempt: it succeeds when some key is newly pressed; then it hides what it takes, makes the lowest of that the
      repeating key and restarts the timer. */
  lemma AttemptByKey(k: Keys, frame: nat, i: nat)
    requires Inv(k)
    ensures var next := Attempted(k, frame);
      next.down == k.down &&
      (HasKey(next.before, i) <==>
       HasKey(k.before, i) && !(frame >= (k.tickLast + k.tickSpan) % 0x1_0000_0000 && HasKey(k.loop, i))) &&
      (HasKey(next.hidden, i) <==> HasKey(k.hidden, i) || Takes(k, frame, i))
    ensures var next := Attempted(k, frame);
      if exists j: nat :: NewlyDown(k, frame, j) then
        (HasKey(next.loop, i) <==> Takes(k, frame, i) && forall j: nat | j < i :: !Takes(k, frame, j)) &&
        next.tickLast == frame && next.tickSpan == if AnyOther(k, frame) then 20 else 5
      else
        next.loop == k.loop && next.tickLast == k.tickLast && next.tickSpan == k.tickSpan
  {
    hide HasKey, Minus, Pressed, NewlyDown, AnyOther, Or, Lowest, Taken, Known, Takes, Inv;
    AnyPressed(k, frame);
    KnownByKey(k, frame, i);
    if Pressed(k, frame) == 0 {
      NothingTaken(k, frame, i);
    } else {
      var taken := Taken(k, frame);
      TakenIsDown(k, frame);
      TakenByKey(k, frame, i);
      OrHasKey(k.hidden, taken, i);
      LowestTaken(k, frame, i);
    }
  }

  lemma NothingTaken(k: Keys, frame: nat, i: nat)
    requires Pressed(k, frame) == 0
    ensures !Takes(k, frame, i)
  {
    hide HasKey, Pressed, NewlyDown;
    AnyPressed(k, frame);
  }

  lemma LowestTaken(k: Keys, frame: nat, i: nat)
    requires Pressed(k, frame) != 0 && Taken(k, frame) != 0
    ensures HasKey(Lowest(Taken(k, frame)), i) <==>
            Takes(k, frame, i) && forall j: nat | j < i :: !Takes(k, frame, j)
  {
    hide HasKey, Pressed, Taken, Takes, CountrZero, Lowest, AnyOther;
    var taken := Taken(k, frame);
    var low := CountrZero(taken);
    CountrZeroHits(taken);
    forall j: nat
      ensures HasKey(taken, j) <==> Takes(k, frame, j)
      ensures j < low ==> !HasKey(taken, j)
    {
      TakenByKey(k, frame, j);
      LowestHasKey(taken, j);
    }
    LowestHasKey(taken, i);
  }

  const NO_KEYS: bv32 := 0

  /** The keys that were down in the last frame, and in the one before it. */
  function LastHeld(events: seq<Event>): bv32 {
    if events == [] then NO_KEYS
    else
      match events[|events| - 1]
      case Frame(held) => held
      case Attempt(_) => LastHeld(events[..|events| - 1])
  }

  function HeldBefore(events: seq<Event>): bv32 {
    if events == [] then NO_KEYS
    else
      match events[|events| - 1]
      case Frame(_) => LastHeld(events[..|events| - 1])
      case Attempt(_) => HeldBefore(events[..|events| - 1])
  }

  /** Since key i was last up there was an attempt in the very frame in which it went down. */
  predicate Caught(events: seq<Event>, i: nat) {
    if events == [] then false
    else
      var earlier := events[..|events| - 1];
      match events[|events| - 1]
      case Frame(held) => HasKey(held, i) && Caught(earlier, i)
      case Attempt(_) => Caught(earlier, i) || (HasKey(LastHeld(earlier), i) && !HasKey(HeldBefore(earlier), i))
  }

  lemma {:induction false} RunAppend(k: Keys, events: seq<Event>, e: Event)
    ensures Run(k, events + [e]) == Next(Run(k, events), e)
    decreases |events|
  {
    hide Next;
    var all := events + [e];
    if events == [] {
      assert all[1..] == [];
    } else {
      assert all[1..] == events[1..] + [e];
      RunAppend(Next(k, events[0]), events[1..], e);
    }
  }

  /** What the masks say of key i after the events. */
  ghost predicate Follows(k: Keys, events: seq<Event>, i: nat) {
    k.down == LastHeld(events) &&
    (HasKey(k.before, i) ==> HasKey(HeldBefore(events), i)) &&
    (HasKey(k.down, i) && HasKey(HeldBefore(events), i) && !HasKey(k.before, i) ==> HasKey(k.hidden, i)) &&
    (HasKey(k.hidden, i) <==> Caught(events, i)) &&
    (HasKey(k.hidden, i) ==> HasKey(k.down, i)) &&
    (HasKey(k.loop, i) ==> HasKey(k.hidden, i))
  }

  lemma InvByKey(k: Keys, i: nat)
    requires Inv(k)
    ensures HasKey(k.hidden, i) ==> HasKey(k.down, i)
    ensures HasKey(k.loop, i) ==> HasKey(k.hidden, i)
  {
    hide HasKey, Subset, AtMostOne;
    if HasKey(k.hidden, i) {
      SubsetHasKey(k.hidden, k.down, i);
    }
    if HasKey(k.loop, i) {
      SubsetHasKey(k.loop, k.hidden, i);
    }
  }

  lemma FrameFollows(k: Keys, events: seq<Event>, held: bv32, i: nat)
    requires Inv(k) && Follows(k, events, i)
    ensures Follows(Updated(k, held), events + [Frame(held)], i)
  {
    hide HasKey, Inv, Updated;
    assert (events + [Frame(held)])[..|events|] == events;
    FrameByKey(k, held, i);
    UpdateKeepsInv(k, held);
    InvByKey(Updated(k, held), i);
  }

  lemma AttemptFollows(k: Keys, events: seq<Event>, frame: nat, i: nat)
    requires Inv(k) && Follows(k, events, i)
    ensures Follows(Attempted(k, frame), events + [Attempt(frame)], i)
  {
    hide HasKey, Inv, Attempted;
    assert (events + [Attempt(frame)])[..|events|] == events;
    AttemptByKey(k, frame, i);
    AttemptKeepsInv(k, frame);
    InvByKey(Attempted(k, frame), i);
    assert NewlyDown(k, frame, i) && !HasKey(k.loop, i) ==> AnyOther(k, frame);
  }

  lemma {:induction false} RunFollows(events: seq<Event>, i: nat)
    ensures Inv(Run(Keys(0, 0, 0, 0, 0, 0), events)) && Follows(Run(Keys(0, 0, 0, 0, 0, 0), events), events, i)
    decreases |events|
  {
    hide HasKey, Inv, Follows, Updated, Attempted;
    var start := Keys(0, 0, 0, 0, 0, 0);
    ResetInv();
    RunKeepsInv(start, events);
    if events == [] {
      StartFollows(i);
    } else {
      var earlier, e := events[..|events| - 1], events[|events| - 1];
      assert events == earlier + [e];
      RunAppend(start, earlier, e);
      RunFollows(earlier, i);
      match e
      case Frame(held) => FrameFollows(Run(start, earlier), earlier, held, i);
      case Attempt(frame) => AttemptFollows(Run(start, earlier), earlier, frame, i);
    }
  }

  lemma StartFollows(i: nat)
    ensures Follows(Keys(0, 0, 0, 0, 0, 0), [], i)
  {
    NothingHasKey(i);
  }

  /** After every run from a reset, a key is reported as held if and only if it is down and, since it was last up, there
      was no attempt to catch it in the frame in which it went down. */
  lemma ReportedExactly(events: seq<Event>, i: nat)
    ensures HasKey(Shown(Run(Keys(0, 0, 0, 0, 0, 0), events)), i) <==>
            HasKey(LastHeld(events), i) && !Caught(events, i)
  {
    hide HasKey, Caught, Inv, Run, Minus;
    var k := Run(Keys(0, 0, 0, 0, 0, 0), events);
    RunFollows(events, i);
    MinusHasKey(k.down, k.hidden, i);
  }

  /** In particular frames alone show exactly the keys that are down. */
  lemma FramesShowAll(events: seq<Event>, i: nat)
    requires forall j :: 0 <= j < |events| ==> events[j].Frame?
    ensures HasKey(Shown(Run(Keys(0, 0, 0, 0, 0, 0), events)), i) <==>
            events != [] && HasKey(events[|events| - 1].held, i)
  {
    hide HasKey, Shown, Run;
    ReportedExactly(events, i);
    NeverCaught(events, i);
    NothingHasKey(i);
  }

  lemma {:induction false} NeverCaught(events: seq<Event>, i: nat)
    requires forall j :: 0 <= j < |events| ==> events[j].Frame?
    ensures !Caught(events, i)
  {
    if events != [] {
      NeverCaught(events[..|events| - 1], i);
    }
  }

  // A lone key, held from frame t on, with a catch attempted in every frame.

  /** The state with key down in frame t, before the catch of that frame; n frames have passed since t. */
  function Held(k: Keys, key: bv32, t: nat, n: nat): Keys {
    if n == 0 then Updated(k, key) else Updated(Attempted(Held(k, key, t, n - 1), t + n - 1), key)
  }

  /** Whether the catch in frame t + n succeeds. */
  predicate Fires(k: Keys, key: bv32, t: nat, n: nat) {
    Pressed(Held(k, key, t, n), t + n) != 0
  }

  /** The repeat schedule: at once, 20 frames later, and every 5 frames from then on. */
  predicate Scheduled(n: nat) {
    n == 0 || (n >= 20 && n % 5 == 0)
  }

  /** The last scheduled frame at or before n, and the first one after it. */
  function LastScheduled(n: nat): nat {
    if n < 20 then 0 else n - n % 5
  }

  function NextScheduled(n: nat): nat {
    if n < 20 then 20 else n - n % 5 + 5
  }

  /** After the catch of frame t + n, when the schedule has been followed so far. */
  function OnSchedule(k: Keys, key: bv32, t: nat, n: nat): Keys
  {
    Keys(key, if n == 0 then k.down else if Scheduled(n) then 0 else key, key, key,
         t + LastScheduled(n), if LastScheduled(n) == 0 then 20 else 5)
  }

  /** The catch in the frame in which the key goes down. */
  lemma FirstCatch(k: Keys, key: bv32, t: nat)
    requires Inv(k) && And(k.down, key) == 0 && key != 0 && AtMostOne(key)
    ensures Fires(k, key, t, 0) && Attempted(Held(k, key, t, 0), t) == OnSchedule(k, key, t, 0)
  {
    ReleasedKeys(k.hidden, k.down, key);
    LoneKey(key, k.down);
    AndZero(k.loop);
    LowestIsOne(key);
    hide And, Minus, Or, Steady, Lowest, AtMostOne, Subset;
    assert Held(k, key, t, 0) == Keys(key, k.down, 0, 0, k.tickLast, k.tickSpan);
    assert Known(Held(k, key, t, 0), t) == k.down;
  }

  /** A frame in which the lone, repeating key is still down: it fires when it is due, and only then. */
  lemma RepeatStep(now: Keys, key: bv32, frame: nat)
    requires now == Keys(key, key, key, key, now.tickLast, now.tickSpan) && key != 0 && AtMostOne(key)
    ensures Pressed(now, frame) != 0 <==> frame >= Due(now)
    ensures Attempted(now, frame) ==
      if frame >= Due(now) then Keys(key, 0, key, key, frame, 5) else now
  {
    hide And, Minus, Or, Steady, Lowest, AtMostOne;
    LoneKeyZero(key);
    LoneKey(key, 0);
    LowestIsOne(key);
  }

  lemma LoneKeyZero(key: bv32)
    ensures And(0, key) == 0
  {
  }

  lemma ScheduleStep(n: nat)
    requires n > 0
    ensures Scheduled(n) <==> n >= NextScheduled(n - 1)
    ensures LastScheduled(n) == if Scheduled(n) then n else LastScheduled(n - 1)
    ensures NextScheduled(n - 1) == LastScheduled(n - 1) + if LastScheduled(n - 1) == 0 then 20 else 5
  {
  }

  lemma HeldStep(k: Keys, key: bv32, t: nat, n: nat)
    requires n > 0 && And(k.down, key) == 0
    requires Attempted(Held(k, key, t, n - 1), t + n - 1) == OnSchedule(k, key, t, n - 1)
    ensures var was := OnSchedule(k, key, t, n - 1);
            Held(k, key, t, n) == Keys(key, key, key, key, was.tickLast, was.tickSpan)
  {
    hide And, Minus, Or, Steady;
    LoneKey(key, k.down);
  }

  /** One more frame: it fires when the repeat is due, which is as scheduled unless the due time has wrapped. */
  lemma NextCatch(k: Keys, key: bv32, t: nat, n: nat)
    requires key != 0 && AtMostOne(key) && n > 0 && And(k.down, key) == 0
    requires Attempted(Held(k, key, t, n - 1), t + n - 1) == OnSchedule(k, key, t, n - 1)
    ensures var due := (t + NextScheduled(n - 1)) % TWO_TO_THE_32;
            (Fires(k, key, t, n) <==> t + n >= due) &&
            ((t + n >= due <==> Scheduled(n)) ==> Attempted(Held(k, key, t, n), t + n) == OnSchedule(k, key, t, n))
  {
    hide And, AtMostOne, Held, Attempted, Pressed, Scheduled, LastScheduled, NextScheduled;
    HeldStep(k, key, t, n);
    ScheduleStep(n);
    RepeatStep(Held(k, key, t, n), key, t + n);
  }

  lemma StartsScheduled()
    ensures Scheduled(0)
  {
  }

  lemma NextGrows(n: nat)
    ensures n > 0 ==> NextScheduled(n - 1) <= NextScheduled(n)
  {
  }

  /** As long as the due times stay in 32 bits, the lone key fires exactly at 0, 20, 25, 30, … frames after t. */
  lemma {:induction false} LoneKeySchedule(k: Keys, key: bv32, t: nat, n: nat)
    requires Inv(k) && And(k.down, key) == 0 && key != 0 && AtMostOne(key)
    requires n > 0 ==> t + NextScheduled(n - 1) < TWO_TO_THE_32
    ensures Fires(k, key, t, n) <==> Scheduled(n)
    ensures Attempted(Held(k, key, t, n), t + n) == OnSchedule(k, key, t, n)
  {
    hide Fires, Attempted, Held, Inv, And, AtMostOne, OnSchedule, Scheduled, NextScheduled, LastScheduled;
    if n == 0 {
      FirstCatch(k, key, t);
      StartsScheduled();
    } else {
      NextGrows(n - 1);
      LoneKeySchedule(k, key, t, n - 1);
      NextCatch(k, key, t, n);
      ScheduleStep(n);
    }
  }

  /** A due time past the end of the 32-bit counter wraps to a small number, and the very next frame fires. */
  lemma WrappedDueFires(k: Keys, key: bv32, t: nat, m: nat)
    requires Inv(k) && And(k.down, key) == 0 && key != 0 && AtMostOne(key)
    requires Scheduled(m) && t + NextScheduled(m) >= TWO_TO_THE_32 && t + m + 1 < TWO_TO_THE_32
    requires m > 0 ==> t + NextScheduled(m - 1) < TWO_TO_THE_32
    ensures Fires(k, key, t, m + 1) && !Scheduled(m + 1)
  {
    hide Fires, Attempted, Held, Inv, And, AtMostOne, OnSchedule;
    LoneKeySchedule(k, key, t, m);
    NextCatch(k, key, t, m + 1);
  }

  /** The schedule is followed through frame t + n exactly when the next due time before it fits the counter. */
  lemma ScheduleExactly(k: Keys, key: bv32, t: nat, n: nat)
    requires Inv(k) && And(k.down, key) == 0 && key != 0 && AtMostOne(key)
    requires t + n < TWO_TO_THE_32
    ensures (forall i: nat | i <= n :: Fires(k, key, t, i) <==> Scheduled(i))
            <==> n == 0 || t + NextScheduled(n - 1) < TWO_TO_THE_32
  {
    hide Fires, Inv, And, AtMostOne;
    if n == 0 || t + NextScheduled(n - 1) < TWO_TO_THE_32 {
      forall i: nat | i <= n
        ensures Fires(k, key, t, i) <==> Scheduled(i)
      {
        LoneKeySchedule(k, key, t, i);
      }
    } else {
      var m := LastScheduled(n - 1);
      WrappedDueFires(k, key, t, m);
    }
  }

  lemma Masks(k: Keys, frame: nat)
    ensures Known(k, frame) == if frame >= Wrap32(k.tickLast + k.tickSpan) then Minus(k.before, k.loop) else k.before
    ensures Pressed(k, frame) == Minus(k.down, Known(k, frame))
    ensures var left := Minus(Pressed(k, frame), k.loop);
            Taken(k, frame) == if left != 0 then left else k.loop
  {
  }

  /** A key of the emulated pad and the two keyboard keys that stand for it. */
  datatype Mapping = Mapping(idx: nat, key: nat, alt: nat)

  /** Whether the mapping's key or its alternative is held on the keyboard. */
  predicate Presses(keyboard: set<nat>, mapping: Mapping) {
    mapping.key in keyboard || mapping.alt in keyboard
  }

  /** Whether any of the mappings puts pad key i down. */
  predicate Mapped(keyboard: set<nat>, binds: seq<Mapping>, i: nat) {
    exists k :: 0 <= k < |binds| && binds[k].idx == i && Presses(keyboard, binds[k])
  }

  lemma MappedIs(keyboard: set<nat>, binds: seq<Mapping>)
    ensures forall i: nat :: Mapped(keyboard, binds, i) <==>
      exists k :: 0 <= k < |binds| && binds[k].idx == i && (binds[k].key in keyboard || binds[k].alt in keyboard)
  {
  }

  /** One more mapping presses its own key and no other. */
  lemma MappedNext(keyboard: set<nat>, binds: seq<Mapping>, mask: bv32, n: nat)
    requires n < |binds| && binds[n].idx < 32
    requires forall i: nat :: HasKey(mask, i) <==> Mapped(keyboard, binds[..n], i)
    ensures var next := if Presses(keyboard, binds[n]) then Or(mask, Bit(binds[n].idx)) else mask;
            forall i: nat :: HasKey(next, i) <==> Mapped(keyboard, binds[..n + 1], i)
  {
    hide HasKey, Or, Bit, Presses;
    var next := if Presses(keyboard, binds[n]) then Or(mask, Bit(binds[n].idx)) else mask;
    forall i: nat
      ensures HasKey(next, i) <==> Mapped(keyboard, binds[..n + 1], i)
    {
      OrHasKey(mask, Bit(binds[n].idx), i);
      BitHasKey(binds[n].idx, i);
      if Mapped(keyboard, binds[..n], i) {
        var k :| 0 <= k < n && binds[..n][k].idx == i && Presses(keyboard, binds[..n][k]);
        assert binds[..n + 1][k] == binds[..n][k];
      }
      if Mapped(keyboard, binds[..n + 1], i) {
        var k :| 0 <= k < n + 1 && binds[..n + 1][k].idx == i && Presses(keyboard, binds[..n + 1][k]);
        assert k < n ==> binds[..n][k] == binds[..n + 1][k];
      }
      assert binds[..n + 1][n] == binds[n];
    }
  }

  /** A register the emulated program waits to have filled. */
  class Register {
    var value: nat

    constructor (value: nat)
      ensures this.value == value
    {
      this.value := value;
    }
  }

  class HexInput {
    var tickLast: nat
    var tickSpan: nat
    var keysThis: bv32
    var keysLast: bv32
    var keysHide: bv32
    var keysLoop: bv32
    var keyReg: Register?

    ghost function Value(): Keys
      reads this
    {
      Keys(keysThis, keysLast, keysHide, keysLoop, tickLast, tickSpan)
    }

    constructor ()
      ensures Value() == Keys(0, 0, 0, 0, 0, 0) && Inv(Value()) && keyReg == null
    {
      tickLast, tickSpan, keysThis, keysLast, keysHide, keysLoop, keyReg := 0, 0, 0, 0, 0, 0, null;
      new;
      ResetInv();
    }

    method Reset()
      modifies this
      ensures Value() == Keys(0, 0, 0, 0, 0, 0) && Inv(Value()) && keyReg == null
    {
      tickLast, tickSpan := 0, 0;
      keysThis, keysLast := 0, 0;
      keysHide, keysLoop := 0, 0;
      keyReg := null;
      ResetInv();
    }

    /** A new frame: the keys down are those of the mappings that the keyboard presses. */
    method Update(keyboard: set<nat>, binds: seq<Mapping>)
      requires Inv(Value())
      requires forall k :: 0 <= k < |binds| ==> binds[k].idx < 32
      modifies this
      ensures Value() == Updated(old(Value()), keysThis) && Inv(Value()) && keyReg == old(keyReg)
      ensures forall i: nat :: HasKey(keysThis, i) <==> Mapped(keyboard, binds, i)
      ensures forall i: nat :: HasKey(keysThis, i) <==>
        exists k :: 0 <= k < |binds| && binds[k].idx == i && (binds[k].key in keyboard || binds[k].alt in keyboard)
      ensures keysLast == old(keysThis) && forall i: nat :: HasKey(keysHide, i) <==>
        HasKey(old(keysHide), i) && (HasKey(old(keysThis), i) <==> HasKey(keysThis, i))
    {
      hide And, Or, Steady, Inv, HasKey, Bit, Mapped, Presses;
      ghost var was := Value();
      keysLast := keysThis;
      keysThis := 0;
      NothingMapped(keyboard);
      for n := 0 to |binds|
        invariant Value() == was.(before := was.down, down := keysThis) && keyReg == old(keyReg)
        invariant forall i: nat :: HasKey(keysThis, i) <==> Mapped(keyboard, binds[..n], i)
      {
        MappedNext(keyboard, binds, keysThis, n);
        if Presses(keyboard, binds[n]) {
          keysThis := Or(keysThis, Bit(binds[n].idx));
        }
      }
      assert binds[..|binds|] == binds;
      MappedIs(keyboard, binds);
      UpdateKeepsInv(was, keysThis);
      forall i: nat {
        SteadyHasKey(keysHide, keysLast, keysThis, i);
      }
      keysHide := And(keysHide, Steady(keysLast, keysThis));
      keysLoop := And(keysLoop, keysHide);
    }

    /** Tries to catch a press. On success the register, if one is set, receives the lowest of the keys
        taken. */
    method CatchPress(frameCount: nat) returns (caught: bool)
      requires Inv(Value())
      modifies this, keyReg
      ensures Value() == Attempted(old(Value()), frameCount) && Inv(Value()) && keyReg == old(keyReg)
      ensures caught <==> Pressed(old(Value()), frameCount) != 0
      ensures caught && keyReg != null ==> HasKey(keysThis, keyReg.value) && HasKey(keysLoop, keyReg.value)
      ensures caught <==> exists j: nat :: NewlyDown(old(Value()), frameCount, j)
      ensures caught && keyReg != null ==>
        Takes(old(Value()), frameCount, keyReg.value) &&
        forall j: nat | j < keyReg.value :: !Takes(old(Value()), frameCount, j)
    {
      hide Inv, Subset, HasKey, Attempted, Pressed, NewlyDown, AnyOther, Takes;
      ghost var was := Value();
      AttemptKeepsInv(was, frameCount);
      AnyPressed(was, frameCount);
      caught := TakePress(frameCount);
      if caught {
        LoopIsDown(Value());
        WriteRegister();
        if keyReg != null {
          AttemptByKey(was, frameCount, keyReg.value);
        }
      }
    }

    /** The part of a catch that concerns the masks and the repeat timer. */
    method TakePress(frameCount: nat) returns (caught: bool)
      modifies this`keysLast, this`keysHide, this`keysLoop, this`tickLast, this`tickSpan
      ensures Value() == Attempted(old(Value()), frameCount)
      ensures caught <==> Pressed(old(Value()), frameCount) != 0
    {
      hide And, Minus, Or, Lowest, Pressed, Taken, Known, Wrap32;
      ghost var was := Value();
      Masks(was, frameCount);
      ForgetRepeat(frameCount);
      var pressKeys := Minus(keysThis, keysLast);
      caught := pressKeys != 0;
      if caught {
        var pressDiff := Minus(pressKeys, keysLoop);
        var validKeys := if pressDiff != 0 then pressDiff else keysLoop;
        assert validKeys == Taken(was, frameCount);
        Take(validKeys, frameCount);
      }
    }

    /** Hides the keys taken, restarts the timer and makes the lowest of them the repeating one. */
    method Take(validKeys: bv32, frameCount: nat)
      modifies this`keysHide, this`keysLoop, this`tickLast, this`tickSpan
      ensures Value() == Keys(keysThis, keysLast, Or(old(keysHide), validKeys), Lowest(validKeys), frameCount,
                              if validKeys != old(keysLoop) then 20 else 5)
    {
      hide Or, Lowest;
      keysHide := Or(keysHide, validKeys);
      tickLast := frameCount;
      tickSpan := if validKeys != keysLoop then 20 else 5;
      keysLoop := Lowest(validKeys);
    }

    /** The repeating key no longer counts as down in the last frame once its repeat is due. */
    method ForgetRepeat(frameCount: nat)
      modifies this`keysLast
      ensures keysLast == Known(old(Value()), frameCount)
    {
      if frameCount >= Wrap32(tickLast + tickSpan) {
        keysLast := Minus(keysLast, keysLoop);
      }
    }

    /** The number of the repeating key goes to the register. */
    method WriteRegister()
      requires keysLoop != 0 && Subset(keysLoop, keysThis)
      modifies keyReg
      ensures keyReg != null ==> HasKey(keysThis, keyReg.value) && HasKey(keysLoop, keyReg.value)
    {
      hide HasKey, CountrZero, Subset;
      if keyReg != null {
        CountrZeroHits(keysLoop);
        SubsetHasKey(keysLoop, keysThis, CountrZero(keysLoop));
        keyReg.value := CountrZero(keysLoop);
      }
    }

    /** is_key_held_P1: the key number is taken modulo 16. */
    method IsKeyHeldP1(keyIndex: nat) returns (held: bool)
      ensures held <==> HasKey(Shown(Value()), FirstPad(keyIndex))
      ensures held <==> HasKey(keysThis, keyIndex % 16) && !HasKey(keysHide, keyIndex % 16)
    {
      hide HasKey, And, Minus;
      MinusHasKey(keysThis, keysHide, FirstPad(keyIndex));
      BitTest(Minus(keysThis, keysHide), FirstPad(keyIndex));
      held := And(Minus(keysThis, keysHide), Bit(FirstPad(keyIndex))) != 0;
    }

    /** is_key_held_P2 tests four bits further on. */
    method IsKeyHeldP2(keyIndex: nat) returns (held: bool)
      ensures held <==> HasKey(Shown(Value()), SecondPad(keyIndex))
      ensures held <==> HasKey(keysThis, 4 + keyIndex % 16) && !HasKey(keysHide, 4 + keyIndex % 16)
    {
      hide HasKey, And, Minus;
      MinusHasKey(keysThis, keysHide, SecondPad(keyIndex));
      BitTest(Minus(keysThis, keysHide), SecondPad(keyIndex));
      held := And(Minus(keysThis, keysHide), Bit(SecondPad(keyIndex))) != 0;
    }
  }

  /** The bit that each pad's held check tests. */
  function FirstPad(keyIndex: nat): (i: nat)
    ensures i < 16
  {
    keyIndex % 16
  }

  function SecondPad(keyIndex: nat): (i: nat)
    ensures i < 32
  {
    4 + keyIndex % 16
  }

  /** A key of the second pad is also one of the first pad's exactly when it is one of its first twelve. */
  lemma PadsOverlap(keyIndex: nat)
    ensures (exists j: nat :: FirstPad(j) == SecondPad(keyIndex)) <==> keyIndex % 16 < 12
  {
    if keyIndex % 16 < 12 {
      assert FirstPad(SecondPad(keyIndex)) == SecondPad(keyIndex);
    }
  }

  lemma NothingMapped(keyboard: set<nat>)
    ensures forall i: nat :: !HasKey(0, i) && !Mapped(keyboard, [], i)
  {
    forall i: nat {
      NothingHasKey(i);
    }
  }

  lemma LoopIsDown(k: Keys)
    requires Inv(k)
    ensures Subset(k.loop, k.down)
  {
    hide Subset, AtMostOne;
    SubsetTrans(k.loop, k.hidden, k.down);
  }
}
