/** The dirty tag: the lowest bit of a slot's address, which is zero in every address itself. */
module PointerTags {

  predicate GetDirty(p: nat) { p % 2 != 0 }

  /** Sets the lowest bit. */
  function AddDirty(p: nat): nat { p - p % 2 + 1 }

  /** Clears the lowest bit. */
  function SubDirty(p: nat): nat { p - p % 2 }

  predicate Aligned(p: nat) { p % 2 == 0 }

  /** The tag can be put on and taken off an aligned pointer without losing it. */
  lemma TagLaws(p: nat)
    requires Aligned(p)
    ensures GetDirty(AddDirty(p)) && !GetDirty(p)
    ensures SubDirty(AddDirty(p)) == p == SubDirty(p)
  {
  }
}

/** The wait-free triple buffer: three slots, a work, a read and a swap pointer, and a dirty tag in the swap
    pointer's lowest bit. Its atomic steps, their interleavings, and the one-cell mailbox they implement. */
module TripleBuffer {
  import opened PointerTags

  /** The object's memory: what each slot holds, and the three pointers. */
  datatype Buffers<C> = Buffers(slots: map<nat, C>, work: nat, read: nat, swap: nat)

  /** The writer's callable leaves its slot in some new state; it may do so any number of times. */
  function Modify<C>(b: Buffers<C>, c: C): Buffers<C> {
    b.(slots := b.slots[b.work := c])
  }

  /** The writer's atomic exchange. */
  function Publish<C>(b: Buffers<C>): Buffers<C> {
    b.(work := SubDirty(b.swap), swap := AddDirty(b.work))
  }

  /** The reader's atomic exchange. */
  function Take<C>(b: Buffers<C>): Buffers<C> {
    b.(read := SubDirty(b.swap), swap := b.read)
  }

  /** Each slot belongs to exactly one of the three pointers. */
  ghost predicate Partitioned<C>(b: Buffers<C>) {
    var middle := SubDirty(b.swap);
    b.slots.Keys == {b.work, b.read, middle} &&
    b.work != b.read && b.work != middle && b.read != middle &&
    Aligned(b.work) && Aligned(b.read) && Aligned(middle) &&
    (b.swap == middle || b.swap == AddDirty(middle))
  }

  datatype Writer = Idle | Writing
  /** Rested, between a dirty load and its exchange, or inside the callable. */
  datatype Reader = Resting | Exchanging | Viewing(dirty: bool)

  datatype System<C> = System(buffers: Buffers<C>, writer: Writer, reader: Reader)

  /** The atomic steps of both threads. A writer's callable that throws abandons its call without an exchange. */
  datatype Event<C> = BeginWrite | Write(c: C) | AbandonWrite | Exchange | Load | ReaderExchange | Finish

  predicate Enabled<C>(s: System<C>, e: Event<C>) {
    match e
    case BeginWrite => s.writer.Idle?
    case Write(_) => s.writer.Writing?
    case AbandonWrite => s.writer.Writing?
    case Exchange => s.writer.Writing?
    case Load => s.reader.Resting?
    case ReaderExchange => s.reader.Exchanging?
    case Finish => s.reader.Viewing?
  }

  function Step<C>(s: System<C>, e: Event<C>): System<C> {
    match e
    case BeginWrite => s.(writer := Writing)
    case Write(c) => s.(buffers := Modify(s.buffers, c))
    case AbandonWrite => s.(writer := Idle)
    case Exchange => s.(buffers := Publish(s.buffers), writer := Idle)
    case Load => s.(reader := if GetDirty(s.buffers.swap) then Exchanging else Viewing(false))
    case ReaderExchange => s.(buffers := Take(s.buffers), reader := Viewing(true))
    case Finish => s.(reader := Resting)
  }

  /** The specification: a mailbox that keeps the newest of all published contents, and which one the reader has. */
  datatype Mailbox<C> = Mailbox(published: seq<C>, seen: nat)

  function Newest<C>(m: Mailbox<C>): nat
    requires m.published != []
  {
    |m.published| - 1
  }

  /** The mailbox operation that a step performs; every other step performs none. */
  function Abstractly<C>(m: Mailbox<C>, s: System<C>, e: Event<C>): Mailbox<C>
    requires s.buffers.work in s.buffers.slots && m.published != []
  {
    match e
    case Exchange => m.(published := m.published + [s.buffers.slots[s.buffers.work]])
    case ReaderExchange => m.(seen := Newest(m))
    case _ => m
  }

  /** The refinement relation. It holds the ownership invariant, says what the reader's slot contains,
      and ties the tag to whether something newer waits in the middle. */
  ghost predicate Refines<C>(s: System<C>, m: Mailbox<C>) {
    var b := s.buffers;
    var middle := SubDirty(b.swap);
    Partitioned(b) &&
    m.seen < |m.published| &&
    b.slots[b.read] == m.published[m.seen] &&
    (GetDirty(b.swap) ==> m.seen < Newest(m) && b.slots[middle] == m.published[Newest(m)]) &&
    (!GetDirty(b.swap) ==> m.seen == Newest(m)) &&
    (s.reader.Exchanging? ==> GetDirty(b.swap))
  }

  /** Every step of either thread keeps the refinement. */
  lemma StepRefines<C>(s: System<C>, m: Mailbox<C>, e: Event<C>)
    requires Refines(s, m) && Enabled(s, e)
    ensures Refines(Step(s, e), Abstractly(m, s, e))
  {
    hide GetDirty, AddDirty, SubDirty, Aligned;
    var b := s.buffers;
    TagLaws(b.work);
    TagLaws(b.read);
    TagLaws(SubDirty(b.swap));
    match e
    case Write(c) => assert Modify(b, c).slots.Keys == b.slots.Keys;
    case Exchange => assert Publish(b).slots == b.slots;
    case ReaderExchange => assert Take(b).slots == b.slots;
    case _ =>
  }

  function Start<C>(writer: nat, reader: nat, middle: nat, initial: C): System<C> {
    System(Buffers(map[writer := initial, reader := initial, middle := initial], writer, reader, middle), Idle, Resting)
  }

  lemma StartRefines<C>(writer: nat, reader: nat, middle: nat, initial: C)
    requires Aligned(writer) && Aligned(reader) && Aligned(middle)
    requires writer != reader && writer != middle && reader != middle
    ensures Refines(Start(writer, reader, middle, initial), Mailbox([initial], 0))
  {
    TagLaws(middle);
    hide GetDirty, AddDirty, SubDirty, Aligned;
    assert Start(writer, reader, middle, initial).buffers.slots.Keys == {writer, reader, middle};
  }

  ghost predicate Runs<C>(s: System<C>, events: seq<Event<C>>)
    decreases |events|
  {
    events == [] || (Enabled(s, events[0]) && Runs(Step(s, events[0]), events[1..]))
  }

  function Run<C>(s: System<C>, events: seq<Event<C>>): System<C>
    decreases |events|
  {
    if events == [] then s else Run(Step(s, events[0]), events[1..])
  }

  ghost function MailRun<C>(m: Mailbox<C>, s: System<C>, events: seq<Event<C>>): Mailbox<C>
    requires Refines(s, m) && Runs(s, events)
    decreases |events|
  {
    if events == [] then m
    else
      StepRefines(s, m, events[0]);
      MailRun(Abstractly(m, s, events[0]), Step(s, events[0]), events[1..])
  }

  /** Over every interleaving the buffer refines the mailbox; nothing published is ever taken back, and
      the reader never goes back to an older content. */
  lemma {:induction false} RunRefines<C>(m: Mailbox<C>, s: System<C>, events: seq<Event<C>>)
    requires Refines(s, m) && Runs(s, events)
    ensures Refines(Run(s, events), MailRun(m, s, events))
    ensures m.published <= MailRun(m, s, events).published && m.seen <= MailRun(m, s, events).seen
    decreases |events|
  {
    if events != [] {
      StepRefines(s, m, events[0]);
      RunRefines(Abstractly(m, s, events[0]), Step(s, events[0]), events[1..]);
    }
  }

  /** What the reader's callables are shown, call by call: the flag and the content of the read slot. */
  datatype View<C> = View(dirty: bool, content: C)

  function Views<C>(s: System<C>, events: seq<Event<C>>): seq<View<C>>
    decreases |events|
  {
    if events == [] then []
    else
      (if events[0].Finish? && s.reader.Viewing? && s.buffers.read in s.buffers.slots
       then [View(s.reader.dirty, s.buffers.slots[s.buffers.read])] else [])
      + Views(Step(s, events[0]), events[1..])
  }

  /** Which published content each of those calls stands for. */
  ghost function Indexes<C>(m: Mailbox<C>, s: System<C>, events: seq<Event<C>>): seq<nat>
    requires Refines(s, m) && Runs(s, events)
    decreases |events|
  {
    if events == [] then []
    else
      StepRefines(s, m, events[0]);
      (if events[0].Finish? then [m.seen] else [])
      + Indexes(Abstractly(m, s, events[0]), Step(s, events[0]), events[1..])
  }

  /** The index a view is compared with: what the reader had before this call. */
  ghost predicate Advances(previous: nat, indexes: seq<nat>, dirty: seq<bool>)
    requires |indexes| == |dirty|
    decreases |indexes|
  {
    indexes == [] ||
    ((if dirty[0] then previous < indexes[0] else previous == indexes[0]) &&
     Advances(indexes[0], indexes[1..], dirty[1..]))
  }

  function Flags<C>(views: seq<View<C>>): (flags: seq<bool>)
    ensures |flags| == |views|
  {
    if views == [] then [] else [views[0].dirty] + Flags(views[1..])
  }

  /** Between calls the reader has `previous`; a dirty call in progress has already moved past it. */
  ghost predicate Expecting<C>(s: System<C>, m: Mailbox<C>, previous: nat) {
    if s.reader.Viewing? && s.reader.dirty then previous < m.seen else previous == m.seen
  }

  lemma ExpectingKept<C>(m: Mailbox<C>, s: System<C>, e: Event<C>, previous: nat)
    requires Refines(s, m) && Enabled(s, e) && Expecting(s, m, previous)
    ensures s.buffers.read in s.buffers.slots && s.buffers.slots[s.buffers.read] == m.published[m.seen]
    ensures Expecting(Step(s, e), Abstractly(m, s, e), if e.Finish? then m.seen else previous)
    ensures e.Finish? ==> s.reader.Viewing? && if s.reader.dirty then previous < m.seen else previous == m.seen
  {
  }

  /** In every run, each call shows the reader one published content, whole. A dirty call shows a strictly newer
      one than the call before it; a clean call shows the same one again. */
  lemma {:induction false} ViewsAreMailboxReads<C>(m: Mailbox<C>, s: System<C>, events: seq<Event<C>>, previous: nat)
    requires Refines(s, m) && Runs(s, events) && Expecting(s, m, previous)
    ensures |Views(s, events)| == |Indexes(m, s, events)|
    ensures forall i :: 0 <= i < |Views(s, events)| ==>
      Indexes(m, s, events)[i] < |MailRun(m, s, events).published| &&
      Views(s, events)[i].content == MailRun(m, s, events).published[Indexes(m, s, events)[i]]
    ensures Advances(previous, Indexes(m, s, events), Flags(Views(s, events)))
    decreases |events|
  {
    if events != [] {
      var e := events[0];
      StepRefines(s, m, e);
      ExpectingKept(m, s, e, previous);
      var m', s' := Abstractly(m, s, e), Step(s, e);
      RunRefines(m', s', events[1..]);
      ViewsAreMailboxReads(m', s', events[1..], if e.Finish? then m.seen else previous);
      hide Refines, Step, Abstractly;
      var views := Views(s, events);
      if e.Finish? {
        assert views[1..] == Views(s', events[1..]);
        assert Indexes(m, s, events)[1..] == Indexes(m', s', events[1..]);
        assert Flags(views)[1..] == Flags(views[1..]);
      } else {
        assert views == Views(s', events[1..]);
        assert Indexes(m, s, events) == Indexes(m', s', events[1..]);
      }
    }
  }

  /** The newest content written since the writer's call began, if any. */
  datatype Written<C> = Nothing | Last(c: C)

  function LastWrite<C>(events: seq<Event<C>>): Written<C> {
    if events == [] then Nothing
    else
      match events[|events| - 1]
      case Write(c) => Last(c)
      case BeginWrite => Nothing
      case _ => LastWrite(events[..|events| - 1])
  }

  lemma {:induction false} RunsAppend<C>(m: Mailbox<C>, s: System<C>, events: seq<Event<C>>, e: Event<C>)
    requires Refines(s, m) && Runs(s, events + [e])
    ensures Runs(s, events) && Enabled(Run(s, events), e)
    ensures Refines(Run(s, events), MailRun(m, s, events))
    ensures Run(s, events + [e]) == Step(Run(s, events), e)
    ensures MailRun(m, s, events + [e]) == Abstractly(MailRun(m, s, events), Run(s, events), e)
    decreases |events|
  {
    hide GetDirty, AddDirty, SubDirty, Aligned, Step, Enabled, Abstractly;
    var all := events + [e];
    StepRefines(s, m, all[0]);
    if events == [] {
      assert all[1..] == [];
    } else {
      assert all[0] == events[0] && all[1..] == events[1..] + [e];
      RunsAppend(Abstractly(m, s, events[0]), Step(s, events[0]), events[1..], e);
    }
  }

  /** Inside a call the writer's slot holds what that call wrote last. */
  lemma {:induction false} WorkHoldsLastWrite<C>(m: Mailbox<C>, s: System<C>, events: seq<Event<C>>)
    requires Refines(s, m) && Runs(s, events)
    ensures var s' := Run(s, events);
            Refines(s', MailRun(m, s, events)) &&
            (LastWrite(events).Last? && s'.writer.Writing? ==>
               s'.buffers.work in s'.buffers.slots && s'.buffers.slots[s'.buffers.work] == LastWrite(events).c)
    decreases |events|
  {
    if events != [] {
      var before, e := events[..|events| - 1], events[|events| - 1];
      assert events == before + [e];
      RunsAppend(m, s, before, e);
      WorkHoldsLastWrite(m, s, before);
      StepRefines(Run(s, before), MailRun(m, s, before), e);
      WriteLasts(Run(s, before), MailRun(m, s, before), e);
      hide Refines, Step, Enabled, Abstractly;
    }
  }

  /** Only the writer's own steps touch its slot. */
  lemma WriteLasts<C>(s: System<C>, m: Mailbox<C>, e: Event<C>)
    requires Refines(s, m) && Enabled(s, e)
    ensures var s' := Step(s, e);
            s'.writer.Writing? && !e.BeginWrite? ==>
              s.writer.Writing? && s.buffers.work in s.buffers.slots && s'.buffers.work in s'.buffers.slots &&
              s'.buffers.slots[s'.buffers.work] == if e.Write? then e.c else s.buffers.slots[s.buffers.work]
  {
    hide GetDirty, AddDirty, SubDirty, Aligned;
  }

  /** In every run, what an exchange publishes is the value that its call wrote last. */
  lemma ExchangePublishesLastWrite<C>(m: Mailbox<C>, s: System<C>, events: seq<Event<C>>)
    requires Refines(s, m) && Runs(s, events + [Exchange])
    ensures Runs(s, events)
    ensures var was, now := MailRun(m, s, events).published, MailRun(m, s, events + [Exchange]).published;
            |now| == |was| + 1 && now[..|was|] == was &&
            (LastWrite(events).Last? ==> now[|was|] == LastWrite(events).c)
  {
    hide GetDirty, AddDirty, SubDirty, Aligned;
    RunsAppend(m, s, events, Exchange);
    WorkHoldsLastWrite(m, s, events);
  }

  /** Every call writes before it publishes. */
  ghost predicate AlwaysWrites<C>(events: seq<Event<C>>) {
    forall i :: 0 <= i < |events| && events[i].Exchange? ==> LastWrite(events[..i]).Last?
  }

  /** What the calls of a run send: the last value that each one wrote. */
  function Sent<C>(events: seq<Event<C>>): seq<C> {
    if events == [] then []
    else
      var before := events[..|events| - 1];
      if events[|events| - 1].Exchange? && LastWrite(before).Last? then Sent(before) + [LastWrite(before).c]
      else Sent(before)
  }

  lemma AlwaysWritesBefore<C>(events: seq<Event<C>>)
    requires events != [] && AlwaysWrites(events)
    ensures var before := events[..|events| - 1];
            AlwaysWrites(before) && (events[|before|].Exchange? ==> LastWrite(before).Last?)
  {
    hide LastWrite;
    var before := events[..|events| - 1];
    assert LastWrite(events[..|before|]) == LastWrite(before);
    assert forall i :: 0 <= i < |before| ==> before[i] == events[i] && before[..i] == events[..i];
  }

  lemma QuietStep<C>(m: Mailbox<C>, s: System<C>, events: seq<Event<C>>, e: Event<C>)
    requires Refines(s, m) && Runs(s, events + [e]) && !e.Exchange?
    ensures Runs(s, events)
    ensures MailRun(m, s, events + [e]).published == MailRun(m, s, events).published
  {
    hide GetDirty, AddDirty, SubDirty, Aligned;
    RunsAppend(m, s, events, e);
  }

  /** When every call writes, the published contents are those values and nothing else, in order. */
  lemma {:induction false} PublishedIsSent<C>(m: Mailbox<C>, s: System<C>, events: seq<Event<C>>)
    requires Refines(s, m) && Runs(s, events) && AlwaysWrites(events)
    ensures MailRun(m, s, events).published == m.published + Sent(events)
    decreases |events|
  {
    hide Refines, AlwaysWrites, Runs;
    if events != [] {
      var before, e := events[..|events| - 1], events[|events| - 1];
      assert events == before + [e];
      AlwaysWritesBefore(events);
      if e.Exchange? {
        ExchangePublishesLastWrite(m, s, before);
      } else {
        QuietStep(m, s, before, e);
      }
      PublishedIsSent(m, s, before);
      hide MailRun, LastWrite;
    }
  }

  /** Every content that the slots hold is one of `known`. */
  ghost predicate Holds<C(!new)>(b: Buffers<C>, known: iset<C>) {
    forall p :: p in b.slots ==> b.slots[p] in known
  }

  /** In every run, the reader is only ever shown values that were written, or that were there to begin with. */
  lemma {:induction false} ViewsWereWritten<C(!new)>(m: Mailbox<C>, s: System<C>, events: seq<Event<C>>,
                                                     known: iset<C>)
    requires Refines(s, m) && Runs(s, events) && Holds(s.buffers, known)
    requires forall i :: 0 <= i < |events| && events[i].Write? ==> events[i].c in known
    ensures forall i :: 0 <= i < |Views(s, events)| ==> Views(s, events)[i].content in known
    decreases |events|
  {
    if events != [] {
      StepRefines(s, m, events[0]);
      ViewsWereWritten(Abstractly(m, s, events[0]), Step(s, events[0]), events[1..], known);
    }
  }

  /** Steps of the writer's thread. */
  predicate WriterOnly<C>(events: seq<Event<C>>) {
    forall i :: 0 <= i < |events| ==>
      events[i].BeginWrite? || events[i].Write? || events[i].AbandonWrite? || events[i].Exchange?
  }

  /** At a dirty load, whatever the writer does before the reader's exchange, the tag is still there and the
      exchange delivers the newest content published by then. */
  lemma ExchangeDeliversNewest<C>(m: Mailbox<C>, s: System<C>, events: seq<Event<C>>)
    requires Refines(s, m) && s.reader.Resting? && GetDirty(s.buffers.swap)
    requires WriterOnly(events)
    requires Runs(Step(s, Load), events)
    ensures Refines(Step(s, Load), m) && Runs(Step(s, Load), events)
    ensures var before := Run(Step(s, Load), events);
            var m' := MailRun(m, Step(s, Load), events);
            Enabled(before, ReaderExchange) && GetDirty(before.buffers.swap) &&
            m'.published != [] && m'.seen == m.seen < Newest(m') &&
            var after := Step(before, ReaderExchange);
            after.buffers.read in after.buffers.slots &&
            after.buffers.slots[after.buffers.read] == m'.published[Newest(m')]
  {
    StepRefines(s, m, Load);
    var s', m' := Run(Step(s, Load), events), MailRun(m, Step(s, Load), events);
    RunRefines(m, Step(s, Load), events);
    ReaderUnmoved(m, Step(s, Load), events);
    StepRefines(s', m', ReaderExchange);
  }

  /** The writer's steps leave the reader's thread and slot alone. */
  lemma {:induction false} ReaderUnmoved<C>(m: Mailbox<C>, s: System<C>, events: seq<Event<C>>)
    requires Refines(s, m) && Runs(s, events)
    requires WriterOnly(events)
    ensures var s' := Run(s, events);
            s'.reader == s.reader && s'.buffers.read == s.buffers.read && MailRun(m, s, events).seen == m.seen
    decreases |events|
  {
    if events != [] {
      StepRefines(s, m, events[0]);
      ReaderUnmoved(Abstractly(m, s, events[0]), Step(s, events[0]), events[1..]);
    }
  }

  /** While the reader views, every state of the run shows it the same content: no read is torn. */
  lemma ViewIsStable<C>(m: Mailbox<C>, s: System<C>, events: seq<Event<C>>)
    requires Refines(s, m) && s.reader.Viewing? && Runs(s, events)
    requires WriterOnly(events)
    ensures var s' := Run(s, events);
            s'.buffers.read == s.buffers.read &&
            s.buffers.read in s.buffers.slots && s'.buffers.read in s'.buffers.slots &&
            s'.buffers.slots[s'.buffers.read] == s.buffers.slots[s.buffers.read] == m.published[m.seen] &&
            s'.buffers.work != s'.buffers.read
  {
    RunRefines(m, s, events);
    ReaderUnmoved(m, s, events);
  }

  /** A clean load means that nothing newer than what the reader holds had been published. */
  lemma CleanLoadIsCurrent<C>(m: Mailbox<C>, s: System<C>)
    requires Refines(s, m) && s.reader.Resting?
    ensures GetDirty(s.buffers.swap) <==> m.seen < Newest(m)
    ensures Step(s, Load).reader == (if m.seen < Newest(m) then Exchanging else Viewing(false))
    ensures s.buffers.read in s.buffers.slots && s.buffers.slots[s.buffers.read] == m.published[m.seen]
  {
    hide GetDirty, SubDirty, AddDirty, Aligned;
  }

  /** The object itself. Each method is one atomic step, or one whole call made without interference. */
  class TripleBuffer<C> {
    var slots: map<nat, C>
    var workPtr: nat
    var readPtr: nat
    var swapPtr: nat
    var presentCount: nat
    var acquireCount: nat

    ghost function Value(): Buffers<C>
      reads this
    {
      Buffers(slots, workPtr, readPtr, swapPtr)
    }

    constructor (writer: nat, reader: nat, middle: nat, initial: C)
      requires Aligned(writer) && Aligned(reader) && Aligned(middle)
      requires writer != reader && writer != middle && reader != middle
      ensures Value() == Start(writer, reader, middle, initial).buffers && Partitioned(Value())
      ensures presentCount == 0 == acquireCount
    {
      slots := map[writer := initial, reader := initial, middle := initial];
      workPtr, readPtr, swapPtr := writer, reader, middle;
      presentCount, acquireCount := 0, 0;
      new;
      TagLaws(middle);
      hide GetDirty, SubDirty, AddDirty, Aligned;
    }

    /** m_swap_ptr.exchange. */
    method ExchangeSwap(ptr: nat) returns (previous: nat)
      modifies this`swapPtr
      ensures previous == old(swapPtr) && swapPtr == ptr
    {
      previous := swapPtr;
      swapPtr := ptr;
    }

    /** A writer's call: the callable rewrites its slot through any number of intermediate contents, the last of
        which is published. With no contents the slot is published as it stood. */
    method Acquire(contents: seq<C>)
      requires Partitioned(Value())
      modifies this
      ensures Partitioned(Value()) && acquireCount == old(acquireCount) + 1
      ensures Value() ==
        Publish(if contents == [] then old(Value()) else Modify(old(Value()), contents[|contents| - 1]))
      ensures GetDirty(swapPtr) && readPtr == old(readPtr) && SubDirty(swapPtr) in slots
      ensures contents != [] ==> slots[SubDirty(swapPtr)] == contents[|contents| - 1]
    {
      hide GetDirty, SubDirty, AddDirty, Aligned;
      acquireCount := acquireCount + 1;
      for i := 0 to |contents|
        invariant Value() == if i == 0 then old(Value()) else Modify(old(Value()), contents[i - 1])
        invariant acquireCount == old(acquireCount) + 1
      {
        slots := slots[workPtr := contents[i]];
      }
      TagLaws(workPtr);
      TagLaws(SubDirty(swapPtr));
      var previous := ExchangeSwap(AddDirty(workPtr));
      workPtr := SubDirty(previous);
    }

    /** A reader's call: whether the content is new, and the content. */
    method Present() returns (view: View<C>)
      requires Partitioned(Value())
      modifies this
      ensures Partitioned(Value()) && presentCount == old(presentCount) + 1
      ensures view.dirty == GetDirty(old(swapPtr))
      ensures Value() == if view.dirty then Take(old(Value())) else old(Value())
      ensures readPtr in slots && view.content == slots[readPtr]
      ensures SubDirty(old(swapPtr)) in old(slots)
      ensures view.dirty ==> view.content == old(slots)[SubDirty(old(swapPtr))] && !GetDirty(swapPtr)
    {
      hide GetDirty, SubDirty, AddDirty, Aligned;
      presentCount := presentCount + 1;
      var loaded := swapPtr;
      TagLaws(readPtr);
      if GetDirty(loaded) {
        var previous := ExchangeSwap(readPtr);
        readPtr := SubDirty(previous);
        return View(true, slots[readPtr]);
      } else {
        return View(false, slots[readPtr]);
      }
    }
  }

  /** A value that one call wrote last is what the reader's next call shows, as new, and the one after that shows it
      again, as known. */
  method AcquireThenPresent<C>(buffer: TripleBuffer<C>, contents: seq<C>) returns (first: View<C>, second: View<C>)
    requires Partitioned(buffer.Value()) && contents != []
    modifies buffer
    ensures Partitioned(buffer.Value())
    ensures first == View(true, contents[|contents| - 1]) && second == View(false, contents[|contents| - 1])
  {
    hide SubDirty, AddDirty, Aligned, GetDirty;
    buffer.Acquire(contents);
    first := buffer.Present();
    second := buffer.Present();
  }
}
