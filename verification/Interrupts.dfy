/** The frame loop of the guest machine: interrupts are encoded in the sign of the cycle budget. */
module Interrupts {
  import opened Arithmetic

  datatype Interrupt = CLEAR | FRAME | SOUND | DELAY | INPUT | FINAL | ERROR

  /** What an instruction may raise: anything but CLEAR, which only the handlers set. */
  type Cause = i: Interrupt | i != CLEAR witness FRAME

  /** The effects of an instruction that matter here, in order. */
  datatype Action = Raise(cause: Cause) | SetDelay(value: nat) | SetSound(value: nat)

  type Instruction = seq<Action>

  /** The instructions a frame would fetch, one after another. */
  type Program = nat -> Instruction

  datatype State = State(
    cycles: int, interrupt: Interrupt, delay: nat, sound: nat, buzz: bool, stopped: bool, frames: nat, total: nat)

  function Abs(x: int): int {
    if x < 0 then -x else x
  }

  predicate Interrupting(i: Instruction) {
    exists a :: a in i && a.Raise?
  }

  function Act(s: State, a: Action): State {
    match a
    case Raise(cause) => s.(interrupt := cause, cycles := -Abs(s.cycles))
    case SetDelay(value) => s.(delay := value)
    case SetSound(value) => s.(sound := value)
  }

  function Executed(s: State, i: Instruction): State {
    if i == [] then s else Act(Executed(s, i[..|i| - 1]), i[|i| - 1])
  }

  /** An instruction negates the budget if it raises anything, and otherwise leaves it alone. */
  lemma {:induction false} ExecutedBudget(s: State, i: Instruction)
    ensures Executed(s, i).cycles == if Interrupting(i) then -Abs(s.cycles) else s.cycles
    ensures if Interrupting(i) then Executed(s, i).interrupt != CLEAR else Executed(s, i).interrupt == s.interrupt
    ensures Executed(s, i).stopped == s.stopped
  {
    if i != [] {
      var rest, last := i[..|i| - 1], i[|i| - 1];
      ExecutedBudget(s, rest);
      assert last in i;
      assert Interrupting(i) <==> Interrupting(rest) || last.Raise? by {
        assert i == rest + [last];
        if Interrupting(rest) {
          var a :| a in rest && a.Raise?;
          assert a in i;
        }
      }
    }
  }

  /** The state after n instructions. */
  function After(s: State, p: Program, n: nat): State {
    if n == 0 then s else Executed(After(s, p, n - 1), p(n - 1))
  }

  /** The loop leaves at the first count that is not below the budget as it then stands. */
  predicate LeavesAt(s: State, p: Program, n: nat) {
    n >= After(s, p, n).cycles && forall k: nat | k < n :: k < After(s, p, k).cycles
  }

  /** How many instructions a frame runs: all of the budget, or up to and including the first interrupting one. */
  function Ran(budget: int, p: Program): (n: nat)
    ensures budget <= 0 ==> n == 0
    ensures budget > 0 ==> 0 < n <= budget && (n == budget || Interrupting(p(n - 1)))
    ensures forall k: nat | k + 1 < n :: !Interrupting(p(k))
  {
    if budget <= 0 then 0 else FirstInterrupt(p, 0, budget)
  }

  function FirstInterrupt(p: Program, from: nat, budget: nat): (n: nat)
    requires from < budget
    ensures from < n <= budget && (n == budget || Interrupting(p(n - 1)))
    ensures forall k: nat | from <= k && k + 1 < n :: !Interrupting(p(k))
    decreases budget - from
  {
    if from + 1 == budget || Interrupting(p(from)) then from + 1 else FirstInterrupt(p, from + 1, budget)
  }

  /** While nothing has interrupted, the budget stands. */
  lemma {:induction false} BudgetStands(s: State, p: Program, n: nat)
    requires forall k: nat | k < n :: !Interrupting(p(k))
    ensures After(s, p, n).cycles == s.cycles && After(s, p, n).interrupt == s.interrupt
    ensures After(s, p, n).stopped == s.stopped
  {
    if n > 0 {
      BudgetStands(s, p, n - 1);
      ExecutedBudget(After(s, p, n - 1), p(n - 1));
    }
  }

  /** The budget at the end of a frame's instructions: negated exactly when one of them interrupted. */
  lemma LoopBudget(s: State, p: Program)
    ensures var n := Ran(s.cycles, p); var t := After(s, p, n);
      LeavesAt(s, p, n) && t.stopped == s.stopped &&
      if n > 0 && Interrupting(p(n - 1)) then t.cycles == -s.cycles && t.interrupt != CLEAR
      else t.cycles == s.cycles && t.interrupt == s.interrupt
  {
    var n := Ran(s.cycles, p);
    if n > 0 {
      forall k: nat | k < n {
        BudgetStands(s, p, k);
      }
      ExecutedBudget(After(s, p, n - 1), p(n - 1));
    }
  }

  lemma AfterStarts(s: State, p: Program)
    ensures After(s, p, 0) == s
  {
  }

  /** While the count is below the budget, the loop has not reached the point where it leaves. */
  lemma RunningOn(s: State, p: Program, n: nat, m: nat)
    requires LeavesAt(s, p, m) && n <= m && n < After(s, p, n).cycles
    ensures n < m && After(s, p, n + 1) == Executed(After(s, p, n), p(n))
  {
  }

  /** There is one such point. */
  lemma LeavesHere(s: State, p: Program, n: nat, m: nat)
    requires LeavesAt(s, p, m) && n <= m && n >= After(s, p, n).cycles
    ensures n == m
  {
  }

  /** The frame in four steps: timers, frame handler, instructions, input handler. */
  function Ticked(s: State): State {
    var delay, sound := if s.delay > 0 then s.delay - 1 else 0, if s.sound > 0 then s.sound - 1 else 0;
    s.(frames := (s.frames + 1) % TWO_TO_THE_32, delay := delay, sound := sound, buzz := s.buzz && sound > 0)
  }

  function FrameWaited(s: State): State {
    match s.interrupt
    case FRAME => s.(cycles := Abs(s.cycles))
    case SOUND => if s.sound == 0 then s.(interrupt := FINAL, cycles := 0) else s
    case DELAY => if s.delay == 0 then s.(interrupt := CLEAR, cycles := Abs(s.cycles)) else s
    case _ => s
  }

  function Looped(s: State, p: Program): State {
    var n := Ran(s.cycles, p);
    var t := After(s, p, n);
    t.(total := (t.total + n) % TWO_TO_THE_64)
  }

  function InputWaited(s: State, pressed: bool): State {
    match s.interrupt
    case INPUT =>
      if pressed then s.(interrupt := CLEAR, cycles := Abs(s.cycles), sound := 2, buzz := true) else s
    case FINAL => s.(cycles := 0)
    case ERROR => s.(cycles := 0)
    case _ => s
  }

  /** What a frame meets: the instructions waiting to be fetched and whether Fx0A's key goes down. */
  datatype Event = Frame(program: Program, pressed: bool) | Pause(state: bool)

  function Next(s: State, e: Event): State {
    match e
    case Pause(state) => s.(stopped := state)
    case Frame(program, pressed) =>
      if s.stopped || s.cycles == 0 then s
      else InputWaited(Looped(FrameWaited(Ticked(s)), program), pressed)
  }

  function Run(s: State, events: seq<Event>): State {
    if events == [] then s else Next(Run(s, events[..|events| - 1]), events[|events| - 1])
  }

  /** How many instructions run in a frame that starts in state s. */
  function RunsIn(s: State, e: Event): nat {
    if e.Pause? || s.stopped || s.cycles == 0 then 0 else Ran(FrameWaited(Ticked(s)).cycles, e.program)
  }

  /** Between frames the interrupt determines the sign of the budget, whose size never changes; only FRAME leaves
      both signs open, because resuming from it does not clear it. */
  predicate Phase(s: State, budget: int) {
    budget > 0 &&
    match s.interrupt
    case CLEAR => s.cycles == budget
    case FRAME => s.cycles == budget || s.cycles == -budget
    case SOUND => s.cycles == -budget
    case DELAY => s.cycles == -budget
    case INPUT => s.cycles == -budget
    case FINAL => s.cycles == 0
    case ERROR => s.cycles == 0
  }

  lemma NextKeepsPhase(s: State, e: Event, budget: int)
    requires Phase(s, budget)
    ensures Phase(Next(s, e), budget)
  {
    if e.Frame? {
      LoopBudget(FrameWaited(Ticked(s)), e.program);
    }
    hide Ran, After, LeavesAt, Interrupting;
  }

  /** Over every run from a fresh start the cycle budget is C, -C or 0, as the interrupt says. */
  lemma {:induction false} RunKeepsPhase(s: State, events: seq<Event>, budget: int)
    requires Phase(s, budget)
    ensures Phase(Run(s, events), budget)
    ensures Run(s, events).cycles in {budget, -budget, 0}
  {
    if events != [] {
      RunKeepsPhase(s, events[..|events| - 1], budget);
      NextKeepsPhase(Run(s, events[..|events| - 1]), events[|events| - 1], budget);
    }
  }

  /** A frame runs instructions exactly when the machine is not stopped and either nothing is pending, a one-frame
      pause is over, or a delay is about to run out. */
  lemma RunsOnlyWhenResumed(s: State, e: Event, budget: int)
    requires Phase(s, budget) && e.Frame?
    ensures RunsIn(s, e) > 0 <==>
            !s.stopped && (s.interrupt == CLEAR || s.interrupt == FRAME || (s.interrupt == DELAY && s.delay <= 1))
  {
  }

  /** The end states are final: whatever is fed to the machine, no frame changes anything. */
  lemma {:induction false} HaltedForGood(s: State, events: seq<Event>, budget: int)
    requires Phase(s, budget) && (s.interrupt == FINAL || s.interrupt == ERROR)
    ensures Run(s, events).(stopped := s.stopped) == s
    ensures forall e | e in events :: RunsIn(Run(s, events), e) == 0
  {
    if events != [] {
      HaltedForGood(s, events[..|events| - 1], budget);
    }
  }

  ghost predicate FramesOnly(events: seq<Event>) {
    forall e | e in events :: e.Frame?
  }

  /** A frame that runs no instruction only counts down. */
  lemma IdleFrame(s: State, e: Event, budget: int)
    requires Phase(s, budget) && e.Frame? && !s.stopped && s.cycles != 0
    requires FrameWaited(Ticked(s)).cycles <= 0
    ensures Next(s, e).total == s.total % TWO_TO_THE_64
    ensures Next(s, e) ==
            InputWaited(FrameWaited(Ticked(s)).(total := s.total % TWO_TO_THE_64), e.pressed)
  {
  }

  function Longer(a: nat, b: nat): nat {
    if a < b then b else a
  }

  /** A wait for the delay timer at d lasts exactly max(1, d) frames: until then nothing runs and the timer counts
      down, and in the last of them instructions run again. */
  lemma {:induction false} DelayWaits(s: State, events: seq<Event>, budget: int, d: nat)
    requires Phase(s, budget) && s.interrupt == DELAY && !s.stopped && s.delay == d
    requires FramesOnly(events) && |events| < Longer(1, d)
    ensures var t := Run(s, events);
      t.interrupt == DELAY && t.cycles == -budget && !t.stopped && t.delay == d - |events|
    ensures forall e: Event | e.Frame? ::
      RunsIn(Run(s, events), e) > 0 <==> |events| + 1 == Longer(1, d)
  {
    if events != [] {
      var before, e := events[..|events| - 1], events[|events| - 1];
      assert FramesOnly(before) by {
        assert events == before + [e];
      }
      DelayWaits(s, before, budget, d);
      NextKeepsPhase(Run(s, before), e, budget);
      IdleFrame(Run(s, before), e, budget);
    }
    forall e: Event | e.Frame?
      ensures RunsIn(Run(s, events), e) > 0 <==> |events| + 1 == Longer(1, d)
    {
      RunsOnlyWhenResumed(Run(s, events), e, budget);
    }
    hide Ran, After, LeavesAt, Interrupting;
  }

  /** A wait for the sound timer at d ends the program after exactly max(1, d) frames, in none of which an
      instruction runs. */
  lemma {:induction false} SoundWaits(s: State, events: seq<Event>, budget: int, d: nat)
    requires Phase(s, budget) && s.interrupt == SOUND && !s.stopped && s.sound == d && FramesOnly(events)
    ensures var t := Run(s, events);
      !t.stopped && t.interrupt == if |events| < Longer(1, d) then SOUND else FINAL
    ensures |events| < Longer(1, d) ==> Run(s, events).sound == d - |events|
    ensures forall e: Event | e.Frame? :: RunsIn(Run(s, events), e) == 0
  {
    RunKeepsPhase(s, events, budget);
    if events != [] {
      var before, e := events[..|events| - 1], events[|events| - 1];
      assert FramesOnly(before) by {
        assert events == before + [e];
      }
      SoundWaits(s, before, budget, d);
      RunKeepsPhase(s, before, budget);
      if |before| < Longer(1, d) {
        IdleFrame(Run(s, before), e, budget);
      }
    }
    hide Ran, After, LeavesAt, Interrupting;
  }

  /** After a frame of waiting: resumed with a short beep if the key went down, still waiting if not. */
  predicate KeyAnswered(t: State, pressed: bool, budget: int) {
    !t.stopped &&
    if pressed then t.interrupt == CLEAR && t.cycles == budget && t.sound == 2 && t.buzz
    else t.interrupt == INPUT && t.cycles == -budget
  }

  lemma InputFrame(s: State, e: Event, budget: int)
    requires Phase(s, budget) && s.interrupt == INPUT && !s.stopped && e.Frame?
    ensures RunsIn(s, e) == 0
    ensures KeyAnswered(Next(s, e), e.pressed, budget)
  {
    IdleFrame(s, e, budget);
    hide Ran, After, LeavesAt, Interrupting, Looped, Next;
  }

  /** A wait for a key lasts until the first frame in which it goes down; nothing runs in that frame either, and
      the next one starts with nothing pending. */
  lemma {:induction false} InputWaits(s: State, events: seq<Event>, budget: int, last: Event)
    requires Phase(s, budget) && s.interrupt == INPUT && !s.stopped && last.Frame?
    requires FramesOnly(events) && forall e | e in events :: !e.pressed
    ensures var t := Run(s, events); t.interrupt == INPUT && t.cycles == -budget && !t.stopped
    ensures RunsIn(Run(s, events), last) == 0
    ensures KeyAnswered(Next(Run(s, events), last), last.pressed, budget)
  {
    RunKeepsPhase(s, events, budget);
    if events != [] {
      var before, e := events[..|events| - 1], events[|events| - 1];
      assert events == before + [e];
      InputWaits(s, before, budget, e);
    }
    InputFrame(Run(s, events), last, budget);
    hide Next, RunsIn;
  }

  /** Instructions leave the counters alone, and the stop flag. */
  lemma {:induction false} ExecutedCounters(s: State, i: Instruction)
    ensures Executed(s, i).frames == s.frames && Executed(s, i).total == s.total && Executed(s, i).buzz == s.buzz
  {
    if i != [] {
      ExecutedCounters(s, i[..|i| - 1]);
    }
  }

  lemma {:induction false} AfterCounters(s: State, p: Program, n: nat)
    ensures After(s, p, n).frames == s.frames && After(s, p, n).total == s.total && After(s, p, n).buzz == s.buzz
  {
    if n > 0 {
      AfterCounters(s, p, n - 1);
      ExecutedCounters(After(s, p, n - 1), p(n - 1));
    }
  }

  /** A frame that is not skipped counts itself, in 32 bits, and the instructions it ran, in 64; a skipped one changes
      nothing. The sound light goes out with the sound timer, unless a key answers a wait. */
  lemma FrameCounts(s: State, e: Event)
    requires e.Frame?
    ensures s.stopped || s.cycles == 0 ==> Next(s, e) == s
    ensures !s.stopped && s.cycles != 0 ==>
      Next(s, e).frames == (s.frames + 1) % 0x1_0000_0000 &&
      Next(s, e).total == (s.total + RunsIn(s, e)) % 0x1_0000_0000_0000_0000 &&
      (Next(s, e).buzz <==> (s.buzz && s.sound > 1) || (Next(s, e).interrupt == CLEAR && e.pressed &&
                             Looped(FrameWaited(Ticked(s)), e.program).interrupt == INPUT))
  {
    AfterCounters(FrameWaited(Ticked(s)), e.program, RunsIn(s, e));
    hide Ran, After;
  }

  lemma OneExecuted(s: State, i: Instruction, a: Action)
    ensures Executed(s, i + [a]) == Act(Executed(s, i), a)
    ensures Executed(s, []) == s
  {
    assert (i + [a])[..|i|] == i;
  }

  /** What the instructions of a frame with nothing pending leave when the first one sets a timer, or none, and then
      raises an interrupt. */
  lemma RaisedAtOnce(s: State, e: Event, budget: int, timer: seq<Action>, cause: Cause)
    requires Phase(s, budget) && s.interrupt == CLEAR && !s.stopped && e.Frame?
    requires e.program(0) == timer + [Raise(cause)]
    requires timer == [] || (|timer| == 1 && !timer[0].Raise?)
    ensures RunsIn(s, e) == 1
    ensures var t := Looped(FrameWaited(Ticked(s)), e.program);
      t.interrupt == cause && t.cycles == -budget && !t.stopped &&
      t.delay == (if timer != [] && timer[0].SetDelay? then timer[0].value
                  else if s.delay > 0 then s.delay - 1 else 0) &&
      t.sound == if timer != [] && timer[0].SetSound? then timer[0].value
                 else if s.sound > 0 then s.sound - 1 else 0
  {
    var start := FrameWaited(Ticked(s));
    var i := e.program(0);
    assert i[|timer|] == Raise(cause) && i[|timer|] in i;
    assert Interrupting(i);
    AfterStarts(start, e.program);
    assert After(start, e.program, 1) == Executed(start, i);
    OneExecuted(start, timer, Raise(cause));
    if timer != [] {
      assert timer == [] + [timer[0]];
      OneExecuted(start, [], timer[0]);
    } else {
      OneExecuted(start, [], Raise(cause));
    }
    hide After, Executed, Interrupting;
  }

  /** An interrupt raised by the first instruction is the one that is pending after the frame; a wait for a key may be
      answered at once, and the end states stop the machine. */
  lemma RaiseIsPending(s: State, e: Event, budget: int, cause: Cause)
    requires Phase(s, budget) && s.interrupt == CLEAR && !s.stopped && e.Frame? && e.program(0) == [Raise(cause)]
    ensures var t := Next(s, e);
      if cause == INPUT && e.pressed then t.interrupt == CLEAR && t.cycles == budget
      else t.interrupt == cause && t.cycles == if cause == FINAL || cause == ERROR then 0 else -budget
  {
    assert [] + [Raise(cause)] == [Raise(cause)];
    RaisedAtOnce(s, e, budget, [], cause);
    hide Looped, Ticked, FrameWaited;
  }

  /** A program that sets the delay timer to d and waits for it goes on after exactly max(1, d) frames. */
  lemma DelayProgram(s: State, e: Event, budget: int, d: nat, events: seq<Event>)
    requires Phase(s, budget) && s.interrupt == CLEAR && !s.stopped && e.Frame?
    requires e.program(0) == [SetDelay(d), Raise(DELAY)]
    requires FramesOnly(events) && |events| < Longer(1, d)
    ensures forall f: Event | f.Frame? ::
      RunsIn(Run(Next(s, e), events), f) > 0 <==> |events| + 1 == if d <= 1 then 1 else d
  {
    assert [SetDelay(d)] + [Raise(DELAY)] == [SetDelay(d), Raise(DELAY)];
    RaisedAtOnce(s, e, budget, [SetDelay(d)], DELAY);
    hide Looped, Ticked, FrameWaited, Phase, RunsIn, Run;
    NextKeepsPhase(s, e, budget);
    DelayWaits(Next(s, e), events, budget, d);
  }

  /** One that sets the sound timer to d and waits for it ends after exactly max(1, d) frames. */
  lemma SoundProgram(s: State, e: Event, budget: int, d: nat, events: seq<Event>)
    requires Phase(s, budget) && s.interrupt == CLEAR && !s.stopped && e.Frame?
    requires e.program(0) == [SetSound(d), Raise(SOUND)] && FramesOnly(events)
    ensures Run(Next(s, e), events).interrupt == if |events| < (if d <= 1 then 1 else d) then SOUND else FINAL
    ensures forall f: Event | f.Frame? :: RunsIn(Run(Next(s, e), events), f) == 0
  {
    assert [SetSound(d)] + [Raise(SOUND)] == [SetSound(d), Raise(SOUND)];
    RaisedAtOnce(s, e, budget, [SetSound(d)], SOUND);
    hide Looped, Ticked, FrameWaited, Phase, RunsIn, Run;
    NextKeepsPhase(s, e, budget);
    SoundWaits(Next(s, e), events, budget, d);
  }

  class Machine {
    var cyclesPerFrame: int
    var interrupt: Interrupt
    var delayTimer: nat
    var soundTimer: nat
    var buzzLight: bool
    var systemStopped: bool
    var totalFrames: nat
    var totalCycles: nat

    /** A program set up to run `budget` cycles a frame. */
    constructor (budget: int)
      requires budget > 0
      ensures View() == State(budget, CLEAR, 0, 0, false, false, 0, 0) && Phase(View(), budget)
    {
      cyclesPerFrame, interrupt := budget, CLEAR;
      delayTimer, soundTimer, buzzLight, systemStopped, totalFrames, totalCycles := 0, 0, false, false, 0, 0;
    }

    ghost function View(): State
      reads this
    {
      State(cyclesPerFrame, interrupt, delayTimer, soundTimer, buzzLight, systemStopped, totalFrames, totalCycles)
    }

    predicate IsSystemStopped()
      reads this
    {
      systemStopped || cyclesPerFrame == 0
    }

    method StopSystem(state: bool)
      modifies this
      ensures View() == Next(old(View()), Pause(state))
    {
      systemStopped := state;
    }

    method SetInterrupt(cause: Cause)
      modifies this
      ensures View() == Act(old(View()), Raise(cause))
    {
      interrupt := cause;
      cyclesPerFrame := -Abs(cyclesPerFrame);
    }

    method Execute(i: Instruction)
      modifies this
      ensures View() == Executed(old(View()), i)
    {
      for k := 0 to |i|
        invariant View() == Executed(old(View()), i[..k])
      {
        assert i[..k + 1][..k] == i[..k];
        match i[k] {
          case Raise(cause) => SetInterrupt(cause);
          case SetDelay(value) => delayTimer := value;
          case SetSound(value) => soundTimer := value;
        }
      }
      assert i[..|i|] == i;
    }

    /** Runs instructions while the count is below the budget, which any of them may turn negative. */
    method InstructionLoop(program: Program) returns (executed: nat)
      modifies this
      ensures executed == Ran(old(cyclesPerFrame), program)
      ensures View() == Looped(old(View()), program)
    {
      hide Executed, LeavesAt, Interrupting, Ran, After;
      ghost var s := View();
      LoopBudget(s, program);
      AfterStarts(s, program);
      executed := 0;
      while executed < cyclesPerFrame
        invariant View() == After(s, program, executed)
        invariant executed <= Ran(s.cycles, program)
        decreases Ran(s.cycles, program) - executed
      {
        RunningOn(s, program, executed, Ran(s.cycles, program));
        Execute(program(executed));
        executed := executed + 1;
      }
      LeavesHere(s, program, executed, Ran(s.cycles, program));
      totalCycles := (totalCycles + executed) % TWO_TO_THE_64;
    }

    method HandleFrameWait()
      modifies this
      ensures View() == FrameWaited(old(View()))
    {
      match interrupt {
        case FRAME =>
          cyclesPerFrame := Abs(cyclesPerFrame);
        case SOUND =>
          if soundTimer == 0 {
            interrupt := FINAL;
            cyclesPerFrame := 0;
          }
        case DELAY =>
          if delayTimer == 0 {
            interrupt := CLEAR;
            cyclesPerFrame := Abs(cyclesPerFrame);
          }
        case _ =>
      }
    }

    method HandleInputWait(pressed: bool)
      modifies this
      ensures View() == InputWaited(old(View()), pressed)
    {
      match interrupt {
        case INPUT =>
          if pressed {
            interrupt := CLEAR;
            cyclesPerFrame := Abs(cyclesPerFrame);
            soundTimer := 2;
            buzzLight := true;
          }
        case FINAL =>
          cyclesPerFrame := 0;
        case ERROR =>
          cyclesPerFrame := 0;
        case _ =>
      }
    }

    /** One frame; the budget keeps its size and the sign the pending interrupt calls for. */
    method ProcessFrame(program: Program, pressed: bool, ghost budget: int) returns (executed: nat)
      requires Phase(View(), budget)
      modifies this
      ensures View() == Next(old(View()), Frame(program, pressed)) && Phase(View(), budget)
      ensures executed == RunsIn(old(View()), Frame(program, pressed))
    {
      hide Ran, After, LeavesAt, Interrupting, FrameWaited, Looped, InputWaited, Phase;
      NextKeepsPhase(View(), Frame(program, pressed), budget);
      executed := 0;
      if IsSystemStopped() {
        return;
      }
      totalFrames := (totalFrames + 1) % TWO_TO_THE_32;
      if delayTimer > 0 {
        delayTimer := delayTimer - 1;
      }
      if soundTimer > 0 {
        soundTimer := soundTimer - 1;
      }
      if soundTimer == 0 {
        buzzLight := false;
      }
      HandleFrameWait();
      executed := InstructionLoop(program);
      HandleInputWait(pressed);
    }
  }
}
