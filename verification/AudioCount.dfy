/** How many audio samples each video frame owes, kept in 24-bit fixed point. */
module AudioCount {
  import opened Arithmetic

  const ONE: nat := 0x100_0000
  const TWO_TO_THE_40: nat := 0x100_0000_0000

  /** Samples per frame in fixed point, as cast to the 64-bit accumulator's type. */
  type FixedStep = n: nat | n < 0x1_0000_0000_0000_0000

  datatype Call = Call(framerate: real, step: FixedStep)

  datatype Counter = Counter(framerate: real, accumulator: nat)

  predicate Ignored(call: Call) {
    call.framerate < 0.1
  }

  /** A call at a new rate starts from an empty accumulator. */
  function Primed(c: Counter, call: Call): Counter {
    if call.framerate != c.framerate then Counter(call.framerate, 0) else c
  }

  /** The accumulator with the step added, wrapped around in 64 bits. */
  function Added(c: Counter, call: Call): nat {
    (Primed(c, call).accumulator + call.step) % TWO_TO_THE_64
  }

  /** Sample frames owed by one call. */
  function Frames(c: Counter, call: Call): nat {
    if Ignored(call) then 0 else Added(c, call) / ONE
  }

  function Next(c: Counter, call: Call): Counter {
    if Ignored(call) then c else Counter(call.framerate, Added(c, call) % ONE)
  }

  function After(c: Counter, calls: seq<Call>): Counter {
    if calls == [] then c else Next(After(c, calls[..|calls| - 1]), calls[|calls| - 1])
  }

  /** Sample frames owed by a run of calls. */
  function Total(c: Counter, calls: seq<Call>): nat {
    if calls == [] then 0
    else Total(c, calls[..|calls| - 1]) + Frames(After(c, calls[..|calls| - 1]), calls[|calls| - 1])
  }

  /** The exact amount a run of calls asks for, in fixed point. */
  function Asked(calls: seq<Call>): nat {
    if calls == [] then 0
    else Asked(calls[..|calls| - 1]) + if Ignored(calls[|calls| - 1]) then 0 else calls[|calls| - 1].step
  }

  predicate Wraps(c: Counter, call: Call) {
    !Ignored(call) && Primed(c, call).accumulator + call.step >= TWO_TO_THE_64
  }

  function WrapCount(c: Counter, calls: seq<Call>): nat {
    if calls == [] then 0
    else WrapCount(c, calls[..|calls| - 1]) +
         if Wraps(After(c, calls[..|calls| - 1]), calls[|calls| - 1]) then 1 else 0
  }

  /** No call in the run changes the rate. */
  predicate Steady(c: Counter, calls: seq<Call>) {
    forall i | 0 <= i < |calls| :: Ignored(calls[i]) || calls[i].framerate == c.framerate
  }

  /** A call hands out its step but for what the accumulator keeps; only a 64-bit wrap loses anything. */
  lemma CallBalances(c: Counter, call: Call)
    requires c.accumulator < ONE && (Ignored(call) || call.framerate == c.framerate)
    ensures Next(c, call).accumulator < ONE && Next(c, call).framerate == c.framerate
    ensures Frames(c, call) * ONE + Next(c, call).accumulator ==
            c.accumulator + (if Ignored(call) then 0 else call.step) - if Wraps(c, call) then TWO_TO_THE_64 else 0
  {
    if !Ignored(call) {
      var sum := c.accumulator + call.step;
      if Wraps(c, call) {
        DivUnique(sum, 1, sum - TWO_TO_THE_64, TWO_TO_THE_64);
      }
    }
  }

  lemma {:induction false} RunBalances(c: Counter, calls: seq<Call>)
    requires c.accumulator < ONE && Steady(c, calls)
    ensures After(c, calls).accumulator < ONE && After(c, calls).framerate == c.framerate
    ensures Total(c, calls) * ONE + After(c, calls).accumulator ==
            c.accumulator + Asked(calls) - WrapCount(c, calls) * TWO_TO_THE_64
  {
    if calls != [] {
      var before, call := calls[..|calls| - 1], calls[|calls| - 1];
      RunBalances(c, before);
      CallBalances(After(c, before), call);
      hide Frames, Next, Wraps, Ignored;
    }
  }

  /** Over any calls at one rate the sample frames add up to exactly the whole part of everything asked for, minus
      2^40 for every wrap: the whole part if and only if nothing wrapped. */
  lemma TotalIsWholePart(c: Counter, calls: seq<Call>)
    requires c.accumulator < ONE && Steady(c, calls)
    ensures Total(c, calls) == (c.accumulator + Asked(calls)) / ONE - WrapCount(c, calls) * TWO_TO_THE_40
    ensures After(c, calls).accumulator == (c.accumulator + Asked(calls)) % ONE
    ensures Total(c, calls) == (c.accumulator + Asked(calls)) / ONE <==> WrapCount(c, calls) == 0
  {
    RunBalances(c, calls);
    var wraps := WrapCount(c, calls);
    assert wraps * TWO_TO_THE_64 == (wraps * TWO_TO_THE_40) * ONE;
    DivUnique(c.accumulator + Asked(calls), Total(c, calls) + wraps * TWO_TO_THE_40, After(c, calls).accumulator, ONE);
  }

  /** The largest step that can be added to any accumulator without wrapping. */
  lemma {:induction false} NoWrapBelow(c: Counter, calls: seq<Call>)
    requires c.accumulator < ONE && Steady(c, calls)
    requires forall call | call in calls :: call.step <= TWO_TO_THE_64 - ONE
    ensures WrapCount(c, calls) == 0
  {
    if calls != [] {
      var before, call := calls[..|calls| - 1], calls[|calls| - 1];
      NoWrapBelow(c, before);
      RunBalances(c, before);
      assert call in calls;
    }
  }

  lemma WrapsAbove(c: Counter, call: Call)
    requires c.accumulator == ONE - 1 && call.framerate == c.framerate && !Ignored(call)
    ensures WrapCount(c, [call]) == 0 <==> call.step <= TWO_TO_THE_64 - ONE
  {
    assert [call][..0] == [];
  }

  /** Each call that does not wrap owes the floor or the ceiling of its own step. */
  lemma FloorOrCeiling(c: Counter, call: Call)
    requires c.accumulator < ONE && !Ignored(call) && !Wraps(c, call)
    ensures call.step / ONE <= Frames(c, call) <= CeilOne(call.step)
    ensures Frames(c, call) <= call.step / 16777216 + if call.step % 16777216 == 0 then 0 else 1
  {
    var sum := Primed(c, call).accumulator + call.step;
    var whole, part := call.step / ONE, call.step % ONE;
    var carry := if Primed(c, call).accumulator + part >= ONE then 1 else 0;
    DivUnique(sum, whole + carry, Primed(c, call).accumulator + part - carry * ONE, ONE);
  }

  function CeilOne(step: nat): nat {
    (step + ONE - 1) / ONE
  }

  /** A call at a new rate owes the whole part of its own step, whatever the accumulator held; a call at a rate below a
      tenth of a frame a second owes nothing and changes nothing. */
  lemma RateChange(c: Counter, call: Call)
    ensures call.framerate < 0.1 ==> Frames(c, call) == 0 && Next(c, call) == c
    ensures call.framerate >= 0.1 && call.framerate != c.framerate ==>
      Frames(c, call) == call.step / 16777216 &&
      Next(c, call) == Counter(call.framerate, call.step % 16777216)
  {
    if call.framerate >= 0.1 {
      DivUnique(call.step, 0, call.step, TWO_TO_THE_64);
    }
  }

  /** A call that does not wrap, in numbers. */
  lemma CountIs(c: Counter, call: Call)
    ensures call.framerate >= 0.1 ==>
      var sum := (if call.framerate == c.framerate then c.accumulator else 0) + call.step;
      sum < 0x1_0000_0000_0000_0000 ==>
        Frames(c, call) == sum / 16777216 && Next(c, call).accumulator == sum % 16777216
  {
    var sum := Primed(c, call).accumulator + call.step;
    if sum < TWO_TO_THE_64 {
      DivUnique(sum, 0, sum, TWO_TO_THE_64);
    }
  }

  /** Samples owed, one for every channel of every sample frame. */
  class AudioDevice {
    var channels: nat
    var targetFramerate: real
    var accumulator: nat

    ghost predicate Valid()
      reads this
    {
      channels <= 8 && accumulator < ONE
    }

    ghost function View(): Counter
      reads this
    {
      Counter(targetFramerate, accumulator)
    }

    constructor (channels: nat)
      requires channels <= 8
      ensures Valid() && View() == Counter(0.0, 0) && this.channels == channels
    {
      this.channels, targetFramerate, accumulator := channels, 0.0, 0;
    }

    method NextFrameSampleCount(framerate: real, step: FixedStep) returns (samples: nat)
      requires Valid()
      modifies this`targetFramerate, this`accumulator
      ensures Valid() && View() == Next(old(View()), Call(framerate, step))
      ensures samples == Frames(old(View()), Call(framerate, step)) * channels
      ensures framerate < 0.1 ==>
        samples == 0 && targetFramerate == old(targetFramerate) && accumulator == old(accumulator)
      ensures framerate >= 0.1 ==>
        var sum := (if framerate == old(targetFramerate) then old(accumulator) else 0) + step;
        targetFramerate == framerate &&
        (sum < 0x1_0000_0000_0000_0000 ==>
           samples == sum / 16777216 * channels && accumulator == sum % 16777216)
    {
      CountIs(View(), Call(framerate, step));
      if framerate < 0.1 {
        return 0;
      }
      if framerate != targetFramerate {
        targetFramerate := framerate;
        accumulator := 0;
      }
      accumulator := (accumulator + step) % TWO_TO_THE_64;
      var amount := accumulator / ONE;
      accumulator := accumulator % ONE;
      return amount * channels;
    }
  }

  lemma OneMore(c: Counter, calls: seq<Call>, i: nat)
    requires i < |calls|
    ensures After(c, calls[..i + 1]) == Next(After(c, calls[..i]), calls[i])
    ensures Total(c, calls[..i + 1]) == Total(c, calls[..i]) + Frames(After(c, calls[..i]), calls[i])
  {
    assert calls[..i + 1][..i] == calls[..i];
    hide Next, Frames;
  }

  lemma Distribute(a: nat, b: nat, k: nat)
    ensures (a + b) * k == a * k + b * k
  {
  }

  /** A run of frames at one rate: the samples handed out are the whole part of the exact amount, for every
      channel, when no step is large enough to wrap. */
  method PlayFrames(device: AudioDevice, calls: seq<Call>) returns (samples: nat)
    requires device.Valid() && Steady(device.View(), calls)
    requires forall call | call in calls :: call.step <= TWO_TO_THE_64 - ONE
    modifies device
    ensures device.Valid() && device.channels == old(device.channels)
    ensures samples == (old(device.accumulator) + Asked(calls)) / ONE * device.channels
  {
    hide Frames, Next, Wraps, Ignored, Steady, Asked;
    ghost var c := device.View();
    samples := 0;
    for i := 0 to |calls|
      invariant device.Valid() && device.channels == old(device.channels)
      invariant device.View() == After(c, calls[..i])
      invariant samples == Total(c, calls[..i]) * device.channels
    {
      OneMore(c, calls, i);
      Distribute(Total(c, calls[..i]), Frames(After(c, calls[..i]), calls[i]), device.channels);
      var more := device.NextFrameSampleCount(calls[i].framerate, calls[i].step);
      samples := samples + more;
    }
    assert calls[..|calls|] == calls;
    NoWrapBelow(c, calls);
    TotalIsWholePart(c, calls);
  }
}
