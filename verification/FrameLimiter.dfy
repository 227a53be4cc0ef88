/** Frame pacing over exact reals; times are milliseconds of a clock passed in by the caller. */
module FrameLimiter {

  function Clamp(x: real, low: real, high: real): real {
    if x < low then low else if high < x then high else x
  }

  /** The length of a period at a frame rate, which is kept between 0.5 and 10000 frames a second. */
  function Period(framerate: real): (period: real)
    ensures 0.1 <= period <= 2000.0
    ensures 0.5 <= framerate <= 10000.0 ==> period * framerate == 1000.0
    ensures framerate < 0.5 ==> period == 2000.0
    ensures framerate > 10000.0 ==> period == 0.1
  {
    Quotient(Clamp(framerate, 0.5, 10000.0));
    1000.0 / Clamp(framerate, 0.5, 10000.0)
  }

  lemma Quotient(rate: real)
    requires 0.5 <= rate <= 10000.0
    ensures 0.1 <= 1000.0 / rate <= 2000.0 && (1000.0 / rate) * rate == 1000.0
  {
    var q := 1000.0 / rate;
    assert q * rate == 1000.0;
    Scale(q, 0.1, rate);
    Scale(2000.0, q, rate);
  }

  lemma Scale(a: real, b: real, d: real)
    requires d > 0.0
    ensures a < b ==> a * d < b * d
    ensures a <= b ==> a * d <= b * d
  {
    assert b * d - a * d == (b - a) * d;
  }

  /** n periods. */
  function Times(n: int, period: real): real {
    n as real * period
  }

  lemma TimesAdd(n: int, m: int, period: real)
    ensures Times(n + m, period) == Times(n, period) + Times(m, period)
    ensures Times(0, period) == 0.0 && Times(1, period) == period
  {
  }

  lemma TimesLess(n: int, m: int, period: real)
    requires period > 0.0
    ensures n < m ==> Times(n, period) + period <= Times(m, period)
  {
    Scale((n + 1) as real, m as real, period);
    TimesAdd(n, 1, period);
  }

  /** How many whole periods fit into a stretch of time. */
  function Whole(elapsed: real, period: real): (n: int)
    requires period > 0.0
    ensures Times(n, period) <= elapsed < Times(n, period) + period
  {
    FloorBounds(elapsed / period, elapsed, period);
    (elapsed / period).Floor
  }

  lemma FloorBounds(q: real, elapsed: real, period: real)
    requires period > 0.0 && q == elapsed / period
    ensures Times(q.Floor, period) <= elapsed < Times(q.Floor, period) + period
  {
    var product := q * period;
    assert product == elapsed;
    Between(q.Floor as real, q, product, period);
  }

  lemma Between(r: real, q: real, product: real, period: real)
    requires period > 0.0 && r <= q < r + 1.0 && product == q * period
    ensures r * period <= product < r * period + period
  {
    Scale(r, q, period);
    var gap := r + 1.0 - q;
    Scale(0.0, gap, period);
    assert gap * period == r * period + period - product;
  }

  lemma WholeIs(elapsed: real, period: real, n: int)
    requires period > 0.0 && Times(n, period) <= elapsed < Times(n, period) + period
    ensures Whole(elapsed, period) == n
  {
    hide Times;
    TimesLess(n, Whole(elapsed, period), period);
    TimesLess(Whole(elapsed, period), n, period);
  }

  /** What the limiter's fields amount to: `boundary` is where the running period began. */
  datatype Pacer = Pacer(started: bool, forced: bool, skip: bool, period: real, boundary: real, passes: nat)

  function Begun(p: Pacer, now: real): Pacer {
    if p.started then p else p.(started := true, boundary := now)
  }

  predicate Due(p: Pacer, now: real) {
    now - p.boundary >= p.period
  }

  /** A check lets a frame through when it is forced to or a period has run out. */
  predicate Ready(p: Pacer, now: real) {
    p.forced || Due(Begun(p, now), now)
  }

  /** How many periods a pass moves on by. */
  function Periods(p: Pacer, now: real): (k: int)
    requires p.period > 0.0
  {
    if p.skip then Whole(now - p.boundary, p.period) else 1
  }

  function Checked(p: Pacer, now: real): Pacer
    requires p.period > 0.0
  {
    var q := Begun(p, now);
    if q.forced then q.(forced := false, passes := q.passes + 1)
    else if !Due(q, now) then q
    else q.(boundary := q.boundary + Times(Periods(q, now), q.period), passes := q.passes + 1)
  }

  datatype Event =
    | Check(now: real)
    | SetRate(framerate: real)
    | SetProps(framerate: real, forced: bool, skip: bool)

  function Next(p: Pacer, e: Event): (q: Pacer)
    requires p.period > 0.0
    ensures q.period > 0.0
  {
    match e
    case Check(now) => Checked(p, now)
    case SetRate(framerate) => p.(period := Period(framerate))
    case SetProps(framerate, forced, skip) => p.(period := Period(framerate), forced := forced, skip := skip)
  }

  function Run(p: Pacer, events: seq<Event>): (q: Pacer)
    requires p.period > 0.0
    ensures q.period > 0.0
  {
    if events == [] then p else Next(Run(p, events[..|events| - 1]), events[|events| - 1])
  }

  /** A pass because time was up, not because it was forced. */
  predicate TimedPass(p: Pacer, e: Event) {
    e.Check? && !p.forced && Due(Begun(p, e.now), e.now)
  }

  datatype Step = Step(k: int, period: real)

  /** The timed passes of a run: how many periods each moved on by, and the period then in force. */
  function Steps(p: Pacer, events: seq<Event>): seq<Step>
    requires p.period > 0.0
  {
    if events == [] then [] else
      var before, e := events[..|events| - 1], events[|events| - 1];
      var q := Run(p, before);
      Steps(p, before) + if TimedPass(q, e) then [Step(Periods(Begun(q, e.now), e.now), q.period)] else []
  }

  function Total(steps: seq<Step>): real {
    if steps == [] then 0.0
    else Total(steps[..|steps| - 1]) + Times(steps[|steps| - 1].k, steps[|steps| - 1].period)
  }

  predicate Skipless(p: Pacer, events: seq<Event>) {
    !p.skip && forall e | e in events :: e.SetProps? ==> !e.skip
  }

  lemma PassesMoveOn(p: Pacer, now: real)
    requires p.period > 0.0 && Due(p, now)
    ensures Periods(p, now) >= 1
  {
    hide Times;
    TimesAdd(0, 0, p.period);
    TimesLess(Periods(p, now), 0, p.period);
  }

  lemma TotalGrows(steps: seq<Step>, s: Step)
    ensures Total(steps + [s]) == Total(steps) + Times(s.k, s.period)
  {
    assert (steps + [s])[..|steps|] == steps;
  }

  /** Pacing never drifts: through any checks, forced passes and changes of rate or mode, the boundary is the
      starting time plus whole numbers of the periods in force at the timed passes, each at least one, and exactly
      one while nothing is skipped. */
  lemma {:induction false} BoundaryIsSumOfPeriods(p: Pacer, events: seq<Event>)
    requires p.period > 0.0 && p.started
    ensures Run(p, events).started
    ensures Run(p, events).boundary == p.boundary + Total(Steps(p, events))
    ensures forall s | s in Steps(p, events) :: s.k >= 1
    ensures Skipless(p, events) ==> !Run(p, events).skip && forall s | s in Steps(p, events) :: s.k == 1
  {
    hide Times, Due;
    if events != [] {
      var before, e := events[..|events| - 1], events[|events| - 1];
      assert Skipless(p, events) ==> Skipless(p, before) && (e.SetProps? ==> !e.skip);
      BoundaryIsSumOfPeriods(p, before);
      var q := Run(p, before);
      if TimedPass(q, e) {
        PassesMoveOn(q, e.now);
        TotalGrows(Steps(p, before), Step(Periods(q, e.now), q.period));
      } else {
        assert Steps(p, events) == Steps(p, before);
      }
    }
  }

  /** Checks at a fixed rate. */
  function Checks(p: Pacer, times: seq<real>): (q: Pacer)
    requires p.period > 0.0
    ensures q.period == p.period && q.skip == p.skip
  {
    if times == [] then p else Checked(Checks(p, times[..|times| - 1]), times[|times| - 1])
  }

  predicate Ordered(start: real, times: seq<real>) {
    (forall i | 0 <= i < |times| :: start <= times[i]) && forall i, j | 0 <= i < j < |times| :: times[i] <= times[j]
  }

  /** The last time seen. */
  function Latest(start: real, times: seq<real>): real {
    if times == [] then start else times[|times| - 1]
  }

  lemma OrderedPrefix(start: real, times: seq<real>)
    requires times != [] && Ordered(start, times)
    ensures Ordered(start, times[..|times| - 1])
    ensures start <= Latest(start, times[..|times| - 1]) <= Latest(start, times)
  {
  }

  predicate Running(p: Pacer) {
    p.period > 0.0 && p.started && !p.forced
  }

  /** Against a boundary j periods after the start, a check is due once more than j periods have passed. */
  lemma DueIs(q: Pacer, start: real, j: int, now: real)
    requires q.period > 0.0 && q.boundary == start + Times(j, q.period)
    ensures Due(q, now) <==> Whole(now - start, q.period) > j
  {
    hide Times;
    var m := Whole(now - start, q.period);
    TimesLess(j, m, q.period);
    TimesLess(m, j, q.period);
  }

  /** With skipping, whenever the checks come, the boundary is the last whole period since the start, and a check
      passes exactly when a new one has begun since the check before. */
  lemma {:induction false} SkippingStaysOnTheGrid(p: Pacer, times: seq<real>, now: real)
    requires Running(p) && p.skip && Ordered(p.boundary, times) && Latest(p.boundary, times) <= now
    ensures Running(Checks(p, times))
    ensures Checks(p, times).boundary ==
            p.boundary + Times(Whole(Latest(p.boundary, times) - p.boundary, p.period), p.period)
    ensures Ready(Checks(p, times), now) <==>
            Whole(now - p.boundary, p.period) > Whole(Latest(p.boundary, times) - p.boundary, p.period)
  {
    hide Times, Due, Whole;
    if times == [] {
      TimesAdd(0, 0, p.period);
      WholeIs(0.0, p.period, 0);
    } else {
      var before, t := times[..|times| - 1], times[|times| - 1];
      OrderedPrefix(p.boundary, times);
      SkippingStaysOnTheGrid(p, before, t);
      GridStep(Checks(p, before), p.boundary, Latest(p.boundary, before), t);
    }
    DueIs(Checks(p, times), p.boundary, Whole(Latest(p.boundary, times) - p.boundary, p.period), now);
  }

  lemma GridStep(q: Pacer, start: real, last: real, now: real)
    requires Running(q) && q.skip && start <= last <= now
    requires q.boundary == start + Times(Whole(last - start, q.period), q.period)
    ensures Running(Checked(q, now))
    ensures Checked(q, now).boundary == start + Times(Whole(now - start, q.period), q.period)
  {
    hide Times;
    var j, k := Whole(last - start, q.period), Whole(now - q.boundary, q.period);
    TimesAdd(j, k, q.period);
    if Due(q, now) {
      WholeIs(now - start, q.period, j + k);
    } else {
      WholeIs(now - start, q.period, j);
    }
  }

  /** Without skipping, a check passes exactly when fewer frames have passed than whole periods since the start:
      frames never get ahead of the clock, and a check that fails says that none is owed. */
  lemma {:induction false} CatchesUpWithoutSkipping(p: Pacer, times: seq<real>, now: real)
    requires Running(p) && !p.skip && Ordered(p.boundary, times) && Latest(p.boundary, times) <= now
    ensures Running(Checks(p, times))
    ensures 0 <= Checks(p, times).passes - p.passes <= Whole(Latest(p.boundary, times) - p.boundary, p.period)
    ensures Checks(p, times).boundary == p.boundary + Times(Checks(p, times).passes - p.passes, p.period)
    ensures Ready(Checks(p, times), now) <==>
            Checks(p, times).passes < p.passes + Whole(now - p.boundary, p.period)
  {
    hide Times, Due, Whole;
    if times == [] {
      TimesAdd(0, 0, p.period);
      WholeIs(0.0, p.period, 0);
    } else {
      var before, t := times[..|times| - 1], times[|times| - 1];
      OrderedPrefix(p.boundary, times);
      CatchesUpWithoutSkipping(p, before, t);
      WholeGrows(Latest(p.boundary, before) - p.boundary, t - p.boundary, p.period);
      TimesAdd(Checks(p, before).passes - p.passes, 1, p.period);
    }
    DueIs(Checks(p, times), p.boundary, Checks(p, times).passes - p.passes, now);
  }

  lemma WholeGrows(a: real, b: real, period: real)
    requires period > 0.0 && a <= b
    ensures Whole(a, period) <= Whole(b, period)
  {
    hide Times;
    TimesLess(Whole(b, period), Whole(a, period), period);
  }

  const TOLERANCE := 0.05

  /** Whether a timed pass is reported as late: past the period by the tolerance. */
  predicate Late(p: Pacer, now: real) {
    now - p.boundary >= p.period + TOLERANCE
  }

  /** A pass that skips a period is always reported, because no period is as short as the tolerance; the report
      and the skipping part exactly when the check is late by less than a period. */
  lemma LateReports(p: Pacer, now: real)
    requires p.period >= 0.1 && p.skip && Due(p, now)
    ensures Periods(p, now) >= 2 ==> Late(p, now)
    ensures Late(p, now) <==> now - p.boundary >= p.period + 0.05
    ensures (Periods(p, now) >= 2 <==> Late(p, now)) <==>
            !(p.period + 0.05 <= now - p.boundary < 2.0 * p.period)
  {
    hide Times;
    var k := Periods(p, now);
    TimesAdd(1, 1, p.period);
    TimesLess(k, 2, p.period);
    TimesLess(2, k, p.period);
  }

  /** A forced pass happens once, at whatever time; it leaves a boundary that is already set where it was, and the check
      after it waits for a whole period from there. */
  lemma ForcedPassesOnce(p: Pacer, now: real, later: real)
    requires p.period > 0.0 && p.forced
    ensures Ready(p, now) && Checked(p, now).passes == p.passes + 1
    ensures Checked(p, now).boundary == if p.started then p.boundary else now
    ensures Ready(Checked(p, now), later) <==> later - Checked(p, now).boundary >= p.period
    ensures Checked(Checked(p, now), later).passes ==
            p.passes + if later - Checked(p, now).boundary >= p.period then 2 else 1
  {
  }

  class FrameLimiter {
    var newInitCompleted: bool
    var forceInitialPass: bool
    var forceSkipPeriods: bool
    var missedLastPeriod: bool
    var targetTimePeriod: real
    var timeYieldAccrued: real
    var timeElapsedSince: real
    var lastPeriodOrigin: real
    var validPeriodCount: nat

    ghost predicate Valid()
      reads this
    {
      0.1 <= targetTimePeriod <= 2000.0 && 0.0 <= timeYieldAccrued &&
      (!newInitCompleted ==> timeYieldAccrued == 0.0)
    }

    /** The running period began the carried time before the last pass. */
    ghost function View(): Pacer
      reads this
    {
      Pacer(newInitCompleted, forceInitialPass, forceSkipPeriods, targetTimePeriod,
            lastPeriodOrigin - timeYieldAccrued, validPeriodCount)
    }

    constructor (framerate: real, forced: bool, skip: bool)
      ensures Valid() && View() == Pacer(false, forced, skip, Period(framerate), 0.0, 0)
    {
      newInitCompleted, lastPeriodOrigin, timeYieldAccrued, timeElapsedSince := false, 0.0, 0.0, 0.0;
      validPeriodCount := 0;
      targetTimePeriod := Period(framerate);
      forceInitialPass, forceSkipPeriods, missedLastPeriod := forced, skip, false;
    }

    method SetRate(framerate: real)
      requires Valid()
      modifies this
      ensures Valid() && View() == Next(old(View()), Event.SetRate(framerate))
    {
      targetTimePeriod := Period(framerate);
    }

    method SetLimiterProps(framerate: real, forced: bool, skip: bool)
      requires Valid()
      modifies this
      ensures Valid() && View() == Next(old(View()), Event.SetProps(framerate, forced, skip)) && !missedLastPeriod
    {
      SetRate(framerate);
      forceInitialPass := forced;
      forceSkipPeriods := skip;
      missedLastPeriod := false;
    }

    /** One check. The carried time is what is left of the elapsed time after whole periods, so only the boundary
        decides; a timed pass with skipping carries less than a period and reports lateness. */
    method HasTargetPeriodElapsed(now: real) returns (ready: bool)
      requires Valid()
      modifies this
      ensures Valid() && View() == Checked(old(View()), now)
      ensures ready == Ready(old(View()), now)
      ensures var p := old(View()); TimedPass(p, Check(now)) && p.skip ==>
        0.0 <= timeYieldAccrued < targetTimePeriod && missedLastPeriod == Late(Begun(p, now), now)
      ensures var p := old(View()); !(TimedPass(p, Check(now)) && p.skip) ==>
        missedLastPeriod == old(missedLastPeriod)
      ensures newInitCompleted && !forceInitialPass
      ensures targetTimePeriod == old(targetTimePeriod) && forceSkipPeriods == old(forceSkipPeriods)
      ensures validPeriodCount == old(validPeriodCount) + if ready then 1 else 0
      ensures old(forceInitialPass) ==> ready && timeElapsedSince == old(timeElapsedSince)
      ensures !old(forceInitialPass) ==>
        timeElapsedSince == (if old(newInitCompleted) then old(timeYieldAccrued) + now - old(lastPeriodOrigin)
                             else 0.0) &&
        (ready <==> timeElapsedSince >= targetTimePeriod)
      ensures old(forceInitialPass) || !ready ==>
        timeYieldAccrued == old(timeYieldAccrued) &&
        lastPeriodOrigin == if old(newInitCompleted) then old(lastPeriodOrigin) else now
      ensures !old(forceInitialPass) && ready ==>
        lastPeriodOrigin == now &&
        (!forceSkipPeriods ==> timeYieldAccrued == timeElapsedSince - targetTimePeriod) &&
        (forceSkipPeriods ==>
           0.0 <= timeYieldAccrued < targetTimePeriod &&
           missedLastPeriod == (timeElapsedSince >= targetTimePeriod + 0.05) &&
           exists k: int :: timeElapsedSince == Times(k, targetTimePeriod) + timeYieldAccrued)
    {
      hide Times, Whole;
      TimesAdd(0, 0, targetTimePeriod);
      if !newInitCompleted {
        lastPeriodOrigin := now;
        newInitCompleted := true;
      }
      if forceInitialPass {
        forceInitialPass := false;
        validPeriodCount := validPeriodCount + 1;
        return true;
      }
      timeElapsedSince := timeYieldAccrued + (now - lastPeriodOrigin);
      if timeElapsedSince < targetTimePeriod {
        return false;
      }
      if forceSkipPeriods {
        missedLastPeriod := timeElapsedSince >= targetTimePeriod + TOLERANCE;
        timeYieldAccrued := timeElapsedSince - Times(Whole(timeElapsedSince, targetTimePeriod), targetTimePeriod);
      } else {
        timeYieldAccrued := timeElapsedSince - targetTimePeriod;
      }
      lastPeriodOrigin := now;
      validPeriodCount := validPeriodCount + 1;
      return true;
    }
  }
}
