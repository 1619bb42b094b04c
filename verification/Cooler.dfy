/** The cooler: the temperature ramp, the regulator, and the modes around it, over exact reals. */
module Coolers {
  import opened Wrappers

  datatype TempPoint = TempPoint(timestamp: int, setpoint: real)

  /** What one cycle sees: the clock, the temperature asked for, and two thermometers. */
  datatype Reading = Reading(now: int, command: real, chip: real, ambient: real)

  datatype Regulation = Regulation(working: real, ramp: seq<TempPoint>, history: seq<TempPoint>,
                                   firstTime: bool, lastTime: int, integral: real, priorTarget: real)

  const POWER_RATIO: real := 44.7 / 255.0
  const GAIN_P: real := 15.0
  const GAIN_I: real := 1.0
  const GAIN_D: real := 400.0
  const MAX_SLOPE: real := 2.0 / 60.0
  const MAX_SINGLE_STEP: real := 4.0
  const RAMP_SECONDS: int := 16
  const SLOPE_POINTS: nat := 8
  const AMBIENT_OFFSET: real := 3.0

  function Abs(x: real): (a: real) { if x < 0.0 then -x else x }

  /** Conversion of a double to int: towards zero. */
  function Trunc(x: real): (n: int)
    ensures x >= 0.0 ==> n as real <= x < n as real + 1.0
    ensures x <= 0.0 ==> n as real - 1.0 < x <= n as real
  {
    if x >= 0.0 then x.Floor else -((-x).Floor)
  }

  // ---------------------------------------------------------------- the ramp

  function RampLength(err: real): (n: int)
    ensures err > MAX_SINGLE_STEP ==> n >= 7
    ensures err >= 0.0 ==> n >= 0 && err < (n + 1) as real * (RAMP_SECONDS as real * MAX_SLOPE)
  {
    Trunc(err / MAX_SLOPE / RAMP_SECONDS as real)
  }

  /** The distance between neighbouring points. */
  function Increment(err: real): (d: real)
    requires err >= 0.0
    ensures d * (RampLength(err) + 1) as real == err && d < RAMP_SECONDS as real * MAX_SLOPE
    ensures err > 0.0 ==> d > 0.0
  {
    var n := (RampLength(err) + 1) as real;
    var d := err / n;
    Quotient(err, n, RAMP_SECONDS as real * MAX_SLOPE);
    d
  }

  lemma Quotient(a: real, n: real, bound: real)
    requires a >= 0.0 && n > 0.0 && a < n * bound
    ensures a / n * n == a && a / n < bound && (a > 0.0 ==> a / n > 0.0)
  {
  }

  /** From one point to the next, up or down. */
  function SignedStep(chip: real, command: real): (d: real)
  {
    if command < chip then -Increment(chip - command) else Increment(command - chip)
  }

  function RampPoint(now: int, chip: real, command: real, i: int): TempPoint
  {
    TempPoint(now + i * RAMP_SECONDS, chip + (i + 1) as real * SignedStep(chip, command))
  }

  function MakeRamp(now: int, chip: real, command: real): (r: seq<TempPoint>)
    ensures |r| == RampLength(Abs(command - chip))
    ensures forall i :: 0 <= i < |r| ==> r[i] == RampPoint(now, chip, command, i)
  {
    seq(RampLength(Abs(command - chip)), i => RampPoint(now, chip, command, i))
  }

  predicate StrictlyBetween(a: real, x: real, b: real) { a < x < b || b < x < a }

  lemma Scaled(i: int, n: int, d: real)
    requires 0 <= i < n
    ensures (i + 1) as real * d == i as real * d + d
    ensures d > 0.0 ==> 0.0 < (i + 1) as real * d < (n + 1) as real * d
    ensures d < 0.0 ==> 0.0 > (i + 1) as real * d > (n + 1) as real * d
  {
  }

  lemma PointShape(now: int, chip: real, command: real, i: int)
    requires Abs(command - chip) > MAX_SINGLE_STEP && 0 <= i < RampLength(Abs(command - chip))
    ensures var d := SignedStep(chip, command);
            && RampPoint(now, chip, command, i).setpoint == RampPoint(now, chip, command, i - 1).setpoint + d
            && StrictlyBetween(chip, RampPoint(now, chip, command, i).setpoint, command)
  {
    hide RampLength, Increment, SignedStep, StrictlyBetween;
    var d, n := SignedStep(chip, command), RampLength(Abs(command - chip));
    WholeRamp(chip, command);
    PartOfTheWay(i, n, d, chip, command);
    assert RampPoint(now, chip, command, i).setpoint == chip + (i + 1) as real * d;
    assert RampPoint(now, chip, command, i - 1).setpoint == chip + i as real * d;
  }

  lemma PartOfTheWay(i: int, n: int, d: real, from: real, to: real)
    requires 0 <= i < n && d != 0.0 && (n + 1) as real * d == to - from
    ensures StrictlyBetween(from, from + (i + 1) as real * d, to)
    ensures from + (i + 1) as real * d == from + i as real * d + d
  {
  }

  lemma WholeRamp(chip: real, command: real)
    requires Abs(command - chip) > MAX_SINGLE_STEP
    ensures var d, n := SignedStep(chip, command), RampLength(Abs(command - chip));
            && (n + 1) as real * d == command - chip && n >= 7
            && (command < chip ==> d < 0.0) && (command > chip ==> d > 0.0)
            && Abs(d) < RAMP_SECONDS as real * MAX_SLOPE
  {
  }

  /** A ramp of at least seven points, sixteen seconds apart, goes strictly one way in even steps
      from where it starts to the command, stays strictly between the two, and never asks for
      more than two degrees a minute. */
  lemma RampShape(now: int, chip: real, command: real)
    requires Abs(command - chip) > MAX_SINGLE_STEP
    ensures var r, d := MakeRamp(now, chip, command), SignedStep(chip, command);
            && |r| >= 7 && 0.0 < Abs(d) < RAMP_SECONDS as real * 2.0 / 60.0 && (d < 0.0 <==> command < chip)
            && r[0] == TempPoint(now, chip + d) && command == r[|r| - 1].setpoint + d
            && (forall i :: 0 < i < |r| ==>
                  r[i] == TempPoint(r[i - 1].timestamp + RAMP_SECONDS, r[i - 1].setpoint + d))
            && (forall i :: 0 <= i < |r| ==> StrictlyBetween(chip, r[i].setpoint, command))
  {
    hide RampLength, Increment, SignedStep, StrictlyBetween;
    var r, d := MakeRamp(now, chip, command), SignedStep(chip, command);
    WholeRamp(chip, command);
    Scaled(|r| - 1, |r|, d);
    Scaled(|r|, |r| + 1, d);
    forall i | 0 <= i < |r|
      ensures StrictlyBetween(chip, r[i].setpoint, command)
      ensures i > 0 ==> r[i] == TempPoint(r[i - 1].timestamp + RAMP_SECONDS, r[i - 1].setpoint + d)
    {
      PointShape(now, chip, command, i);
    }
  }

  // ---------------------------------------------------------------- one cycle

  /** The ramp a cycle works on: the old one, unless another temperature is asked for; a new one,
      when there is none and the chip is far off. */
  function CurrentRamp(r: Regulation, x: Reading): seq<TempPoint>
  {
    var ramp := if r.priorTarget != x.command then [] else r.ramp;
    if ramp == [] && Abs(x.command - x.chip) > MAX_SINGLE_STEP then MakeRamp(x.now, x.chip, x.command) else ramp
  }

  predicate Due(ramp: seq<TempPoint>, now: int) { ramp != [] && now >= ramp[0].timestamp }

  function WorkingSetpoint(r: Regulation, x: Reading): real
  {
    var ramp := CurrentRamp(r, x);
    if ramp == [] then x.command
    else if Due(ramp, x.now) then ramp[0].setpoint
    else r.working
  }

  function RestOfRamp(r: Regulation, x: Reading): seq<TempPoint>
  {
    var ramp := CurrentRamp(r, x);
    if Due(ramp, x.now) then ramp[1..] else ramp
  }

  function History(history: seq<TempPoint>, p: TempPoint): (h: seq<TempPoint>)
    ensures h != []
  {
    var h := history + [p];
    if |h| > SLOPE_POINTS then h[1..] else h
  }

  /** Degrees a second over the history; positive while the chip is warming. */
  function Slope(h: seq<TempPoint>): real
    requires h != []
  {
    var delta := h[|h| - 1].timestamp - h[0].timestamp;
    if |h| > 1 && delta > 0 then (h[|h| - 1].setpoint - h[0].setpoint) / delta as real else 0.0
  }

  function TrialIntegral(r: Regulation, x: Reading): real
  {
    if r.firstTime then 0.0
    else Integrated(r.integral, x.now - r.lastTime, WorkingSetpoint(r, x) - x.chip)
  }

  function Integrated(integral: real, seconds: int, err: real): real { integral + seconds as real * err }

  function TargetPower(x: Reading, working: real): int
  {
    Trunc((x.ambient - AMBIENT_OFFSET - working) / POWER_RATIO + 0.5)
  }

  /** The power worked out before it is limited to what the camera takes. */
  function RawPower(r: Regulation, x: Reading): int
  {
    var working := WorkingSetpoint(r, x);
    var slope := Slope(History(r.history, TempPoint(x.now, x.chip)));
    TargetPower(x, working) + Correction(working - x.chip, TrialIntegral(r, x), slope)
  }

  function Correction(err: real, integral: real, slope: real): int
  {
    Trunc(-(err * GAIN_P + integral * GAIN_I + -slope * GAIN_D))
  }

  predicate Saturated(r: Regulation, x: Reading) { RawPower(r, x) > 255 || RawPower(r, x) < 0 }

  function Cycled(r: Regulation, x: Reading): (c: (Regulation, int))
    ensures 0 <= c.1 <= 255
    ensures Saturated(r, x) ==> c.0.integral == r.integral && c.1 in {0, 255}
  {
    var raw := RawPower(r, x);
    (Regulation(WorkingSetpoint(r, x), RestOfRamp(r, x), History(r.history, TempPoint(x.now, x.chip)),
                false, x.now, if Saturated(r, x) then r.integral else TrialIntegral(r, x), x.command),
     if raw > 255 then 255 else if raw < 0 then 0 else raw)
  }

  function Restarted(r: Regulation): Regulation
  {
    r.(integral := 0.0, firstTime := true, lastTime := 0, ramp := [], history := [])
  }

  // ---------------------------------------------------------------- the schedule

  /** Where a ramp started: the clock and the chip temperature then, and the command. */
  datatype Plan = Plan(start: int, chip: real, command: real)

  predicate Far(p: Plan) { Abs(p.command - p.chip) > MAX_SINGLE_STEP }

  function Points(p: Plan): seq<TempPoint> { MakeRamp(p.start, p.chip, p.command) }

  /** The working setpoint is the k-th point of the plan, was due by the time now, and the points
      behind it are still to come. */
  predicate OnPlan(r: Regulation, p: Plan, k: int, now: int)
  {
    && Far(p) && 0 < k <= |Points(p)| && p.command == r.priorTarget
    && r.working == Points(p)[k - 1].setpoint && Points(p)[k - 1].timestamp <= now
    && r.ramp == Points(p)[k..]
  }

  predicate AtCommand(r: Regulation) { r.ramp == [] && r.working == r.priorTarget }

  /** The plan and the place on it after a cycle. */
  datatype Place = NoRamp | On(plan: Plan, k: int)

  predicate Placed(r: Regulation, place: Place, now: int)
  {
    match place
    case NoRamp => r.ramp == []
    case On(p, k) => OnPlan(r, p, k, now)
  }

  function NextPlace(r: Regulation, place: Place, x: Reading): Place
  {
    if r.priorTarget != x.command || r.ramp == [] then
      if Abs(x.command - x.chip) > MAX_SINGLE_STEP then On(Plan(x.now, x.chip, x.command), 1) else NoRamp
    else match place
      case NoRamp => NoRamp
      case On(p, k) => if Due(r.ramp, x.now) then On(p, k + 1) else place
  }

  /** One cycle moves one point along the plan at most, starts a new plan exactly when the old one
      is used up or cancelled and the chip is still far off, and otherwise asks for the command. */
  lemma CycleOnPlan(r: Regulation, place: Place, now: int, x: Reading)
    requires Placed(r, place, now) && now <= x.now
    ensures Placed(Cycled(r, x).0, NextPlace(r, place, x), x.now)
    ensures NextPlace(r, place, x).NoRamp? ==> AtCommand(Cycled(r, x).0)
  {
    hide Cycled, OnPlan;
    if r.priorTarget != x.command || r.ramp == [] {
      NewPlan(r, x);
    } else {
      SamePlan(r, place.plan, place.k, now, x);
    }
  }

  /** A ramp that is under way goes on to its next point at the first cycle after that is due, and
      stays where it is until then. */
  lemma OnSchedule(r: Regulation, p: Plan, k: int, now: int, x: Reading)
    requires OnPlan(r, p, k, now) && now <= x.now && r.priorTarget == x.command && k < |Points(p)|
    ensures if x.now >= p.start + k * 16 then OnPlan(Cycled(r, x).0, p, k + 1, x.now)
            else Cycled(r, x).0.working == r.working && Cycled(r, x).0.ramp == r.ramp
  {
  }

  lemma NewPlan(r: Regulation, x: Reading)
    requires r.priorTarget != x.command || r.ramp == []
    ensures var after := Cycled(r, x).0;
            if Abs(x.command - x.chip) > MAX_SINGLE_STEP then OnPlan(after, Plan(x.now, x.chip, x.command), 1, x.now)
            else AtCommand(after)
  {
  }

  lemma SamePlan(r: Regulation, p: Plan, k: int, now: int, x: Reading)
    requires OnPlan(r, p, k, now) && now <= x.now && r.priorTarget == x.command && r.ramp != []
    ensures OnPlan(Cycled(r, x).0, p, if Due(r.ramp, x.now) then k + 1 else k, x.now)
  {
  }

  lemma RampStart(now: int, chip: real, command: real)
    requires Abs(command - chip) > MAX_SINGLE_STEP
    ensures var r := MakeRamp(now, chip, command); |r| >= 7 && r[0].timestamp == now
  {
  }

  /** On a plan the working setpoint lies strictly between the start and the command, and is never
      further along than the schedule allows at the time. */
  lemma NeverAhead(r: Regulation, p: Plan, k: int, now: int)
    requires OnPlan(r, p, k, now)
    ensures StrictlyBetween(p.chip, r.working, p.command)
    ensures Abs(r.working - p.chip) == k as real * Increment(Abs(p.command - p.chip))
    ensures (k - 1) * RAMP_SECONDS <= now - p.start
  {
    hide Increment, SignedStep, StrictlyBetween, RampPoint, RampLength, Abs;
    PointShape(p.start, p.chip, p.command, k - 1);
    PointDistance(p.start, p.chip, p.command, k);
  }

  lemma PointDistance(now: int, chip: real, command: real, k: int)
    requires k >= 1
    ensures var p := RampPoint(now, chip, command, k - 1);
            && p.timestamp == now + (k - 1) * RAMP_SECONDS
            && Abs(p.setpoint - chip) == k as real * Increment(Abs(command - chip))
  {
    hide Increment, SignedStep;
    StepSize(chip, command);
    Signed(k as real, SignedStep(chip, command));
  }

  lemma StepSize(chip: real, command: real)
    ensures Abs(SignedStep(chip, command)) == Increment(Abs(command - chip))
  {
  }

  lemma Signed(k: real, d: real)
    requires k >= 0.0
    ensures Abs(k * d) == k * Abs(d)
  {
  }

  // ---------------------------------------------------------------- the integral

  predicate Within(x: real, t: real) { -t <= x <= t }

  predicate AllWithin(s: seq<TempPoint>, t: real) { forall i :: 0 <= i < |s| ==> Within(s[i].setpoint, t) }

  /** What the integral cannot pass while every temperature stays within t degrees of zero. */
  function Windup(t: real): real
  {
    256.5 + (2.0 * t + AMBIENT_OFFSET) / POWER_RATIO + 2.0 * t * GAIN_P + 2.0 * t * GAIN_D
  }

  predicate Bounded(r: Regulation, t: real)
  {
    && Within(r.working, t) && AllWithin(r.ramp, t) && AllWithin(r.history, t)
    && Within(r.integral, Windup(t))
  }

  predicate ReadingWithin(x: Reading, t: real) { Within(x.command, t) && Within(x.chip, t) && Within(x.ambient, t) }

  lemma SlopeBound(h: seq<TempPoint>, t: real)
    requires h != [] && AllWithin(h, t) && t >= 0.0
    ensures Within(Slope(h), 2.0 * t)
  {
    var delta := h[|h| - 1].timestamp - h[0].timestamp;
    if |h| > 1 && delta > 0 {
      Shrinks(h[|h| - 1].setpoint - h[0].setpoint, delta as real, 2.0 * t);
    }
  }

  lemma Shrinks(a: real, n: real, t: real)
    requires n >= 1.0 && Within(a, t)
    ensures Within(a / n, t)
  {
  }

  /** Wherever the working setpoint goes, it goes no further than the temperatures it comes from. */
  lemma RampWithin(r: Regulation, x: Reading, t: real)
    requires Bounded(r, t) && ReadingWithin(x, t)
    ensures AllWithin(CurrentRamp(r, x), t)
    ensures Within(WorkingSetpoint(r, x), t) && AllWithin(RestOfRamp(r, x), t)
  {
    hide Increment, RampLength, SignedStep, RampPoint, Windup;
    if Abs(x.command - x.chip) > MAX_SINGLE_STEP {
      RampShape(x.now, x.chip, x.command);
    }
  }

  lemma HistoryWithin(history: seq<TempPoint>, p: TempPoint, t: real)
    requires AllWithin(history, t) && Within(p.setpoint, t)
    ensures AllWithin(History(history, p), t)
  {
  }

  /** A power the camera can take leaves no room for a large integral. */
  lemma UnsaturatedIntegral(r: Regulation, x: Reading, t: real)
    requires Bounded(r, t) && ReadingWithin(x, t) && t >= 0.0 && !Saturated(r, x)
    ensures Within(TrialIntegral(r, x), Windup(t))
  {
    hide History, Slope, TrialIntegral, WorkingSetpoint;
    var working := WorkingSetpoint(r, x);
    var h := History(r.history, TempPoint(x.now, x.chip));
    RampWithin(r, x, t);
    HistoryWithin(r.history, TempPoint(x.now, x.chip), t);
    SlopeBound(h, t);
  }

  /** The integral never winds up: a saturated cycle leaves it alone, and any other bounds it. */
  lemma CycleBounded(r: Regulation, x: Reading, t: real)
    requires Bounded(r, t) && ReadingWithin(x, t) && t >= 0.0
    ensures Bounded(Cycled(r, x).0, t)
  {
    hide History, Slope, TrialIntegral, WorkingSetpoint, Saturated, RestOfRamp, Windup, AllWithin;
    RampWithin(r, x, t);
    HistoryWithin(r.history, TempPoint(x.now, x.chip), t);
    if !Saturated(r, x) {
      UnsaturatedIntegral(r, x, t);
    }
  }

  // ---------------------------------------------------------------- the control law

  /** What a power comes from, in one real number: the feed-forward against the ambient, fifteen
      for each degree the chip is too warm, the integral of the error, and four hundred for each
      degree a second of warming. */
  function Ideal(ambient: real, working: real, chip: real, integral: real, slope: real): real
  {
    (ambient - 3.0 - working) * 255.0 / 44.7 + 15.0 * (chip - working) - integral + 400.0 * slope
  }

  /** The power is a number below and above that by less than two and a half, as far as the
      camera can take it. */
  predicate Follows(power: int, ideal: real)
  {
    && 0 <= power <= 255
    && (power > 0 ==> power as real < ideal + 2.5)
    && (power < 255 ==> power as real > ideal - 1.5)
  }

  /** The error the cycle has summed up when it works out the power. */
  function Summed(r: Regulation, x: Reading): real
  {
    if r.firstTime then 0.0 else r.integral + (x.now - r.lastTime) as real * (Cycled(r, x).0.working - x.chip)
  }

  function Warming(r: Regulation, x: Reading): real { Slope(Cycled(r, x).0.history) }

  lemma RawIdeal(r: Regulation, x: Reading)
    ensures var ideal := Ideal(x.ambient, Cycled(r, x).0.working, x.chip, Summed(r, x), Warming(r, x));
            ideal - 1.5 < RawPower(r, x) as real < ideal + 2.5
  {
    hide WorkingSetpoint, Slope, History, RestOfRamp;
    var working := WorkingSetpoint(r, x);
    PowerRatio(x.ambient - AMBIENT_OFFSET - working);
  }

  lemma PowerRatio(a: real)
    ensures a / POWER_RATIO == a * 255.0 / 44.7
  {
  }

  /** Every cycle's power follows the law, for the working setpoint, the slope and the sum of
      errors it leaves; and unless the power is cut off, that sum becomes the integral: nothing
      in the first cycle, and later the old one and the seconds passed times the error. */
  lemma ControlLaw(r: Regulation, x: Reading)
    ensures var (after, power) := Cycled(r, x);
            && Follows(power, Ideal(x.ambient, after.working, x.chip, Summed(r, x), Warming(r, x)))
            && (0 < power < 255 ==> after.integral == Summed(r, x))
            && after.integral in {r.integral, Summed(r, x)}
            && after.lastTime == x.now && !after.firstTime
  {
    hide Slope, History, RestOfRamp, RawPower, WorkingSetpoint, Ideal;
    RawIdeal(r, x);
  }

  /** The integral takes the sum over exactly while the power worked out is one the camera takes. */
  lemma IntegralExact(r: Regulation, x: Reading)
    ensures Cycled(r, x).0.integral == if 0 <= RawPower(r, x) <= 255 then Summed(r, x) else r.integral
    ensures 0 <= RawPower(r, x) <= 255 ==> Cycled(r, x).1 == RawPower(r, x)
  {
    hide Slope, History, RestOfRamp, RawPower, WorkingSetpoint;
  }

  /** The law has the right signs: more ambient heat, a lower setpoint, a warmer chip, a chip that
      warms faster and a smaller sum of errors never lower the power. */
  lemma PowerOrdered(r: Regulation, x: Reading, s: Regulation, y: Reading)
    requires x.ambient <= y.ambient && x.chip <= y.chip && Warming(r, x) <= Warming(s, y)
    requires Cycled(r, x).0.working >= Cycled(s, y).0.working && Summed(r, x) >= Summed(s, y)
    ensures Cycled(r, x).1 <= Cycled(s, y).1
  {
    hide Slope, History, RestOfRamp, WorkingSetpoint, TargetPower, Correction;
    var w, v := WorkingSetpoint(r, x), WorkingSetpoint(s, y);
    TargetOrdered(x, w, y, v);
    CorrectionOrdered(w - x.chip, Summed(r, x), Warming(r, x), v - y.chip, Summed(s, y), Warming(s, y));
    RawParts(r, x);
    RawParts(s, y);
  }

  lemma RawParts(r: Regulation, x: Reading)
    ensures var w := WorkingSetpoint(r, x);
            RawPower(r, x) == TargetPower(x, w) + Correction(w - x.chip, Summed(r, x), Warming(r, x))
  {
    hide Slope, History, RestOfRamp, WorkingSetpoint, TargetPower, Correction;
    assert Cycled(r, x).0.working == WorkingSetpoint(r, x);
    assert TrialIntegral(r, x) == Summed(r, x);
    assert Warming(r, x) == Slope(History(r.history, TempPoint(x.now, x.chip)));
  }

  lemma TargetOrdered(x: Reading, w: real, y: Reading, v: real)
    requires x.ambient <= y.ambient && w >= v
    ensures TargetPower(x, w) <= TargetPower(y, v)
  {
    hide Trunc;
    PowerRatio(x.ambient - AMBIENT_OFFSET - w);
    PowerRatio(y.ambient - AMBIENT_OFFSET - v);
    TruncMonotone((x.ambient - AMBIENT_OFFSET - w) / POWER_RATIO + 0.5,
                  (y.ambient - AMBIENT_OFFSET - v) / POWER_RATIO + 0.5);
  }

  lemma CorrectionOrdered(e: real, i: real, s: real, f: real, j: real, t: real)
    requires e >= f && i >= j && s <= t
    ensures Correction(e, i, s) <= Correction(f, j, t)
  {
    hide Trunc;
    TruncMonotone(-(e * GAIN_P + i * GAIN_I + -s * GAIN_D), -(f * GAIN_P + j * GAIN_I + -t * GAIN_D));
  }

  lemma TruncMonotone(a: real, b: real)
    requires a <= b
    ensures Trunc(a) <= Trunc(b)
  {
  }

  /** With nothing summed up and a steady chip, the power is the feed-forward, rounded: at least
      that while the chip is too warm, and at most that while it is too cold. */
  lemma FeedForward(r: Regulation, x: Reading)
    requires Summed(r, x) == 0.0 && Warming(r, x) == 0.0
    ensures var (after, power) := Cycled(r, x);
            var forward := (x.ambient - 3.0 - after.working) * 255.0 / 44.7;
            && (x.chip >= after.working && power < 255 ==> power as real > forward - 0.5)
            && (x.chip <= after.working && power > 0 ==> power as real <= forward + 0.5)
  {
    hide Slope, History, RestOfRamp, WorkingSetpoint, TargetPower, Correction;
    var w := WorkingSetpoint(r, x);
    RawParts(r, x);
    TargetNear(x, w);
    CorrectionSign(w - x.chip);
  }

  lemma TargetNear(x: Reading, w: real)
    ensures var forward := (x.ambient - 3.0 - w) * 255.0 / 44.7;
            && TargetPower(x, w) as real > forward - 0.5
            && (TargetPower(x, w) > 0 ==> TargetPower(x, w) as real <= forward + 0.5)
  {
    PowerRatio(x.ambient - AMBIENT_OFFSET - w);
  }

  lemma CorrectionSign(e: real)
    ensures e <= 0.0 ==> Correction(e, 0.0, 0.0) >= 0
    ensures e >= 0.0 ==> Correction(e, 0.0, 0.0) <= 0
  {
  }

  /** A chip two degrees too warm in the first cycle. */
  lemma FirstPower(r: Regulation)
    requires r.firstTime && r.priorTarget == 0.0 && r.ramp == [] && r.history == []
    ensures Cycled(r, Reading(0, 0.0, 2.0, 20.0)).1 == 127
  {
  }

  /** The slope times the time between the ends of the history is the change between them. */
  lemma SlopeExact(h: seq<TempPoint>)
    requires h != []
    ensures var first, last := h[0], h[|h| - 1];
            if last.timestamp > first.timestamp
            then Slope(h) * (last.timestamp - first.timestamp) as real == last.setpoint - first.setpoint
            else Slope(h) == 0.0
  {
    hide History;
    var first, last := h[0], h[|h| - 1];
    if last.timestamp > first.timestamp {
      Cancels(last.setpoint - first.setpoint, (last.timestamp - first.timestamp) as real);
    }
  }

  lemma Cancels(a: real, n: real)
    requires n > 0.0
    ensures a / n * n == a
  {
  }

  /** Cycle by cycle the history is the last eight chip temperatures. */
  function HistoryOf(h: seq<TempPoint>, ps: seq<TempPoint>): seq<TempPoint>
    decreases |ps|
  {
    if ps == [] then h else HistoryOf(History(h, ps[0]), ps[1..])
  }

  function Last(all: seq<TempPoint>): seq<TempPoint> { if |all| <= 8 then all else all[|all| - 8..] }

  lemma LastStep(h: seq<TempPoint>, p: TempPoint, rest: seq<TempPoint>)
    requires |h| <= 8
    ensures |History(h, p)| <= 8 && Last(History(h, p) + rest) == Last(h + ([p] + rest))
  {
    assert h + [p] + rest == h + ([p] + rest);
    if |h| == 8 {
      assert (h + [p])[1..] + rest == (h + ([p] + rest))[1..];
    }
  }

  lemma {:induction false} LastEight(h: seq<TempPoint>, ps: seq<TempPoint>)
    requires |h| <= 8
    ensures HistoryOf(h, ps) == Last(h + ps)
    decreases |ps|
  {
    hide Last, History;
    if ps == [] {
      assert h + ps == h;
      WholeHistory(h);
    } else {
      LastStep(h, ps[0], ps[1..]);
      LastEight(History(h, ps[0]), ps[1..]);
      assert [ps[0]] + ps[1..] == ps;
    }
  }

  lemma WholeHistory(h: seq<TempPoint>)
    requires |h| <= 8
    ensures Last(h) == h
  {
  }

  // ---------------------------------------------------------------- the modes

  datatype Request = Off | Man | Auto | Terminate | Other

  datatype Mode = PowerOff | ManPwm | Regulating | Error

  datatype Control = Control(reg: Regulation, prior: Request, mode: Mode)

  /** One round of the control loop: the mode asked for, the readings, whether the pressure and
      humidity sensors answered, the power asked for by hand, whether the camera took the power. */
  datatype Input = Input(desired: Request, reading: Reading, sensors: bool, pwm: int, success: bool)

  /** The state after ControlCooler, and the power written to the camera, if any. */
  function Controlled(c: Control, x: Input): (Control, Option<int>)
  {
    var mode := if x.sensors then c.mode else Error;
    match x.desired
    case Terminate => (Control(c.reg, x.desired, mode), None)
    case Auto =>
      var (reg, pwm) := Cycled(if c.prior != Auto then Restarted(c.reg) else c.reg, x.reading);
      (Control(reg, x.desired, Regulating), Some(pwm))
    case Man => (Control(c.reg, x.desired, if x.success then ManPwm else Error), Some(x.pwm))
    case Off =>
      if mode == PowerOff then (Control(c.reg, x.desired, mode), None)
      else (Control(c.reg, x.desired, if x.success then PowerOff else Error), Some(0))
    case Other => (Control(c.reg, x.desired, Error), None)
  }

  /** The power the camera runs at after the round. */
  function Setting(power: int, c: Control, x: Input): int
  {
    match Controlled(c, x).1
    case None => power
    case Some(pwm) => if x.success then pwm else power
  }

  /** A cooler that counts as off is off; and what each mode that is asked for does to the camera. */
  lemma PowerByMode(c: Control, power: int, x: Input)
    requires c.mode == PowerOff ==> power == 0
    ensures var after, now := Controlled(c, x).0, Setting(power, c, x);
            && after.prior == x.desired
            && (after.mode == PowerOff ==> now == 0)
            && (x.desired == Off && x.success ==> after.mode == PowerOff && now == 0)
            && (x.desired == Off ==> Controlled(c, x).1 == if c.mode == PowerOff && x.sensors then None else Some(0))
            && (x.desired == Terminate ==> after.mode == if x.sensors then c.mode else Error)
            && (x.desired == Man && x.success ==> after.mode == ManPwm && now == x.pwm)
            && (x.desired == Auto ==> after.mode == Regulating && (x.success ==> 0 <= now <= 255))
            && (x.desired == Terminate || x.desired == Other ==> now == power && after.reg == c.reg)
            && ((x.desired == Off || x.desired == Man) && !x.success && after.mode != PowerOff ==> after.mode == Error)
  {
    hide Cycled;
    if x.desired == Auto {
      var _ := Cycled(if c.prior != Auto then Restarted(c.reg) else c.reg, x.reading);
    }
  }

  /** The camera's power at the end of a run. */
  function PowerAfter(power: int, c: Control, xs: seq<Input>): int
    decreases |xs|
  {
    if xs == [] then power else PowerAfter(Setting(power, c, xs[0]), Controlled(c, xs[0]).0, xs[1..])
  }

  /** In every run a cooler that counts as off is off. */
  lemma {:induction false} OffIsOff(c: Control, power: int, xs: seq<Input>)
    requires c.mode == PowerOff ==> power == 0
    ensures Run(c, xs).mode == PowerOff ==> PowerAfter(power, c, xs) == 0
    decreases |xs|
  {
    hide Controlled;
    if xs != [] {
      PowerByMode(c, power, xs[0]);
      OffIsOff(Controlled(c, xs[0]).0, Setting(power, c, xs[0]), xs[1..]);
    }
  }

  /** Coming from any other mode the regulator starts afresh: of what it was before only the
      temperature last asked for and the working setpoint are left, and nothing is summed up. */
  lemma FreshStart(c: Control, d: Control, x: Input)
    requires x.desired == Auto && c.prior != Auto && d.prior != Auto
    requires c.reg.priorTarget == d.reg.priorTarget && c.reg.working == d.reg.working
    ensures Controlled(c, x).0.reg == Controlled(d, x).0.reg && Controlled(c, x).1 == Controlled(d, x).1
    ensures var reg := Controlled(c, x).0.reg;
            reg.integral == 0.0 && reg.history == [TempPoint(x.reading.now, x.reading.chip)]
  {
    hide WorkingSetpoint, RestOfRamp, RawPower;
    assert Restarted(c.reg) == Restarted(d.reg);
  }

  function Run(c: Control, xs: seq<Input>): Control
    decreases |xs|
  {
    if xs == [] then c else Run(Controlled(c, xs[0]).0, xs[1..])
  }

  /** In every run, however the modes change, all that the regulator remembers stays bounded by
      the temperatures it has seen. */
  lemma {:induction false} RunBounded(c: Control, xs: seq<Input>, t: real)
    requires Bounded(c.reg, t) && t >= 0.0 && forall i :: 0 <= i < |xs| ==> ReadingWithin(xs[i].reading, t)
    ensures Bounded(Run(c, xs).reg, t)
    decreases |xs|
  {
    hide Cycled, ReadingWithin;
    if xs != [] {
      assert Bounded(Restarted(c.reg), t);
      CycleBounded(Restarted(c.reg), xs[0].reading, t);
      CycleBounded(c.reg, xs[0].reading, t);
      RunBounded(Controlled(c, xs[0]).0, xs[1..], t);
    }
  }

  /** A clock that never goes back. */
  predicate Forward(now: int, xs: seq<Input>)
    decreases |xs|
  {
    xs == [] || (now <= xs[0].reading.now && Forward(xs[0].reading.now, xs[1..]))
  }

  function LastTime(now: int, xs: seq<Input>): int
    decreases |xs|
  {
    if xs == [] then now else LastTime(xs[0].reading.now, xs[1..])
  }

  ghost predicate OnSomePlan(r: Regulation, now: int)
  {
    exists place: Place :: Placed(r, place, now)
  }

  lemma PlacedLater(r: Regulation, place: Place, now: int, later: int)
    requires Placed(r, place, now) && now <= later
    ensures Placed(r, place, later)
  {
  }

  /** In every run the regulator is either without a ramp or at some point of a ramp that was laid
      out from a chip temperature to the command, no earlier than that point is due. */
  lemma {:induction false} RunOnPlan(c: Control, place: Place, now: int, xs: seq<Input>)
    requires Placed(c.reg, place, now) && Forward(now, xs)
    ensures OnSomePlan(Run(c, xs).reg, LastTime(now, xs))
    decreases |xs|
  {
    hide Cycled, NextPlace, Placed;
    if xs != [] {
      var x := xs[0];
      var later := x.reading.now;
      var next := Controlled(c, x).0;
      if x.desired != Auto {
        PlacedLater(c.reg, place, now, later);
        RunOnPlan(next, place, later, xs[1..]);
      } else if c.prior != Auto {
        ResetPlaced(c.reg, now);
        CycleOnPlan(Restarted(c.reg), NoRamp, now, x.reading);
        RunOnPlan(next, NextPlace(Restarted(c.reg), NoRamp, x.reading), later, xs[1..]);
      } else {
        CycleOnPlan(c.reg, place, now, x.reading);
        RunOnPlan(next, NextPlace(c.reg, place, x.reading), later, xs[1..]);
      }
    }
  }

  lemma ResetPlaced(r: Regulation, now: int)
    ensures Placed(Restarted(r), NoRamp, now)
  {
  }

  // ---------------------------------------------------------------- the regulator object

  class Regulator {
    var working: real
    var ramp: seq<TempPoint>
    var history: seq<TempPoint>
    var firstTime: bool
    var lastTime: int
    var integral: real
    var priorTarget: real

    ghost function State(): Regulation
      reads this
    {
      Regulation(working, ramp, history, firstTime, lastTime, integral, priorTarget)
    }

    constructor ()
      ensures ramp == [] && history == [] && firstTime && integral == 0.0 && priorTarget == 99.9
    {
      working, ramp, history, firstTime, lastTime, integral, priorTarget := 0.0, [], [], true, 0, 0.0, 99.9;
    }

    method Reset()
      modifies this
      ensures State() == Restarted(old(State()))
    {
      integral := 0.0;
      firstTime := true;
      lastTime := 0;
      ramp := [];
      history := [];
    }

    /** The loop that lays out a new ramp. */
    method LayOutRamp(x: Reading)
      requires ramp == []
      modifies this`ramp
      ensures ramp == MakeRamp(x.now, x.chip, x.command)
    {
      hide RampLength, RampPoint;
      var points := RampLength(Abs(x.command - x.chip));
      ghost var whole := MakeRamp(x.now, x.chip, x.command);
      var i := 0;
      while i < points
        invariant 0 <= i <= |whole| && ramp == whole[..i]
      {
        ramp := ramp + [RampPoint(x.now, x.chip, x.command, i)];
        i := i + 1;
      }
      assert whole[..i] == whole;
    }

    /** The first half of Regulator::Cycle: the ramp and the working setpoint. */
    method FollowRamp(x: Reading)
      modifies this`working, this`ramp, this`priorTarget
      ensures working == WorkingSetpoint(old(State()), x) && ramp == RestOfRamp(old(State()), x)
      ensures priorTarget == x.command
    {
      hide MakeRamp;
      if priorTarget != x.command {
        priorTarget := x.command;
        ramp := [];
      }
      var inRamp := |ramp| > 0;
      var err := Abs(x.command - x.chip);
      if !inRamp && err > MAX_SINGLE_STEP {
        RampStart(x.now, x.chip, x.command);
        LayOutRamp(x);
        inRamp := true;
      }
      if inRamp {
        var p := ramp[0];
        if x.now >= p.timestamp {
          working := p.setpoint;
          ramp := ramp[1..];
        }
      } else {
        working := x.command;
      }
    }

    /** The chip temperatures of the last cycles, and how fast they change. */
    method MeasureSlope(x: Reading) returns (slope: real)
      modifies this`history
      ensures history == History(old(history), TempPoint(x.now, x.chip)) && slope == Slope(history)
    {
      history := history + [TempPoint(x.now, x.chip)];
      if |history| > SLOPE_POINTS {
        history := history[1..];
      }
      slope := 0.0;
      if |history| > 1 {
        var p1, p2 := history[0], history[|history| - 1];
        var delta := p2.timestamp - p1.timestamp;
        if delta > 0 {
          slope := (p2.setpoint - p1.setpoint) / delta as real;
        }
      }
    }

    /** Regulator::Cycle; what goes to the camera. */
    method Cycle(x: Reading) returns (command: int)
      modifies this
      ensures (State(), command) == Cycled(old(State()), x)
    {
      hide WorkingSetpoint, RestOfRamp, History, Slope, TargetPower, Correction, Integrated;
      FollowRamp(x);
      var targetPower := TargetPower(x, working);
      var slope := MeasureSlope(x);
      var tempErr := working - x.chip;
      var trial := integral;
      if firstTime {
        firstTime := false;
        trial := 0.0;
      } else {
        trial := Integrated(trial, x.now - lastTime, tempErr);
      }
      lastTime := x.now;
      command := targetPower + Correction(tempErr, trial, slope);
      if command > 255 {
        command := 255;
      } else if command < 0 {
        command := 0;
      } else {
        integral := trial;
      }
    }
  }

  class Cooler {
    const regulator: Regulator
    var prior: Request
    var mode: Mode

    constructor (mode: Mode)
      ensures fresh(regulator) && prior == Off && this.mode == mode && regulator.ramp == [] && regulator.integral == 0.0
    {
      regulator := new Regulator();
      prior, this.mode := Off, mode;
    }

    ghost function State(): Control
      reads this, regulator
    {
      Control(regulator.State(), prior, mode)
    }

    /** ControlCooler */
    method ControlCooler(x: Input) returns (written: Option<int>)
      modifies this, regulator
      ensures (State(), written) == Controlled(old(State()), x)
    {
      hide Cycled;
      written := None;
      if !x.sensors {
        mode := Error;
      }
      match x.desired {
        case Terminate =>
        case Auto =>
          if prior != Auto {
            regulator.Reset();
          }
          mode := Regulating;
          var command := regulator.Cycle(x.reading);
          written := Some(command);
        case Man =>
          written := Some(x.pwm);
          mode := if x.success then ManPwm else Error;
        case Off =>
          if mode != PowerOff {
            written := Some(0);
            mode := if x.success then PowerOff else Error;
          }
        case Other =>
          mode := Error;
      }
      prior := x.desired;
    }
  }
}
