/** Properties of one stat over several calls: round trips, repeated ticks, and
    the bounds invariant kept by any sequence of setter calls. */
module StatsProperties {
  import opened Stats

  /** The setters a caller can apply to an unfrozen stat. */
  datatype Op =
    | SetCurrentOp(v: real)
    | AddCurrentOp(d: real)
    | SetBaseOp(v: real)
    | SetMinOp(v: real)
    | SetMaxOp(v: real)
    | SetChangePerTickOp(v: real)
    | TickOp

  function Apply(s: Stat, op: Op): Stat
  {
    match op
    case SetCurrentOp(v) => SetCurrent(s, v)
    case AddCurrentOp(d) => SetCurrent(s, s.current + d)
    case SetBaseOp(v) => SetBase(s, v)
    case SetMinOp(v) => SetMin(s, v)
    case SetMaxOp(v) => SetMax(s, v)
    case SetChangePerTickOp(v) => SetChangePerTick(s, v)
    case TickOp => TickUpdate(s)
  }

  function ApplyAll(s: Stat, ops: seq<Op>): Stat
    decreases |ops|
  {
    if ops == [] then s else ApplyAll(Apply(s, ops[0]), ops[1..])
  }

  /** The bounds are in order before every call and after the last one. */
  predicate OrderedThroughout(s: Stat, ops: seq<Op>)
    decreases |ops|
  {
    s.min <= s.max && (ops == [] || OrderedThroughout(Apply(s, ops[0]), ops[1..]))
  }

  /** One setter call on an unfrozen stat whose bounds stay in order keeps the
      current value within the bounds and the stat unfrozen. */
  lemma OpKeepsInBounds(s: Stat, op: Op)
    requires !s.freeze && InBounds(s)
    requires Apply(s, op).min <= Apply(s, op).max
    ensures !Apply(s, op).freeze && InBounds(Apply(s, op))
  {
  }

  /** After any sequence of setter calls made while not frozen, and with the
      bounds in order throughout, the current value is within the bounds. */
  lemma {:induction false} OpsKeepInBounds(s: Stat, ops: seq<Op>)
    requires !s.freeze && InBounds(s)
    requires OrderedThroughout(s, ops)
    ensures !ApplyAll(s, ops).freeze && InBounds(ApplyAll(s, ops))
    decreases |ops|
  {
    if ops != [] {
      OpKeepsInBounds(s, ops[0]);
      OpsKeepInBounds(Apply(s, ops[0]), ops[1..]);
    }
  }

  /** The base value is not re-clamped when a bound moves, so it can end up
      outside the bounds: base 50 in [0, 100], then a lower bound of 60. */
  lemma SetMinLeavesBaseOutOfBounds()
    ensures var s := SetMin(Stat(50.0, 0.0, 100.0, 50.0, 0.0, false), 60.0);
            s.base == 50.0 && s.base < s.min && s.current == 60.0
  {
  }

  /** Adding `d` and then `-d` restores the stat when neither bound is hit. */
  lemma AddRoundTrip(s: Stat, d: real)
    requires !s.freeze && InBounds(s)
    requires s.min <= s.current + d <= s.max
    ensures var t := SetCurrent(s, s.current + d);
            t.current == s.current + d && SetCurrent(t, t.current + -d) == s
  {
  }

  /** A frozen stat ignores every direct set; unfreezing it clamps again. */
  lemma FreezeThenUnfreeze(s: Stat, v: real)
    ensures SetCurrent(SetFreeze(s, true), v) == SetFreeze(s, true)
    ensures SetCurrent(SetFreeze(s, false), v).current == Clamp(v, s.min, s.max)
  {
  }

  /** Without drift, ticking changes nothing and returns 0 every time. */
  lemma IdleTickIsIdempotent(s: Stat)
    requires !Drifts(s)
    ensures TickUpdate(TickUpdate(s)) == s
    ensures TickReturn(s) == 0.0 && TickReturn(TickUpdate(s)) == 0.0
  {
  }

  /** `n` consecutive tick updates. */
  function Ticks(s: Stat, n: nat): Stat
    decreases n
  {
    if n == 0 then s else TickUpdate(Ticks(s, n - 1))
  }

  /** `n` times `d`, as a sum of `n` drifts. */
  function Times(n: nat, d: real): (r: real)
    ensures r == (n as real) * d
    decreases n
  {
    if n == 0 then 0.0 else Times(n - 1, d) + d
  }

  /** A positive drift that does not reach the upper bound within `n` ticks
      adds itself `n` times. */
  lemma {:induction false} TicksAccumulate(s: Stat, n: nat)
    requires !s.freeze && s.changePerTick > 0.0 && InBounds(s)
    requires s.current + Times(n, s.changePerTick) <= s.max
    ensures Ticks(s, n) == s.(current := s.current + Times(n, s.changePerTick))
    decreases n
  {
    if n > 0 {
      TimesNonNegative(n - 1, s.changePerTick);
      TicksAccumulate(s, n - 1);
    }
  }

  /** A positive drift repeated any number of times is not negative. */
  lemma {:induction false} TimesNonNegative(n: nat, d: real)
    requires d > 0.0
    ensures Times(n, d) >= 0.0
    decreases n
  {
    if n > 0 {
      TimesNonNegative(n - 1, d);
    }
  }

  /** 0 in [0, 100] with drift 10 reads 10, 20 and 30 after three ticks. */
  lemma DriftScenario()
    ensures var s := Stat(0.0, 0.0, 100.0, 0.0, 10.0, false);
            && TickReturn(s) == 10.0
            && TickReturn(Ticks(s, 1)) == 20.0
            && TickReturn(Ticks(s, 2)) == 30.0
  {
    var s := Stat(0.0, 0.0, 100.0, 0.0, 10.0, false);
    TicksAccumulate(s, 1);
    TicksAccumulate(s, 2);
  }

  /** Base 50 in [0, 100]: a maximum of 30 pulls the current value down to 30,
      then a minimum of 40 pushes it up to 40. */
  lemma BoundsScenario()
    ensures var s := Stat(50.0, 0.0, 100.0, 50.0, 0.0, false);
            && SetMax(s, 30.0).current == 30.0
            && SetMin(SetMax(s, 30.0), 40.0).current == 40.0
  {
  }

  /** The class's methods compose as the functions do: on a stat built with
      base 50 in [0, 100], the bounds scenario reads 30, then 40. */
  method BoundsScenarioOnObject()
  {
    var stat := new StatData.Explicit(50.0, 0.0, 100.0, 0.0);
    stat.SetFreezeStat(false);
    var hi := stat.SetMaxValue(30.0);
    assert hi == 30.0 && stat.GetCurrentValue() == 30.0;
    var lo := stat.SetMinValue(40.0);
    assert lo == 40.0 && stat.GetCurrentValue() == 40.0;
  }
}
