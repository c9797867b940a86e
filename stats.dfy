/** One bounded stat (FStatData).

    The stat's fields as a value (`Stat`), each setter as a function from the old
    stat to the new one, and the struct itself as a class (`StatData`) whose
    methods update the fields in place and are proved against those functions. */
module Stats {

  /** The fields of one stat. `freeze` suspends every change of `current` made
      through the clamped setter; the bounds and the base value stay settable. */
  datatype Stat = Stat(base: real, min: real, max: real, current: real, changePerTick: real, freeze: bool)

  /** The engine's clamp, `X < Min ? Min : X < Max ? X : Max`. The bounds are
      never checked, so inverted bounds are possible: then any value that is not
      below `lo` becomes `hi`. */
  function Clamp(x: real, lo: real, hi: real): (r: real)
    ensures r == x || r == lo || r == hi
    ensures lo <= hi ==> lo <= r <= hi
    ensures lo <= x <= hi ==> r == x
    ensures x < lo ==> r == lo
    ensures lo <= hi < x ==> r == hi
    ensures hi < lo <= x ==> r == hi
  {
    if x < lo then lo else if x < hi then x else hi
  }

  /** The current value lies within the stat's bounds. */
  predicate InBounds(s: Stat)
  {
    s.min <= s.current <= s.max
  }

  /** SetCurrentValue: clamp the new value into the bounds unless frozen. */
  function SetCurrent(s: Stat, v: real): (r: Stat)
    ensures r.base == s.base && r.min == s.min && r.max == s.max
    ensures r.changePerTick == s.changePerTick && r.freeze == s.freeze
    ensures s.freeze ==> r.current == s.current
    ensures !s.freeze && s.min <= s.max ==> InBounds(r)
    ensures !s.freeze && s.min <= v <= s.max ==> r.current == v
    ensures !s.freeze && v < s.min ==> r.current == s.min
    ensures !s.freeze && s.min <= s.max < v ==> r.current == s.max
  {
    if s.freeze then s else s.(current := Clamp(v, s.min, s.max))
  }

  /** SetBaseValue: the base value is clamped too, but freezing does not stop it
      and the current value is left alone. */
  function SetBase(s: Stat, v: real): (r: Stat)
    ensures r.current == s.current && r.min == s.min && r.max == s.max
    ensures r.changePerTick == s.changePerTick && r.freeze == s.freeze
    ensures s.min <= s.max ==> s.min <= r.base <= s.max
    ensures s.min <= v <= s.max ==> r.base == v
    ensures v < s.min ==> r.base == s.min
    ensures s.min <= s.max < v ==> r.base == s.max
  {
    s.(base := Clamp(v, s.min, s.max))
  }

  /** SetMinValue: replace the lower bound, then run the clamped setter on the
      current value so that it obeys the new bounds (unless frozen). */
  function SetMin(s: Stat, v: real): (r: Stat)
    ensures r.min == v && r.max == s.max && r.base == s.base
    ensures r.changePerTick == s.changePerTick && r.freeze == s.freeze
    ensures s.freeze ==> r.current == s.current
    ensures !s.freeze && v <= s.max ==> InBounds(r)
    ensures !s.freeze && v <= s.current <= s.max ==> r.current == s.current
    ensures !s.freeze && s.current < v <= s.max ==> r.current == v
    ensures !s.freeze && v <= s.max < s.current ==> r.current == s.max
  {
    SetCurrent(s.(min := v), s.current)
  }

  /** SetMaxValue: replace the upper bound, then re-clamp as SetMin does. */
  function SetMax(s: Stat, v: real): (r: Stat)
    ensures r.max == v && r.min == s.min && r.base == s.base
    ensures r.changePerTick == s.changePerTick && r.freeze == s.freeze
    ensures s.freeze ==> r.current == s.current
    ensures !s.freeze && s.min <= v ==> InBounds(r)
    ensures !s.freeze && s.min <= s.current <= v ==> r.current == s.current
    ensures !s.freeze && s.min <= v < s.current ==> r.current == v
    ensures !s.freeze && s.current < s.min <= v ==> r.current == s.min
  {
    SetCurrent(s.(max := v), s.current)
  }

  /** SetChangePerTickValue: replace the drift; nothing is re-clamped. */
  function SetChangePerTick(s: Stat, v: real): (r: Stat)
    ensures r.changePerTick == v
    ensures r.(changePerTick := s.changePerTick) == s
  {
    s.(changePerTick := v)
  }

  /** IsChangingPerTick: the stat has a non-zero drift. */
  predicate Drifts(s: Stat)
  {
    s.changePerTick != 0.0
  }

  /** The stat after StatTickUpdate: a drifting stat adds its drift through the
      clamped setter; a stat without drift is left as it is. */
  function TickUpdate(s: Stat): (r: Stat)
    ensures !Drifts(s) || s.freeze ==> r == s
    ensures r.(current := s.current) == s
    ensures InBounds(s) ==> InBounds(r)
    ensures Drifts(s) && !s.freeze && s.min <= s.current + s.changePerTick <= s.max ==>
              r.current == s.current + s.changePerTick
    ensures Drifts(s) && !s.freeze && s.min <= s.max < s.current + s.changePerTick ==> r.current == s.max
    ensures Drifts(s) && !s.freeze && s.current + s.changePerTick < s.min ==> r.current == s.min
  {
    if Drifts(s) then SetCurrent(s, s.current + s.changePerTick) else s
  }

  /** What StatTickUpdate returns: the new current value for a drifting stat,
      and the constant 0 for a stat without drift, whatever its value. */
  function TickReturn(s: Stat): (r: real)
    ensures !Drifts(s) ==> r == 0.0
    ensures Drifts(s) ==> r == TickUpdate(s).current
  {
    if Drifts(s) then TickUpdate(s).current else 0.0
  }

  /** SetFreezeStat: change the flag only; the value is not re-clamped. */
  function SetFreeze(s: Stat, b: bool): (r: Stat)
    ensures r.freeze == b
    ensures r.(freeze := s.freeze) == s
  {
    s.(freeze := b)
  }

  /** FStatData itself: the same fields, updated in place by its methods. */
  class StatData {
    var base: real
    var min: real
    var max: real
    var current: real
    var changePerTick: real
    var freeze: bool

    /** The fields as a value. */
    function Value(): Stat
      reads this
    {
      Stat(base, min, max, current, changePerTick, freeze)
    }

    /** The default constructor: 0 within [0, 100] without drift. The freeze
        flag is not initialised, so nothing is promised about it. */
    constructor ()
      ensures base == 0.0 && min == 0.0 && max == 100.0
      ensures current == 0.0 && changePerTick == 0.0
    {
      base, min, max := 0.0, 0.0, 100.0;
      current, changePerTick := 0.0, 0.0;
    }

    /** The explicit constructor: the current value starts at the base value,
        without clamping. The freeze flag is not initialised. */
    constructor Explicit(inBase: real, inMin: real, inMax: real, inChangePerTick: real)
      ensures base == inBase && min == inMin && max == inMax
      ensures current == inBase && changePerTick == inChangePerTick
    {
      base, min, max := inBase, inMin, inMax;
      current, changePerTick := inBase, inChangePerTick;
    }

    /** A copy of a stat value (`FStatData Data = *RowData`). */
    constructor Copy(s: Stat)
      ensures Value() == s
    {
      base, min, max := s.base, s.min, s.max;
      current, changePerTick, freeze := s.current, s.changePerTick, s.freeze;
    }

    function GetCurrentValue(): (r: real)
      reads this
      ensures r == Value().current
    {
      current
    }

    /** Clamps `v` into the bounds unless frozen; returns the resulting current
        value whether or not it changed. */
    method SetCurrentValue(v: real) returns (r: real)
      modifies this
      ensures Value() == SetCurrent(old(Value()), v)
      ensures r == current
    {
      if !freeze {
        current := Clamp(v, min, max);
      }
      r := current;
    }

    /** The same as setting the current value plus `d`. */
    method AddCurrentValue(d: real) returns (r: real)
      modifies this
      ensures Value() == SetCurrent(old(Value()), old(current) + d)
      ensures r == current
    {
      r := SetCurrentValue(current + d);
    }

    function GetBaseValue(): (r: real)
      reads this
      ensures r == Value().base
    {
      base
    }

    method SetBaseValue(v: real) returns (r: real)
      modifies this
      ensures Value() == SetBase(old(Value()), v)
      ensures r == base
    {
      base := Clamp(v, min, max);
      r := base;
    }

    function GetMinValue(): (r: real)
      reads this
      ensures r == Value().min
    {
      min
    }

    method SetMinValue(v: real) returns (r: real)
      modifies this
      ensures Value() == SetMin(old(Value()), v)
      ensures r == v
    {
      min := v;
      var _ := SetCurrentValue(current);
      r := min;
    }

    function GetMaxValue(): (r: real)
      reads this
      ensures r == Value().max
    {
      max
    }

    method SetMaxValue(v: real) returns (r: real)
      modifies this
      ensures Value() == SetMax(old(Value()), v)
      ensures r == v
    {
      max := v;
      var _ := SetCurrentValue(current);
      r := max;
    }

    function GetChangePerTick(): (r: real)
      reads this
      ensures r == Value().changePerTick
    {
      changePerTick
    }

    /** True if the stat should update by tick. */
    predicate IsChangingPerTick()
      reads this
      ensures IsChangingPerTick() <==> Drifts(Value())
    {
      GetChangePerTick() != 0.0
    }

    method SetChangePerTickValue(v: real) returns (r: real)
      modifies this
      ensures Value() == SetChangePerTick(old(Value()), v)
      ensures r == v
    {
      changePerTick := v;
      r := changePerTick;
    }

    /** Adds the drift through the clamped setter and returns the new current
        value; without drift it changes nothing and returns 0. */
    method StatTickUpdate() returns (r: real)
      modifies this
      ensures Value() == TickUpdate(old(Value()))
      ensures r == TickReturn(old(Value()))
    {
      if IsChangingPerTick() {
        r := AddCurrentValue(changePerTick);
      } else {
        r := 0.0;
      }
    }

    method SetFreezeStat(newFreeze: bool)
      modifies this
      ensures Value() == SetFreeze(old(Value()), newFreeze)
    {
      freeze := newFreeze;
    }
  }
}
