# SimpleStats in Dafny

A model of the SimpleStats Unreal plugin's stats component and the proofs of its
behaviour. The plugin keeps a name -> stat registry on a game actor. Each stat
(`FStatData`) holds a base value, inclusive bounds, a current value that the
setters clamp into the bounds, a constant drift per tick, and a freeze flag that
stops the clamped setter from changing the current value. The registry
(`UStatsComponent`) is seeded from a data table or from a replacement map.
`StatTick`, which the host calls, advances every stat once per call. The
component forwards per-name calls to the named stat and broadcasts
`OnStatChanged(name, value)`.

Files and modules:

- `wrappers.dfy`, module `Wrappers`: the `Option` type that lookups return.
- `stats.dfy`, module `Stats`: the stat as a value (`Stat`) and each setter as a
  function from the old stat to the new one. Also the struct itself as the class
  `StatData`, whose methods update its fields in place and are proved against
  those functions (`Value() == SetMin(old(Value()), v)` and so on).
- `stats_properties.dfy`, module `StatsProperties`: properties that span
  several calls on one stat. These are the bounds invariant under any sequence
  of setter calls, the add/subtract round trip, repeated ticks, and the bounds
  and drift scenarios.
- `component.dfy`, module `Component`: the registry.
  - `StatMap` is the `TMap`: its entries plus the order in which it lists its
    keys.
  - `StatsComponent` is the component class. Its fields are the map, the
    broadcast log `events`, the Init-hook counter `initCount`, and the optional
    data table.
  - `AddRows`, `TickEvents` and `ResetEvents` specify the seeding, tick and
    reset loops. The freeze-all loop is specified by its own postcondition.
- `component_properties.dfy`, module `ComponentProperties`: which stats a tick
  broadcasts, the one-broadcast-per-stat reset, what seeding stores, and a
  seeded hp/mana scenario.

Modelling choices:

- Floats are `real`. Clamp, add and compare are then exact, and the round trip
  `+d` then `-d` holds exactly.
- `FMath::Clamp` comes from the engine, which is not part of this model. It is
  modelled as the engine defines it: `X < Min ? Min : X < Max ? X : Max`. With
  inverted bounds (`min > max`) this is still deterministic: below `min` gives
  `min`, anything else gives `max`.
- The map stores stats by value, and `GetStat` returns a reference into it. A
  forwarder is therefore modelled as three steps:
  1. copy the entry into a fresh `StatData` (`StatData.Copy`);
  2. run the struct's method on it;
  3. write the result back with `StatMap.Replace`, which changes neither the
     keys nor their order.
- `GetStat` returns an `Option`. Every forwarder's missing-name branch returns
  the sentinel the source returns (`0`, or `false`) and changes nothing.
- Neither `FStatData` constructor initialises `bFreeze`. The Dafny constructors
  leave `freeze` unassigned and promise nothing about it.

Behaviour kept as the code has it:

- `StatTick` compares the value before the tick with what `StatTickUpdate`
  returns. For a stat without drift that return is the constant `0`. So a
  non-drifting stat whose value is not `0` is broadcast as `(name, 0)` on every
  tick (`IdleStatBroadcastsZero`).
- A stat pinned at the bound it drifts towards is never broadcast. Neither is a
  frozen drifting stat.
- Seeding `hp` (100 in [0, 100], no drift) and `mana` (50 in [0, 50], drift 5)
  and ticking once gives exactly `[("hp", 0)]`. Mana is clamped back to 50, so
  it is not broadcast (`SeedScenario`, `TickScenario`).
- `SetMinValue` and `SetMaxValue` re-clamp the current value but not the base
  value, so the base value can end up outside the bounds
  (`SetMinLeavesBaseOutOfBounds`). They make no broadcast.
- `SetStatCurrentValue` and `ResetStat` broadcast on every call with a present
  name, even when the value did not change or the stat is frozen.
- Seeding from the table runs the clamped setter on the row's copy. A row whose
  freeze flag is set in the table therefore keeps the table's current value
  instead of its base value (`FrozenRowKeepsTableValue`).
- `InitStats` does nothing without a table, and Init does not fire then.
  `InitStatsFromMap` fires Init even for an empty map.

## Model

| member | source | states |
|---|---|---|
| `Stats.Clamp` | Source/SimpleStats/Public/StatsComponent.h:66 | the result is the value, the lower or the upper bound; with ordered bounds it lies within them; a value within them is kept; below the lower bound gives the lower bound; above the upper bound gives the upper bound; with inverted bounds any value not below `lo` gives `hi` |
| `Stats.SetCurrent` | Source/SimpleStats/Public/StatsComponent.h:63-69 | only the current value changes; a frozen stat keeps it; an unfrozen stat with ordered bounds ends within them, keeps an in-bounds value exactly, and is pulled to the bound it crossed |
| `Stats.SetBase` | Source/SimpleStats/Public/StatsComponent.h:81-85 | only the base value changes, whether or not frozen; it ends within ordered bounds; an in-bounds value is kept exactly, one below the lower bound gives the lower bound, one above ordered bounds gives the upper bound; the current value is untouched |
| `Stats.SetMin` | Source/SimpleStats/Public/StatsComponent.h:92-97 | the lower bound becomes `v` and the other fields except the current value are kept; frozen: the current value is kept; unfrozen with `v <= max`: the current value ends within the new bounds, unchanged if it already was, raised to `v` if below it, lowered to `max` if above it |
| `Stats.SetMax` | Source/SimpleStats/Public/StatsComponent.h:104-109 | the upper bound becomes `v` and the other fields except the current value are kept; frozen: the current value is kept; unfrozen with `min <= v`: the current value ends within the new bounds, unchanged if it already was, lowered to `v` if above it, raised to `min` if below it |
| `Stats.SetChangePerTick` | Source/SimpleStats/Public/StatsComponent.h:122-126 | the drift becomes `v`; nothing else changes |
| `Stats.TickUpdate` | Source/SimpleStats/Public/StatsComponent.h:128-136 | without drift or when frozen the stat is unchanged; only the current value can change; being within the bounds is preserved; an unfrozen drift that stays in bounds is added exactly; one that crosses a bound lands on that bound |
| `Stats.TickReturn` | Source/SimpleStats/Public/StatsComponent.h:128-136 | the return is 0 without drift, and the new current value with drift |
| `Stats.SetFreeze` | Source/SimpleStats/Public/StatsComponent.h:138-141 | the flag becomes `b`; nothing else changes |
| `Stats.StatData.constructor` | Source/SimpleStats/Public/StatsComponent.h:20-23 | base 0, bounds [0, 100], current 0, no drift; freeze flag unspecified |
| `Stats.StatData.Explicit` | Source/SimpleStats/Public/StatsComponent.h:25-28 | takes the four parameters; current starts at base without clamping; freeze flag unspecified |
| `Stats.StatData.Copy` | Source/SimpleStats/Private/StatsComponent.cpp:33 | the copy holds exactly the given stat's fields |
| `Stats.StatData.GetCurrentValue` | Source/SimpleStats/Public/StatsComponent.h:58-61 | reads back the current value the setters write |
| `Stats.StatData.SetCurrentValue` | Source/SimpleStats/Public/StatsComponent.h:63-69 | the new state is `SetCurrent` of the old one; returns the resulting current value, changed or not |
| `Stats.StatData.AddCurrentValue` | Source/SimpleStats/Public/StatsComponent.h:71-74 | the new state is exactly that of setting the current value to the old value plus `d` |
| `Stats.StatData.GetBaseValue` | Source/SimpleStats/Public/StatsComponent.h:76-79 | reads back the base value |
| `Stats.StatData.SetBaseValue` | Source/SimpleStats/Public/StatsComponent.h:81-85 | the new state is `SetBase` of the old one; returns the clamped base value |
| `Stats.StatData.GetMinValue` | Source/SimpleStats/Public/StatsComponent.h:87-90 | reads back the lower bound |
| `Stats.StatData.SetMinValue` | Source/SimpleStats/Public/StatsComponent.h:92-97 | the new state is `SetMin` of the old one; returns the new bound |
| `Stats.StatData.GetMaxValue` | Source/SimpleStats/Public/StatsComponent.h:99-102 | reads back the upper bound |
| `Stats.StatData.SetMaxValue` | Source/SimpleStats/Public/StatsComponent.h:104-109 | the new state is `SetMax` of the old one; returns the new bound |
| `Stats.StatData.GetChangePerTick` | Source/SimpleStats/Public/StatsComponent.h:111-114 | reads back the drift |
| `Stats.StatData.IsChangingPerTick` | Source/SimpleStats/Public/StatsComponent.h:116-120 | true exactly when the drift is non-zero |
| `Stats.StatData.SetChangePerTickValue` | Source/SimpleStats/Public/StatsComponent.h:122-126 | the new state is `SetChangePerTick` of the old one; returns the new drift |
| `Stats.StatData.StatTickUpdate` | Source/SimpleStats/Public/StatsComponent.h:128-136 | the new state is `TickUpdate` of the old one; returns `TickReturn` of the old one (0 without drift) |
| `Stats.StatData.SetFreezeStat` | Source/SimpleStats/Public/StatsComponent.h:138-141 | only the freeze flag changes |
| `StatsProperties.OpKeepsInBounds` | Source/SimpleStats/Public/StatsComponent.h:63-133 | one setter or tick on an unfrozen in-bounds stat whose bounds stay ordered leaves it in bounds and unfrozen |
| `StatsProperties.OpsKeepInBounds` | Source/SimpleStats/Public/StatsComponent.h:63-133 | after any sequence of setters and ticks on an unfrozen stat, with the bounds ordered throughout, the current value is within the bounds |
| `StatsProperties.SetMinLeavesBaseOutOfBounds` | Source/SimpleStats/Public/StatsComponent.h:92-97 | base 50 in [0, 100], then a lower bound of 60: current becomes 60 but base stays 50, below the bound |
| `StatsProperties.AddRoundTrip` | Source/SimpleStats/Public/StatsComponent.h:71-74 | adding `d` then `-d` restores the whole stat when neither bound is crossed |
| `StatsProperties.FreezeThenUnfreeze` | Source/SimpleStats/Public/StatsComponent.h:63-69 | once frozen, setting any value changes nothing; once unfrozen, setting clamps into the bounds |
| `StatsProperties.IdleTickIsIdempotent` | Source/SimpleStats/Public/StatsComponent.h:128-136 | without drift, ticking twice leaves the stat unchanged and returns 0 both times |
| `StatsProperties.TicksAccumulate` | Source/SimpleStats/Public/StatsComponent.h:128-133 | `n` ticks of an unfrozen positive drift that stays below the upper bound add the drift `n` times (`Times(n, d)`, proved equal to `n * d`) |
| `StatsProperties.DriftScenario` | Source/SimpleStats/Public/StatsComponent.h:128-133 | 0 in [0, 100] with drift 10: the ticks return 10, 20, 30 |
| `StatsProperties.BoundsScenario` | Source/SimpleStats/Public/StatsComponent.h:92-109 | base 50 in [0, 100]: a maximum of 30 gives current 30, then a minimum of 40 gives current 40 |
| `Component.StatMap.Find` | Source/SimpleStats/Private/StatsComponent.cpp:50-53 | finds a stat exactly when the name is a key, and then the stored one |
| `Component.StatMap.Add` | Source/SimpleStats/Private/StatsComponent.cpp:35 | keeps the map well formed; the key set gains the name; the name maps to the new stat; other entries are kept; existing keys keep their places; a new key goes last |
| `Component.StatMap.Replace` | Source/SimpleStats/Private/StatsComponent.cpp:50-53 | keys and order unchanged; a present name now maps to the new stat; other entries kept; an absent name changes nothing |
| `Component.AddRows` | Source/SimpleStats/Private/StatsComponent.cpp:30-36 | seeding keeps the map well formed and keeps every existing key |
| `Component.StatsComponent.constructor` | Source/SimpleStats/Public/StatsComponent.h:172-176 | no stats, no broadcasts, Init not fired, the given data table |
| `Component.StatsComponent.InitStats` | Source/SimpleStats/Private/StatsComponent.cpp:23-40 | with a table, the map becomes `AddRows` of the old map and the rows, and Init fires once; without a table, nothing changes and Init does not fire |
| `Component.StatsComponent.InitStatsFromMap` | Source/SimpleStats/Private/StatsComponent.cpp:42-48 | a non-empty map replaces the registry wholesale; an empty one leaves it; Init fires once either way |
| `Component.StatsComponent.GetStat` | Source/SimpleStats/Private/StatsComponent.cpp:50-53 | Some exactly when the name is present, holding its stat; None otherwise |
| `Component.StatsComponent.StatTick` | Source/SimpleStats/Private/StatsComponent.cpp:55-69 | keys and order unchanged; every stat becomes `TickUpdate` of its old value; the broadcasts appended are `TickEvents` over the keys snapshotted before the loop |
| `Component.StatsComponent.TickStat` | Source/SimpleStats/Private/StatsComponent.cpp:62-66 | one loop iteration: the named stat becomes `TickUpdate` of itself, keys and order unchanged, and its `TickBroadcast` (the tick result, if it differs from the value read before) is appended |
| `Component.StatsComponent.GetStatCurrentValue` | Source/SimpleStats/Private/StatsComponent.cpp:83-92 | the stat's current value, or 0 for a missing name |
| `Component.StatsComponent.SetStatCurrentValue` | Source/SimpleStats/Private/StatsComponent.cpp:94-107 | present: the stat becomes `SetCurrent` of itself, the result is its new current value, and exactly one broadcast of that value is appended; missing: returns 0 and changes nothing |
| `Component.StatsComponent.AddStatCurrentValue` | Source/SimpleStats/Private/StatsComponent.cpp:109-118 | present: the same as setting to the old value plus `d`, with exactly one broadcast; missing: 0 and no change |
| `Component.StatsComponent.GetStatBaseValue` | Source/SimpleStats/Private/StatsComponent.cpp:120-129 | the base value, or 0 |
| `Component.StatsComponent.SetStatBaseValue` | Source/SimpleStats/Private/StatsComponent.cpp:131-140 | present: the stat becomes `SetBase` of itself, returns the new base, no broadcast; missing: 0 and no change |
| `Component.StatsComponent.GetStatChangePerTickValue` | Source/SimpleStats/Private/StatsComponent.cpp:142-151 | the drift, or 0 |
| `Component.StatsComponent.IsStatChangingPerTick` | Source/SimpleStats/Private/StatsComponent.cpp:153-162 | true exactly when the name is present and its stat drifts |
| `Component.StatsComponent.SetStatChangePerTickValue` | Source/SimpleStats/Private/StatsComponent.cpp:164-173 | present: the drift is replaced and returned, no broadcast; missing: 0 and no change |
| `Component.StatsComponent.GetStatMinValue` | Source/SimpleStats/Private/StatsComponent.cpp:175-184 | the lower bound, or 0 |
| `Component.StatsComponent.SetStatMinValue` | Source/SimpleStats/Private/StatsComponent.cpp:186-195 | present: the stat becomes `SetMin` of itself (its current value may move), returns the new bound, no broadcast; missing: 0 and no change |
| `Component.StatsComponent.GetStatMaxValue` | Source/SimpleStats/Private/StatsComponent.cpp:197-206 | the upper bound, or 0 |
| `Component.StatsComponent.SetStatMaxValue` | Source/SimpleStats/Private/StatsComponent.cpp:208-217 | the same for the upper bound |
| `Component.StatsComponent.ResetStat` | Source/SimpleStats/Private/StatsComponent.cpp:219-228 | present: the stat's current value is set to its base value through the clamped setter, and exactly one broadcast of the result is appended, even if nothing changed; missing: 0 and no change |
| `Component.StatsComponent.ResetAllStats` | Source/SimpleStats/Private/StatsComponent.cpp:230-239 | every stat is reset; the broadcasts appended are `ResetEvents` over the snapshotted keys |
| `Component.StatsComponent.FreezeStat` | Source/SimpleStats/Private/StatsComponent.cpp:241-248 | present: only the freeze flag changes; missing: no change; never a broadcast |
| `Component.StatsComponent.FreezeAllStats` | Source/SimpleStats/Private/StatsComponent.cpp:250-259 | every stat's flag becomes `b` and nothing else changes; no broadcast; keys and order unchanged |
| `ComponentProperties.TickEventsMembership` | Source/SimpleStats/Private/StatsComponent.cpp:55-69 | a tick broadcasts `(k, v)` exactly when `k` was ticked, its value before the tick differs from the tick's return, and `v` is that return |
| `ComponentProperties.IdleStatBroadcastsZero` | Source/SimpleStats/Private/StatsComponent.cpp:62-66 | a non-drifting stat whose value is not 0 is broadcast as `(k, 0)` |
| `ComponentProperties.FrozenDriftingStatIsSilent` | Source/SimpleStats/Private/StatsComponent.cpp:62-66 | a frozen drifting stat is never broadcast by a tick |
| `ComponentProperties.PinnedStatIsSilent` | Source/SimpleStats/Private/StatsComponent.cpp:62-66 | an unfrozen stat drifting into the bound it sits on is never broadcast by a tick |
| `ComponentProperties.TickEventsAtMostOnePerKey` | Source/SimpleStats/Private/StatsComponent.cpp:60-68 | a tick makes no more broadcasts than there are keys |
| `ComponentProperties.TickEventsNamesDistinct` | Source/SimpleStats/Private/StatsComponent.cpp:57-68 | over the duplicate-free key array, no key is broadcast twice by one tick |
| `ComponentProperties.ResetEventsOnePerStat` | Source/SimpleStats/Private/StatsComponent.cpp:230-239 | resetting all stats makes exactly one broadcast per key, in key order, carrying that stat's reset value |
| `ComponentProperties.AtBaseIsClampedBase` | Source/SimpleStats/Private/StatsComponent.cpp:219-228 | resetting an unfrozen stat leaves the clamped base value, which is the base itself when in bounds; a frozen stat is unchanged |
| `ComponentProperties.AddRowsStoresRows` | Source/SimpleStats/Private/StatsComponent.cpp:30-36 | after seeding, every row's name maps to its stat with the current value reset to base, overwriting what was there |
| `ComponentProperties.AddRowsKeepsOthers` | Source/SimpleStats/Private/StatsComponent.cpp:30-36 | seeding keeps every entry that no row names |
| `ComponentProperties.AddRowsAddsOnlyRows` | Source/SimpleStats/Private/StatsComponent.cpp:30-36 | seeding adds no name other than the rows' names |
| `ComponentProperties.FrozenRowKeepsTableValue` | Source/SimpleStats/Private/StatsComponent.cpp:32-34 | a row frozen in the table keeps the table's current value rather than its base value |
| `ComponentProperties.SeedScenario` | Source/SimpleStats/Private/StatsComponent.cpp:30-36 | seeding an empty registry with hp (base 100 in [0, 100]) and mana (base 50 in [0, 50]) stores both at their base values, in row order |
| `ComponentProperties.TickScenario` | Source/SimpleStats/Private/StatsComponent.cpp:55-69 | ticking that registry, hp (100, no drift) then mana (50 of 50, drift 5), broadcasts exactly `("hp", 0)`, and mana stays at 50 |

## Left out

- Source/SimpleStats/Private/SimpleStats.cpp: module startup and shutdown with empty bodies.
- `PrintStats` and the `bPrintStats` branch of `TickComponent`: on-screen debug output.
- The `UStatsComponent` constructor and `BeginPlay`: engine lifecycle. `StatsComponent.constructor` only sets up an empty registry and the table the editor would assign.
- The data table's `GetRowNames`/`FindRow`: the table is an optional sequence of `(name, stat)` rows. Every row name is assumed to find its row.
- The `OnStatChanged` delegate: only the broadcasts are recorded, as the `events` log. Listeners are not modelled.
- The Init Blueprint hook: only the number of times it fires is recorded (`initCount`).
- `StatCurve`: declared but never used.
- `virtual` dispatch on `FStatData`: one concrete shape.
- Case-insensitive `FName` equality: the map is keyed by `FName`, which compares names without regard to case, so `"HP"` and `"hp"` are one key in the source. Each model `string` stands for one such equality class, and callers are taken to use one spelling per name; with two spellings the model would find nothing or add a second entry where the source finds or overwrites the one entry.
- IEEE float rounding, NaN and infinities: values are exact reals.
- Dereferencing a missing `TMap` entry in `GetStat` is undefined behaviour in C++. The model uses the sentinel path the forwarders test for.
- Aliasing of the reference `GetStat` returns: modelled as copy in, update, write back. `AddStatCurrentValue` and `ResetStat` do hold a reference to the entry while the `SetStatCurrentValue` they call binds a second one. The outer reference is used only for the null test before the call, so copy in and write back gives the same result.
- TicksAccumulate: proved for positive drift only; a negative drift moving down towards the lower bound is the mirror case and is not stated.
- AddRowsStoresRows: requires distinct row names, which a data table's row map guarantees. With repeated names the last row would win; that is not stated.
