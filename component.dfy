/** The stats component (UStatsComponent): a name -> stat registry that seeds
    itself from a table or a replacement map, advances every stat once per tick,
    forwards per-name calls to the named stat, and broadcasts value changes. */
module Component {
  import opened Wrappers
  import opened Stats

  /** One broadcast of OnStatChanged: the stat's name and the value sent. */
  datatype StatChanged = StatChanged(name: string, value: real)

  /** One row of the stats data table. The row's stat carries whatever the
      asset holds, including its current value and its freeze flag. */
  datatype Row = Row(name: string, data: Stat)

  /** A TMap from names to stats: the entries and the order in which the map
      enumerates its keys (the order of first insertion). */
  datatype StatMap = StatMap(entries: map<string, Stat>, order: seq<string>) {

    /** The order lists every key exactly once. */
    ghost predicate Valid()
    {
      && (forall i, j :: 0 <= i < j < |order| ==> order[i] != order[j])
      && (forall k :: k in order <==> k in entries)
    }

    /** Find: the stat stored under `name`, if there is one. */
    function Find(name: string): (r: Option<Stat>)
      ensures r.Some? <==> name in entries
      ensures r.Some? ==> r.value == entries[name]
    {
      if name in entries then Some(entries[name]) else None
    }

    /** Add: insert or overwrite. A new key goes last; an existing key keeps
        its place. */
    function Add(name: string, s: Stat): (r: StatMap)
      ensures Valid() ==> r.Valid()
      ensures r.entries.Keys == entries.Keys + {name} && r.entries[name] == s
      ensures forall k :: k in entries && k != name ==> r.entries[k] == entries[k]
      ensures |order| <= |r.order| && r.order[..|order|] == order
      ensures |r.order| == if name in entries then |order| else |order| + 1
    {
      StatMap(entries[name := s], if name in entries then order else order + [name])
    }

    /** Writing through the reference Find returned: the entry under `name`, if
        any, becomes `s`; keys and order stay as they were. */
    function Replace(name: string, s: Stat): (r: StatMap)
      ensures r.order == order && r.entries.Keys == entries.Keys
      ensures name in entries ==> r.entries[name] == s
      ensures forall k :: k in entries && k != name ==> r.entries[k] == entries[k]
      ensures name !in entries ==> r == this
    {
      if name in entries then StatMap(entries[name := s], order) else this
    }
  }

  /** A stat with its current value set to its base value through the clamped
      setter, as seeding and resetting do. */
  function AtBase(s: Stat): Stat
  {
    SetCurrent(s, s.base)
  }

  /** The map after the table's rows are added one by one, each row's stat
      first reset to its base value. */
  function AddRows(sm: StatMap, rows: seq<Row>): (r: StatMap)
    ensures sm.Valid() ==> r.Valid()
    ensures sm.entries.Keys <= r.entries.Keys
    decreases |rows|
  {
    if rows == [] then sm
    else
      var last := rows[|rows| - 1];
      AddRows(sm, rows[..|rows| - 1]).Add(last.name, AtBase(last.data))
  }

  /** Adding one more row extends AddRows by one Add. */
  lemma AddRowsStep(sm: StatMap, rows: seq<Row>, i: nat)
    requires i < |rows|
    ensures AddRows(sm, rows[..i + 1]) == AddRows(sm, rows[..i]).Add(rows[i].name, AtBase(rows[i].data))
  {
    assert rows[..i + 1][..i] == rows[..i];
  }

  /** What StatTick broadcasts for the stat `s` named `k`: its tick result,
      when that differs from its value before the tick. */
  function TickBroadcast(k: string, s: Stat): seq<StatChanged>
  {
    if s.current != TickReturn(s) then [StatChanged(k, TickReturn(s))] else []
  }

  /** The broadcasts StatTick makes over the keys `ks`, each stat read before it
      is ticked: one for every stat whose value before the tick differs from what
      StatTickUpdate returned, in key order. */
  function TickEvents(m: map<string, Stat>, ks: seq<string>): seq<StatChanged>
    requires forall k :: k in ks ==> k in m
    decreases |ks|
  {
    if ks == [] then []
    else
      var k := ks[|ks| - 1];
      TickEvents(m, ks[..|ks| - 1]) + TickBroadcast(k, m[k])
  }

  /** Ticking one more key extends TickEvents by that key's broadcast, if any. */
  lemma TickEventsStep(m: map<string, Stat>, ks: seq<string>, i: nat)
    requires forall k :: k in ks ==> k in m
    requires i < |ks|
    ensures TickEvents(m, ks[..i + 1]) == TickEvents(m, ks[..i]) + TickBroadcast(ks[i], m[ks[i]])
  {
    assert ks[..i + 1][..i] == ks[..i];
  }

  /** A log ending in the broadcasts of the first `i` keys, extended by the
      next key's broadcast, ends in the broadcasts of the first `i + 1` keys. */
  lemma TickEventsExtend(log: seq<StatChanged>, logged: seq<StatChanged>, m: map<string, Stat>, ks: seq<string>, i: nat)
    requires forall k :: k in ks ==> k in m
    requires i < |ks|
    requires logged == log + TickEvents(m, ks[..i])
    ensures logged + TickBroadcast(ks[i], m[ks[i]]) == log + TickEvents(m, ks[..i + 1])
  {
    TickEventsStep(m, ks, i);
  }

  /** The broadcasts ResetAllStats makes over the keys `ks`. */
  function ResetEvents(m: map<string, Stat>, ks: seq<string>): seq<StatChanged>
    requires forall k :: k in ks ==> k in m
    decreases |ks|
  {
    if ks == [] then []
    else
      var k := ks[|ks| - 1];
      ResetEvents(m, ks[..|ks| - 1]) + [StatChanged(k, AtBase(m[k]).current)]
  }

  /** Resetting one more key extends ResetEvents by that key's broadcast. */
  lemma ResetEventsStep(m: map<string, Stat>, ks: seq<string>, i: nat)
    requires forall k :: k in ks ==> k in m
    requires i < |ks|
    ensures ResetEvents(m, ks[..i + 1]) == ResetEvents(m, ks[..i]) + [StatChanged(ks[i], AtBase(m[ks[i]]).current)]
  {
    assert ks[..i + 1][..i] == ks[..i];
  }

  /** The ResetEvents counterpart of TickEventsExtend. */
  lemma ResetEventsExtend(log: seq<StatChanged>, logged: seq<StatChanged>, m: map<string, Stat>, ks: seq<string>, i: nat)
    requires forall k :: k in ks ==> k in m
    requires i < |ks|
    requires logged == log + ResetEvents(m, ks[..i])
    ensures logged + [StatChanged(ks[i], AtBase(m[ks[i]]).current)] == log + ResetEvents(m, ks[..i + 1])
  {
    ResetEventsStep(m, ks, i);
  }

  /** The per-stat update each bulk loop applies. */
  datatype BulkUpdate = TickAll | ResetAll | FreezeAll(newFreeze: bool)

  function ApplyBulk(u: BulkUpdate, s: Stat): Stat
  {
    match u
    case TickAll => TickUpdate(s)
    case ResetAll => AtBase(s)
    case FreezeAll(b) => SetFreeze(s, b)
  }

  /** Part way through a bulk loop: the keys in `done` are updated, the others
      are as they were at the start. */
  ghost predicate UpdatedUpTo(now: map<string, Stat>, start: map<string, Stat>, done: seq<string>, u: BulkUpdate)
  {
    && now.Keys == start.Keys
    && forall k :: k in start ==> now[k] == if k in done then ApplyBulk(u, start[k]) else start[k]
  }

  /** One more iteration of a bulk loop, over duplicate-free keys. */
  lemma UpdatedUpToStep(now: map<string, Stat>, start: map<string, Stat>, names: seq<string>, i: nat, u: BulkUpdate)
    requires i < |names| && names[i] in start
    requires forall a, b :: 0 <= a < b < |names| ==> names[a] != names[b]
    requires UpdatedUpTo(now, start, names[..i], u)
    ensures names[i] !in names[..i] && now[names[i]] == start[names[i]]
    ensures UpdatedUpTo(now[names[i] := ApplyBulk(u, start[names[i]])], start, names[..i + 1], u)
  {
    assert names[..i + 1] == names[..i] + [names[i]];
  }

  /** At the end of a bulk loop over every key, every stat is updated. */
  lemma UpdatedUpToAll(now: map<string, Stat>, start: map<string, Stat>, names: seq<string>, u: BulkUpdate)
    requires UpdatedUpTo(now, start, names, u)
    requires forall k :: k in start ==> k in names
    ensures now.Keys == start.Keys
    ensures forall k :: k in start ==> now[k] == ApplyBulk(u, start[k])
  {
  }

  /** The component. `events` stands for the OnStatChanged broadcasts made so
      far, `initCount` for the calls of the Init hook, and `dataTable` for the
      stats data table, when one is set. */
  class StatsComponent {
    var stats: StatMap
    var events: seq<StatChanged>
    var initCount: nat
    var dataTable: Option<seq<Row>>

    ghost predicate Valid()
      reads this
    {
      stats.Valid()
    }

    /** A component with no stats, no broadcasts yet and the given table. */
    constructor (table: Option<seq<Row>>)
      ensures Valid()
      ensures stats == StatMap(map[], []) && events == [] && initCount == 0
      ensures dataTable == table
    {
      stats := StatMap(map[], []);
      events := [];
      initCount := 0;
      dataTable := table;
    }

    /** With a table, adds every row (its current value set to its base value),
        overwriting entries of the same name, then fires Init. Without a table,
        does nothing at all. */
    method InitStats()
      requires Valid()
      modifies this`stats, this`initCount
      ensures Valid()
      ensures dataTable.None? ==> stats == old(stats) && initCount == old(initCount)
      ensures dataTable.Some? ==> stats == AddRows(old(stats), dataTable.value)
      ensures dataTable.Some? ==> initCount == old(initCount) + 1
    {
      if dataTable.Some? {
        var rows := dataTable.value;
        ghost var start := stats;
        var i := 0;
        while i < |rows|
          invariant 0 <= i <= |rows|
          invariant stats == AddRows(start, rows[..i]) && initCount == old(initCount)
        {
          var data := new StatData.Copy(rows[i].data);
          var _ := data.SetCurrentValue(data.GetBaseValue());
          assert data.Value() == AtBase(rows[i].data);
          AddRowsStep(start, rows, i);
          stats := stats.Add(rows[i].name, data.Value());
          i := i + 1;
        }
        assert rows[..|rows|] == rows;
        initCount := initCount + 1;
      }
    }

    /** A non-empty map replaces the whole registry; an empty one leaves it as
        it is. Init fires in both cases. */
    method InitStatsFromMap(newStats: StatMap)
      requires Valid() && newStats.Valid()
      modifies this`stats, this`initCount
      ensures Valid()
      ensures stats == if |newStats.entries| > 0 then newStats else old(stats)
      ensures initCount == old(initCount) + 1
    {
      if |newStats.entries| > 0 {
        stats := newStats;
      }
      initCount := initCount + 1;
    }

    /** The stat stored under `name`, or None where the lookup finds nothing. */
    function GetStat(name: string): (r: Option<Stat>)
      reads this
      ensures r.Some? <==> name in stats.entries
      ensures r.Some? ==> r.value == stats.entries[name]
    {
      stats.Find(name)
    }

    /** Ticks every stat once, over the keys as they were before the loop, and
        broadcasts a stat's tick result whenever it differs from the value the
        stat had before the tick. */
    method StatTick()
      requires Valid()
      modifies this`stats, this`events
      ensures Valid()
      ensures stats.order == old(stats.order) && stats.entries.Keys == old(stats.entries.Keys)
      ensures forall k :: k in old(stats.entries) ==> stats.entries[k] == TickUpdate(old(stats.entries)[k])
      ensures events == old(events) + TickEvents(old(stats.entries), old(stats.order))
    {
      var names := stats.order;
      ghost var start, log := stats.entries, events;
      var i := 0;
      while i < |names|
        invariant 0 <= i <= |names|
        invariant Valid() && stats.order == names
        invariant UpdatedUpTo(stats.entries, start, names[..i], TickAll)
        invariant events == log + TickEvents(start, names[..i])
      {
        var name := names[i];
        UpdatedUpToStep(stats.entries, start, names, i, TickAll);
        TickEventsExtend(log, events, start, names, i);
        TickStat(name);
        i := i + 1;
      }
      assert names[..|names|] == names;
      UpdatedUpToAll(stats.entries, start, names, TickAll);
    }

    /** One iteration of StatTick: reads the value, ticks the stat and
        broadcasts the result if it differs from the value read. */
    method TickStat(name: string)
      requires Valid() && name in stats.entries
      modifies this`stats, this`events
      ensures Valid()
      ensures stats == old(stats).Replace(name, TickUpdate(old(stats.entries[name])))
      ensures events == old(events) + TickBroadcast(name, old(stats.entries[name]))
    {
      var before := GetStatCurrentValue(name);
      var stat := new StatData.Copy(stats.entries[name]);
      var after := stat.StatTickUpdate();
      stats := stats.Replace(name, stat.Value());
      if before != after {
        events := events + [StatChanged(name, after)];
      }
    }

    /** The current value, or 0 for a missing name. */
    function GetStatCurrentValue(name: string): (r: real)
      reads this
      ensures name in stats.entries ==> r == stats.entries[name].current
      ensures name !in stats.entries ==> r == 0.0
    {
      match GetStat(name)
      case Some(s) => s.current
      case None => 0.0
    }

    /** Sets the current value through the clamped setter and broadcasts the
        resulting value, whether or not it changed; 0 for a missing name. */
    method SetStatCurrentValue(name: string, v: real) returns (r: real)
      requires Valid()
      modifies this`stats, this`events
      ensures Valid()
      ensures name in old(stats.entries) ==>
                && stats == old(stats).Replace(name, SetCurrent(old(stats.entries[name]), v))
                && r == stats.entries[name].current
                && events == old(events) + [StatChanged(name, r)]
      ensures name !in old(stats.entries) ==> stats == old(stats) && events == old(events) && r == 0.0
    {
      var found := GetStat(name);
      if found.Some? {
        var stat := new StatData.Copy(found.value);
        r := stat.SetCurrentValue(v);
        stats := stats.Replace(name, stat.Value());
        events := events + [StatChanged(name, r)];
      } else {
        r := 0.0;
      }
    }

    /** Sets the current value to itself plus `d`, with one broadcast; 0 for a
        missing name. */
    method AddStatCurrentValue(name: string, d: real) returns (r: real)
      requires Valid()
      modifies this`stats, this`events
      ensures Valid()
      ensures name in old(stats.entries) ==>
                && stats == old(stats).Replace(name, SetCurrent(old(stats.entries[name]), old(stats.entries[name].current) + d))
                && r == stats.entries[name].current
                && events == old(events) + [StatChanged(name, r)]
      ensures name !in old(stats.entries) ==> stats == old(stats) && events == old(events) && r == 0.0
    {
      if GetStat(name).Some? {
        r := SetStatCurrentValue(name, GetStatCurrentValue(name) + d);
      } else {
        r := 0.0;
      }
    }

    /** The base value, or 0 for a missing name. */
    function GetStatBaseValue(name: string): (r: real)
      reads this
      ensures name in stats.entries ==> r == stats.entries[name].base
      ensures name !in stats.entries ==> r == 0.0
    {
      match GetStat(name)
      case Some(s) => s.base
      case None => 0.0
    }

    /** Sets the (clamped) base value; no broadcast; 0 for a missing name. */
    method SetStatBaseValue(name: string, v: real) returns (r: real)
      requires Valid()
      modifies this`stats
      ensures Valid()
      ensures name in old(stats.entries) ==>
                && stats == old(stats).Replace(name, SetBase(old(stats.entries[name]), v))
                && r == stats.entries[name].base
      ensures name !in old(stats.entries) ==> stats == old(stats) && r == 0.0
    {
      var found := GetStat(name);
      if found.Some? {
        var stat := new StatData.Copy(found.value);
        r := stat.SetBaseValue(v);
        stats := stats.Replace(name, stat.Value());
      } else {
        r := 0.0;
      }
    }

    /** The drift per tick, or 0 for a missing name. */
    function GetStatChangePerTickValue(name: string): (r: real)
      reads this
      ensures name in stats.entries ==> r == stats.entries[name].changePerTick
      ensures name !in stats.entries ==> r == 0.0
    {
      match GetStat(name)
      case Some(s) => s.changePerTick
      case None => 0.0
    }

    /** Whether the named stat drifts; false for a missing name. */
    predicate IsStatChangingPerTick(name: string)
      reads this
      ensures IsStatChangingPerTick(name) <==> name in stats.entries && Drifts(stats.entries[name])
    {
      match GetStat(name)
      case Some(s) => Drifts(s)
      case None => false
    }

    /** Sets the drift; no broadcast; 0 for a missing name. */
    method SetStatChangePerTickValue(name: string, v: real) returns (r: real)
      requires Valid()
      modifies this`stats
      ensures Valid()
      ensures name in old(stats.entries) ==>
                && stats == old(stats).Replace(name, SetChangePerTick(old(stats.entries[name]), v))
                && r == v
      ensures name !in old(stats.entries) ==> stats == old(stats) && r == 0.0
    {
      var found := GetStat(name);
      if found.Some? {
        var stat := new StatData.Copy(found.value);
        r := stat.SetChangePerTickValue(v);
        stats := stats.Replace(name, stat.Value());
      } else {
        r := 0.0;
      }
    }

    /** The lower bound, or 0 for a missing name. */
    function GetStatMinValue(name: string): (r: real)
      reads this
      ensures name in stats.entries ==> r == stats.entries[name].min
      ensures name !in stats.entries ==> r == 0.0
    {
      match GetStat(name)
      case Some(s) => s.min
      case None => 0.0
    }

    /** Sets the lower bound, which may move the current value, without a
        broadcast; 0 for a missing name. */
    method SetStatMinValue(name: string, v: real) returns (r: real)
      requires Valid()
      modifies this`stats
      ensures Valid()
      ensures name in old(stats.entries) ==>
                && stats == old(stats).Replace(name, SetMin(old(stats.entries[name]), v))
                && r == v
      ensures name !in old(stats.entries) ==> stats == old(stats) && r == 0.0
    {
      var found := GetStat(name);
      if found.Some? {
        var stat := new StatData.Copy(found.value);
        r := stat.SetMinValue(v);
        stats := stats.Replace(name, stat.Value());
      } else {
        r := 0.0;
      }
    }

    /** The upper bound, or 0 for a missing name. */
    function GetStatMaxValue(name: string): (r: real)
      reads this
      ensures name in stats.entries ==> r == stats.entries[name].max
      ensures name !in stats.entries ==> r == 0.0
    {
      match GetStat(name)
      case Some(s) => s.max
      case None => 0.0
    }

    /** Sets the upper bound, which may move the current value, without a
        broadcast; 0 for a missing name. */
    method SetStatMaxValue(name: string, v: real) returns (r: real)
      requires Valid()
      modifies this`stats
      ensures Valid()
      ensures name in old(stats.entries) ==>
                && stats == old(stats).Replace(name, SetMax(old(stats.entries[name]), v))
                && r == v
      ensures name !in old(stats.entries) ==> stats == old(stats) && r == 0.0
    {
      var found := GetStat(name);
      if found.Some? {
        var stat := new StatData.Copy(found.value);
        r := stat.SetMaxValue(v);
        stats := stats.Replace(name, stat.Value());
      } else {
        r := 0.0;
      }
    }

    /** Sets the current value to the base value through the broadcasting
        setter: exactly one broadcast; 0 for a missing name. */
    method ResetStat(name: string) returns (r: real)
      requires Valid()
      modifies this`stats, this`events
      ensures Valid()
      ensures name in old(stats.entries) ==>
                && stats == old(stats).Replace(name, AtBase(old(stats.entries[name])))
                && r == stats.entries[name].current
                && events == old(events) + [StatChanged(name, r)]
      ensures name !in old(stats.entries) ==> stats == old(stats) && events == old(events) && r == 0.0
    {
      if GetStat(name).Some? {
        r := SetStatCurrentValue(name, GetStatBaseValue(name));
      } else {
        r := 0.0;
      }
    }

    /** Resets every stat, over the keys as they were before the loop: one
        broadcast per stat, in key order. */
    method ResetAllStats()
      requires Valid()
      modifies this`stats, this`events
      ensures Valid()
      ensures stats.order == old(stats.order) && stats.entries.Keys == old(stats.entries.Keys)
      ensures forall k :: k in old(stats.entries) ==> stats.entries[k] == AtBase(old(stats.entries)[k])
      ensures events == old(events) + ResetEvents(old(stats.entries), old(stats.order))
    {
      var names := stats.order;
      ghost var start, log := stats.entries, events;
      var i := 0;
      while i < |names|
        invariant 0 <= i <= |names|
        invariant Valid() && stats.order == names
        invariant UpdatedUpTo(stats.entries, start, names[..i], ResetAll)
        invariant events == log + ResetEvents(start, names[..i])
      {
        var name := names[i];
        UpdatedUpToStep(stats.entries, start, names, i, ResetAll);
        ResetEventsExtend(log, events, start, names, i);
        var _ := ResetStat(name);
        i := i + 1;
      }
      assert names[..|names|] == names;
      UpdatedUpToAll(stats.entries, start, names, ResetAll);
    }

    /** Sets the named stat's freeze flag; no broadcast; nothing for a missing
        name. */
    method FreezeStat(name: string, newFreeze: bool)
      requires Valid()
      modifies this`stats
      ensures Valid()
      ensures name in old(stats.entries) ==>
                stats == old(stats).Replace(name, SetFreeze(old(stats.entries[name]), newFreeze))
      ensures name !in old(stats.entries) ==> stats == old(stats)
    {
      var found := GetStat(name);
      if found.Some? {
        var stat := new StatData.Copy(found.value);
        stat.SetFreezeStat(newFreeze);
        stats := stats.Replace(name, stat.Value());
      }
    }

    /** Sets every stat's freeze flag; no values change and nothing is
        broadcast. */
    method FreezeAllStats(newFreeze: bool)
      requires Valid()
      modifies this`stats
      ensures Valid()
      ensures stats.order == old(stats.order) && stats.entries.Keys == old(stats.entries.Keys)
      ensures forall k :: k in old(stats.entries) ==> stats.entries[k] == SetFreeze(old(stats.entries)[k], newFreeze)
    {
      var names := stats.order;
      ghost var start := stats.entries;
      var i := 0;
      while i < |names|
        invariant 0 <= i <= |names|
        invariant Valid()
        invariant stats.order == names
        invariant UpdatedUpTo(stats.entries, start, names[..i], FreezeAll(newFreeze))
      {
        var name := names[i];
        UpdatedUpToStep(stats.entries, start, names, i, FreezeAll(newFreeze));
        FreezeStat(name, newFreeze);
        i := i + 1;
      }
      assert names[..|names|] == names;
      UpdatedUpToAll(stats.entries, start, names, FreezeAll(newFreeze));
    }
  }
}
