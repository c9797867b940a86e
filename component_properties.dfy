/** Properties of the stats component's bulk operations: which stats a tick
    broadcasts, how many broadcasts a reset makes, and what seeding stores. */
module ComponentProperties {
  import opened Stats
  import opened Component

  /** A broadcast is made by StatTick exactly for a ticked key whose value
      before the tick differs from what StatTickUpdate returned, and it carries
      that returned value. */
  lemma {:induction false} TickEventsMembership(m: map<string, Stat>, ks: seq<string>, e: StatChanged)
    requires forall k :: k in ks ==> k in m
    ensures e in TickEvents(m, ks) <==>
              && e.name in ks
              && m[e.name].current != TickReturn(m[e.name])
              && e.value == TickReturn(m[e.name])
    decreases |ks|
  {
    if ks != [] {
      var p, k := ks[..|ks| - 1], ks[|ks| - 1];
      assert ks == p + [k];
      TickEventsMembership(m, p, e);
    }
  }

  /** A stat without drift is broadcast with the value 0 on every tick unless
      its value is already 0, because StatTickUpdate then returns 0 and StatTick
      compares the old value with that return. */
  lemma IdleStatBroadcastsZero(m: map<string, Stat>, ks: seq<string>, k: string)
    requires forall k :: k in ks ==> k in m
    requires k in ks && !Drifts(m[k]) && m[k].current != 0.0
    ensures StatChanged(k, 0.0) in TickEvents(m, ks)
  {
    TickEventsMembership(m, ks, StatChanged(k, 0.0));
  }

  /** A frozen stat that drifts is never broadcast by a tick. */
  lemma FrozenDriftingStatIsSilent(m: map<string, Stat>, ks: seq<string>, k: string, v: real)
    requires forall k :: k in ks ==> k in m
    requires k in m && m[k].freeze && Drifts(m[k])
    ensures StatChanged(k, v) !in TickEvents(m, ks)
  {
    TickEventsMembership(m, ks, StatChanged(k, v));
  }

  /** An unfrozen stat that drifts towards the bound it already sits on is
      never broadcast by a tick. */
  lemma PinnedStatIsSilent(m: map<string, Stat>, ks: seq<string>, k: string, v: real)
    requires forall k :: k in ks ==> k in m
    requires k in m && !m[k].freeze && m[k].min <= m[k].max
    requires (m[k].changePerTick > 0.0 && m[k].current == m[k].max)
          || (m[k].changePerTick < 0.0 && m[k].current == m[k].min)
    ensures StatChanged(k, v) !in TickEvents(m, ks)
  {
    TickEventsMembership(m, ks, StatChanged(k, v));
  }

  /** A tick makes no more broadcasts than there are keys. */
  lemma {:induction false} TickEventsAtMostOnePerKey(m: map<string, Stat>, ks: seq<string>)
    requires forall k :: k in ks ==> k in m
    ensures |TickEvents(m, ks)| <= |ks|
    decreases |ks|
  {
    if ks != [] {
      TickEventsAtMostOnePerKey(m, ks[..|ks| - 1]);
    }
  }

  /** Over duplicate-free keys, as a map's key array is, no key is broadcast
      twice by one tick. */
  lemma {:induction false} TickEventsNamesDistinct(m: map<string, Stat>, ks: seq<string>)
    requires forall k :: k in ks ==> k in m
    requires forall i, j :: 0 <= i < j < |ks| ==> ks[i] != ks[j]
    ensures forall i, j :: 0 <= i < j < |TickEvents(m, ks)| ==>
              TickEvents(m, ks)[i].name != TickEvents(m, ks)[j].name
    decreases |ks|
  {
    if ks != [] {
      var p, k := ks[..|ks| - 1], ks[|ks| - 1];
      TickEventsNamesDistinct(m, p);
      var before := TickEvents(m, p);
      forall e | e in before
        ensures e.name != k
      {
        TickEventsMembership(m, p, e);
      }
      var all := TickEvents(m, ks);
      assert all == before + TickBroadcast(k, m[k]);
      forall i, j | 0 <= i < j < |all|
        ensures all[i].name != all[j].name
      {
        if j >= |before| {
          assert all[j].name == k && all[i] == before[i];
        }
      }
    }
  }

  /** Resetting all stats broadcasts exactly once per key, in key order, each
      time with the value the stat was reset to. */
  lemma {:induction false} ResetEventsOnePerStat(m: map<string, Stat>, ks: seq<string>)
    requires forall k :: k in ks ==> k in m
    ensures |ResetEvents(m, ks)| == |ks|
    ensures forall i :: 0 <= i < |ks| ==>
              ResetEvents(m, ks)[i] == StatChanged(ks[i], AtBase(m[ks[i]]).current)
    decreases |ks|
  {
    if ks != [] {
      var p := ks[..|ks| - 1];
      ResetEventsOnePerStat(m, p);
      forall i | 0 <= i < |ks|
        ensures ResetEvents(m, ks)[i] == StatChanged(ks[i], AtBase(m[ks[i]]).current)
      {
        if i < |p| {
          assert ks[i] == p[i];
        }
      }
    }
  }

  /** Resetting an unfrozen stat leaves its value at the base value clamped
      into the bounds, which is the base value itself when that is within the
      bounds; a frozen stat keeps its value. */
  lemma AtBaseIsClampedBase(s: Stat)
    ensures !s.freeze ==> AtBase(s).current == Clamp(s.base, s.min, s.max)
    ensures !s.freeze && s.min <= s.base <= s.max ==> AtBase(s).current == s.base
    ensures s.freeze ==> AtBase(s) == s
  {
  }

  /** Seeding from rows with distinct names stores every row's stat reset to
      its base value. */
  lemma {:induction false} AddRowsStoresRows(sm: StatMap, rows: seq<Row>)
    requires forall i, j :: 0 <= i < j < |rows| ==> rows[i].name != rows[j].name
    ensures forall i :: 0 <= i < |rows| ==>
              && rows[i].name in AddRows(sm, rows).entries
              && AddRows(sm, rows).entries[rows[i].name] == AtBase(rows[i].data)
    decreases |rows|
  {
    if rows != [] {
      var p, last := rows[..|rows| - 1], rows[|rows| - 1];
      AddRowsStoresRows(sm, p);
      var after := AddRows(sm, rows);
      assert after == AddRows(sm, p).Add(last.name, AtBase(last.data));
      forall i | 0 <= i < |p|
        ensures rows[i].name in after.entries && after.entries[rows[i].name] == AtBase(rows[i].data)
      {
        assert rows[i] == p[i] && p[i].name != last.name;
      }
    }
  }

  /** Seeding keeps every entry that no row names. */
  lemma {:induction false} AddRowsKeepsOthers(sm: StatMap, rows: seq<Row>, k: string)
    requires k in sm.entries && forall i :: 0 <= i < |rows| ==> rows[i].name != k
    ensures k in AddRows(sm, rows).entries && AddRows(sm, rows).entries[k] == sm.entries[k]
    decreases |rows|
  {
    if rows != [] {
      AddRowsKeepsOthers(sm, rows[..|rows| - 1], k);
    }
  }

  /** Seeding adds no name that is neither already present nor named by a row. */
  lemma {:induction false} AddRowsAddsOnlyRows(sm: StatMap, rows: seq<Row>, k: string)
    requires k in AddRows(sm, rows).entries
    ensures k in sm.entries || exists i :: 0 <= i < |rows| && rows[i].name == k
    decreases |rows|
  {
    if rows != [] {
      var p, last := rows[..|rows| - 1], rows[|rows| - 1];
      if k != last.name {
        AddRowsAddsOnlyRows(sm, p, k);
        if k !in sm.entries {
          var i :| 0 <= i < |p| && p[i].name == k;
          assert rows[i].name == k;
        }
      } else {
        assert rows[|rows| - 1].name == k;
      }
    }
  }

  /** A row that was frozen in the table keeps the table's current value when
      seeded instead of starting at its base value. */
  lemma FrozenRowKeepsTableValue()
    ensures var sm := AddRows(StatMap(map[], []), [Row("hp", Stat(100.0, 0.0, 100.0, 7.0, 0.0, true))]);
            sm.entries["hp"].current == 7.0
  {
  }

  /** Seeding an empty registry with hp (base 100 in [0, 100], no drift) and
      mana (base 50 in [0, 50], drift 5) stores both at their base values, in
      row order. */
  lemma SeedScenario()
    ensures var sm := AddRows(StatMap(map[], []),
                              [Row("hp", Stat(100.0, 0.0, 100.0, 0.0, 0.0, false)),
                               Row("mana", Stat(50.0, 0.0, 50.0, 0.0, 5.0, false))]);
            && sm.order == ["hp", "mana"]
            && sm.entries["hp"] == Stat(100.0, 0.0, 100.0, 100.0, 0.0, false)
            && sm.entries["mana"] == Stat(50.0, 0.0, 50.0, 50.0, 5.0, false)
  {
    var hpRow := Row("hp", Stat(100.0, 0.0, 100.0, 0.0, 0.0, false));
    var manaRow := Row("mana", Stat(50.0, 0.0, 50.0, 0.0, 5.0, false));
    var rows := [hpRow, manaRow];
    var empty := StatMap(map[], []);
    assert AtBase(hpRow.data) == Stat(100.0, 0.0, 100.0, 100.0, 0.0, false);
    assert AtBase(manaRow.data) == Stat(50.0, 0.0, 50.0, 50.0, 5.0, false);
    assert rows[..0] == [] && rows[..2] == rows;
    AddRowsStep(empty, rows, 0);
    var sm1 := AddRows(empty, rows[..1]);
    assert sm1.order == ["hp"] && sm1.entries.Keys == {"hp"};
    AddRowsStep(empty, rows, 1);
  }

  /** Ticking the registry SeedScenario builds broadcasts ("hp", 0) and
      nothing for mana, which is clamped back to 50. */
  lemma TickScenario()
    ensures var hp := Stat(100.0, 0.0, 100.0, 100.0, 0.0, false);
            var mana := Stat(50.0, 0.0, 50.0, 50.0, 5.0, false);
            && TickEvents(map["hp" := hp, "mana" := mana], ["hp", "mana"]) == [StatChanged("hp", 0.0)]
            && TickUpdate(mana).current == 50.0
  {
    var hp := Stat(100.0, 0.0, 100.0, 100.0, 0.0, false);
    var mana := Stat(50.0, 0.0, 50.0, 50.0, 5.0, false);
    var m, ks := map["hp" := hp, "mana" := mana], ["hp", "mana"];
    assert ks[..0] == [] && ks[..2] == ks;
    TickEventsStep(m, ks, 0);
    TickEventsStep(m, ks, 1);
    assert TickBroadcast("hp", hp) == [StatChanged("hp", 0.0)];
    assert TickBroadcast("mana", mana) == [];
  }
}
