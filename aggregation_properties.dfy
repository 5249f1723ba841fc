/** What the aggregation pass guarantees, one row at a time and over a
  * whole sequence of rows. */
module AggregationProperties {
  import opened Presence
  import opened Aggregation

  // ---------------------------------------------------------------------
  // Reference definitions over a row sequence

  /** The non-empty state names that occur in the rows. */
  ghost function StatesOf(rows: seq<Row>): set<string>
  {
    set i | 0 <= i < |rows| && rows[i].state != "" :: rows[i].state
  }

  /** The city entries of the rows for state `s` that have a city, in row order. */
  function CityEntriesFor(rows: seq<Row>, s: string): seq<CityEntry>
  {
    if rows == [] then []
    else
      var last := rows[|rows| - 1];
      CityEntriesFor(rows[..|rows| - 1], s) + (if last.state == s && last.city != "" then [EntryOf(last)] else [])
  }

  /** The highest level among the rows for state `s` (0 when there are none). */
  function MaxLevel(rows: seq<Row>, s: string): (r: nat)
    ensures r <= 3
  {
    if rows == [] then 0
    else
      var last := rows[|rows| - 1];
      var m := MaxLevel(rows[..|rows| - 1], s);
      if last.state == s && Level(last.presence) > m then Level(last.presence) else m
  }

  /** A row presence the priority order knows about; empty counts as "none". */
  predicate Recognised(presence: string)
  {
    presence == "" || Known(presence)
  }

  // ---------------------------------------------------------------------
  // The upgrade rule

  /** Against a recognised stored presence the three disjuncts amount to
    * "strictly higher in the order none < importer < distributor < direct". */
  lemma UpgradeIsStrictIncrease(incoming: string, current: string)
    requires Known(current)
    ensures Upgrades(incoming, current) <==> Level(incoming) > Level(current)
  {
  }

  /** Against an unrecognised stored presence only "direct" upgrades. */
  lemma UpgradeOverUnrecognised(incoming: string, current: string)
    requires !Known(current)
    ensures Upgrades(incoming, current) <==> incoming == "direct"
  {
  }

  // ---------------------------------------------------------------------
  // One row

  /** A row with an empty state changes nothing. */
  lemma StepSkipsStateless(t: Table, row: Row)
    requires row.state == ""
    ensures Step(t, row) == t
  {
  }

  /** A row touches only its own state's entry, and adds at most that key. */
  lemma StepFrame(t: Table, row: Row, s: string)
    requires s != row.state
    ensures s in Step(t, row) <==> s in t
    ensures s in t ==> Step(t, row)[s] == t[s]
    ensures Step(t, row).Keys == if row.state == "" then t.Keys else t.Keys + {row.state}
  {
  }

  /** The first row of a state creates its record with the defaulted
    * presence and contact, and its own city entry if it has a city; it
    * never upgrades its own record. */
  lemma StepCreates(t: Table, row: Row)
    requires row.state != "" && row.state !in t
    ensures row.state in Step(t, row)
    ensures Step(t, row)[row.state] ==
      StateInfo(OrElse(row.presence, "none"), OrElse(row.contact, ""),
                if row.city != "" then [EntryOf(row)] else [])
  {
  }

  /** A later row keeps the record: it appends its city entry whether or not
    * it upgrades, and overwrites presence and contact together, only when
    * the upgrade test passes. */
  lemma StepUpdatesExisting(t: Table, row: Row)
    requires row.state != "" && row.state in t
    ensures row.state in Step(t, row)
    ensures Step(t, row)[row.state].cities ==
      t[row.state].cities + (if row.city != "" then [EntryOf(row)] else [])
    ensures var before, after := t[row.state], Step(t, row)[row.state];
      if Upgrades(row.presence, before.presence)
      then after.presence == row.presence && after.contact == row.contact
      else after.presence == before.presence && after.contact == before.contact
  {
  }

  /** A state's level never goes down, whatever it held before. */
  lemma StepLevelNeverDecreases(t: Table, row: Row, s: string)
    requires s in t
    ensures s in Step(t, row)
    ensures Level(Step(t, row)[s].presence) >= Level(t[s].presence)
  {
    if s == row.state && s != "" {
      StepUpdatesExisting(t, row);
      if Known(t[s].presence) {
        UpgradeIsStrictIncrease(row.presence, t[s].presence);
      } else {
        UpgradeOverUnrecognised(row.presence, t[s].presence);
      }
    }
  }

  /** The stored presence is never empty. */
  lemma {:induction false} StoredPresenceNonEmpty(rows: seq<Row>, s: string)
    requires s in Aggregate(rows)
    ensures Aggregate(rows)[s].presence != ""
  {
    if rows != [] {
      var init := rows[..|rows| - 1];
      if s in Aggregate(init) {
        StoredPresenceNonEmpty(init, s);
      }
    }
  }

  // ---------------------------------------------------------------------
  // A whole sequence of rows

  /** The keys are exactly the non-empty states of the rows: the empty
    * state is never a key. */
  lemma {:induction false} AggregateKeys(rows: seq<Row>)
    ensures Aggregate(rows).Keys == StatesOf(rows)
    ensures "" !in Aggregate(rows)
  {
    if rows != [] {
      var init, last := rows[..|rows| - 1], rows[|rows| - 1];
      AggregateKeys(init);
      assert StatesOf(rows) == StatesOf(init) + (if last.state != "" then {last.state} else {}) by {
        forall x | x in StatesOf(rows)
          ensures x in StatesOf(init) + (if last.state != "" then {last.state} else {})
        {
          var i :| 0 <= i < |rows| && rows[i].state != "" && rows[i].state == x;
          if i < |rows| - 1 { assert init[i] == rows[i]; }
        }
        forall x | x in StatesOf(init) ensures x in StatesOf(rows) {
          var i :| 0 <= i < |init| && init[i].state != "" && init[i].state == x;
          assert rows[i] == init[i];
        }
        if last.state != "" {
          assert rows[|rows| - 1] == last;
        }
      }
      if last.state != "" {
        StepFrame(Aggregate(init), last, "");
      }
    }
  }

  /** Each state's city list is, in order, one entry per city-bearing row of
    * that state; a state with no record has no such rows. */
  lemma {:induction false} AggregateCities(rows: seq<Row>, s: string)
    requires s != ""
    ensures s in Aggregate(rows) ==> Aggregate(rows)[s].cities == CityEntriesFor(rows, s)
    ensures s !in Aggregate(rows) ==> CityEntriesFor(rows, s) == []
  {
    if rows != [] {
      var init, last := rows[..|rows| - 1], rows[|rows| - 1];
      AggregateCities(init, s);
      if last.state != s {
        StepFrame(Aggregate(init), last, s);
      } else if s in Aggregate(init) {
        StepUpdatesExisting(Aggregate(init), last);
      } else {
        StepCreates(Aggregate(init), last);
      }
    }
  }

  /** Once a state has a record it keeps it: later rows only extend its city
    * list and never lower its level. */
  lemma {:induction false} AggregatePrefix(rows: seq<Row>, k: nat, s: string)
    requires k <= |rows|
    requires s in Aggregate(rows[..k])
    ensures s in Aggregate(rows)
    ensures Aggregate(rows[..k])[s].cities <= Aggregate(rows)[s].cities
    ensures Level(Aggregate(rows[..k])[s].presence) <= Level(Aggregate(rows)[s].presence)
    decreases |rows|
  {
    if k == |rows| {
      assert rows[..k] == rows;
    } else {
      var init, last := rows[..|rows| - 1], rows[|rows| - 1];
      assert init[..k] == rows[..k];
      AggregatePrefix(init, k, s);
      StepLevelNeverDecreases(Aggregate(init), last, s);
      if last.state == "" {
        StepSkipsStateless(Aggregate(init), last);
      } else if s == last.state {
        StepUpdatesExisting(Aggregate(init), last);
      } else {
        StepFrame(Aggregate(init), last, s);
      }
    }
  }

  /** MaxLevel bounds the level of every row of its state. */
  lemma {:induction false} MaxLevelBounds(rows: seq<Row>, s: string, i: nat)
    requires i < |rows| && rows[i].state == s
    ensures Level(rows[i].presence) <= MaxLevel(rows, s)
  {
    if i < |rows| - 1 {
      var init := rows[..|rows| - 1];
      assert init[i] == rows[i];
      MaxLevelBounds(init, s, i);
    }
  }

  /** With no rows for `s`, MaxLevel is 0. */
  lemma {:induction false} MaxLevelAbsent(rows: seq<Row>, s: string)
    requires forall i :: 0 <= i < |rows| ==> rows[i].state != s
    ensures MaxLevel(rows, s) == 0
  {
    if rows != [] {
      var init := rows[..|rows| - 1];
      assert forall i :: 0 <= i < |init| ==> init[i] == rows[i];
      MaxLevelAbsent(init, s);
    }
  }

  /** Row `i` is the earliest row of state `s` that reaches MaxLevel. */
  ghost predicate EarliestAtMax(rows: seq<Row>, s: string, i: int)
  {
    && 0 <= i < |rows|
    && rows[i].state == s
    && Level(rows[i].presence) == MaxLevel(rows, s)
    && (forall j :: 0 <= j < i && rows[j].state == s ==> Level(rows[j].presence) < MaxLevel(rows, s))
  }

  /** Every row of state `s` carries a recognised or empty presence. */
  ghost predicate AllRecognised(rows: seq<Row>, s: string)
  {
    forall i :: 0 <= i < |rows| && rows[i].state == s ==> Recognised(rows[i].presence)
  }

  /** The outcome the priority rule promises for state `s`. */
  ghost predicate HighestWins(rows: seq<Row>, s: string)
    requires s in Aggregate(rows)
  {
    && Aggregate(rows)[s].presence == LevelName(MaxLevel(rows, s))
    && exists i :: EarliestAtMax(rows, s, i) && Aggregate(rows)[s].contact == rows[i].contact
  }

  /** A last row that does not raise MaxLevel keeps the earliest row at the maximum. */
  lemma EarliestKept(rows: seq<Row>, s: string, i: int)
    requires rows != [] && EarliestAtMax(rows[..|rows| - 1], s, i)
    requires MaxLevel(rows, s) == MaxLevel(rows[..|rows| - 1], s)
    ensures EarliestAtMax(rows, s, i)
  {
    var init := rows[..|rows| - 1];
    assert rows[i] == init[i];
    forall j | 0 <= j < i && rows[j].state == s
      ensures Level(rows[j].presence) < MaxLevel(rows, s)
    {
      assert rows[j] == init[j];
    }
  }

  /** Inductive step of AggregateMaxPresence: the last row is for another state. */
  lemma OtherStateKeepsHighest(rows: seq<Row>, s: string)
    requires rows != [] && rows[|rows| - 1].state != s
    requires s in Aggregate(rows[..|rows| - 1]) && HighestWins(rows[..|rows| - 1], s)
    ensures s in Aggregate(rows) && HighestWins(rows, s)
  {
    var init, last := rows[..|rows| - 1], rows[|rows| - 1];
    StepFrame(Aggregate(init), last, s);
    var i :| EarliestAtMax(init, s, i) && Aggregate(init)[s].contact == init[i].contact;
    EarliestKept(rows, s, i);
  }

  /** The first row of a state fixes that state's MaxLevel so far. */
  lemma FirstRowMaxLevel(rows: seq<Row>, s: string)
    requires rows != [] && rows[|rows| - 1].state == s
    requires forall i :: 0 <= i < |rows| - 1 ==> rows[i].state != s
    ensures MaxLevel(rows, s) == Level(rows[|rows| - 1].presence)
  {
    var init := rows[..|rows| - 1];
    assert forall j :: 0 <= j < |init| ==> init[j].state != s;
    MaxLevelAbsent(init, s);
  }

  /** Inductive step of AggregateMaxPresence: the last row is the first of its state. */
  lemma FirstRowSetsHighest(rows: seq<Row>, s: string)
    requires rows != [] && rows[|rows| - 1].state == s && s != ""
    requires Recognised(rows[|rows| - 1].presence)
    requires forall i :: 0 <= i < |rows| - 1 ==> rows[i].state != s
    requires s !in Aggregate(rows[..|rows| - 1])
    ensures s in Aggregate(rows) && HighestWins(rows, s)
  {
    var n := |rows|;
    var last := rows[n - 1];
    FirstRowMaxLevel(rows, s);
    StepCreates(Aggregate(rows[..n - 1]), last);
    NameOfLevel(OrElse(last.presence, "none"));
    assert EarliestAtMax(rows, s, n - 1);
  }

  /** Inductive step of AggregateMaxPresence: the last row meets an existing
    * record and is strictly higher than every earlier row of its state; it
    * takes over presence and contact. */
  lemma HigherRowTakesOver(rows: seq<Row>, s: string)
    requires rows != [] && rows[|rows| - 1].state == s && s != ""
    requires s in Aggregate(rows[..|rows| - 1])
    requires Aggregate(rows[..|rows| - 1])[s].presence == LevelName(MaxLevel(rows[..|rows| - 1], s))
    requires Level(rows[|rows| - 1].presence) > MaxLevel(rows[..|rows| - 1], s)
    ensures s in Aggregate(rows) && HighestWins(rows, s)
  {
    var n := |rows|;
    var init, last := rows[..n - 1], rows[n - 1];
    var t := Aggregate(init);
    LevelOfName(MaxLevel(init, s));
    UpgradeIsStrictIncrease(last.presence, t[s].presence);
    StepUpdatesExisting(t, last);
    NameOfLevel(last.presence);
    forall j | 0 <= j < n - 1 && rows[j].state == s
      ensures Level(rows[j].presence) < MaxLevel(rows, s)
    {
      assert init[j] == rows[j];
      MaxLevelBounds(init, s, j);
    }
    assert EarliestAtMax(rows, s, n - 1);
  }

  /** Inductive step of AggregateMaxPresence: the last row meets an existing
    * record and is not higher than what it holds; nothing but the city
    * list changes. */
  lemma LowerRowKeepsHighest(rows: seq<Row>, s: string)
    requires rows != [] && rows[|rows| - 1].state == s && s != ""
    requires s in Aggregate(rows[..|rows| - 1]) && HighestWins(rows[..|rows| - 1], s)
    requires Level(rows[|rows| - 1].presence) <= MaxLevel(rows[..|rows| - 1], s)
    ensures s in Aggregate(rows) && HighestWins(rows, s)
  {
    var n := |rows|;
    var init, last := rows[..n - 1], rows[n - 1];
    var t := Aggregate(init);
    var i :| EarliestAtMax(init, s, i) && t[s].contact == init[i].contact;
    assert s in Aggregate(rows) && Aggregate(rows)[s].presence == t[s].presence
        && Aggregate(rows)[s].contact == t[s].contact by {
      LevelOfName(MaxLevel(init, s));
      UpgradeIsStrictIncrease(last.presence, t[s].presence);
      StepUpdatesExisting(t, last);
    }
    EarliestKept(rows, s, i);
  }

  /** When every row of state `s` carries a recognised or empty presence, the
    * final presence is the highest level among those rows (empty counting
    * as "none"), and the final contact is that of the earliest row reaching
    * it, so later rows of equal level never change the contact. */
  lemma {:induction false} AggregateMaxPresence(rows: seq<Row>, s: string)
    requires s in Aggregate(rows)
    requires AllRecognised(rows, s)
    ensures HighestWins(rows, s)
  {
    var n := |rows|;
    var init, last := rows[..n - 1], rows[n - 1];
    assert s != "" by {
      AggregateKeys(rows);
    }
    assert AllRecognised(init, s) by {
      forall j | 0 <= j < |init| && init[j].state == s ensures Recognised(init[j].presence) {
        assert init[j] == rows[j];
      }
    }
    if last.state != s {
      StepFrame(Aggregate(init), last, s);
      AggregateMaxPresence(init, s);
      OtherStateKeepsHighest(rows, s);
    } else if s in Aggregate(init) {
      AggregateMaxPresence(init, s);
      if Level(last.presence) > MaxLevel(init, s) {
        HigherRowTakesOver(rows, s);
      } else {
        LowerRowKeepsHighest(rows, s);
      }
    } else {
      NoEarlierRows(rows, s);
      FirstRowSetsHighest(rows, s);
    }
  }

  /** A state without a record after the earlier rows has no earlier rows. */
  lemma NoEarlierRows(rows: seq<Row>, s: string)
    requires rows != [] && s != "" && s !in Aggregate(rows[..|rows| - 1])
    ensures forall j :: 0 <= j < |rows| - 1 ==> rows[j].state != s
  {
    var init := rows[..|rows| - 1];
    AggregateKeys(init);
    forall j | 0 <= j < |rows| - 1 ensures rows[j].state != s {
      assert rows[j] == init[j];
    }
  }


  /** With an unrecognised stored presence a lower-ranked category can no
    * longer take over: "Direct" (capital D) keeps an importer out. */
  lemma UnrecognisedPresenceBlocksImporter()
    ensures var t := Aggregate([Row("Ohio", "", "Direct", "a"), Row("Ohio", "", "importer", "b")]);
      "Ohio" in t && t["Ohio"].presence == "Direct" && t["Ohio"].contact == "a"
  {
    var rows := [Row("Ohio", "", "Direct", "a"), Row("Ohio", "", "importer", "b")];
    assert rows[..1] == [rows[0]];
    assert rows[..1][..0] == [];
  }

  /** Three Californian cities: the direct row wins and the list keeps row order. */
  lemma CaliforniaScenario()
    ensures var t := Aggregate([Row("California", "Los Angeles", "importer", "la"),
                                Row("California", "San Francisco", "direct", "sf"),
                                Row("California", "San Diego", "distributor", "sd")]);
      && "California" in t
      && t["California"].presence == "direct" && t["California"].contact == "sf"
      && t["California"].cities == [CityEntry("Los Angeles", "importer", "la"),
                                    CityEntry("San Francisco", "direct", "sf"),
                                    CityEntry("San Diego", "distributor", "sd")]
  {
    var la := Row("California", "Los Angeles", "importer", "la");
    var sf := Row("California", "San Francisco", "direct", "sf");
    var sd := Row("California", "San Diego", "distributor", "sd");
    assert [la, sf][..1] == [la] && [la][..0] == [];
    assert [la, sf, sd][..2] == [la, sf];
    var t1 := Aggregate([la]);
    assert t1 == Step(Aggregate([]), la);
    StepCreates(map[], la);
    assert t1["California"] == StateInfo("importer", "la", [EntryOf(la)]);
    var t2 := Aggregate([la, sf]);
    assert t2 == Step(t1, sf);
    StepUpdatesExisting(t1, sf);
    assert t2["California"] == StateInfo("direct", "sf", [EntryOf(la), EntryOf(sf)]);
    assert Aggregate([la, sf, sd]) == Step(t2, sd);
    StepUpdatesExisting(t2, sd);
  }

  /** A city-less direct row for Texas followed by a lower city row: the state
    * keeps its direct presence and contact, and gains one city entry. */
  lemma TexasScenario()
    ensures var t := Aggregate([Row("Texas", "", "direct", "Acme"), Row("Texas", "Houston", "importer", "")]);
      && "Texas" in t
      && t["Texas"] == StateInfo("direct", "Acme", [CityEntry("Houston", "importer", "")])
  {
    var rows := [Row("Texas", "", "direct", "Acme"), Row("Texas", "Houston", "importer", "")];
    assert rows[..1] == [rows[0]] && rows[..1][..0] == [];
  }
}
