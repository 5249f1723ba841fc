/** The per-state aggregation pass over the parsed CSV rows
  * (the forEach inside loadDataAndMap, script.js lines 21-49). */
module Aggregation {

  /** One parsed CSV row; an empty string stands for a missing column. */
  datatype Row = Row(state: string, city: string, presence: string, contact: string)

  /** One entry of a state's city list, with the row's raw values. */
  datatype CityEntry = CityEntry(city: string, presence: string, contact: string)

  /** The record kept per state. */
  datatype StateInfo = StateInfo(presence: string, contact: string, cities: seq<CityEntry>)

  /** The dictionary `stateInfo`, keyed by state name. */
  type Table = map<string, StateInfo>

  /** JavaScript's `s || fallback` on a string column. */
  function OrElse(s: string, fallback: string): string
  {
    if s != "" then s else fallback
  }

  /** The record created for the first row of a state. */
  function NewInfo(row: Row): StateInfo
  {
    StateInfo(OrElse(row.presence, "none"), OrElse(row.contact, ""), [])
  }

  /** The city entry a city-bearing row appends. */
  function EntryOf(row: Row): CityEntry
  {
    CityEntry(row.city, row.presence, row.contact)
  }

  /** The upgrade test exactly as its three disjuncts are written. */
  predicate Upgrades(incoming: string, current: string)
  {
    || (incoming == "direct" && current != "direct")
    || (incoming == "distributor" && current in ["importer", "none"])
    || (incoming == "importer" && current == "none")
  }

  /** The effect of one row on the table: skip stateless rows, create the
    * record on first sight, append the city, then maybe upgrade. */
  function Step(t: Table, row: Row): Table
  {
    if row.state == "" then t
    else
      var created := if row.state in t then t else t[row.state := NewInfo(row)];
      var info := created[row.state];
      var listed := if row.city != "" then info.(cities := info.cities + [EntryOf(row)]) else info;
      var upgraded :=
        if Upgrades(row.presence, listed.presence)
        then listed.(presence := row.presence, contact := row.contact)
        else listed;
      created[row.state := upgraded]
  }

  /** The table after processing the rows in order, starting from `{}`. */
  function Aggregate(rows: seq<Row>): Table
  {
    if rows == [] then map[] else Step(Aggregate(rows[..|rows| - 1]), rows[|rows| - 1])
  }

  /** The aggregation loop: it rebinds the local map `stateInfo` for each row
    * (up to twice per row: create then push, or push then upgrade). */
  method AggregateRows(rows: seq<Row>) returns (stateInfo: Table)
    ensures stateInfo == Aggregate(rows)
  {
    stateInfo := map[];
    for i := 0 to |rows|
      invariant stateInfo == Aggregate(rows[..i])
    {
      var row := rows[i];
      ghost var before := stateInfo;
      if row.state != "" {
        if row.state !in stateInfo {
          stateInfo := stateInfo[row.state := NewInfo(row)];
        }
        if row.city != "" {
          var info := stateInfo[row.state];
          stateInfo := stateInfo[row.state := info.(cities := info.cities + [EntryOf(row)])];
        }
        if Upgrades(row.presence, stateInfo[row.state].presence) {
          var info := stateInfo[row.state];
          stateInfo := stateInfo[row.state := info.(presence := row.presence, contact := row.contact)];
        }
      }
      assert stateInfo == Step(before, row);
      assert rows[..i + 1][..i] == rows[..i];
    }
    assert rows[..|rows|] == rows;
  }
}
