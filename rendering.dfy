/** What the map draws from the aggregated table: the polygon style, the
  * per-state popup, and the city markers. */
module Rendering {
  import opened Presence
  import opened CityCoordinates
  import opened Aggregation
  import AggregationProperties

  // ---------------------------------------------------------------------
  // State polygons

  /** The record used for a state, with the fallback for states the table
    * does not hold (no contact, no cities). */
  function InfoOf(table: Table, st: string): StateInfo
  {
    if st in table then table[st] else StateInfo("none", "", [])
  }

  /** The style handed to the polygon layer. */
  datatype FeatureStyle = FeatureStyle(fillColor: string, weight: nat, opacity: nat, color: string, fillOpacity: real)

  /** The style of the polygon named `st`. */
  function Style(table: Table, st: string): (r: FeatureStyle)
    ensures st !in table ==> r.fillColor == "#dddddd"
    ensures st in table ==> r.fillColor == StateColor(table[st].presence)
    ensures st in table ==> (r.fillColor != "#dddddd" <==> table[st].presence in ["direct", "distributor", "importer"])
    ensures r.weight == 1 && r.opacity == 1 && r.color == "#aaa" && r.fillOpacity == 0.6
  {
    FeatureStyle(StateColor(InfoOf(table, st).presence), 1, 1, "#aaa", 0.6)
  }

  /** Over the aggregated table, a state is filled with the colour of the
    * highest presence among its rows, and grey when it has no rows; the
    * empty name is never a state and is grey. */
  lemma StyleOfAggregate(rows: seq<Row>, s: string)
    requires AggregationProperties.AllRecognised(rows, s)
    ensures s != "" ==>
      Style(Aggregate(rows), s).fillColor == StateColor(LevelName(AggregationProperties.MaxLevel(rows, s)))
    ensures s == "" ==> Style(Aggregate(rows), s).fillColor == "#dddddd"
  {
    AggregationProperties.AggregateKeys(rows);
    if s in Aggregate(rows) {
      AggregationProperties.AggregateMaxPresence(rows, s);
    } else if s != "" {
      assert forall i :: 0 <= i < |rows| ==> rows[i].state != s;
      AggregationProperties.MaxLevelAbsent(rows, s);
    }
  }

  // ---------------------------------------------------------------------
  // State popup

  const ContactTag := "<br>Contact: "
  const CitiesOpen := "<br><b>Cities:</b><ul style=\"padding-left:1em\">"
  const CitiesClose := "</ul>"

  /** The state name and its presence label in its colour. */
  function Header(st: string, presence: string): string
  {
    "<b>" + st + "</b><br>Presence: <span style=\"color:" + StateColor(presence) + ";\">"
      + OrElse(presence, "none") + "</span>"
  }

  /** The contact line, present only for a non-empty contact. */
  function ContactLine(contact: string): string
  {
    if contact != "" then ContactTag + contact else ""
  }

  /** One list item: the city, its own presence, and its contact if any. */
  function CityItem(ci: CityEntry): string
  {
    "<li>" + ci.city + " <small>(" + ci.presence + ")</small>"
      + (if ci.contact != "" then " \U{2013} " + ci.contact else "") + "</li>"
  }

  /** The list items of the cities, one per city, in list order. */
  function ItemTexts(cities: seq<CityEntry>): seq<string>
  {
    seq(|cities|, i requires 0 <= i < |cities| => CityItem(cities[i]))
  }

  /** The texts joined in order. */
  function Concat(parts: seq<string>): string
  {
    if parts == [] then "" else Concat(parts[..|parts| - 1]) + parts[|parts| - 1]
  }

  /** The list items of the cities as one string. */
  function Items(cities: seq<CityEntry>): string
  {
    Concat(ItemTexts(cities))
  }

  /** The full popup text of a state record: header, contact line, and the
    * city list when there are cities. */
  function PopupText(st: string, info: StateInfo): string
  {
    var head := Header(st, info.presence) + ContactLine(info.contact);
    if |info.cities| > 0 then head + CitiesOpen + Items(info.cities) + CitiesClose else head
  }

  /** The popup builder: header, optional contact, then one `+=` per city. */
  method BuildPopup(table: Table, st: string) returns (popup: string)
    ensures popup == PopupText(st, InfoOf(table, st))
  {
    var info := InfoOf(table, st);
    popup := Header(st, info.presence);
    if info.contact != "" {
      popup := popup + (ContactTag + info.contact);
    } else {
      AppendEmpty(popup);
    }
    if |info.cities| > 0 {
      popup := popup + CitiesOpen;
      ghost var start := popup;
      for i := 0 to |info.cities|
        invariant popup == start + Items(info.cities[..i])
      {
        popup := popup + CityItem(info.cities[i]);
        ItemsSnoc(info.cities, i);
        Assoc(start, Items(info.cities[..i]), CityItem(info.cities[i]));
      }
      assert info.cities[..|info.cities|] == info.cities;
      popup := popup + CitiesClose;
    }
  }

  /** The empty string is a right unit of concatenation. */
  lemma AppendEmpty(a: string)
    ensures a + "" == a
  {
  }

  /** String concatenation is associative. */
  lemma Assoc(a: string, b: string, c: string)
    ensures (a + b) + c == a + (b + c)
  {
  }

  /** Adding one more city adds its item at the end. */
  lemma ItemsSnoc(cities: seq<CityEntry>, i: nat)
    requires i < |cities|
    ensures Items(cities[..i + 1]) == Items(cities[..i]) + CityItem(cities[i])
  {
    assert ItemTexts(cities[..i + 1])[..i] == ItemTexts(cities[..i]);
  }

  /** Part `i` sits between the parts before it and those after it. */
  lemma {:induction false} ConcatAt(parts: seq<string>, i: nat)
    requires i < |parts|
    ensures Concat(parts) == Concat(parts[..i]) + parts[i] + Concat(parts[i + 1..])
  {
    var n := |parts|;
    var init := parts[..n - 1];
    if i == n - 1 {
      assert parts[i + 1..] == [];
      assert init == parts[..i];
    } else {
      ConcatAt(init, i);
      assert init[..i] == parts[..i];
      assert init[i] == parts[i];
      var back := parts[i + 1..];
      assert back[..|back| - 1] == init[i + 1..];
      assert back[|back| - 1] == parts[n - 1];
      Assoc(Concat(parts[..i]) + parts[i], Concat(init[i + 1..]), parts[n - 1]);
    }
  }

  /** Item `i` of the list is the city's own item and sits between the
    * items of the cities before it and those after it: one item per city,
    * in list order. */
  lemma ItemsInOrder(cities: seq<CityEntry>, i: nat)
    requires i < |cities|
    ensures Items(cities) == Items(cities[..i]) + CityItem(cities[i]) + Items(cities[i + 1..])
  {
    var parts := ItemTexts(cities);
    ConcatAt(parts, i);
    ItemTextsPrefix(cities, i);
    ItemTextsSuffix(cities, i + 1);
  }

  /** In the popup of a record with cities, the item of city `i` follows the
    * city-list opening and the items of the cities before it, and precedes
    * the items of the cities after it and the list's closing tag. */
  lemma PopupItemInOrder(st: string, info: StateInfo, i: nat)
    requires i < |info.cities|
    ensures PopupText(st, info) ==
      Header(st, info.presence) + ContactLine(info.contact) + CitiesOpen
        + Items(info.cities[..i]) + CityItem(info.cities[i]) + Items(info.cities[i + 1..]) + CitiesClose
  {
    var open := Header(st, info.presence) + ContactLine(info.contact) + CitiesOpen;
    var x, y, z := Items(info.cities[..i]), CityItem(info.cities[i]), Items(info.cities[i + 1..]);
    ItemsInOrder(info.cities, i);
    Assoc(open, x + y, z);
    Assoc(open, x, y);
  }

  /** The items of a prefix of the cities are that prefix of the items. */
  lemma ItemTextsPrefix(cities: seq<CityEntry>, i: nat)
    requires i <= |cities|
    ensures ItemTexts(cities)[..i] == ItemTexts(cities[..i])
  {
  }

  /** The items of a suffix of the cities are that suffix of the items. */
  lemma ItemTextsSuffix(cities: seq<CityEntry>, i: nat)
    requires i <= |cities|
    ensures ItemTexts(cities)[i..] == ItemTexts(cities[i..])
  {
    var a, b := ItemTexts(cities)[i..], ItemTexts(cities[i..]);
    forall k | 0 <= k < |a| ensures a[k] == b[k] {
      assert cities[i..][k] == cities[i + k];
    }
  }

  /** The popup is its header followed by its contact line and the rest. */
  lemma PopupSplit(st: string, info: StateInfo)
    ensures PopupText(st, info) == Header(st, info.presence) + (ContactLine(info.contact) +
      (if |info.cities| > 0 then CitiesOpen + Items(info.cities) + CitiesClose else ""))
  {
    var h, c := Header(st, info.presence), ContactLine(info.contact);
    if |info.cities| > 0 {
      var i := Items(info.cities);
      Assoc(h + c, CitiesOpen + i, CitiesClose);
      Assoc(h + c, CitiesOpen, i);
      Assoc(h, c, CitiesOpen + i + CitiesClose);
    } else {
      assert c + "" == c;
    }
  }

  /** After any prefix `h`, the contact line is recognisable: what follows
    * is never the contact tag unless there is a contact. */
  lemma ContactTagAfter(h: string, contact: string, rest: string)
    requires rest == "" || (|rest| > 4 && rest[4] == '<')
    ensures var p := h + (ContactLine(contact) + rest);
      (|p| >= |h| + |ContactTag| && p[|h|..|h| + |ContactTag|] == ContactTag) <==> contact != ""
  {
    var x := ContactLine(contact) + rest;
    var p := h + x;
    assert p[|h|..] == x;
    assert |ContactTag| == 13 && ContactTag[4] == 'C';
    if contact != "" {
      Assoc(ContactTag, contact, rest);
      assert x[..|ContactTag|] == ContactTag;
      assert p[|h|..|h| + |ContactTag|] == x[..|ContactTag|];
    } else if rest != "" {
      assert x == rest;
      assert p[|h| + 4] == '<';
    }
  }

  /** A city list starts with the "<br><b>Cities:" opening. */
  lemma CityListOpening(cities: seq<CityEntry>)
    ensures var r := CitiesOpen + Items(cities) + CitiesClose;
      |r| > 4 && r[4] == '<'
  {
    Assoc(CitiesOpen, Items(cities), CitiesClose);
    assert CitiesOpen[4] == '<';
  }

  /** The popup has a contact line right after its header exactly when the
    * contact is non-empty. */
  lemma PopupContactLineIff(st: string, info: StateInfo)
    ensures var h, p := Header(st, info.presence), PopupText(st, info);
      (|p| >= |h| + |ContactTag| && p[|h|..|h| + |ContactTag|] == ContactTag) <==> info.contact != ""
  {
    PopupSplit(st, info);
    CityListOpening(info.cities);
    var rest := if |info.cities| > 0 then CitiesOpen + Items(info.cities) + CitiesClose else "";
    ContactTagAfter(Header(st, info.presence), info.contact, rest);
  }

  /** The popup is just its header and contact line exactly when the record
    * has no cities. */
  lemma PopupCityListIff(st: string, info: StateInfo)
    ensures PopupText(st, info) == Header(st, info.presence) + ContactLine(info.contact) <==> info.cities == []
  {
    var head := Header(st, info.presence) + ContactLine(info.contact);
    if info.cities != [] {
      assert |PopupText(st, info)| > |head|;
    }
  }

  /** A state missing from the table is shown as "none", in grey, with
    * neither a contact line nor a city list. */
  lemma UnknownStatePopup(table: Table, st: string)
    requires st !in table
    ensures Style(table, st).fillColor == "#dddddd"
    ensures PopupText(st, InfoOf(table, st)) ==
      "<b>" + st + "</b><br>Presence: <span style=\"color:" + "#dddddd" + ";\">" + "none" + "</span>"
  {
    AppendEmpty(Header(st, "none"));
  }

  // ---------------------------------------------------------------------
  // City markers

  /** A circle marker on the map. */
  datatype Marker = Marker(at: LatLon, radius: nat, fillColor: string, color: string,
                           weight: nat, fillOpacity: real, popup: string)

  /** A row gets a marker when it has a city and a state and the pair is in
    * the coordinate table. */
  predicate HasMarker(row: Row)
  {
    row.city != "" && row.state != "" && CityLatLon(row.state, row.city).Some?
  }

  /** The popup of a city marker, from the row's raw values. */
  function MarkerPopup(row: Row): string
  {
    "<b>" + row.city + ", " + row.state + "</b><br>Presence: <span style=\"color:"
      + StateColor(row.presence) + ";\">" + row.presence + "</span>"
      + (if row.contact != "" then ContactTag + row.contact else "")
  }

  /** The marker drawn for a selected row, coloured by the row's own presence. */
  function MarkerOf(row: Row): Marker
    requires HasMarker(row)
  {
    Marker(CityLatLon(row.state, row.city).value, 7, StateColor(row.presence), "#333", 1, 0.95, MarkerPopup(row))
  }

  /** The markers of the selected rows, in row order. */
  function Markers(rows: seq<Row>): seq<Marker>
  {
    if rows == [] then []
    else
      var last := rows[|rows| - 1];
      Markers(rows[..|rows| - 1]) + (if HasMarker(last) then [MarkerOf(last)] else [])
  }

  /** The marker loop: every row is visited and the selected ones are drawn. */
  method PlaceMarkers(rows: seq<Row>) returns (markers: seq<Marker>)
    ensures markers == Markers(rows)
  {
    markers := [];
    for i := 0 to |rows|
      invariant markers == Markers(rows[..i])
    {
      var row := rows[i];
      if row.city != "" && row.state != "" {
        var coords := CityLatLon(row.state, row.city);
        if coords.Some? {
          markers := markers + [MarkerOf(row)];
        }
      }
      assert rows[..i + 1][..i] == rows[..i];
    }
    assert rows[..|rows|] == rows;
  }

  /** The markers are exactly those of the selected rows: each marker comes
    * from a selected row, and every selected row yields its marker. */
  lemma {:induction false} MarkersExactlySelected(rows: seq<Row>)
    ensures |Markers(rows)| <= |rows|
    ensures forall m :: m in Markers(rows) ==>
      exists i :: 0 <= i < |rows| && HasMarker(rows[i]) && m == MarkerOf(rows[i])
    ensures forall i :: 0 <= i < |rows| && HasMarker(rows[i]) ==> MarkerOf(rows[i]) in Markers(rows)
  {
    if rows != [] {
      var init, last := rows[..|rows| - 1], rows[|rows| - 1];
      MarkersExactlySelected(init);
      assert forall i :: 0 <= i < |init| ==> init[i] == rows[i];
      forall m | m in Markers(rows)
        ensures exists i :: 0 <= i < |rows| && HasMarker(rows[i]) && m == MarkerOf(rows[i])
      {
        if m !in Markers(init) {
          assert HasMarker(last) && m == MarkerOf(rows[|rows| - 1]);
        }
      }
    }
  }
}
