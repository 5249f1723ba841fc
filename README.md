# US presence map: a Dafny model of its decision logic

The script draws a map of US states coloured by a company's "presence" in each
state (`direct`, `distributor`, `importer` or `none`). It reads CSV rows with the
columns `state`, `city`, `presence` and `contact`. In one in-order pass it
builds a dictionary `stateInfo` holding one record `{presence, contact, cities}`
per state. It then colours each state polygon, attaches a popup that summarises
the state, and puts a marker on the few cities whose coordinates it knows.

This project models that logic and proves what it guarantees:

- `presence.dfy` (module `Presence`): the colour of a presence category
  (`getStateColor`). It also holds the order `none < importer < distributor < direct`
  (`Level`, `LevelName`), which is used only as a reference to state properties.
- `city_coordinates.dfy` (module `CityCoordinates`): the static two-level
  coordinate table (`cityLatLon`).
- `aggregation.dfy` (module `Aggregation`): the rows, the per-state records, the
  upgrade test written as its three literal disjuncts (`Upgrades`), the effect of
  one row (`Step`) and of a row sequence (`Aggregate`). The source's loop is
  `AggregateRows`: a method that rebinds a local map value up to twice per row, proved
  equal to `Aggregate`.
- `aggregation_properties.dfy` (module `AggregationProperties`): lemmas about
  one row and about whole row sequences.
- `rendering.dfy` (module `Rendering`): the polygon style, the state popup
  builder (a loop that appends one list item per city), and the marker filter
  (a loop over the rows).

A parsed row is a record of four strings, and `""` stands for a missing column.
JavaScript's truthiness tests (`!row.state`, `row.presence || "none"`) treat
`""` and `undefined` alike, so they become comparisons with `""`.

The upgrade rule is modelled as written at script.js:42-44, not as a total order.
Against a recognised stored presence it is exactly "strictly higher in the
order" (`UpgradeIsStrictIncrease`). The code can store an unrecognised non-empty
presence, because `row.presence || "none"` keeps any non-empty string. Such a
value can then only be replaced by `"direct"` (`UpgradeOverUnrecognised`,
`UnrecognisedPresenceBlocksImporter`). A normalised total order would rank an
unrecognised value as `none` and let any category replace it. The model follows
the code.

## Model

| member | source | states |
|---|---|---|
| `Presence.StateColor` | script.js:5-12 | total; `#3CB371` exactly for `"direct"`, `#FFA500` exactly for `"distributor"`, `#4682B4` exactly for `"importer"`, `#dddddd` for every other string, `"none"` and `""` included |
| `CityCoordinates.CityLatLon` | script.js:108-128 | returns coordinates exactly for the nine listed (state, city) pairs, and None for any other pair |
| `CityCoordinates.LookupExamples` | script.js:108-128 | Dallas and New York City have their listed coordinates; ("Ohio", "Columbus") and a known city under the wrong state are not found |
| `Aggregation.AggregateRows` | script.js:21-49 | the loop over the rows, rebinding the local map value `stateInfo` up to twice per row, ends with `stateInfo` equal to the specification fold `Aggregate` of the rows |
| `AggregationProperties.UpgradeIsStrictIncrease` | script.js:41-45 | against a recognised stored presence, the three disjuncts hold exactly when the row's presence is strictly higher in `none < importer < distributor < direct` |
| `AggregationProperties.UpgradeOverUnrecognised` | script.js:41-45 | against an unrecognised stored presence, the disjuncts hold exactly when the row's presence is `"direct"` |
| `AggregationProperties.StepSkipsStateless` | script.js:25 | a row with an empty state leaves the table unchanged: no key, no city entry, no record changed |
| `AggregationProperties.StepFrame` | script.js:24-49 | a row changes no entry except the one keyed by its own state, and adds at most that key |
| `AggregationProperties.StepCreates` | script.js:26-39 | the first row of a state creates its record with `presence = row.presence` or `"none"`, `contact = row.contact` or `""`, and a city list holding only its own entry if it has a city; the row never upgrades its own new record |
| `AggregationProperties.StepUpdatesExisting` | script.js:33-48 | a later row keeps the record, appends exactly one raw `{city, presence, contact}` entry when it has a city, upgrade or not, and overwrites presence and contact together exactly when the upgrade test passes; otherwise both stay |
| `AggregationProperties.StepLevelNeverDecreases` | script.js:41-48 | a row never lowers its state's level in the order |
| `AggregationProperties.StoredPresenceNonEmpty` | script.js:28-46 | a stored presence is never empty |
| `AggregationProperties.AggregateKeys` | script.js:24-32 | the keys are exactly the non-empty states of the rows; the empty state is never a key |
| `AggregationProperties.AggregateCities` | script.js:33-39 | a state's city list equals, in row order, the entries of the city-bearing rows of that state; rows with an empty state contribute nothing |
| `AggregationProperties.AggregatePrefix` | script.js:26-48 | once a record exists, later rows never recreate it: its city list only grows at the end and its level never decreases |
| `AggregationProperties.AggregateMaxPresence` | script.js:26-48 | when every row of a state has a recognised or empty presence, the final presence is the highest level among those rows (empty counts as `none`), and the final contact is that of the earliest row reaching that level |
| `AggregationProperties.UnrecognisedPresenceBlocksImporter` | script.js:28-48 | an unrecognised first presence (`"Direct"`) is not replaced by a later `"importer"` row |
| `AggregationProperties.CaliforniaScenario` | script.js:24-49 | importer, direct, distributor rows for one state: direct wins with its own contact, and the three city entries keep row order |
| `AggregationProperties.TexasScenario` | script.js:24-49 | a city-less direct row followed by an importer city row: presence and contact stay those of the direct row, and the city list holds the one entry |
| `Rendering.Style` | script.js:59-69 | a state in the table is filled with the colour of its stored presence, which is non-grey exactly when that presence is one of the three named categories; a state missing from the table is grey; fixed weight, opacity, border colour and fill opacity |
| `Rendering.StyleOfAggregate` | script.js:59-69 | over the table the aggregation builds, when every row of a state has a recognised or empty presence, a non-empty state name is filled with the colour of the highest presence among its rows (grey when it has none); the empty name, never a key, is always grey |
| `Rendering.UnknownStatePopup` | script.js:59-74 | a state missing from the table is grey and its popup shows presence `none` in grey, with no contact line and no city list |
| `Rendering.BuildPopup` | script.js:70-83 | the string grown with `+=` equals the popup text of the state's record, or of the fallback record |
| `Rendering.PopupContactLineIff` | script.js:73-74 | the popup has a contact line right after its header exactly when the contact is non-empty |
| `Rendering.PopupCityListIff` | script.js:73-81 | the popup is just header and contact line exactly when the record has no cities |
| `Rendering.ItemsInOrder` | script.js:76-80 | in the joined list, each city's item sits after the items of the cities before it and before those after it |
| `Rendering.PopupItemInOrder` | script.js:70-81 | in the popup of a record with cities, city `i`'s own item comes after the header, the contact line, the list opening and the items of the earlier cities, and before the items of the later cities and the list's closing tag |
| `Rendering.PlaceMarkers` | script.js:87-103 | the marker loop yields the markers of the selected rows, in row order |
| `Rendering.MarkersExactlySelected` | script.js:87-93 | every marker comes from a row with a city, a state and a coordinate-table hit, and every such row yields its marker |
The rows above are about lemmas and methods. The definitions they speak about
model the source directly:

- `Aggregation.Upgrades` is the three-way upgrade test of script.js:41-45, one disjunct per line.
- `Aggregation.Step` is the effect of one row at script.js:25-48: skip a stateless row, create the record with its defaults, push the city entry, then apply the upgrade test.
- `Aggregation.Aggregate` is the in-order pass of script.js:24-49, as a fold over the rows.
- `Rendering.Header` is the popup's first line at script.js:73.
- `Rendering.ContactLine` is the optional contact at script.js:74.
- `Rendering.CityItem` is one list item at script.js:78.
- `Rendering.PopupText` is the whole popup of script.js:72-81: header, contact line, and the city list when there are cities.
- `Rendering.MarkerPopup` is the marker popup at script.js:101.
- `Rendering.MarkerOf` is the circle marker's options at script.js:94-99, together with its popup.
- `Rendering.Markers` is the marker pass of script.js:87-103, which keeps the rows that pass the tests at script.js:88 and 93.

## Left out

- `fetch`, `Promise.all` and `window.onload` (script.js:16-19, 130): network I/O and the fork-join of two downloads. The model starts from their results.
- `Papa.parse` (script.js:20) is a CSV library outside this model. Its output is taken as a given sequence of rows; header handling, quoting and extra columns are not modelled.
- `undefined` versus `""`: a missing column is `""` here. The raw copies at script.js:36-37 and 47 keep `undefined` in the source, and the template strings at script.js:78 and 101 then print the word `undefined` where the model prints nothing.
- Leaflet (script.js:52-56, 84, 94-101, `bindPopup` at 82): map creation, tile layer, polygon layer, circle markers and popup binding are rendering effects. The model returns the style, the popup strings and the marker records that would be handed to Leaflet.
- Coordinates are kept as the exact decimal values of the table's literals (`real`). No arithmetic is done on them; floating-point rounding is not modelled.
- Object-prototype keys such as `"constructor"` or `"__proto__"` (script.js:26, 127) are not modelled: the dictionary is an ordinary map.
- The dash before a city contact (script.js:78) is the en dash U+2013. The source file holds a mis-decoded byte sequence for that character.
- In the source, each state's record is a mutable object that `push` and field assignment update in place. The model stores the records as values in a map and replaces a state's value. Nothing else refers to a record, so no aliasing is lost.
- `AggregateMaxPresence` is stated only for states whose rows all carry a recognised or empty presence. Other states are covered by `UpgradeOverUnrecognised` and `StepUpdatesExisting`, not by a maximum.
