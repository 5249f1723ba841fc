/** The static table of city coordinates (cityLatLon). */
module CityCoordinates {

  datatype Option<T> = None | Some(value: T)

  /** A latitude/longitude pair, kept exactly as the decimal literals of the
    * table; nothing computes with them. */
  datatype LatLon = LatLon(lat: real, lon: real)

  /** The (state, city) pairs the table covers. */
  const Covered: set<(string, string)> := {
    ("California", "Los Angeles"), ("California", "San Diego"), ("California", "San Francisco"),
    ("New York", "New York"), ("New York", "Buffalo"), ("New York", "Rochester"),
    ("Texas", "Houston"), ("Texas", "San Antonio"), ("Texas", "Dallas")
  }

  /** Two-level lookup: state, then city. A pair outside the table yields None. */
  function CityLatLon(state: string, city: string): (r: Option<LatLon>)
    ensures r.Some? <==> (state, city) in Covered
  {
    var lookup := map[
      "California" := map[
        "Los Angeles" := LatLon(34.0522, -118.2437),
        "San Diego" := LatLon(32.7157, -117.1611),
        "San Francisco" := LatLon(37.7749, -122.4194)],
      "New York" := map[
        "New York" := LatLon(40.7128, -74.0060),
        "Buffalo" := LatLon(42.8864, -78.8784),
        "Rochester" := LatLon(43.1566, -77.6088)],
      "Texas" := map[
        "Houston" := LatLon(29.7604, -95.3698),
        "San Antonio" := LatLon(29.4241, -98.4936),
        "Dallas" := LatLon(32.7767, -96.7970)]
    ];
    if state in lookup && city in lookup[state] then Some(lookup[state][city]) else None
  }

  /** Two entries of the table, and a pair that is not in it. */
  lemma LookupExamples()
    ensures CityLatLon("Texas", "Dallas") == Some(LatLon(32.7767, -96.7970))
    ensures CityLatLon("New York", "New York") == Some(LatLon(40.7128, -74.0060))
    ensures CityLatLon("Ohio", "Columbus") == None
    ensures CityLatLon("Texas", "Los Angeles") == None
  {
  }
}
