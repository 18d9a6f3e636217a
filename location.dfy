/**
 * `LocationHandler`: turning a city name into coordinates, and picking the
 * five catalogue items nearest a point.  Both `handle` (a city typed after
 * `/nearby`) and `handleLocation` (a point shared from Telegram) run the
 * same filter, distance, sort and take-five pipeline, modelled once as
 * `NearestFive`.
 */
module Locating {
  import opened Common
  import opened Text
  import opened Catalog
  import opened Ordering
  import opened Comparators
  import opened MergeSorting

  /** One value of `locationMap`. */
  datatype City = City(latitude: real, longitude: real, name: string)

  /** `this.locationMap`, its entries in the order the object literal lists them. */
  const LocationMap: seq<(string, City)> := [
    ("delhi", City(28.6139, 77.2090, "Delhi")),
    ("mumbai", City(19.0760, 72.8777, "Mumbai")),
    ("bangalore", City(12.9716, 77.5946, "Bangalore")),
    ("chennai", City(13.0827, 80.2707, "Chennai")),
    ("kolkata", City(22.5726, 88.3639, "Kolkata")),
    ("hyderabad", City(17.3850, 78.4867, "Hyderabad")),
    ("pune", City(18.5204, 73.8567, "Pune")),
    ("ahmedabad", City(23.0225, 72.5714, "Ahmedabad")),
    ("jaipur", City(26.9124, 75.7873, "Jaipur")),
    ("lucknow", City(26.8467, 80.9462, "Lucknow"))
  ]

  /** `this.locationMap[key]`: the position of the entry under `key`, if any. */
  function Lookup(entries: seq<(string, City)>, key: string): (r: Option<nat>)
    ensures r.Some? ==> r.value < |entries| && entries[r.value].0 == key
    ensures r.Some? ==> forall m :: 0 <= m < r.value ==> entries[m].0 != key
    ensures r.None? <==> forall m :: 0 <= m < |entries| ==> entries[m].0 != key
  {
    if entries == [] then None
    else if entries[0].0 == key then Some(0)
    else match Lookup(entries[1..], key)
      case None => None
      case Some(i) => Some(i + 1)
  }

  /** The partial-match test: the key contains the query, or the query contains the key. */
  predicate Related(key: string, query: string) {
    Includes(key, query) || Includes(query, key)
  }

  /** The `for…of` over `Object.entries`: the position of the first entry whose key is related to `query`. */
  function FirstRelated(entries: seq<(string, City)>, query: string): (r: Option<nat>)
    ensures r.Some? ==> r.value < |entries| && Related(entries[r.value].0, query)
    ensures r.Some? ==> forall m :: 0 <= m < r.value ==> !Related(entries[m].0, query)
    ensures r.None? <==> forall m :: 0 <= m < |entries| ==> !Related(entries[m].0, query)
  {
    if entries == [] then None
    else if Related(entries[0].0, query) then Some(0)
    else match FirstRelated(entries[1..], query)
      case None => None
      case Some(i) => Some(i + 1)
  }

  /** `geocodeLocation(query)` over a table of entries. */
  function Geocode(entries: seq<(string, City)>, query: string): Option<City> {
    var q := Trim(Lower(query));
    match Lookup(entries, q)
    case Some(i) => Some(entries[i].1)
    case None =>
      match FirstRelated(entries, q)
      case Some(i) => Some(entries[i].1)
      case None => None
  }

  /** With `q` the lower-cased, trimmed query, the entry under `q` is the answer. */
  lemma GeocodeExact(entries: seq<(string, City)>, query: string, k: nat)
    requires k < |entries| && entries[k].0 == Trim(Lower(query))
    requires forall m :: 0 <= m < k ==> entries[m].0 != Trim(Lower(query))
    ensures Geocode(entries, query) == Some(entries[k].1)
  {
    var found := Lookup(entries, Trim(Lower(query)));
    assert found.Some?;
    assert !(found.value > k) && !(found.value < k);
  }

  /** When no key is `q` itself, the answer is the first entry whose key is related to `q`. */
  lemma GeocodeRelated(entries: seq<(string, City)>, query: string, k: nat)
    requires forall m :: 0 <= m < |entries| ==> entries[m].0 != Trim(Lower(query))
    requires k < |entries| && Related(entries[k].0, Trim(Lower(query)))
    requires forall m :: 0 <= m < k ==> !Related(entries[m].0, Trim(Lower(query)))
    ensures Geocode(entries, query) == Some(entries[k].1)
  {
    var found := FirstRelated(entries, Trim(Lower(query)));
    assert found.Some?;
    assert !(found.value > k) && !(found.value < k);
  }

  /** There is no answer exactly when no key is related to `q`: a key equal to `q` is related to it. */
  lemma GeocodeNone(entries: seq<(string, City)>, query: string)
    ensures Geocode(entries, query).None? <==> forall m :: 0 <= m < |entries| ==> !Related(entries[m].0, Trim(Lower(query)))
  {
    var q := Trim(Lower(query));
    var exact := Lookup(entries, q);
    if exact.Some? {
      assert IsPrefix(q, entries[exact.value].0);
      assert Related(entries[exact.value].0, q);
    }
  }

  /** A blank query is related to every key, so without the handler's own check it would name the first city. */
  lemma GeocodeBlank(query: string)
    requires AllSpace(query)
    ensures Geocode(LocationMap, query) == Some(City(28.6139, 77.2090, "Delhi"))
  {
    BlankLowered(query);
    TrimEmptyIff(Lower(query));
    NamedKeys();
    assert IsPrefix(Trim(Lower(query)), LocationMap[0].0);
    GeocodeRelated(LocationMap, query, 0);
  }

  /** Lower-casing leaves white space white space. */
  lemma BlankLowered(query: string)
    requires AllSpace(query)
    ensures AllSpace(Lower(query))
  {
    forall i | 0 <= i < |query| ensures IsSpace(Lower(query)[i]) {
      assert !IsUpper(query[i]);
    }
  }

  /** No key of the city table is empty. */
  lemma NamedKeys()
    ensures forall m :: 0 <= m < |LocationMap| ==> LocationMap[m].0 != []
  {
  }

  /** The item, its distance from the origin, and the coordinates it was measured at. */
  datatype Nearby = Nearby(item: Equipment, distance: real, parsedLat: real, parsedLon: real)

  /** The filter: both coordinates parse, latitude in [-90, 90], longitude in [-180, 180]. */
  predicate OnMap(eq: Equipment) {
    eq.latitude.Some? && eq.longitude.Some? &&
    -90.0 <= eq.latitude.value <= 90.0 && -180.0 <= eq.longitude.value <= 180.0
  }

  /** The filter and the map: every item on the map, tagged with its distance from `(latitude, longitude)`. */
  function Measured(equipment: seq<Equipment>, latitude: real, longitude: real,
                    calculateDistance: (real, real, real, real) -> real): (r: seq<Nearby>)
    ensures |r| <= |equipment|
    ensures forall k :: 0 <= k < |r| ==>
      var n := r[k];
      n.item in equipment && OnMap(n.item) &&
      n.parsedLat == n.item.latitude.value && n.parsedLon == n.item.longitude.value &&
      n.distance == calculateDistance(latitude, longitude, n.parsedLat, n.parsedLon)
    ensures forall eq :: eq in equipment && OnMap(eq) ==>
      Nearby(eq, calculateDistance(latitude, longitude, eq.latitude.value, eq.longitude.value),
             eq.latitude.value, eq.longitude.value) in r
  {
    if equipment == [] then []
    else
      var eq := equipment[0];
      var rest := Measured(equipment[1..], latitude, longitude, calculateDistance);
      if OnMap(eq) then
        var lat, lon := eq.latitude.value, eq.longitude.value;
        [Nearby(eq, calculateDistance(latitude, longitude, lat, lon), lat, lon)] + rest
      else rest
  }

  function Distance(n: Nearby): real { n.distance }

  /** `.sort((a, b) => a.distance - b.distance).slice(0, 5)` after the filter and the map. */
  function NearestFive(equipment: seq<Equipment>, latitude: real, longitude: real,
                       calculateDistance: (real, real, real, real) -> real): seq<Nearby>
  {
    var sorted := MergeSort(Measured(equipment, latitude, longitude, calculateDistance), Ascending(Distance));
    sorted[..Min(5, |sorted|)]
  }

  /**
   * The filter and the map keep catalogue order: measuring two runs of rows
   * one after the other gives the first run's items, then the second's.
   */
  lemma {:induction false} MeasuredInOrder(a: seq<Equipment>, b: seq<Equipment>, latitude: real, longitude: real,
                                           calculateDistance: (real, real, real, real) -> real)
    ensures Measured(a + b, latitude, longitude, calculateDistance) ==
      Measured(a, latitude, longitude, calculateDistance) + Measured(b, latitude, longitude, calculateDistance)
    decreases |a|
  {
    if a != [] {
      assert (a + b)[0] == a[0] && (a + b)[1..] == a[1..] + b;
      MeasuredInOrder(a[1..], b, latitude, longitude, calculateDistance);
      var eq := a[0];
      if OnMap(eq) {
        var n := Nearby(eq, calculateDistance(latitude, longitude, eq.latitude.value, eq.longitude.value),
                        eq.latitude.value, eq.longitude.value);
        SeqAssoc([n], Measured(a[1..], latitude, longitude, calculateDistance),
                 Measured(b, latitude, longitude, calculateDistance));
      }
    } else {
      assert a + b == b;
    }
  }

  /**
   * The result holds five items, or every item on the map when there are
   * fewer, each one measured from the origin, nearest first, and items at
   * the same distance in catalogue order.
   */
  lemma NearestFiveMeaning(equipment: seq<Equipment>, latitude: real, longitude: real,
                           calculateDistance: (real, real, real, real) -> real)
    ensures var all := Measured(equipment, latitude, longitude, calculateDistance);
      var r := NearestFive(equipment, latitude, longitude, calculateDistance);
      |r| == Min(5, |all|) &&
      (forall i, j :: 0 <= i < j < |r| ==> r[i].distance <= r[j].distance) &&
      (forall k :: 0 <= k < |r| ==> r[k] in all) &&
      r == MergeSort(all, Ascending(Distance))[..|r|] &&
      StableOf(MergeSort(all, Ascending(Distance)), all, Ascending(Distance))
  {
    var all := Measured(equipment, latitude, longitude, calculateDistance);
    var sorted := MergeSort(all, Ascending(Distance));
    var r := sorted[..Min(5, |sorted|)];
    SortedByKey(all, Distance);
    forall k | 0 <= k < |r| ensures r[k] in all {
      assert r[k] in multiset(sorted);
    }
  }

  /** No item on the map that was left out is nearer than one kept. */
  lemma NearestFiveClosest(equipment: seq<Equipment>, latitude: real, longitude: real,
                           calculateDistance: (real, real, real, real) -> real, n: Nearby)
    requires n in Measured(equipment, latitude, longitude, calculateDistance)
    requires n !in NearestFive(equipment, latitude, longitude, calculateDistance)
    ensures forall x :: x in NearestFive(equipment, latitude, longitude, calculateDistance) ==> x.distance <= n.distance
  {
    var all := Measured(equipment, latitude, longitude, calculateDistance);
    KeptSmallest(all, Distance, Min(5, |all|), n);
  }

  /** What the handlers reply with, the message text aside. */
  datatype Reply =
    | AskForLocation
    | NoEquipment
    | Unrecognized
    | NoneNearby
    | Found(latitude: real, longitude: real, results: seq<Nearby>)

  /** The pipeline's outcome from a known origin. */
  function Nearest(equipment: seq<Equipment>, latitude: real, longitude: real,
                   calculateDistance: (real, real, real, real) -> real): Reply {
    var results := NearestFive(equipment, latitude, longitude, calculateDistance);
    if results == [] then NoneNearby else Found(latitude, longitude, results)
  }

  /** `handle(msg, locationQuery)` with `equipment` the rows the catalogue returned. */
  function Handle(locationQuery: Option<string>, equipment: seq<Equipment>,
                  calculateDistance: (real, real, real, real) -> real): Reply {
    if locationQuery.None? || Trim(locationQuery.value) == [] then AskForLocation
    else if |equipment| == 0 then NoEquipment
    else match Geocode(LocationMap, locationQuery.value)
      case None => Unrecognized
      case Some(city) => Nearest(equipment, city.latitude, city.longitude, calculateDistance)
  }

  /** `handleLocation(msg, location)`: the same pipeline from the shared point. */
  function HandleLocation(latitude: real, longitude: real, equipment: seq<Equipment>,
                          calculateDistance: (real, real, real, real) -> real): Reply {
    if |equipment| == 0 then NoEquipment
    else Nearest(equipment, latitude, longitude, calculateDistance)
  }

  /** A missing or blank query is answered before anything else. */
  lemma HandleAsk(locationQuery: Option<string>, equipment: seq<Equipment>,
                  calculateDistance: (real, real, real, real) -> real)
    ensures Handle(locationQuery, equipment, calculateDistance) == AskForLocation <==>
      locationQuery.None? || AllSpace(locationQuery.value)
  {
    if locationQuery.Some? {
      TrimEmptyIff(locationQuery.value);
    }
  }

  /** A query naming no city is reported only when the catalogue has items to offer. */
  lemma HandleUnrecognized(locationQuery: Option<string>, equipment: seq<Equipment>,
                           calculateDistance: (real, real, real, real) -> real)
    ensures Handle(locationQuery, equipment, calculateDistance) == Unrecognized <==>
      locationQuery.Some? && !AllSpace(locationQuery.value) && |equipment| > 0 &&
      Geocode(LocationMap, locationQuery.value).None?
  {
    if locationQuery.Some? {
      TrimEmptyIff(locationQuery.value);
    }
  }

  /** A known city yields between one and five items on the map, nearest first, measured from that city. */
  lemma HandleFound(locationQuery: Option<string>, equipment: seq<Equipment>,
                    calculateDistance: (real, real, real, real) -> real)
    ensures var r := Handle(locationQuery, equipment, calculateDistance);
      r.Found? ==>
        locationQuery.Some? && !AllSpace(locationQuery.value) &&
        Geocode(LocationMap, locationQuery.value).Some? &&
        r.latitude == Geocode(LocationMap, locationQuery.value).value.latitude &&
        r.longitude == Geocode(LocationMap, locationQuery.value).value.longitude &&
        1 <= |r.results| <= 5 &&
        (forall i, j :: 0 <= i < j < |r.results| ==> r.results[i].distance <= r.results[j].distance) &&
        forall k :: 0 <= k < |r.results| ==>
          r.results[k].item in equipment && OnMap(r.results[k].item) &&
          r.results[k].distance == calculateDistance(r.latitude, r.longitude, r.results[k].parsedLat, r.results[k].parsedLon)
  {
    var r := Handle(locationQuery, equipment, calculateDistance);
    if r.Found? {
      HandleAsk(locationQuery, equipment, calculateDistance);
      var c := Geocode(LocationMap, locationQuery.value).value;
      assert r == Nearest(equipment, c.latitude, c.longitude, calculateDistance);
      NearestFiveMeaning(equipment, c.latitude, c.longitude, calculateDistance);
    }
  }

  /** A known city with no item of the catalogue on the map yields nothing. */
  lemma HandleNoneNearby(locationQuery: Option<string>, equipment: seq<Equipment>,
                         calculateDistance: (real, real, real, real) -> real)
    ensures Handle(locationQuery, equipment, calculateDistance) == NoneNearby ==>
      forall eq :: eq in equipment ==> !OnMap(eq)
  {
    if Handle(locationQuery, equipment, calculateDistance) == NoneNearby {
      var c := Geocode(LocationMap, locationQuery.value).value;
      NearestEmpty(equipment, c.latitude, c.longitude, calculateDistance);
    }
  }

  /** The same for a shared point: nothing found exactly when no item is on the map. */
  lemma HandleLocationMeaning(latitude: real, longitude: real, equipment: seq<Equipment>,
                              calculateDistance: (real, real, real, real) -> real)
    ensures var r := HandleLocation(latitude, longitude, equipment, calculateDistance);
      (r == NoEquipment <==> |equipment| == 0) &&
      (r == NoneNearby <==> |equipment| > 0 && forall eq :: eq in equipment ==> !OnMap(eq))
    ensures var r := HandleLocation(latitude, longitude, equipment, calculateDistance);
      r.Found? ==>
        r.latitude == latitude && r.longitude == longitude && 1 <= |r.results| <= 5 &&
        (forall i, j :: 0 <= i < j < |r.results| ==> r.results[i].distance <= r.results[j].distance) &&
        forall k :: 0 <= k < |r.results| ==> r.results[k].item in equipment && OnMap(r.results[k].item)
  {
    NearestFiveMeaning(equipment, latitude, longitude, calculateDistance);
    NearestEmpty(equipment, latitude, longitude, calculateDistance);
  }

  /** The result is empty exactly when no item is on the map. */
  lemma NearestEmpty(equipment: seq<Equipment>, latitude: real, longitude: real,
                     calculateDistance: (real, real, real, real) -> real)
    ensures NearestFive(equipment, latitude, longitude, calculateDistance) == [] <==>
      forall eq :: eq in equipment ==> !OnMap(eq)
  {
    var all := Measured(equipment, latitude, longitude, calculateDistance);
    NearestFiveMeaning(equipment, latitude, longitude, calculateDistance);
    if |all| > 0 {
      assert all[0].item in equipment && OnMap(all[0].item);
    }
    if eq :| eq in equipment && OnMap(eq) {
      var n := Nearby(eq, calculateDistance(latitude, longitude, eq.latitude.value, eq.longitude.value),
                      eq.latitude.value, eq.longitude.value);
      assert n in all;
      assert |all| > 0;
    }
  }
}
