/**
 * The stop lists of the search and nearby-stop handlers: `filterDepartures`
 * (src/routes/vasttrafik.js, copied in src/app.js) and the nearby-stop
 * reduction `_.uniqBy(_.filter(list, o => !o.track), 'name')`.
 */
module Stops {
  import opened Wrappers
  import opened Seqs

  /** One `StopLocation` element; every other field is carried in `fields`. */
  datatype Stop = Stop(name: string, track: Option<string>, fields: map<string, string>)

  /** The `LocationList` of an upstream location answer. */
  datatype LocationList = LocationList(stopLocation: Option<OneOrMany<Stop>>)

  /** `splice(0, 10)`: at most this many stops of an array are kept. */
  const MaxStops: nat := 10

  /** `stop.name.startsWith('.')`. */
  predicate Hidden(s: Stop) {
    |s.name| > 0 && s.name[0] == '.'
  }

  predicate Listed(s: Stop) {
    !Hidden(s)
  }

  /** The first `MaxStops` elements, all of them when there are fewer. */
  function FirstStops(xs: seq<Stop>): (r: seq<Stop>)
    ensures |r| == if |xs| < MaxStops then |xs| else MaxStops
    ensures r == xs[..|r|]
  {
    if |xs| < MaxStops then xs else xs[..MaxStops]
  }

  /**
   * `filterDepartures`: no stops without `StopLocation`; a single stop is
   * wrapped in a list; an array is cut to its first ten stops; stops whose
   * name starts with '.' are dropped, the rest keep their order.
   */
  function FilterDepartures(list: LocationList): (r: seq<Stop>)
    ensures list.stopLocation.None? ==> r == []
    ensures |r| <= MaxStops
    ensures forall x :: x in r ==> !Hidden(x)
    ensures list.stopLocation.Some? && list.stopLocation.value.One? ==>
      var x := list.stopLocation.value.item;
      r == if Hidden(x) then [] else [x]
    ensures list.stopLocation.Some? && list.stopLocation.value.Many? ==>
      var xs := list.stopLocation.value.items;
      && (forall x :: x in r <==> x in FirstStops(xs) && !Hidden(x))
      && r == Filter(FirstStops(xs), Listed)
  {
    match list.stopLocation
    case None => []
    case Some(One(x)) =>
      assert Filter([x], Listed) == (if Listed(x) then [x] else []) + Filter([], Listed);
      Filter([x], Listed)
    case Some(Many(xs)) => Filter(FirstStops(xs), Listed)
  }

  /** JavaScript truthiness of `track`. */
  predicate HasTrack(s: Stop) {
    s.track.Some? && s.track.value != ""
  }

  predicate NoTrack(s: Stop) {
    !HasTrack(s)
  }

  function StopName(s: Stop): string {
    s.name
  }

  /** The stops without a track, in order. */
  function Trackless(stops: seq<Stop>): seq<Stop> {
    Filter(stops, NoTrack)
  }

  /** `_.uniqBy(_.filter(list, o => !o.track), 'name')`. */
  function NearbyStops(stops: seq<Stop>): seq<Stop> {
    UniqBy(Trackless(stops), StopName)
  }

  /** The nearby stops are stops of the input, none with a truthy `track`. */
  lemma {:induction false} NearbyStopsTrackless(stops: seq<Stop>)
    ensures forall x :: x in NearbyStops(stops) ==> x in stops && !HasTrack(x)
  {
    var t := Trackless(stops);
    var r := NearbyStops(stops);
    UniqByFirsts(t, StopName);
    forall x | x in r ensures x in stops && !HasTrack(x) {
      var j :| 0 <= j < |r| && r[j] == x;
      assert x == t[FindIndex(t, StopName, r[j].name)];
    }
  }

  /** Every name of a trackless stop is among the nearby stops, and no two
      nearby stops share a name. */
  lemma {:induction false} NearbyStopsNames(stops: seq<Stop>)
    ensures DistinctKeys(NearbyStops(stops), StopName)
    ensures forall i :: 0 <= i < |stops| && !HasTrack(stops[i]) ==>
      HasKey(NearbyStops(stops), StopName, stops[i].name)
  {
    var t := Trackless(stops);
    UniqByDistinct(t, StopName);
    UniqByKeys(t, StopName);
    forall i | 0 <= i < |stops| && !HasTrack(stops[i])
      ensures HasKey(NearbyStops(stops), StopName, stops[i].name)
    {
      assert stops[i] in t;
      var c :| 0 <= c < |t| && t[c] == stops[i];
      assert HasKey(t, StopName, stops[i].name);
    }
  }

  /** Each nearby stop is the first trackless stop with its name, and the
      nearby stops keep the relative order of the trackless ones. */
  lemma {:induction false} NearbyStopsFirsts(stops: seq<Stop>)
    ensures var r, t := NearbyStops(stops), Trackless(stops);
      && (forall j :: 0 <= j < |r| ==>
            HasKey(t, StopName, r[j].name) && r[j] == t[FindIndex(t, StopName, r[j].name)])
      && (forall j1, j2 :: 0 <= j1 < j2 < |r| ==>
            FindIndex(t, StopName, r[j1].name) < FindIndex(t, StopName, r[j2].name))
  {
    UniqByFirsts(Trackless(stops), StopName);
  }
}
