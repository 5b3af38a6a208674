/** The GTFS bulk loader. Stops, routes, trips and stop-times are merged into
    the store in that order, each kind against the keys stored before its
    file is read, so that a rerun inserts nothing and a key repeated inside
    a file is inserted once. Calendars and calendar dates are appended one
    object per row, without any merge. A file is given as its parsed rows,
    or `None` when it is missing. */
module GtfsLoader {
  import opened Wrappers
  import opened Seqs
  import opened Dates
  import opened Text
  import opened PyInt
  import opened Models
  import opened Dedup

  /** A row of `stops.txt`. */
  datatype StopRow = StopRow(stopId: string, stopName: string, stopLat: real, stopLon: real)

  /** A row of `routes.txt`; optional columns are `None` when absent. */
  datatype RouteRow = RouteRow(
    routeId: int,
    routeShortName: Option<string>,
    routeLongName: Option<string>,
    routeType: Option<int>)

  /** A row of `trips.txt`. */
  datatype TripRow = TripRow(
    tripId: string,
    routeId: int,
    serviceId: Option<string>,
    tripHeadsign: Option<string>,
    directionId: Option<int>)

  /** A row of `stop_times.txt`. */
  datatype StopTimeRow = StopTimeRow(
    tripId: string,
    arrivalTime: Option<string>,
    departureTime: Option<string>,
    stopId: string,
    stopSequence: int)

  /** The region every route of a feed is filed under. */
  const FeedRegion := 1

  function RowToStop(row: StopRow): (p: Stop)
    ensures StopRowOf(p) == row
  {
    Stop(row.stopId, row.stopName, row.stopLat, row.stopLon)
  }

  /** The conversion as the merge applies it: a stop does not depend on its position. */
  function StopAt(row: StopRow, i: nat): Stop {
    RowToStop(row)
  }

  function StopRowOf(p: Stop): StopRow {
    StopRow(p.id, p.name, p.lat, p.lon)
  }

  /** A route of the feed: its id and optional columns as given, in the feed region. */
  function RowToRoute(row: RouteRow): (r: Route)
    ensures r.regionId == FeedRegion
    ensures RouteRowOf(r) == row
  {
    Route(row.routeId, FeedRegion, row.routeShortName, row.routeLongName, row.routeType)
  }

  /** The conversion as the merge applies it: a route does not depend on its position. */
  function RouteAt(row: RouteRow, i: nat): Route {
    RowToRoute(row)
  }

  function RouteRowOf(r: Route): RouteRow {
    RouteRow(r.id, r.shortName, r.longName, r.routeType)
  }

  function RowToTrip(row: TripRow): (t: Trip)
    ensures TripRowOf(t) == row
  {
    Trip(row.tripId, row.routeId, row.serviceId, row.tripHeadsign, row.directionId)
  }

  /** The conversion as the merge applies it: a trip does not depend on its position. */
  function TripAt(row: TripRow, i: nat): Trip {
    RowToTrip(row)
  }

  function TripRowOf(t: Trip): TripRow {
    TripRow(t.id, t.routeId, t.serviceId, t.headsign, t.directionId)
  }

  /** A stop-time of the feed; its surrogate `id` is the serial value drawn on insert. */
  function RowToStopTime(row: StopTimeRow, id: int): (st: StopTime)
    ensures st.id == id
    ensures StopTimeRowOf(st) == row
  {
    StopTime(id, row.tripId, row.arrivalTime, row.departureTime, row.stopId, row.stopSequence)
  }

  function StopTimeRowOf(st: StopTime): StopTimeRow {
    StopTimeRow(st.tripId, st.arrival, st.departure, st.stopId, st.stopSequence)
  }

  function StopRowKey(row: StopRow): string { row.stopId }
  function RouteRowKey(row: RouteRow): int { row.routeId }
  function TripRowKey(row: TripRow): string { row.tripId }
  function StopTimeRowKey(row: StopTimeRow): StopTimeKey {
    StopTimeKey(row.tripId, row.stopId, row.stopSequence)
  }

  /** The four merged files of a feed directory. */
  datatype GtfsFolder = GtfsFolder(
    stops: Option<seq<StopRow>>,
    routes: Option<seq<RouteRow>>,
    trips: Option<seq<TripRow>>,
    stopTimes: Option<seq<StopTimeRow>>)

  datatype LoadError =
    | DirectoryNotFound
    | InvalidInteger(text: string)
    | InvalidDate(text: string)
    | ForeignKeyViolation(kind: Kind)

  /** A run of `load_gtfs_data`: the store as committed, and the counts or
      the error raised. A step that raises leaves the earlier steps
      committed. */
  datatype GtfsRun = GtfsRun(store: Store, outcome: Result<map<Kind, nat>, LoadError>)

  /** The store after a load and the number of rows inserted per kind. */
  datatype Loaded = Loaded(store: Store, counts: map<Kind, nat>)

  /** The kinds a load counts. */
  datatype Kind = StopsKind | RoutesKind | TripsKind | StopTimesKind

  /** The key of a kind in the `counts` dictionary. */
  function KindName(k: Kind): string {
    match k
    case StopsKind => "stops"
    case RoutesKind => "routes"
    case TripsKind => "trips"
    case StopTimesKind => "stop_times"
  }

  /** The stops step: the stored stops, then the new ones. */
  function MergeStops(stops: seq<Stop>, rows: seq<StopRow>): (r: seq<Stop>)
    ensures MergedFrom(stops, rows, StopKey, StopRowKey, r)
  {
    MergeTable(stops, rows, StopKey, StopRowKey, StopAt)
  }

  /** The routes step. */
  function MergeRoutes(routes: seq<Route>, rows: seq<RouteRow>): (r: seq<Route>)
    ensures MergedFrom(routes, rows, RouteKey, RouteRowKey, r)
  {
    MergeTable(routes, rows, RouteKey, RouteRowKey, RouteAt)
  }

  /** The trips step. */
  function MergeTrips(trips: seq<Trip>, rows: seq<TripRow>): (r: seq<Trip>)
    ensures MergedFrom(trips, rows, TripKey, TripRowKey, r)
  {
    MergeTable(trips, rows, TripKey, TripRowKey, TripAt)
  }

  /** Every stop, route and trip the merge adds is an incoming row converted. */
  lemma MergedAreConverted(s: Store, f: GtfsFolder)
    ensures f.stops.Some? ==> var r := MergeStops(s.stops, f.stops.value);
              forall i :: |s.stops| <= i < |r| ==> StopRowOf(r[i]) in f.stops.value
    ensures f.routes.Some? ==> var r := MergeRoutes(s.routes, f.routes.value);
              forall i :: |s.routes| <= i < |r| ==> RouteRowOf(r[i]) in f.routes.value && r[i].regionId == FeedRegion
    ensures f.trips.Some? ==> var r := MergeTrips(s.trips, f.trips.value);
              forall i :: |s.trips| <= i < |r| ==> TripRowOf(r[i]) in f.trips.value
  {
    if f.stops.Some? {
      MergedFromRows(s.stops, f.stops.value, StopKey, StopRowKey, StopAt, StopRowOf);
    }
    if f.routes.Some? {
      MergedFromRows(s.routes, f.routes.value, RouteKey, RouteRowKey, RouteAt, RouteRowOf);
      MergedSatisfy(s.routes, f.routes.value, RouteKey, RouteRowKey, RouteAt, (r: Route) => r.regionId == FeedRegion);
    }
    if f.trips.Some? {
      MergedFromRows(s.trips, f.trips.value, TripKey, TripRowKey, TripAt, TripRowOf);
    }
  }

  /** The conversion of the stop-times step: the n-th inserted row takes id `base + n`. */
  lemma StopTimeConversion(base: int, conv: (StopTimeRow, nat) -> StopTime)
    requires forall row, i :: conv(row, i) == RowToStopTime(row, base + i)
    ensures forall row, i :: TripleOf(conv(row, i)) == StopTimeRowKey(row)
    ensures forall row, i :: StopTimeRowOf(conv(row, i)) == row
    ensures forall row, i :: conv(row, i).id - base == i
  {
  }

  /** What merging stop-times with a serial-id conversion from `base` does. */
  lemma StopTimesMerged(sts: seq<StopTime>, rows: seq<StopTimeRow>, base: int, conv: (StopTimeRow, nat) -> StopTime)
    requires base == NextId(sts, StopTimeId)
    requires forall row, i :: conv(row, i) == RowToStopTime(row, base + i)
    ensures forall row, i :: TripleOf(conv(row, i)) == StopTimeRowKey(row)
    ensures var r := MergeTable(sts, rows, TripleOf, StopTimeRowKey, conv);
            && (UniqueBy(sts, StopTimeId) ==> UniqueBy(r, StopTimeId))
            && (forall i :: |sts| <= i < |r| ==> StopTimeRowOf(r[i]) in rows && r[i].id == base + (i - |sts|))
            && (KeysOf(rows, StopTimeRowKey) <= KeysOf(sts, TripleOf) ==> r == sts)
  {
    StopTimeConversion(base, conv);
    var r := MergeTable(sts, rows, TripleOf, StopTimeRowKey, conv);
    MergedFromRows(sts, rows, TripleOf, StopTimeRowKey, conv, StopTimeRowOf);
    MergedPositions(sts, rows, TripleOf, StopTimeRowKey, conv, (st: StopTime) => st.id - base);
    SerialIdsUnique(sts, r, base);
    if KeysOf(rows, StopTimeRowKey) <= KeysOf(sts, TripleOf) {
      MergeTableOfStored(sts, rows, TripleOf, StopTimeRowKey, conv);
    }
  }

  /** The stop-times step: merged by the (trip, stop, sequence) triple, each
      inserted row taking the next serial id. */
  function MergeStopTimes(sts: seq<StopTime>, rows: seq<StopTimeRow>): (r: seq<StopTime>)
    ensures MergedFrom(sts, rows, TripleOf, StopTimeRowKey, r)
    ensures UniqueBy(sts, StopTimeId) ==> UniqueBy(r, StopTimeId)
    ensures forall i :: |sts| <= i < |r| ==>
              StopTimeRowOf(r[i]) in rows && r[i].id == NextId(sts, StopTimeId) + (i - |sts|)
    ensures KeysOf(rows, StopTimeRowKey) <= KeysOf(sts, TripleOf) ==> r == sts
  {
    var base := NextId(sts, StopTimeId);
    var conv := (row: StopTimeRow, i: nat) => RowToStopTime(row, base + i);
    StopTimesMerged(sts, rows, base, conv);
    var r := MergeTable(sts, rows, TripleOf, StopTimeRowKey, conv);
    assert MergedFrom(sts, rows, TripleOf, StopTimeRowKey, r);
    r
  }

  /** The count of a step: present exactly when its file is. */
  function CountIf<R>(rows: Option<seq<R>>, n: int): (c: Option<nat>)
    ensures c.Some? <==> rows.Some?
    ensures c.Some? && n >= 0 ==> c.value == n
  {
    if rows.Some? then Some(if n >= 0 then n else 0) else None
  }

  /** The `counts` dictionary, one entry per present kind. */
  function CountsMap(stops: Option<nat>, routes: Option<nat>, trips: Option<nat>, stopTimes: Option<nat>): (m: map<Kind, nat>)
    ensures StopsKind in m <==> stops.Some?
    ensures RoutesKind in m <==> routes.Some?
    ensures TripsKind in m <==> trips.Some?
    ensures StopTimesKind in m <==> stopTimes.Some?
    ensures m.Keys <= {StopsKind, RoutesKind, TripsKind, StopTimesKind}
    ensures stops.Some? ==> m[StopsKind] == stops.value
    ensures routes.Some? ==> m[RoutesKind] == routes.value
    ensures trips.Some? ==> m[TripsKind] == trips.value
    ensures stopTimes.Some? ==> m[StopTimesKind] == stopTimes.value
  {
    var m1: map<Kind, nat> := if stops.Some? then map[StopsKind := stops.value] else map[];
    var m2 := if routes.Some? then m1[RoutesKind := routes.value] else m1;
    var m3 := if trips.Some? then m2[TripsKind := trips.value] else m2;
    if stopTimes.Some? then m3[StopTimesKind := stopTimes.value] else m3
  }

  /** Ids drawn consecutively from past the largest id keep ids unique. */
  lemma SerialIdsUnique(prior: seq<StopTime>, sts: seq<StopTime>, base: int)
    requires |prior| <= |sts| && sts[..|prior|] == prior
    requires forall i :: 0 <= i < |prior| ==> prior[i].id < base
    requires forall i :: |prior| <= i < |sts| ==> sts[i].id - base == i - |prior|
    ensures UniqueBy(prior, StopTimeId) ==> UniqueBy(sts, StopTimeId)
  {
    if UniqueBy(prior, StopTimeId) {
      forall i, j | 0 <= i < j < |sts|
        ensures StopTimeId(sts[i]) != StopTimeId(sts[j])
      {
        if j < |prior| {
          assert sts[i] == prior[i] && sts[j] == prior[j];
        } else if i < |prior| {
          assert sts[i] == prior[i];
        }
      }
    }
  }

  /** The four steps in the loader's order, on an existing directory; the
      count of a present kind is the number of rows its step added. */
  function LoadFolder(f: GtfsFolder, s: Store): (l: Loaded)
    ensures StopsKind in l.counts <==> f.stops.Some?
    ensures RoutesKind in l.counts <==> f.routes.Some?
    ensures TripsKind in l.counts <==> f.trips.Some?
    ensures StopTimesKind in l.counts <==> f.stopTimes.Some?
    ensures l.store.regions == s.regions
    ensures l.store.calendars == s.calendars && l.store.calendarDates == s.calendarDates
    ensures f.stops.None? ==> l.store.stops == s.stops
    ensures f.routes.None? ==> l.store.routes == s.routes
    ensures f.trips.None? ==> l.store.trips == s.trips
    ensures f.stopTimes.None? ==> l.store.stopTimes == s.stopTimes
  {
    var stops := if f.stops.Some? then MergeStops(s.stops, f.stops.value) else s.stops;
    var routes := if f.routes.Some? then MergeRoutes(s.routes, f.routes.value) else s.routes;
    var trips := if f.trips.Some? then MergeTrips(s.trips, f.trips.value) else s.trips;
    var sts := if f.stopTimes.Some? then MergeStopTimes(s.stopTimes, f.stopTimes.value) else s.stopTimes;
    var counts := CountsMap(
      CountIf(f.stops, |stops| - |s.stops|),
      CountIf(f.routes, |routes| - |s.routes|),
      CountIf(f.trips, |trips| - |s.trips|),
      CountIf(f.stopTimes, |sts| - |s.stopTimes|));
    Loaded(s.(stops := stops, routes := routes, trips := trips, stopTimes := sts), counts)
  }

  /** After a load a present kind holds the keys stored before and the
      keys of its file. */
  lemma LoadFolderKeys(f: GtfsFolder, s: Store)
    ensures f.stops.Some? ==> KeysOf(LoadFolder(f, s).store.stops, StopKey) == KeysOf(s.stops, StopKey) + KeysOf(f.stops.value, StopRowKey)
    ensures f.routes.Some? ==> KeysOf(LoadFolder(f, s).store.routes, RouteKey) == KeysOf(s.routes, RouteKey) + KeysOf(f.routes.value, RouteRowKey)
    ensures f.trips.Some? ==> KeysOf(LoadFolder(f, s).store.trips, TripKey) == KeysOf(s.trips, TripKey) + KeysOf(f.trips.value, TripRowKey)
    ensures f.stopTimes.Some? ==>
              KeysOf(LoadFolder(f, s).store.stopTimes, TripleOf) == KeysOf(s.stopTimes, TripleOf) + KeysOf(f.stopTimes.value, StopTimeRowKey)
  {
  }

  /** The count of a present kind is the number of its incoming keys that
      were not stored. */
  lemma LoadFolderCounts(f: GtfsFolder, s: Store)
    ensures f.stops.Some? ==>
              LoadFolder(f, s).counts[StopsKind] == |KeysOf(f.stops.value, StopRowKey) - KeysOf(s.stops, StopKey)|
    ensures f.routes.Some? ==>
              LoadFolder(f, s).counts[RoutesKind] == |KeysOf(f.routes.value, RouteRowKey) - KeysOf(s.routes, RouteKey)|
    ensures f.trips.Some? ==>
              LoadFolder(f, s).counts[TripsKind] == |KeysOf(f.trips.value, TripRowKey) - KeysOf(s.trips, TripKey)|
    ensures f.stopTimes.Some? ==>
              LoadFolder(f, s).counts[StopTimesKind] == |KeysOf(f.stopTimes.value, StopTimeRowKey) - KeysOf(s.stopTimes, TripleOf)|
  {
  }

  /** A load keeps every primary key, and the stop-time triple, unique. */
  lemma LoadFolderUnique(f: GtfsFolder, s: Store)
    ensures KeysUnique(s) ==> KeysUnique(LoadFolder(f, s).store)
    ensures TriplesUnique(s) ==> TriplesUnique(LoadFolder(f, s).store)
  {
    var l := LoadFolder(f, s);
    if f.stopTimes.Some? {
      assert UniqueBy(s.stopTimes, StopTimeId) ==> UniqueBy(l.store.stopTimes, StopTimeId);
    }
  }

  /** The routes a step inserted, past the `from` stored before, name a
      stored region. */
  predicate AddedRoutesResolve(routes: seq<Route>, from: nat, regions: seq<Region>) {
    forall i :: from <= i < |routes| ==> routes[i].regionId in KeysOf(regions, RegionKey)
  }

  /** The trips a step inserted name a stored route. */
  predicate AddedTripsResolve(trips: seq<Trip>, from: nat, routes: seq<Route>) {
    forall i :: from <= i < |trips| ==> trips[i].routeId in KeysOf(routes, RouteKey)
  }

  /** The stop-times a step inserted name a stored trip and a stored stop. */
  predicate AddedStopTimesResolve(sts: seq<StopTime>, from: nat, trips: seq<Trip>, stops: seq<Stop>) {
    forall i :: from <= i < |sts| ==> sts[i].tripId in KeysOf(trips, TripKey) && sts[i].stopId in KeysOf(stops, StopKey)
  }

  /** The commits of the four steps, given the store `s` they start from
      and `l`, what the steps would store and count if every commit landed.
      The database refuses a commit when a row the step inserted names a
      key that is not stored: that step is rolled back and raises, the
      earlier steps stay committed and the later ones do not run. Stops
      name no other table. */
  function Commit(s: Store, l: Loaded): (r: GtfsRun)
    ensures r.outcome.Ok? <==> && AddedRoutesResolve(l.store.routes, |s.routes|, s.regions)
                               && AddedTripsResolve(l.store.trips, |s.trips|, l.store.routes)
                               && AddedStopTimesResolve(l.store.stopTimes, |s.stopTimes|, l.store.trips, l.store.stops)
    ensures r.outcome.Ok? ==> r == GtfsRun(l.store, Ok(l.counts))
    ensures r.outcome.Err? ==> r.outcome.error.ForeignKeyViolation? && r.outcome.error.kind != StopsKind
    ensures r.outcome == Err(ForeignKeyViolation(RoutesKind)) <==>
              !AddedRoutesResolve(l.store.routes, |s.routes|, s.regions)
    ensures r.outcome == Err(ForeignKeyViolation(TripsKind)) <==>
              && AddedRoutesResolve(l.store.routes, |s.routes|, s.regions)
              && !AddedTripsResolve(l.store.trips, |s.trips|, l.store.routes)
    ensures r.outcome == Err(ForeignKeyViolation(StopTimesKind)) <==>
              && AddedRoutesResolve(l.store.routes, |s.routes|, s.regions)
              && AddedTripsResolve(l.store.trips, |s.trips|, l.store.routes)
              && !AddedStopTimesResolve(l.store.stopTimes, |s.stopTimes|, l.store.trips, l.store.stops)
    ensures r.outcome == Err(ForeignKeyViolation(RoutesKind)) ==> r.store == s.(stops := l.store.stops)
    ensures r.outcome == Err(ForeignKeyViolation(TripsKind)) ==>
              r.store == s.(stops := l.store.stops, routes := l.store.routes)
    ensures r.outcome == Err(ForeignKeyViolation(StopTimesKind)) ==> r.store == l.store.(stopTimes := s.stopTimes)
  {
    var t := l.store;
    if !AddedRoutesResolve(t.routes, |s.routes|, s.regions) then
      GtfsRun(s.(stops := t.stops), Err(ForeignKeyViolation(RoutesKind)))
    else if !AddedTripsResolve(t.trips, |s.trips|, t.routes) then
      GtfsRun(s.(stops := t.stops, routes := t.routes), Err(ForeignKeyViolation(TripsKind)))
    else if !AddedStopTimesResolve(t.stopTimes, |s.stopTimes|, t.trips, t.stops) then
      GtfsRun(t.(stopTimes := s.stopTimes), Err(ForeignKeyViolation(StopTimesKind)))
    else
      GtfsRun(t, Ok(l.counts))
  }

  /** `load_gtfs_data`: a missing directory raises before anything is
      stored; otherwise the steps run and commit in order. */
  function LoadGtfsData(folder: Option<GtfsFolder>, s: Store): (r: GtfsRun)
    ensures folder.None? <==> r.outcome == Err(DirectoryNotFound)
    ensures folder.None? ==> r.store == s
    ensures folder.Some? ==> r == Commit(s, LoadFolder(folder.value, s))
  {
    match folder
    case None => GtfsRun(s, Err(DirectoryNotFound))
    case Some(f) => Commit(s, LoadFolder(f, s))
  }

  /** After the steps the stops stored before are still in front. */
  lemma StopsPrefix(f: GtfsFolder, s: Store)
    ensures var t := LoadFolder(f, s).store; |s.stops| <= |t.stops| && t.stops[..|s.stops|] == s.stops
  {
    if f.stops.Some? {
      var m := MergeStops(s.stops, f.stops.value);
      assert |s.stops| <= |m| && m[..|s.stops|] == s.stops;
    }
  }

  /** After the steps the routes stored before are still in front. */
  lemma RoutesPrefix(f: GtfsFolder, s: Store)
    ensures var t := LoadFolder(f, s).store; |s.routes| <= |t.routes| && t.routes[..|s.routes|] == s.routes
  {
    if f.routes.Some? {
      var m := MergeRoutes(s.routes, f.routes.value);
      assert |s.routes| <= |m| && m[..|s.routes|] == s.routes;
    }
  }

  /** After the steps the trips stored before are still in front. */
  lemma TripsPrefix(f: GtfsFolder, s: Store)
    ensures var t := LoadFolder(f, s).store; |s.trips| <= |t.trips| && t.trips[..|s.trips|] == s.trips
  {
    if f.trips.Some? {
      var m := MergeTrips(s.trips, f.trips.value);
      assert |s.trips| <= |m| && m[..|s.trips|] == s.trips;
    }
  }

  /** After the steps the stop-times stored before are still in front. */
  lemma StopTimesPrefix(f: GtfsFolder, s: Store)
    ensures var t := LoadFolder(f, s).store;
            |s.stopTimes| <= |t.stopTimes| && t.stopTimes[..|s.stopTimes|] == s.stopTimes
  {
    if f.stopTimes.Some? {
      var m := MergeStopTimes(s.stopTimes, f.stopTimes.value);
      assert |s.stopTimes| <= |m| && m[..|s.stopTimes|] == s.stopTimes;
    }
  }

  /** A reference column stays resolved when a table either stays as it
      was or grows by rows whose references resolve, and the keys it
      refers to only grow. */
  lemma GrownResolves<T, K>(before: seq<T>, after: seq<T>, ref: T -> K, keysBefore: set<K>, keysAfter: set<K>)
    requires forall x :: x in before ==> ref(x) in keysBefore
    requires keysBefore <= keysAfter
    requires after == before
             || (&& |before| <= |after| && after[..|before|] == before
                 && forall i :: |before| <= i < |after| ==> ref(after[i]) in keysAfter)
    ensures forall x :: x in after ==> ref(x) in keysAfter
  {
    forall x | x in after
      ensures ref(x) in keysAfter
    {
      var i :| 0 <= i < |after| && after[i] == x;
      if i < |before| {
        assert after[i] == after[..|before|][i];
      }
    }
  }

  /** A table that either stays or becomes its grown version only gains keys. */
  lemma KeptOrGrownKeys<T, K>(before: seq<T>, grown: seq<T>, after: seq<T>, key: T -> K)
    requires |before| <= |grown| && grown[..|before|] == before
    requires after == before || after == grown
    ensures KeysOf(before, key) <= KeysOf(after, key)
  {
    if after == grown {
      forall k | k in KeysOf(before, key)
        ensures k in KeysOf(after, key)
      {
        var i :| 0 <= i < |before| && key(before[i]) == k;
        assert after[i] == after[..|before|][i];
      }
    }
  }

  /** Whatever step raises, the committed store keeps every foreign key
      resolved, given that the steps only append rows and leave the regions
      alone. */
  lemma CommitResolves(s: Store, l: Loaded)
    requires ReferencesResolve(s)
    requires l.store.regions == s.regions
    requires |s.stops| <= |l.store.stops| && l.store.stops[..|s.stops|] == s.stops
    requires |s.routes| <= |l.store.routes| && l.store.routes[..|s.routes|] == s.routes
    requires |s.trips| <= |l.store.trips| && l.store.trips[..|s.trips|] == s.trips
    requires |s.stopTimes| <= |l.store.stopTimes| && l.store.stopTimes[..|s.stopTimes|] == s.stopTimes
    ensures ReferencesResolve(Commit(s, l).store)
  {
    var t := l.store;
    var r := Commit(s, l).store;
    assert r.regions == s.regions;
    assert r.stops == s.stops || r.stops == t.stops;
    assert r.routes == s.routes || (r.routes == t.routes && AddedRoutesResolve(t.routes, |s.routes|, s.regions));
    assert r.trips == s.trips || (r.trips == t.trips && AddedTripsResolve(t.trips, |s.trips|, r.routes));
    assert r.stopTimes == s.stopTimes
           || (r.stopTimes == t.stopTimes && AddedStopTimesResolve(t.stopTimes, |s.stopTimes|, r.trips, r.stops));
    KeptOrGrownKeys(s.stops, t.stops, r.stops, StopKey);
    KeptOrGrownKeys(s.routes, t.routes, r.routes, RouteKey);
    KeptOrGrownKeys(s.trips, t.trips, r.trips, TripKey);
    GrownResolves(s.routes, r.routes, (x: Route) => x.regionId,
                  KeysOf(s.regions, RegionKey), KeysOf(r.regions, RegionKey));
    GrownResolves(s.trips, r.trips, (x: Trip) => x.routeId,
                  KeysOf(s.routes, RouteKey), KeysOf(r.routes, RouteKey));
    GrownResolves(s.stopTimes, r.stopTimes, (x: StopTime) => x.tripId,
                  KeysOf(s.trips, TripKey), KeysOf(r.trips, TripKey));
    GrownResolves(s.stopTimes, r.stopTimes, (x: StopTime) => x.stopId,
                  KeysOf(s.stops, StopKey), KeysOf(r.stops, StopKey));
  }

  /** A GTFS load, whichever step raises, leaves every foreign key of the
      committed store naming a stored row. */
  lemma CommitKeepsReferences(f: GtfsFolder, s: Store)
    requires ReferencesResolve(s)
    ensures ReferencesResolve(LoadGtfsData(Some(f), s).store)
  {
    StopsPrefix(f, s);
    RoutesPrefix(f, s);
    TripsPrefix(f, s);
    StopTimesPrefix(f, s);
    CommitResolves(s, LoadFolder(f, s));
  }

  /** A second load of the same directory after one that completed
      completes too, changes nothing and counts zero for every present kind. */
  lemma LoadGtfsDataRerun(f: GtfsFolder, s: Store)
    requires LoadGtfsData(Some(f), s).outcome.Ok?
    ensures var first := LoadGtfsData(Some(f), s);
            var second := LoadGtfsData(Some(f), first.store);
            && second.store == first.store
            && second.outcome.Ok?
            && forall k :: k in second.outcome.value ==> second.outcome.value[k] == 0
  {
    var t := LoadGtfsData(Some(f), s).store;
    assert t == LoadFolder(f, s).store;
    LoadIdempotent(f, s);
    var l := LoadFolder(f, t);
    assert l.store == t;
    assert AddedRoutesResolve(l.store.routes, |t.routes|, t.regions);
    assert AddedTripsResolve(l.store.trips, |t.trips|, l.store.routes);
    assert AddedStopTimesResolve(l.store.stopTimes, |t.stopTimes|, l.store.trips, l.store.stops);
  }

  /** A store holding region 1 only, and a feed whose one trip names
      route 7 while its one route is route 5. */
  const RegionOnly := EmptyStore.(regions := [Region(1, "Managua")])
  const DanglingFeed := GtfsFolder(None, Some([RouteRow(5, None, None, None)]),
                                   Some([TripRow("T1", 7, None, None, None)]), None)

  /** A lone route read into a store without routes would be inserted. */
  lemma OneRouteLoaded(f: GtfsFolder, s: Store, row: RouteRow)
    requires s.routes == [] && f.routes == Some([row])
    ensures LoadFolder(f, s).store.routes == [RowToRoute(row)]
  {
    MergeOneIntoEmpty(row, RouteKey, RouteRowKey, RouteAt);
  }

  /** A lone trip read into a store without trips would be inserted. */
  lemma OneTripLoaded(f: GtfsFolder, s: Store, row: TripRow)
    requires s.trips == [] && f.trips == Some([row])
    ensures LoadFolder(f, s).store.trips == [RowToTrip(row)]
  {
    MergeOneIntoEmpty(row, TripKey, TripRowKey, TripAt);
  }

  /** Committing those steps: the route lands, the trip is refused. */
  lemma CommitDangling(l: Loaded)
    requires l.store.regions == RegionOnly.regions
    requires l.store.routes == [Route(5, FeedRegion, None, None, None)]
    requires l.store.trips == [Trip("T1", 7, None, None, None)]
    ensures Commit(RegionOnly, l).outcome == Err(ForeignKeyViolation(TripsKind))
    ensures Commit(RegionOnly, l).store.routes == l.store.routes && Commit(RegionOnly, l).store.trips == []
  {
    var s := RegionOnly;
    assert RegionKey(s.regions[0]) in KeysOf(s.regions, RegionKey);
    assert AddedRoutesResolve(l.store.routes, 0, s.regions);
    assert 7 !in KeysOf(l.store.routes, RouteKey);
    assert l.store.trips[0].routeId == 7;
  }

  /** A trip naming a route that neither the store nor its feed holds: the
      routes step stays committed and the trips step raises. */
  lemma DanglingTripExample()
    ensures var r := LoadGtfsData(Some(DanglingFeed), RegionOnly);
            && r.outcome == Err(ForeignKeyViolation(TripsKind))
            && r.store.routes == [Route(5, FeedRegion, None, None, None)]
            && r.store.trips == []
  {
    OneRouteLoaded(DanglingFeed, RegionOnly, RouteRow(5, None, None, None));
    OneTripLoaded(DanglingFeed, RegionOnly, TripRow("T1", 7, None, None, None));
    CommitDangling(LoadFolder(DanglingFeed, RegionOnly));
  }

  /** Merging the same stops twice inserts nothing the second time. */
  lemma RerunStops(stops: seq<Stop>, rows: seq<StopRow>)
    ensures MergeStops(MergeStops(stops, rows), rows) == MergeStops(stops, rows)
  {
    MergeTableOfStored(MergeStops(stops, rows), rows, StopKey, StopRowKey, StopAt);
  }

  /** Merging the same routes twice inserts nothing the second time. */
  lemma RerunRoutes(routes: seq<Route>, rows: seq<RouteRow>)
    ensures MergeRoutes(MergeRoutes(routes, rows), rows) == MergeRoutes(routes, rows)
  {
    MergeTableOfStored(MergeRoutes(routes, rows), rows, RouteKey, RouteRowKey, RouteAt);
  }

  /** Merging the same trips twice inserts nothing the second time. */
  lemma RerunTrips(trips: seq<Trip>, rows: seq<TripRow>)
    ensures MergeTrips(MergeTrips(trips, rows), rows) == MergeTrips(trips, rows)
  {
    MergeTableOfStored(MergeTrips(trips, rows), rows, TripKey, TripRowKey, TripAt);
  }

  /** Merging the same stop-times twice inserts nothing the second time. */
  lemma RerunStopTimes(sts: seq<StopTime>, rows: seq<StopTimeRow>)
    ensures MergeStopTimes(MergeStopTimes(sts, rows), rows) == MergeStopTimes(sts, rows)
  {
    var once := MergeStopTimes(sts, rows);
    assert KeysOf(rows, StopTimeRowKey) <= KeysOf(once, TripleOf);
  }

  /** A store that already holds every row of the files is left as it is,
      and every present kind counts zero. */
  lemma LoadStored(f: GtfsFolder, t: Store)
    requires f.stops.Some? ==> MergeStops(t.stops, f.stops.value) == t.stops
    requires f.routes.Some? ==> MergeRoutes(t.routes, f.routes.value) == t.routes
    requires f.trips.Some? ==> MergeTrips(t.trips, f.trips.value) == t.trips
    requires f.stopTimes.Some? ==> MergeStopTimes(t.stopTimes, f.stopTimes.value) == t.stopTimes
    ensures LoadFolder(f, t).store == t
    ensures forall k :: k in LoadFolder(f, t).counts ==> LoadFolder(f, t).counts[k] == 0
  {
    var l := LoadFolder(f, t);
    assert l.store == t;
    forall k | k in l.counts
      ensures l.counts[k] == 0
    {
      match k
      case StopsKind =>
      case RoutesKind =>
      case TripsKind =>
      case StopTimesKind =>
    }
  }

  /** Loading the same files again, against the store the first load left,
      inserts nothing and reports zero for every present kind. */
  lemma LoadIdempotent(f: GtfsFolder, s: Store)
    ensures var first := LoadFolder(f, s);
            var second := LoadFolder(f, first.store);
            && second.store == first.store
            && forall k :: k in second.counts ==> second.counts[k] == 0
  {
    var t := LoadFolder(f, s).store;
    if f.stops.Some? {
      RerunStops(s.stops, f.stops.value);
    }
    if f.routes.Some? {
      RerunRoutes(s.routes, f.routes.value);
    }
    if f.trips.Some? {
      RerunTrips(s.trips, f.trips.value);
    }
    if f.stopTimes.Some? {
      RerunStopTimes(s.stopTimes, f.stopTimes.value);
    }
    LoadStored(f, t);
  }

  /** Two new stop-time rows that differ in trip, stop or sequence are both inserted. */
  lemma DistinctTriplesBothInserted(sts: seq<StopTime>, a: StopTimeRow, b: StopTimeRow)
    requires StopTimeRowKey(a) != StopTimeRowKey(b)
    requires StopTimeRowKey(a) !in KeysOf(sts, TripleOf) && StopTimeRowKey(b) !in KeysOf(sts, TripleOf)
    ensures |MergeStopTimes(sts, [a, b])| == |sts| + 2
  {
    KeysOfPair(a, b, StopTimeRowKey);
    assert KeysOf([a, b], StopTimeRowKey) - KeysOf(sts, TripleOf) == {StopTimeRowKey(a), StopTimeRowKey(b)};
  }

  /** Two new stop-time rows with the same triple are inserted once, whatever their times. */
  lemma SameTripleInsertedOnce(sts: seq<StopTime>, a: StopTimeRow, b: StopTimeRow)
    requires StopTimeRowKey(a) == StopTimeRowKey(b)
    requires StopTimeRowKey(a) !in KeysOf(sts, TripleOf)
    ensures |MergeStopTimes(sts, [a, b])| == |sts| + 1
  {
    KeysOfPair(a, b, StopTimeRowKey);
    assert KeysOf([a, b], StopTimeRowKey) - KeysOf(sts, TripleOf) == {StopTimeRowKey(a)};
  }

  /** A row of `calendar.txt`, every cell as the text read. */
  datatype CalendarRow = CalendarRow(
    serviceId: string,
    monday: string,
    tuesday: string,
    wednesday: string,
    thursday: string,
    friday: string,
    saturday: string,
    sunday: string,
    startDate: string,
    endDate: string)

  /** A row of `calendar_dates.txt`. */
  datatype CalendarDateRow = CalendarDateRow(serviceId: string, date: string, exceptionType: string)

  /** `int(text)`, raising on text that is not an integer. */
  function ReadInt(text: string): (r: Result<int, LoadError>)
    ensures r.Err? ==> r.error == InvalidInteger(text)
    ensures r.Ok? <==> ParsePyInt(text).Some?
  {
    match ParsePyInt(text)
    case Some(n) => Ok(n)
    case None => Err(InvalidInteger(text))
  }

  /** A cell of plain decimal digits reads as its decimal value; a blank
      cell raises. */
  lemma ReadIntDigits(text: string)
    ensures text != [] && AllDigits(text) ==> ReadInt(text) == Ok(DigitsValue(text))
    ensures AllPySpace(text) ==> ReadInt(text).Err?
  {
    if text != [] && AllDigits(text) {
      ParsePlainDigits(text);
    }
    if AllPySpace(text) {
      RejectBlank(text);
    }
  }

  /** `int(str(i)) == i`, as a reader of a cell. */
  lemma ReadIntRoundTrip(i: int)
    ensures ReadInt(IntToDecimal(i)) == Ok(i)
  {
    ParseDecimalRoundTrip(i);
  }

  /** `bool(int(text))`. */
  function ReadFlag(text: string): (r: Result<bool, LoadError>)
    ensures r.Err? ==> r.error == InvalidInteger(text)
    ensures r.Ok? <==> ReadInt(text).Ok?
  {
    var n :- ReadInt(text);
    Ok(n != 0)
  }

  /** A run of digits is set exactly when one of its digits is not `0`. */
  lemma ReadFlagDigits(text: string)
    requires text != [] && AllDigits(text)
    ensures ReadFlag(text) == Ok(exists i :: 0 <= i < |text| && text[i] != '0')
  {
    ReadIntDigits(text);
    DigitsValueZero(text);
  }

  /** `strptime(text, "%Y%m%d").date()`, raising on text that is not a date. */
  function ReadDate(text: string): (r: Result<Date, LoadError>)
    ensures r.Ok? <==> ParseCompactDate(text).Some?
    ensures r.Ok? ==> Valid(r.value) && ParseCompactDate(text) == Some(r.value)
    ensures r.Err? ==> r.error == InvalidDate(text)
  {
    match ParseCompactDate(text)
    case Some(d) => Ok(d)
    case None => Err(InvalidDate(text))
  }

  /** A date written as `%Y%m%d` reads back as itself. */
  lemma ReadDateRoundTrip(d: Date)
    requires Valid(d)
    ensures ReadDate(FormatDate(d, "")) == Ok(d)
  {
    StrptimeRoundTrip(d, "");
  }

  /** Every weekday cell of the row reads as a flag. */
  predicate FlagsRead(row: CalendarRow) {
    && ReadFlag(row.monday).Ok? && ReadFlag(row.tuesday).Ok? && ReadFlag(row.wednesday).Ok?
    && ReadFlag(row.thursday).Ok? && ReadFlag(row.friday).Ok? && ReadFlag(row.saturday).Ok?
    && ReadFlag(row.sunday).Ok?
  }

  /** One calendar per row; the cells are read in column order and the first
      unreadable one raises. */
  function RowToCalendar(row: CalendarRow): (r: Result<Calendar, LoadError>)
    ensures r.Ok? <==> FlagsRead(row) && ReadDate(row.startDate).Ok? && ReadDate(row.endDate).Ok?
    ensures r.Ok? ==> r.value.serviceId == row.serviceId
    ensures r.Ok? ==> && ReadFlag(row.monday) == Ok(r.value.monday) && ReadFlag(row.tuesday) == Ok(r.value.tuesday)
                      && ReadFlag(row.wednesday) == Ok(r.value.wednesday) && ReadFlag(row.thursday) == Ok(r.value.thursday)
                      && ReadFlag(row.friday) == Ok(r.value.friday) && ReadFlag(row.saturday) == Ok(r.value.saturday)
                      && ReadFlag(row.sunday) == Ok(r.value.sunday)
    ensures r.Ok? ==> ReadDate(row.startDate) == Ok(r.value.startDate) && ReadDate(row.endDate) == Ok(r.value.endDate)
    ensures r.Ok? ==> Valid(r.value.startDate) && Valid(r.value.endDate)
  {
    var monday :- ReadFlag(row.monday);
    var tuesday :- ReadFlag(row.tuesday);
    var wednesday :- ReadFlag(row.wednesday);
    var thursday :- ReadFlag(row.thursday);
    var friday :- ReadFlag(row.friday);
    var saturday :- ReadFlag(row.saturday);
    var sunday :- ReadFlag(row.sunday);
    var start :- ReadDate(row.startDate);
    var end :- ReadDate(row.endDate);
    Ok(Calendar(row.serviceId, monday, tuesday, wednesday, thursday, friday, saturday, sunday, start, end))
  }

  /** A calendar row raises on its first unreadable cell: each weekday cell
      only when every earlier one read, then the start date, then the end date. */
  lemma RowToCalendarError(row: CalendarRow)
    ensures ReadFlag(row.monday).Err? ==> RowToCalendar(row) == Err(InvalidInteger(row.monday))
    ensures ReadFlag(row.monday).Ok? && ReadFlag(row.tuesday).Err?
            ==> RowToCalendar(row) == Err(InvalidInteger(row.tuesday))
    ensures ReadFlag(row.monday).Ok? && ReadFlag(row.tuesday).Ok? && ReadFlag(row.wednesday).Err?
            ==> RowToCalendar(row) == Err(InvalidInteger(row.wednesday))
    ensures ReadFlag(row.monday).Ok? && ReadFlag(row.tuesday).Ok? && ReadFlag(row.wednesday).Ok?
            && ReadFlag(row.thursday).Err?
            ==> RowToCalendar(row) == Err(InvalidInteger(row.thursday))
    ensures ReadFlag(row.monday).Ok? && ReadFlag(row.tuesday).Ok? && ReadFlag(row.wednesday).Ok?
            && ReadFlag(row.thursday).Ok? && ReadFlag(row.friday).Err?
            ==> RowToCalendar(row) == Err(InvalidInteger(row.friday))
    ensures ReadFlag(row.monday).Ok? && ReadFlag(row.tuesday).Ok? && ReadFlag(row.wednesday).Ok?
            && ReadFlag(row.thursday).Ok? && ReadFlag(row.friday).Ok? && ReadFlag(row.saturday).Err?
            ==> RowToCalendar(row) == Err(InvalidInteger(row.saturday))
    ensures ReadFlag(row.monday).Ok? && ReadFlag(row.tuesday).Ok? && ReadFlag(row.wednesday).Ok?
            && ReadFlag(row.thursday).Ok? && ReadFlag(row.friday).Ok? && ReadFlag(row.saturday).Ok?
            && ReadFlag(row.sunday).Err?
            ==> RowToCalendar(row) == Err(InvalidInteger(row.sunday))
    ensures FlagsRead(row) && ReadDate(row.startDate).Err?
            ==> RowToCalendar(row) == Err(InvalidDate(row.startDate))
    ensures FlagsRead(row) && ReadDate(row.startDate).Ok? && ReadDate(row.endDate).Err?
            ==> RowToCalendar(row) == Err(InvalidDate(row.endDate))
  {
  }

  function FlagText(b: bool): string {
    if b then "1" else "0"
  }

  /** The row a feed writes for a calendar. */
  function CalendarRowOf(c: Calendar): CalendarRow
    requires Valid(c.startDate) && Valid(c.endDate)
  {
    CalendarRow(c.serviceId, FlagText(c.monday), FlagText(c.tuesday), FlagText(c.wednesday),
                FlagText(c.thursday), FlagText(c.friday), FlagText(c.saturday), FlagText(c.sunday),
                FormatDate(c.startDate, ""), FormatDate(c.endDate, ""))
  }

  lemma FlagTextRead(b: bool)
    ensures ReadFlag(FlagText(b)) == Ok(b)
  {
    assert AllDigits(FlagText(b));
    ReadFlagDigits(FlagText(b));
  }

  /** Reading back the row written for a calendar gives the calendar. */
  lemma CalendarRoundTrip(c: Calendar)
    requires Valid(c.startDate) && Valid(c.endDate)
    ensures RowToCalendar(CalendarRowOf(c)) == Ok(c)
  {
    FlagTextRead(c.monday);
    FlagTextRead(c.tuesday);
    FlagTextRead(c.wednesday);
    FlagTextRead(c.thursday);
    FlagTextRead(c.friday);
    FlagTextRead(c.saturday);
    FlagTextRead(c.sunday);
    var row := CalendarRowOf(c);
    assert ReadDate(row.startDate) == Ok(c.startDate) by {
      ReadDateRoundTrip(c.startDate);
    }
    assert ReadDate(row.endDate) == Ok(c.endDate) by {
      ReadDateRoundTrip(c.endDate);
    }
  }

  /** One calendar exception per row: the date is read before the type. */
  function RowToCalendarDate(row: CalendarDateRow): (r: Result<CalendarDate, LoadError>)
    ensures r.Ok? <==> ParseCompactDate(row.date).Some? && ParsePyInt(row.exceptionType).Some?
    ensures r.Ok? ==> r.value.serviceId == row.serviceId && Valid(r.value.date)
    ensures r.Ok? ==> ParseCompactDate(row.date) == Some(r.value.date)
    ensures r.Ok? ==> ParsePyInt(row.exceptionType) == Some(r.value.exceptionType)
    ensures ParseCompactDate(row.date).None? ==> r == Err(InvalidDate(row.date))
    ensures ParseCompactDate(row.date).Some? && ParsePyInt(row.exceptionType).None?
            ==> r == Err(InvalidInteger(row.exceptionType))
  {
    var date :- ReadDate(row.date);
    var exceptionType :- ReadInt(row.exceptionType);
    Ok(CalendarDate(row.serviceId, date, exceptionType))
  }

  /** The row a feed writes for a calendar exception. */
  function CalendarDateRowOf(e: CalendarDate): CalendarDateRow
    requires Valid(e.date)
  {
    CalendarDateRow(e.serviceId, FormatDate(e.date, ""), IntToDecimal(e.exceptionType))
  }

  /** Reading back the row written for a calendar exception gives the exception. */
  lemma CalendarDateRoundTrip(e: CalendarDate)
    requires Valid(e.date)
    ensures RowToCalendarDate(CalendarDateRowOf(e)) == Ok(e)
  {
    ReadDateRoundTrip(e.date);
    ReadIntRoundTrip(e.exceptionType);
  }

  /** The rows of a file converted in order; the first row that raises aborts it. */
  function ConvertAll<R, T>(rows: seq<R>, conv: R -> Result<T, LoadError>): (r: Result<seq<T>, LoadError>)
    ensures r.Ok? <==> forall i :: 0 <= i < |rows| ==> conv(rows[i]).Ok?
    ensures r.Ok? ==> |r.value| == |rows| && forall i :: 0 <= i < |rows| ==> conv(rows[i]) == Ok(r.value[i])
    ensures r.Err? ==> exists i :: 0 <= i < |rows| && conv(rows[i]) == Err(r.error)
                                   && forall j :: 0 <= j < i ==> conv(rows[j]).Ok?
    decreases |rows|
  {
    if rows == [] then Ok([])
    else
      var first :- conv(rows[0]);
      var rest :- ConvertAll(rows[1..], conv);
      Ok([first] + rest)
  }

  /** The rows of a file; none when it is missing. */
  function RowsOf<R>(file: Option<seq<R>>): seq<R> {
    file.GetOr([])
  }

  /** `load_gtfs`: the calendar rows, then the calendar-date rows, are each
      appended one object per row with no merge; a missing file adds nothing,
      and a row that raises aborts the load before anything is committed,
      a calendar row before any calendar-date row. */
  function LoadCalendars(s: Store, calendar: Option<seq<CalendarRow>>, calendarDates: Option<seq<CalendarDateRow>>): (r: Result<Store, LoadError>)
    ensures r.Ok? <==> && (forall i :: 0 <= i < |RowsOf(calendar)| ==> RowToCalendar(RowsOf(calendar)[i]).Ok?)
                       && (forall i :: 0 <= i < |RowsOf(calendarDates)| ==> RowToCalendarDate(RowsOf(calendarDates)[i]).Ok?)
    ensures r.Ok? ==> r.value == s.(calendars := r.value.calendars, calendarDates := r.value.calendarDates)
  {
    var cals :- ConvertAll(RowsOf(calendar), RowToCalendar);
    var dates :- ConvertAll(RowsOf(calendarDates), RowToCalendarDate);
    Ok(s.(calendars := s.calendars + cals, calendarDates := s.calendarDates + dates))
  }

  /** A bad calendar row aborts the load with its own error, whatever the
      calendar-date rows hold. */
  lemma CalendarErrorFirst(s: Store, calendar: Option<seq<CalendarRow>>, calendarDates: Option<seq<CalendarDateRow>>, k: nat)
    requires k < |RowsOf(calendar)| && RowToCalendar(RowsOf(calendar)[k]).Err?
    ensures var r := LoadCalendars(s, calendar, calendarDates);
            && r.Err?
            && exists i :: 0 <= i < |RowsOf(calendar)| && RowToCalendar(RowsOf(calendar)[i]) == Err(r.error)
  {
  }

  /** A successful load is the store with both files' conversions appended. */
  lemma LoadCalendarsOk(s: Store, calendar: Option<seq<CalendarRow>>, calendarDates: Option<seq<CalendarDateRow>>)
    requires LoadCalendars(s, calendar, calendarDates).Ok?
    ensures ConvertAll(RowsOf(calendar), RowToCalendar).Ok?
    ensures ConvertAll(RowsOf(calendarDates), RowToCalendarDate).Ok?
    ensures LoadCalendars(s, calendar, calendarDates).value
            == s.(calendars := s.calendars + ConvertAll(RowsOf(calendar), RowToCalendar).value,
                  calendarDates := s.calendarDates + ConvertAll(RowsOf(calendarDates), RowToCalendarDate).value)
  {
  }

  /** A load appends one calendar per row of `calendar.txt`, in file order. */
  lemma LoadCalendarsRows(s: Store, calendar: Option<seq<CalendarRow>>, calendarDates: Option<seq<CalendarDateRow>>)
    requires LoadCalendars(s, calendar, calendarDates).Ok?
    ensures var t := LoadCalendars(s, calendar, calendarDates).value;
            && |s.calendars| <= |t.calendars|
            && t.calendars[..|s.calendars|] == s.calendars
            && ConvertAll(RowsOf(calendar), RowToCalendar) == Ok(t.calendars[|s.calendars|..])
  {
    LoadCalendarsOk(s, calendar, calendarDates);
    var cals := ConvertAll(RowsOf(calendar), RowToCalendar).value;
    var t := LoadCalendars(s, calendar, calendarDates).value;
    assert t.calendars[..|s.calendars|] == s.calendars;
    assert t.calendars[|s.calendars|..] == cals;
  }

  /** A load appends one calendar date per row of `calendar_dates.txt`, in file order. */
  lemma LoadCalendarDatesRows(s: Store, calendar: Option<seq<CalendarRow>>, calendarDates: Option<seq<CalendarDateRow>>)
    requires LoadCalendars(s, calendar, calendarDates).Ok?
    ensures var t := LoadCalendars(s, calendar, calendarDates).value;
            && |s.calendarDates| <= |t.calendarDates|
            && t.calendarDates[..|s.calendarDates|] == s.calendarDates
            && ConvertAll(RowsOf(calendarDates), RowToCalendarDate) == Ok(t.calendarDates[|s.calendarDates|..])
  {
    LoadCalendarsOk(s, calendar, calendarDates);
    var dates := ConvertAll(RowsOf(calendarDates), RowToCalendarDate).value;
    var t := LoadCalendars(s, calendar, calendarDates).value;
    assert t.calendarDates[..|s.calendarDates|] == s.calendarDates;
    assert t.calendarDates[|s.calendarDates|..] == dates;
  }

  /** Loading the same calendar files twice stores every row twice. */
  lemma CalendarsNotMerged(s: Store, calendar: Option<seq<CalendarRow>>, calendarDates: Option<seq<CalendarDateRow>>)
    requires LoadCalendars(s, calendar, calendarDates).Ok?
    ensures var once := LoadCalendars(s, calendar, calendarDates).value;
            var twice := LoadCalendars(once, calendar, calendarDates);
            && twice.Ok?
            && |twice.value.calendars| == |s.calendars| + 2 * |RowsOf(calendar)|
            && |twice.value.calendarDates| == |s.calendarDates| + 2 * |RowsOf(calendarDates)|
  {
    var once := LoadCalendars(s, calendar, calendarDates).value;
    LoadCalendarsRows(s, calendar, calendarDates);
    LoadCalendarDatesRows(s, calendar, calendarDates);
    LoadCalendarsRows(once, calendar, calendarDates);
    LoadCalendarDatesRows(once, calendar, calendarDates);
  }
}
