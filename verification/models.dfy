/** The entity records of the transit database and the constraints its
    schema declares. Required columns are plain fields; nullable columns are
    `Option`s. The store is one sequence of rows per table, in insertion
    order. */
module Models {
  import opened Wrappers
  import opened Seqs
  import opened Dates

  datatype Region = Region(id: int, name: string)

  datatype Route = Route(
    id: int,
    regionId: int,
    shortName: Option<string>,
    longName: Option<string>,
    routeType: Option<int>)

  /** Coordinates are carried unchanged; nothing computes with them. */
  datatype Stop = Stop(id: string, name: string, lat: real, lon: real)

  datatype Trip = Trip(
    id: string,
    routeId: int,
    serviceId: Option<string>,
    headsign: Option<string>,
    directionId: Option<int>)

  /** A scheduled visit of a trip to a stop. `id` is a surrogate key;
      arrival and departure are raw `HH:MM:SS` text. */
  datatype StopTime = StopTime(
    id: int,
    tripId: string,
    arrival: Option<string>,
    departure: Option<string>,
    stopId: string,
    stopSequence: int)

  /** The weekly pattern of a service over an inclusive date range. */
  datatype Calendar = Calendar(
    serviceId: string,
    monday: bool,
    tuesday: bool,
    wednesday: bool,
    thursday: bool,
    friday: bool,
    saturday: bool,
    sunday: bool,
    startDate: Date,
    endDate: Date)

  /** A single-date exception: type 1 adds the service, type 2 removes it. */
  datatype CalendarDate = CalendarDate(serviceId: string, date: Date, exceptionType: int)

  /** The natural identity of a stop-time. */
  datatype StopTimeKey = StopTimeKey(tripId: string, stopId: string, stopSequence: int)

  /** `routeSerial` is the value the sequence behind `routes.id` hands out
      next. Routes inserted with an explicit id do not advance it. */
  datatype Store = Store(
    regions: seq<Region>,
    routes: seq<Route>,
    stops: seq<Stop>,
    trips: seq<Trip>,
    stopTimes: seq<StopTime>,
    calendars: seq<Calendar>,
    calendarDates: seq<CalendarDate>,
    routeSerial: int)

  const EmptyStore := Store([], [], [], [], [], [], [], 1)

  function RegionKey(r: Region): int { r.id }
  function RouteKey(r: Route): int { r.id }
  function StopKey(s: Stop): string { s.id }
  function TripKey(t: Trip): string { t.id }
  function StopTimeId(st: StopTime): int { st.id }
  function TripleOf(st: StopTime): StopTimeKey { StopTimeKey(st.tripId, st.stopId, st.stopSequence) }

  /** Every primary key is unique. */
  predicate KeysUnique(s: Store) {
    && UniqueBy(s.regions, RegionKey)
    && UniqueBy(s.routes, RouteKey)
    && UniqueBy(s.stops, StopKey)
    && UniqueBy(s.trips, TripKey)
    && UniqueBy(s.stopTimes, StopTimeId)
  }

  /** Every foreign key names an existing row. */
  predicate ReferencesResolve(s: Store) {
    && (forall r :: r in s.routes ==> r.regionId in KeysOf(s.regions, RegionKey))
    && (forall t :: t in s.trips ==> t.routeId in KeysOf(s.routes, RouteKey))
    && (forall st :: st in s.stopTimes ==> st.tripId in KeysOf(s.trips, TripKey))
    && (forall st :: st in s.stopTimes ==> st.stopId in KeysOf(s.stops, StopKey))
  }

  /** A `String(n)` column value. */
  predicate Fits(t: Option<string>, width: nat) {
    t.None? || |t.value| <= width
  }

  /** The arrival and departure columns hold at most eight characters. */
  predicate TimesFit(s: Store) {
    forall st :: st in s.stopTimes ==> Fits(st.arrival, 8) && Fits(st.departure, 8)
  }

  /** What the database itself enforces. */
  predicate SchemaHolds(s: Store) {
    KeysUnique(s) && ReferencesResolve(s) && TimesFit(s)
  }

  /** What the loaders maintain on top of the schema: a trip visits a
      sequence position of a stop at most once. */
  predicate TriplesUnique(s: Store) {
    UniqueBy(s.stopTimes, TripleOf)
  }

  /** The schema alone does not make the stop-time triple unique: two rows
      differing only in their surrogate id are both admitted. */
  lemma SchemaAdmitsRepeatedTriple()
    ensures var st := StopTime(1, "T1", Some("07:00:00"), Some("07:00:00"), "P1", 1);
            var s := Store([Region(1, "Managua")],
                           [Route(1, 1, None, None, None)],
                           [Stop("P1", "Centro", 0.0, 0.0)],
                           [Trip("T1", 1, None, None, None)],
                           [st, st.(id := 2)], [], [], 2);
            SchemaHolds(s) && !TriplesUnique(s)
  {
    var st := StopTime(1, "T1", Some("07:00:00"), Some("07:00:00"), "P1", 1);
    var s := Store([Region(1, "Managua")],
                   [Route(1, 1, None, None, None)],
                   [Stop("P1", "Centro", 0.0, 0.0)],
                   [Trip("T1", 1, None, None, None)],
                   [st, st.(id := 2)], [], [], 2);
    assert RegionKey(s.regions[0]) in KeysOf(s.regions, RegionKey);
    assert RouteKey(s.routes[0]) in KeysOf(s.routes, RouteKey);
    assert TripKey(s.trips[0]) in KeysOf(s.trips, TripKey);
    assert StopKey(s.stops[0]) in KeysOf(s.stops, StopKey);
    assert TripleOf(s.stopTimes[0]) == TripleOf(s.stopTimes[1]);
  }

  /** The next value of a serial key whose every row took its id from the
      sequence: one past the largest in use. */
  function NextId<T>(s: seq<T>, key: T -> int): (n: int)
    ensures n >= 1
    ensures forall i :: 0 <= i < |s| ==> key(s[i]) < n
    decreases |s|
  {
    if s == [] then 1
    else
      var rest := NextId(s[1..], key);
      if key(s[0]) + 1 > rest then key(s[0]) + 1 else rest
  }
}
