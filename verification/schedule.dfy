/** The two read endpoints of the schedule API: `horarios` (the next
    scheduled times of a route at a stop on a date) and `paradas` (the stop
    visits of a route's trips). A handler's outcome is an HTTP status and a
    JSON body. */
module Schedule {
  import opened Wrappers
  import opened Text
  import opened Seqs
  import opened Dates
  import opened Models
  import opened ServiceCalendar
  import opened PgInt

  /** A JSON list, a JSON error object, or the error page the framework
      serves when a handler raises. */
  datatype Body<T> = Rows(rows: seq<T>) | ErrorMessage(message: string) | ServerError

  datatype Reply<T> = Reply(status: int, body: Body<T>)

  /** The most rows `horarios` returns. */
  const HorariosLimit := 10

  const InvalidDateMessage := "fecha inválida"

  /** A query parameter is given when present and not empty. */
  predicate Given(p: Option<string>) {
    p.Some? && p.value != ""
  }

  /** The `ruta` parameter is compared with the integer `route_id` column,
      so the database reads it as an `int4`; text it cannot read makes the
      query raise. */
  predicate RouteMatches(param: string, routeId: int) {
    ParseInt4(param) == Some(routeId)
  }

  /** The decimal rendering of an `int4` id matches that route and no other. */
  lemma RouteMatchesRendered(id: int, routeId: int)
    requires Int4Min <= id <= Int4Max
    ensures RouteMatches(IntToDecimal(id), routeId) <==> routeId == id
  {
    Int4RoundTrip(id);
  }

  /** Ascending order on a nullable text column: text by code point, nulls last. */
  predicate NullsLastLe(a: Option<string>, b: Option<string>) {
    match (a, b)
    case (Some(x), Some(y)) => TextLe(x, y)
    case (Some(_), None) => true
    case (None, None) => true
    case (None, Some(_)) => false
  }

  predicate ArrivalLe(a: StopTime, b: StopTime) {
    NullsLastLe(a.arrival, b.arrival)
  }

  lemma ArrivalOrder()
    ensures TotalPreorder(ArrivalLe)
  {
    forall a: StopTime, b: StopTime
      ensures ArrivalLe(a, b) || ArrivalLe(b, a)
    {
      if a.arrival.Some? && b.arrival.Some? {
        TextLeTotal(a.arrival.value, b.arrival.value);
      }
    }
    forall a: StopTime, b: StopTime, c: StopTime | ArrivalLe(a, b) && ArrivalLe(b, c)
      ensures ArrivalLe(a, c)
    {
      if a.arrival.Some? && b.arrival.Some? && c.arrival.Some? {
        TextLeTransitive(a.arrival.value, b.arrival.value, c.arrival.value);
      }
    }
  }

  /** The stop-time belongs to a trip on the route that runs one of `services`.
      A trip without a service never qualifies. */
  predicate OnActiveTrip(s: Store, st: StopTime, route: string, services: set<string>) {
    exists t :: t in s.trips && t.id == st.tripId && RouteMatches(route, t.routeId)
                && t.serviceId.Some? && t.serviceId.value in services
  }

  /** The stop-times the timetable query selects before ordering. */
  function Departures(s: Store, route: string, stop: string, services: set<string>): (r: seq<StopTime>)
    ensures forall st :: multiset(r)[st] ==
              if st.stopId == stop && OnActiveTrip(s, st, route, services) then multiset(s.stopTimes)[st] else 0
  {
    var selected := (st: StopTime) => st.stopId == stop && OnActiveTrip(s, st, route, services);
    assert forall st :: multiset(Filter(s.stopTimes, selected))[st] ==
             if selected(st) then multiset(s.stopTimes)[st] else 0 by {
      forall st
        ensures multiset(Filter(s.stopTimes, selected))[st] == if selected(st) then multiset(s.stopTimes)[st] else 0
      {
        FilterCounts(s.stopTimes, selected, st);
      }
    }
    Filter(s.stopTimes, selected)
  }

  /** With no active service nothing is selected. */
  lemma NoServiceNoDepartures(s: Store, route: string, stop: string)
    ensures Departures(s, route, stop, {}) == []
  {
    FilterNone(s.stopTimes, (st: StopTime) => st.stopId == stop && OnActiveTrip(s, st, route, {}));
  }

  /** The timetable of a route at a stop on a date: the matching stop-times
      ordered by arrival and cut at the limit. */
  function NextDepartures(s: Store, route: string, stop: string, d: Date): (r: seq<StopTime>)
    requires Valid(d)
    ensures ActiveServices(s, d) == {} ==> r == []
    ensures forall i :: 0 <= i < |r| ==>
              r[i] in s.stopTimes && r[i].stopId == stop && OnActiveTrip(s, r[i], route, ActiveServices(s, d))
    ensures |r| == Min(HorariosLimit, |Departures(s, route, stop, ActiveServices(s, d))|)
    ensures SortedBy(r, ArrivalLe)
    ensures multiset(r) <= multiset(Departures(s, route, stop, ActiveServices(s, d)))
    ensures forall x, y :: x in r && y in multiset(Departures(s, route, stop, ActiveServices(s, d))) - multiset(r)
              ==> ArrivalLe(x, y)
  {
    var services := ActiveServices(s, d);
    var matches := Departures(s, route, stop, services);
    if services == {} then
      NoServiceNoDepartures(s, route, stop);
      []
    else
      ArrivalOrder();
      SortTake(matches, HorariosLimit, ArrivalLe)
  }

  /** One row of the `horarios` answer. */
  datatype Times = Times(arrival: Option<string>, departure: Option<string>)

  function TimesOf(st: StopTime): Times {
    Times(st.arrival, st.departure)
  }

  predicate TimesLe(a: Times, b: Times) {
    NullsLastLe(a.arrival, b.arrival)
  }

  function TimesOfAll(sts: seq<StopTime>): (rows: seq<Times>)
    ensures |rows| == |sts|
    ensures forall i :: 0 <= i < |sts| ==> rows[i] == TimesOf(sts[i])
  {
    seq(|sts|, i requires 0 <= i < |sts| => TimesOf(sts[i]))
  }

  /** The rows `horarios` answers with for a parsed date. */
  function Timetable(s: Store, route: string, stop: string, d: Date): (rows: seq<Times>)
    requires Valid(d)
    ensures |rows| <= HorariosLimit
    ensures SortedBy(rows, TimesLe)
  {
    var sts := NextDepartures(s, route, stop, d);
    TimesOfAll(sts)
  }

  /** Every timetable row is the arrival and departure of a stop-time at the
      stop on an active trip of the route. */
  lemma TimetableRowSelected(s: Store, route: string, stop: string, d: Date, i: nat)
    requires Valid(d) && i < |Timetable(s, route, stop, d)|
    ensures exists st :: st in s.stopTimes && st.stopId == stop && TimesOf(st) == Timetable(s, route, stop, d)[i]
                         && OnActiveTrip(s, st, route, ActiveServices(s, d))
  {
    var sts := NextDepartures(s, route, stop, d);
    assert TimesOf(sts[i]) == Timetable(s, route, stop, d)[i];
    assert sts[i] in s.stopTimes && sts[i].stopId == stop && OnActiveTrip(s, sts[i], route, ActiveServices(s, d));
  }

  /** `GET /api/horarios?ruta=&parada=&fecha=`. The timetable query runs
      only when some service is active on the date, and only then can a
      `ruta` that is not an `int4` make it raise. */
  function Horarios(s: Store, ruta: Option<string>, parada: Option<string>, fecha: Option<string>): (r: Reply<Times>)
    ensures !(Given(ruta) && Given(parada) && Given(fecha)) ==> r == Reply(400, Rows([]))
    ensures (Given(ruta) && Given(parada) && Given(fecha) && ParseIsoDate(fecha.value).None?)
              ==> r == Reply(400, ErrorMessage(InvalidDateMessage))
    ensures (Given(ruta) && Given(parada) && Given(fecha) && ParseIsoDate(fecha.value).Some?
             && ActiveServices(s, ParseIsoDate(fecha.value).value) == {})
              ==> r == Reply(200, Rows([]))
    ensures (Given(ruta) && Given(parada) && Given(fecha) && ParseIsoDate(fecha.value).Some?
             && ActiveServices(s, ParseIsoDate(fecha.value).value) != {} && ParseInt4(ruta.value).None?)
              ==> r == Reply(500, ServerError)
    ensures (Given(ruta) && Given(parada) && Given(fecha) && ParseIsoDate(fecha.value).Some?
             && ParseInt4(ruta.value).Some?)
              ==> r == Reply(200, Rows(Timetable(s, ruta.value, parada.value, ParseIsoDate(fecha.value).value)))
  {
    if !(Given(ruta) && Given(parada) && Given(fecha)) then Reply(400, Rows([]))
    else
      match ParseIsoDate(fecha.value)
      case None => Reply(400, ErrorMessage(InvalidDateMessage))
      case Some(d) =>
        if ActiveServices(s, d) == {} then Reply(200, Rows([]))
        else if ParseInt4(ruta.value).None? then Reply(500, ServerError)
        else Reply(200, Rows(Timetable(s, ruta.value, parada.value, d)))
  }

  /** One row of the `paradas` answer. */
  datatype StopVisit = StopVisit(stopId: string, stopName: string, stopLat: real, stopLon: real, sequence: int)

  predicate SequenceLe(a: StopVisit, b: StopVisit) {
    a.sequence <= b.sequence
  }

  /** The stop-time belongs to a trip on the route. */
  predicate OnRoute(s: Store, st: StopTime, route: string) {
    exists t :: t in s.trips && t.id == st.tripId && RouteMatches(route, t.routeId)
  }

  /** The stop a stop-time visits, found by its primary key. */
  function FindStop(stops: seq<Stop>, id: string): (r: Option<Stop>)
    ensures r.Some? ==> r.value in stops && r.value.id == id
    ensures r.None? ==> forall p :: p in stops ==> p.id != id
  {
    if stops == [] then None
    else if stops[0].id == id then Some(stops[0])
    else FindStop(stops[1..], id)
  }

  function VisitOf(p: Stop, st: StopTime): StopVisit {
    StopVisit(p.id, p.name, p.lat, p.lon, st.stopSequence)
  }

  /** The join of stops, stop-times and trips restricted to the route, in store order. */
  function Visits(s: Store, route: string, sts: seq<StopTime>): (r: seq<StopVisit>)
    ensures |r| <= |sts|
    decreases |sts|
  {
    if sts == [] then []
    else
      var rest := Visits(s, route, sts[1..]);
      var st := sts[0];
      match FindStop(s.stops, st.stopId)
      case Some(p) => if OnRoute(s, st, route) then [VisitOf(p, st)] + rest else rest
      case None => rest
  }

  /** Every visit joins a stop-time of the route with the stop it names. */
  lemma {:induction false} VisitsSound(s: Store, route: string, sts: seq<StopTime>)
    ensures forall v :: v in Visits(s, route, sts) ==>
              exists st, p :: st in sts && OnRoute(s, st, route) && p in s.stops && p.id == st.stopId && v == VisitOf(p, st)
    decreases |sts|
  {
    if sts != [] {
      VisitsSound(s, route, sts[1..]);
      var st := sts[0];
      assert forall x :: x in sts[1..] ==> x in sts;
      forall v | v in Visits(s, route, sts)
        ensures exists st, p :: st in sts && OnRoute(s, st, route) && p in s.stops && p.id == st.stopId && v == VisitOf(p, st)
      {
        if v !in Visits(s, route, sts[1..]) {
          var p := FindStop(s.stops, st.stopId).value;
          assert v == VisitOf(p, st);
        }
      }
    }
  }

  /** Every stop-time of the route whose stop is stored yields a visit. */
  lemma {:induction false} VisitsComplete(s: Store, route: string, sts: seq<StopTime>)
    ensures forall st :: st in sts && OnRoute(s, st, route) && FindStop(s.stops, st.stopId).Some? ==>
              VisitOf(FindStop(s.stops, st.stopId).value, st) in Visits(s, route, sts)
    decreases |sts|
  {
    if sts != [] {
      VisitsComplete(s, route, sts[1..]);
      var rest := Visits(s, route, sts[1..]);
      var first := sts[0];
      var joined := OnRoute(s, first, route) && FindStop(s.stops, first.stopId).Some?;
      assert joined ==> Visits(s, route, sts) == [VisitOf(FindStop(s.stops, first.stopId).value, first)] + rest;
      assert !joined ==> Visits(s, route, sts) == rest;
      forall st | st in sts && OnRoute(s, st, route) && FindStop(s.stops, st.stopId).Some?
        ensures VisitOf(FindStop(s.stops, st.stopId).value, st) in Visits(s, route, sts)
      {
        if st != first {
          assert sts == [first] + sts[1..];
          assert st in sts[1..];
        }
      }
    }
  }

  /** The stop-times of the route that join a stored stop into the visit `v`. */
  function YieldsVisit(s: Store, route: string, v: StopVisit): StopTime -> bool {
    (st: StopTime) => OnRoute(s, st, route) && FindStop(s.stops, st.stopId).Some?
                      && VisitOf(FindStop(s.stops, st.stopId).value, st) == v
  }

  /** The join yields one row per stop-time of the route with a stored
      stop: each visit occurs exactly as often as the stop-times giving it. */
  lemma {:induction false} VisitsOnePerStopTime(s: Store, route: string, sts: seq<StopTime>, v: StopVisit)
    ensures multiset(Visits(s, route, sts))[v] == |Filter(sts, YieldsVisit(s, route, v))|
    decreases |sts|
  {
    if sts != [] {
      VisitsOnePerStopTime(s, route, sts[1..], v);
      var st := sts[0];
      var rest := Visits(s, route, sts[1..]);
      if OnRoute(s, st, route) && FindStop(s.stops, st.stopId).Some? {
        var w := VisitOf(FindStop(s.stops, st.stopId).value, st);
        assert Visits(s, route, sts) == [w] + rest;
        assert multiset([w] + rest)[v] == multiset([w])[v] + multiset(rest)[v];
      } else {
        assert Visits(s, route, sts) == rest;
        assert !YieldsVisit(s, route, v)(st);
      }
    }
  }

  /** `GET /api/paradas?ruta=`; a `ruta` that is not an `int4` makes the
      query raise. */
  function Paradas(s: Store, ruta: Option<string>): (r: Reply<StopVisit>)
    ensures !Given(ruta) ==> r == Reply(400, Rows([]))
    ensures Given(ruta) && ParseInt4(ruta.value).None? <==> r == Reply(500, ServerError)
    ensures Given(ruta) && ParseInt4(ruta.value).Some? ==> r.status == 200 && r.body.Rows?
    ensures r.body.Rows? && Given(ruta) ==> SortedBy(r.body.rows, SequenceLe)
    ensures r.body.Rows? && Given(ruta) ==> forall v :: v in r.body.rows ==>
              exists st, p :: st in s.stopTimes && OnRoute(s, st, ruta.value)
                              && p in s.stops && p.id == st.stopId && v == VisitOf(p, st)
    ensures r.body.Rows? && Given(ruta) ==> forall st ::
              (st in s.stopTimes && OnRoute(s, st, ruta.value) && FindStop(s.stops, st.stopId).Some?)
              ==> VisitOf(FindStop(s.stops, st.stopId).value, st) in r.body.rows
    ensures r.body.Rows? && Given(ruta) ==> forall v :: multiset(r.body.rows)[v] == |Filter(s.stopTimes, YieldsVisit(s, ruta.value, v))|
  {
    if !Given(ruta) then Reply(400, Rows([]))
    else if ParseInt4(ruta.value).None? then Reply(500, ServerError)
    else
      var visits := Visits(s, ruta.value, s.stopTimes);
      VisitsSound(s, ruta.value, s.stopTimes);
      VisitsComplete(s, ruta.value, s.stopTimes);
      assert TotalPreorder(SequenceLe);
      var sorted := Sort(visits, SequenceLe);
      assert forall v :: multiset(sorted)[v] == |Filter(s.stopTimes, YieldsVisit(s, ruta.value, v))| by {
        forall v
          ensures multiset(sorted)[v] == |Filter(s.stopTimes, YieldsVisit(s, ruta.value, v))|
        {
          VisitsOnePerStopTime(s, ruta.value, s.stopTimes, v);
        }
      }
      assert forall v :: v in sorted <==> v in visits by {
        forall v
          ensures v in sorted <==> v in visits
        {
          assert v in sorted <==> v in multiset(sorted);
          assert v in visits <==> v in multiset(visits);
        }
      }
      Reply(200, Rows(sorted))
  }

  /** A `ruta` with a character other than a digit after its sign, such as
      `1.5` or `abc`, is a server error whatever the store holds. */
  lemma ParadasRejectsNonInteger(s: Store, ruta: string, k: nat)
    requires ruta != [] && !IsCSpace(ruta[0]) && !IsCSpace(ruta[|ruta| - 1])
    requires 0 < k < |ruta| && !IsDigit(ruta[k])
    ensures Paradas(s, Some(ruta)) == Reply(500, ServerError)
  {
    RejectNonDigit(ruta, k);
  }
}
