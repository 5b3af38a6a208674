/** The JSON route loader. Each `.json` file describes one route: its region,
    its name, the names of its stops in travel order and its departures. A
    file is merged into the store by looking up, and creating when missing,
    the region by name, the route by long name and each stop by name; then
    every departure becomes a trip with a synthesised id and one stop-time
    per stop, unless that trip is already stored. Every insert is committed
    at once, so a file that fails part-way leaves its earlier inserts in
    place. */
module JsonLoader {
  import opened Wrappers
  import opened Text
  import opened Seqs
  import opened Models
  import opened Dedup

  /** One departure of a route file; `hora` is the departure time as written. */
  datatype Salida = Salida(hora: Option<string>)

  /** The content of a route file; a missing list is an empty one. */
  datatype RouteFile = RouteFile(
    region: Option<string>,
    ruta: Option<string>,
    paradas: seq<string>,
    salidas: seq<Salida>)

  datatype JsonFile = JsonFile(name: string, data: RouteFile)

  /** The objects a file added, per kind. */
  datatype Counts = Counts(regions: nat, routes: nat, stops: nat, trips: nat, stopTimes: nat)

  const NoCounts := Counts(0, 0, 0, 0, 0)

  /** The integrity errors of creating a route: `RegionRequired` when no
      region gives the required `region_id`, `DuplicateRouteId` when the id
      the `routes.id` sequence hands out is already stored. */
  datatype JsonError =
    | DirectoryNotFound
    | RegionRequired(file: string)
    | DuplicateRouteId(file: string, id: int)

  /** The id of the `idx`-th departure (1-based) of a route: `{route.id}_t{idx}`. */
  function TripIdFor(routeId: int, idx: nat): (id: string)
    ensures |id| == |IntToDecimal(routeId)| + 2 + |NatToDecimal(idx)|
    ensures id[..|IntToDecimal(routeId)|] == IntToDecimal(routeId)
    ensures id[|id| - |NatToDecimal(idx)|..] == NatToDecimal(idx)
  {
    IntToDecimal(routeId) + "_t" + NatToDecimal(idx)
  }

  function IsUnderscore(c: char): bool {
    c == '_'
  }

  /** In a rendered integer followed by `_`, the first underscore is that one. */
  lemma FirstUnderscore(x: string, rest: string)
    requires forall k :: 0 <= k < |x| ==> IsDigit(x[k]) || x[k] == '-'
    requires rest != [] && rest[0] == '_'
    ensures FindFirst(x + rest, IsUnderscore) == Some(|x|)
  {
    assert (x + rest)[|x|] == '_';
    assert forall k :: 0 <= k < |x| ==> (x + rest)[k] == x[k];
  }

  /** Two joins of the same text whose first parts both end where the first
      selected character is are the same join. */
  lemma SplitAtFirst<T>(x: seq<T>, u: seq<T>, y: seq<T>, v: seq<T>, p: T -> bool)
    requires x + u == y + v
    requires FindFirst(x + u, p) == Some(|x|) && FindFirst(y + v, p) == Some(|y|)
    ensures x == y && u == v
  {
    assert x == (x + u)[..|x|];
    assert y == (y + v)[..|y|];
    assert u == (x + u)[|x|..];
    assert v == (y + v)[|y|..];
  }

  /** Two rendered integers, each followed by text that opens with `_`,
      join to the same text only when both parts agree. */
  lemma SplitAtUnderscore(x: string, u: string, y: string, v: string)
    requires forall k :: 0 <= k < |x| ==> IsDigit(x[k]) || x[k] == '-'
    requires forall k :: 0 <= k < |y| ==> IsDigit(y[k]) || y[k] == '-'
    requires u != [] && u[0] == '_' && v != [] && v[0] == '_'
    requires x + u == y + v
    ensures x == y && u == v
  {
    FirstUnderscore(x, u);
    FirstUnderscore(y, v);
    SplitAtFirst(x, u, y, v, IsUnderscore);
  }

  /** Text of the trip-id shape splits at its first underscore into equal parts. */
  lemma TripIdParts(x: string, p: string, y: string, q: string)
    requires forall k :: 0 <= k < |x| ==> IsDigit(x[k]) || x[k] == '-'
    requires forall k :: 0 <= k < |y| ==> IsDigit(y[k]) || y[k] == '-'
    requires x + "_t" + p == y + "_t" + q
    ensures x == y && p == q
  {
    var u, v := "_t" + p, "_t" + q;
    assert x + "_t" + p == x + u;
    assert y + "_t" + q == y + v;
    SplitAtUnderscore(x, u, y, v);
    assert p == u[2..];
    assert q == v[2..];
  }

  /** Distinct (route, departure) pairs get distinct trip ids: the first
      underscore ends the route part, since a rendered integer has none. */
  lemma TripIdInjective(a: int, i: nat, b: int, j: nat)
    requires TripIdFor(a, i) == TripIdFor(b, j)
    ensures a == b && i == j
  {
    TripIdParts(IntToDecimal(a), NatToDecimal(i), IntToDecimal(b), NatToDecimal(j));
    IntToDecimalInjective(a, b);
    DecimalRoundTrip(i);
    DecimalRoundTrip(j);
  }

  /** A JSON value that Python reads as true: present and not empty. */
  predicate Truthy(t: Option<string>) {
    t.Some? && t.value != ""
  }

  /** The outcome of resolving one object: the store after any insert, the
      object found or created, and how many rows were inserted. */
  datatype Step<T> = Step(store: Store, value: T, added: nat)

  function NamedRegion(name: string): Region -> bool {
    (g: Region) => g.name == name
  }

  /** The region of a file: found by name, or created when the name is given
      and no region has it; no region when the name is missing or empty. */
  function ResolveRegion(s: Store, name: Option<string>): (r: Step<Option<Region>>)
    ensures r.store == s.(regions := r.store.regions)
    ensures !Truthy(name) ==> r == Step(s, None, 0)
    ensures Truthy(name) && FindFirst(s.regions, NamedRegion(name.value)).Some? ==>
              r == Step(s, Some(s.regions[FindFirst(s.regions, NamedRegion(name.value)).value]), 0)
    ensures Truthy(name) && FindFirst(s.regions, NamedRegion(name.value)).None? ==>
              && r.added == 1
              && r.value.Some? && r.value.value.name == name.value
              && r.store.regions == s.regions + [r.value.value]
              && r.value.value.id !in KeysOf(s.regions, RegionKey)
    ensures Truthy(name) ==>
              && r.value.Some?
              && FindFirst(r.store.regions, NamedRegion(name.value)).Some?
              && r.store.regions[FindFirst(r.store.regions, NamedRegion(name.value)).value] == r.value.value
  {
    if !Truthy(name) then Step(s, None, 0)
    else
      match FindFirst(s.regions, NamedRegion(name.value))
      case Some(i) => Step(s, Some(s.regions[i]), 0)
      case None =>
        var g := Region(NextId(s.regions, RegionKey), name.value);
        FindFirstIs(s.regions + [g], NamedRegion(name.value), |s.regions|);
        Step(s.(regions := s.regions + [g]), Some(g), 1)
  }

  function NamedRoute(name: string): Route -> bool {
    (r: Route) => r.longName == Some(name)
  }

  /** The name a file gives its route: `ruta`, or the empty text without one. */
  function RouteName(ruta: Option<string>): string {
    ruta.GetOr("")
  }

  /** Why creating a route fails. Either way the sequence value was drawn. */
  datatype RouteFailure = NoRegion | IdTaken(id: int)

  /** The route of a file: found by long name, or created with that name as
      both names in the file's region, taking the id the sequence behind
      `routes.id` hands out. Without a region the insert breaks `NOT NULL`;
      with an id already stored (a route inserted with an explicit id) it
      breaks the primary key. */
  function ResolveRoute(s: Store, region: Option<Region>, name: string): (r: Result<Step<Route>, RouteFailure>)
    ensures FindFirst(s.routes, NamedRoute(name)).Some? ==>
              r == Ok(Step(s, s.routes[FindFirst(s.routes, NamedRoute(name)).value], 0))
    ensures FindFirst(s.routes, NamedRoute(name)).None? ==>
              && (r == Err(NoRegion) <==> region.None?)
              && (r == Err(IdTaken(s.routeSerial)) <==> region.Some? && s.routeSerial in KeysOf(s.routes, RouteKey))
              && (r.Ok? <==> region.Some? && s.routeSerial !in KeysOf(s.routes, RouteKey))
    ensures r.Ok? && FindFirst(s.routes, NamedRoute(name)).None? ==>
              && r.value.added == 1
              && r.value.store.routes == s.routes + [r.value.value]
              && r.value.store.routeSerial == s.routeSerial + 1
              && r.value.value == Route(s.routeSerial, region.value.id, Some(name), Some(name), None)
              && r.value.value.id !in KeysOf(s.routes, RouteKey)
    ensures r.Ok? ==>
              && r.value.store == s.(routes := r.value.store.routes, routeSerial := r.value.store.routeSerial)
              && FindFirst(r.value.store.routes, NamedRoute(name)).Some?
              && r.value.store.routes[FindFirst(r.value.store.routes, NamedRoute(name)).value] == r.value.value
  {
    match FindFirst(s.routes, NamedRoute(name))
    case Some(i) => Ok(Step(s, s.routes[i], 0))
    case None =>
      if region.None? then Err(NoRegion)
      else if s.routeSerial in KeysOf(s.routes, RouteKey) then Err(IdTaken(s.routeSerial))
      else
        var route := Route(s.routeSerial, region.value.id, Some(name), Some(name), None);
        FindFirstIs(s.routes + [route], NamedRoute(name), |s.routes|);
        Ok(Step(s.(routes := s.routes + [route], routeSerial := s.routeSerial + 1), route, 1))
  }

  function NamedStop(name: string): Stop -> bool {
    (p: Stop) => p.name == name
  }

  /** `id` is the id of the first stop called `name`: the stop a lookup by
      name returns. */
  predicate Names(stops: seq<Stop>, name: string, id: string) {
    FindFirst(stops, NamedStop(name)).Some? && stops[FindFirst(stops, NamedStop(name)).value].id == id
  }

  lemma NamesAppend(stops: seq<Stop>, more: seq<Stop>, name: string, id: string)
    requires Names(stops, name, id)
    ensures Names(stops + more, name, id)
  {
    FindFirstAppend(stops, more, NamedStop(name));
    assert (stops + more)[FindFirst(stops, NamedStop(name)).value] == stops[FindFirst(stops, NamedStop(name)).value];
  }

  /** The ids `uuid` hands out from position `|stops|` on are new and distinct.
      A stop created when the table holds `n` rows gets `uuid(n)`. */
  ghost predicate FreshStopIds(stops: seq<Stop>, uuid: nat -> string) {
    forall n: nat :: n >= |stops| ==>
      && uuid(n) !in KeysOf(stops, StopKey)
      && forall m: nat :: |stops| <= m < n ==> uuid(m) != uuid(n)
  }

  /** A stop of a file: found by name, or created with a new id at 0,0. */
  function ResolveStop(s: Store, name: string, uuid: nat -> string): (r: Step<string>)
    ensures r.store == s.(stops := r.store.stops)
    ensures FindFirst(s.stops, NamedStop(name)).Some? ==> r.store == s && r.added == 0
    ensures FindFirst(s.stops, NamedStop(name)).None? ==>
              r.store.stops == s.stops + [Stop(uuid(|s.stops|), name, 0.0, 0.0)] && r.added == 1
    ensures Names(r.store.stops, name, r.value)
    ensures UniqueBy(s.stops, StopKey) && FreshStopIds(s.stops, uuid) ==>
              UniqueBy(r.store.stops, StopKey) && FreshStopIds(r.store.stops, uuid)
  {
    match FindFirst(s.stops, NamedStop(name))
    case Some(i) => Step(s, s.stops[i].id, 0)
    case None =>
      var p := Stop(uuid(|s.stops|), name, 0.0, 0.0);
      var stops := s.stops + [p];
      FindFirstIs(stops, NamedStop(name), |s.stops|);
      assert UniqueBy(s.stops, StopKey) && FreshStopIds(s.stops, uuid) ==>
               UniqueBy(stops, StopKey) && FreshStopIds(stops, uuid) by {
        if UniqueBy(s.stops, StopKey) && FreshStopIds(s.stops, uuid) {
          UniqueSnoc(s.stops, p, StopKey);
          KeysOfSnoc(s.stops, p, StopKey);
        }
      }
      Step(s.(stops := stops), p.id, 1)
  }

  lemma KeysOfSnoc<T, K>(s: seq<T>, x: T, key: T -> K)
    ensures KeysOf(s + [x], key) == KeysOf(s, key) + {key(x)}
  {
    var t := s + [x];
    assert forall i :: 0 <= i < |s| ==> t[i] == s[i];
    assert t[|s|] == x;
  }

  /** The stops of a file, in order, each resolved by name against the store
      as the earlier names left it. */
  function ResolveStops(s: Store, names: seq<string>, uuid: nat -> string): (r: Step<seq<string>>)
    ensures r.store == s.(stops := r.store.stops)
    ensures |s.stops| <= |r.store.stops| && r.store.stops[..|s.stops|] == s.stops
    ensures |r.store.stops| == |s.stops| + r.added && r.added <= |names|
    ensures |r.value| == |names|
    decreases |names|
  {
    if names == [] then Step(s, [], 0)
    else
      var first := ResolveStop(s, names[0], uuid);
      var rest := ResolveStops(first.store, names[1..], uuid);
      assert rest.store.stops[..|s.stops|] == first.store.stops[..|s.stops|];
      Step(rest.store, [first.value] + rest.value, first.added + rest.added)
  }

  /** `ids[i]` is the id the final table gives `names[i]`, for every `i`. */
  predicate NamesAll(stops: seq<Stop>, names: seq<string>, ids: seq<string>) {
    |ids| == |names| && forall i :: 0 <= i < |names| ==> Names(stops, names[i], ids[i])
  }

  lemma NamesAllStep(mid: seq<Stop>, after: seq<Stop>, names: seq<string>, id: string, ids: seq<string>)
    requires names != [] && Names(mid, names[0], id)
    requires |mid| <= |after| && after[..|mid|] == mid
    requires NamesAll(after, names[1..], ids)
    ensures NamesAll(after, names, [id] + ids)
  {
    assert after == mid + after[|mid|..];
    NamesAppend(mid, after[|mid|..], names[0], id);
    forall i | 1 <= i < |names|
      ensures Names(after, names[i], ([id] + ids)[i])
    {
      assert names[i] == names[1..][i - 1];
    }
  }

  /** Each resolved id is the id of the first stop with that name in the
      final table: later inserts never shadow an earlier stop. */
  lemma {:induction false} ResolveStopsNames(s: Store, names: seq<string>, uuid: nat -> string)
    ensures var r := ResolveStops(s, names, uuid);
            forall i :: 0 <= i < |names| ==> Names(r.store.stops, names[i], r.value[i])
    decreases |names|
  {
    if names != [] {
      var first := ResolveStop(s, names[0], uuid);
      var rest := ResolveStops(first.store, names[1..], uuid);
      ResolveStopsNames(first.store, names[1..], uuid);
      assert NamesAll(rest.store.stops, names[1..], rest.value);
      NamesAllStep(first.store.stops, rest.store.stops, names, first.value, rest.value);
      assert NamesAll(ResolveStops(s, names, uuid).store.stops, names, ResolveStops(s, names, uuid).value);
    }
  }

  /** The stops created by a file, in order, for a stop table in which
      `names[0]` was resolved first and the other names after it. */
  predicate CreatedFrom(before: seq<Stop>, after: seq<Stop>, names: seq<string>, uuid: nat -> string) {
    |before| <= |after| &&
    forall k :: |before| <= k < |after| ==>
      && after[k] == Stop(uuid(k), after[k].name, 0.0, 0.0)
      && after[k].name in names
      && FindFirst(before, NamedStop(after[k].name)).None?
  }

  lemma CreatedFromStep(before: seq<Stop>, mid: seq<Stop>, after: seq<Stop>, names: seq<string>, uuid: nat -> string)
    requires names != []
    requires |before| <= |mid| <= |before| + 1 && mid[..|before|] == before
    requires |mid| == |before| + 1 ==>
               mid[|before|] == Stop(uuid(|before|), names[0], 0.0, 0.0) && FindFirst(before, NamedStop(names[0])).None?
    requires |mid| <= |after| && after[..|mid|] == mid
    requires CreatedFrom(mid, after, names[1..], uuid)
    ensures CreatedFrom(before, after, names, uuid)
  {
    forall k | |before| <= k < |after|
      ensures after[k] == Stop(uuid(k), after[k].name, 0.0, 0.0)
      ensures after[k].name in names
      ensures FindFirst(before, NamedStop(after[k].name)).None?
    {
      if k < |mid| {
        assert after[k] == mid[k];
      } else {
        assert after[k].name in names[1..];
        NoneInPrefix(before, mid, NamedStop(after[k].name));
      }
    }
  }

  lemma NoneInPrefix<T>(a: seq<T>, b: seq<T>, p: T -> bool)
    requires |a| <= |b| && b[..|a|] == a && FindFirst(b, p).None?
    ensures FindFirst(a, p).None?
  {
    assert a + b[|a|..] == b;
    FindFirstAppend(a, b[|a|..], p);
  }

  /** The stops a file creates carry the ids `uuid` hands out in order, lie
      at 0,0, and bear names of the file that no stored stop had. */
  lemma {:induction false} ResolveStopsCreated(s: Store, names: seq<string>, uuid: nat -> string)
    ensures var r := ResolveStops(s, names, uuid);
            forall k :: |s.stops| <= k < |r.store.stops| ==>
              && r.store.stops[k] == Stop(uuid(k), r.store.stops[k].name, 0.0, 0.0)
              && r.store.stops[k].name in names
              && FindFirst(s.stops, NamedStop(r.store.stops[k].name)).None?
    decreases |names|
  {
    if names != [] {
      var first := ResolveStop(s, names[0], uuid);
      var rest := ResolveStops(first.store, names[1..], uuid);
      ResolveStopsCreated(first.store, names[1..], uuid);
      assert CreatedFrom(first.store.stops, rest.store.stops, names[1..], uuid);
      assert first.store.stops[..|s.stops|] == s.stops;
      CreatedFromStep(s.stops, first.store.stops, rest.store.stops, names, uuid);
      assert CreatedFrom(s.stops, ResolveStops(s, names, uuid).store.stops, names, uuid);
    }
  }

  /** A file whose stops are all stored already adds none. */
  lemma {:induction false} ResolveStopsOfKnown(s: Store, names: seq<string>, uuid: nat -> string)
    requires forall i :: 0 <= i < |names| ==> FindFirst(s.stops, NamedStop(names[i])).Some?
    ensures ResolveStops(s, names, uuid).store == s
    ensures ResolveStops(s, names, uuid).added == 0
    decreases |names|
  {
    if names != [] {
      assert ResolveStop(s, names[0], uuid).store == s;
      forall i | 0 <= i < |names[1..]|
        ensures FindFirst(s.stops, NamedStop(names[1..][i])).Some?
      {
        assert names[1..][i] == names[i + 1];
      }
      ResolveStopsOfKnown(s, names[1..], uuid);
    }
  }

  /** With fresh ids from `uuid`, stop ids stay unique. */
  lemma {:induction false} ResolveStopsUnique(s: Store, names: seq<string>, uuid: nat -> string)
    requires UniqueBy(s.stops, StopKey) && FreshStopIds(s.stops, uuid)
    ensures var r := ResolveStops(s, names, uuid);
            UniqueBy(r.store.stops, StopKey) && FreshStopIds(r.store.stops, uuid)
    decreases |names|
  {
    if names != [] {
      ResolveStopsUnique(ResolveStop(s, names[0], uuid).store, names[1..], uuid);
    }
  }

  /** A table after appending rows, and how many were appended. */
  datatype Appended = Appended(table: seq<StopTime>, added: nat)

  /** The stop-time belongs to the trip, arrives and departs at the
      departure's time, and visits the stop at some position `j` of the file
      with sequence number `seqNo + j`. */
  predicate VisitsOneOf(st: StopTime, tripId: string, hora: Option<string>, stopIds: seq<string>, seqNo: int) {
    && st.tripId == tripId
    && st.arrival == hora && st.departure == hora
    && exists j :: 0 <= j < |stopIds| && st.stopId == stopIds[j] && st.stopSequence == seqNo + j
  }

  lemma VisitsOneOfShift(st: StopTime, tripId: string, hora: Option<string>, stopIds: seq<string>, seqNo: int)
    requires stopIds != [] && VisitsOneOf(st, tripId, hora, stopIds[1..], seqNo + 1)
    ensures VisitsOneOf(st, tripId, hora, stopIds, seqNo)
  {
    var j :| 0 <= j < |stopIds| - 1 && st.stopId == stopIds[1..][j] && st.stopSequence == seqNo + 1 + j;
    assert st.stopId == stopIds[j + 1];
  }

  /** The stop-times of one departure: the stop at position `j` of the file
      is visited with sequence number `seqNo + j` at the departure's time,
      unless that (trip, stop, sequence) triple is stored already. Each
      insert takes the next serial id. */
  function AddStopTimes(sts: seq<StopTime>, tripId: string, hora: Option<string>, stopIds: seq<string>, seqNo: int): (r: Appended)
    ensures |sts| <= |r.table| && r.table[..|sts|] == sts
    ensures |r.table| == |sts| + r.added && r.added <= |stopIds|
    ensures forall k :: |sts| <= k < |r.table| ==> VisitsOneOf(r.table[k], tripId, hora, stopIds, seqNo)
    decreases |stopIds|
  {
    if stopIds == [] then Appended(sts, 0)
    else
      var t := if StopTimeKey(tripId, stopIds[0], seqNo) in KeysOf(sts, TripleOf) then sts
               else sts + [StopTime(NextId(sts, StopTimeId), tripId, hora, hora, stopIds[0], seqNo)];
      var rest := AddStopTimes(t, tripId, hora, stopIds[1..], seqNo + 1);
      assert rest.table[..|sts|] == t[..|sts|];
      assert forall k :: |sts| <= k < |rest.table| ==> VisitsOneOf(rest.table[k], tripId, hora, stopIds, seqNo) by {
        forall k | |sts| <= k < |rest.table|
          ensures VisitsOneOf(rest.table[k], tripId, hora, stopIds, seqNo)
        {
          if k < |t| {
            assert rest.table[k] == t[k];
            assert rest.table[k].stopId == stopIds[0];
          } else {
            VisitsOneOfShift(rest.table[k], tripId, hora, stopIds, seqNo);
          }
        }
      }
      Appended(rest.table, rest.added + |t| - |sts|)
  }

  /** Appending keeps both the surrogate ids and the triples unique. */
  lemma {:induction false} AddStopTimesUnique(sts: seq<StopTime>, tripId: string, hora: Option<string>, stopIds: seq<string>, seqNo: int)
    requires UniqueBy(sts, StopTimeId) && UniqueBy(sts, TripleOf)
    ensures var r := AddStopTimes(sts, tripId, hora, stopIds, seqNo);
            UniqueBy(r.table, StopTimeId) && UniqueBy(r.table, TripleOf)
    decreases |stopIds|
  {
    if stopIds != [] {
      if StopTimeKey(tripId, stopIds[0], seqNo) in KeysOf(sts, TripleOf) {
        AddStopTimesUnique(sts, tripId, hora, stopIds[1..], seqNo + 1);
      } else {
        var st := StopTime(NextId(sts, StopTimeId), tripId, hora, hora, stopIds[0], seqNo);
        UniqueSnoc(sts, st, StopTimeId);
        UniqueSnoc(sts, st, TripleOf);
        AddStopTimesUnique(sts + [st], tripId, hora, stopIds[1..], seqNo + 1);
      }
    }
  }

  /** A trip none of whose stored stop-times reaches `seqNo` gets one
      stop-time per stop. */
  lemma {:induction false} AddStopTimesOfNewTrip(sts: seq<StopTime>, tripId: string, hora: Option<string>, stopIds: seq<string>, seqNo: int)
    requires forall i :: 0 <= i < |sts| && sts[i].tripId == tripId ==> sts[i].stopSequence < seqNo
    ensures AddStopTimes(sts, tripId, hora, stopIds, seqNo).added == |stopIds|
    decreases |stopIds|
  {
    if stopIds != [] {
      var st := StopTime(NextId(sts, StopTimeId), tripId, hora, hora, stopIds[0], seqNo);
      var t := sts + [st];
      assert forall i :: 0 <= i < |t| && t[i].tripId == tripId ==> t[i].stopSequence < seqNo + 1 by {
        forall i | 0 <= i < |t| && t[i].tripId == tripId
          ensures t[i].stopSequence < seqNo + 1
        {
          if i < |sts| {
            assert t[i] == sts[i];
          }
        }
      }
      AddStopTimesOfNewTrip(t, tripId, hora, stopIds[1..], seqNo + 1);
      assert StopTimeKey(tripId, stopIds[0], seqNo) !in KeysOf(sts, TripleOf);
    }
  }

  /** The rows one departure, or all of a file's departures, added. */
  datatype Growth = Growth(store: Store, trips: nat, stopTimes: nat)

  function NewTrip(routeId: int, idx: nat): Trip {
    Trip(TripIdFor(routeId, idx), routeId, None, None, None)
  }

  /** The `idx`-th departure: skipped when its trip id is stored, otherwise a
      trip on the route followed by its stop-times. */
  function AddTrip(s: Store, routeId: int, salida: Salida, idx: nat, stopIds: seq<string>): (r: Growth)
    ensures r.store == s.(trips := r.store.trips, stopTimes := r.store.stopTimes)
    ensures |s.trips| <= |r.store.trips| && r.store.trips[..|s.trips|] == s.trips
    ensures |r.store.trips| == |s.trips| + r.trips
    ensures |s.stopTimes| <= |r.store.stopTimes| && r.store.stopTimes[..|s.stopTimes|] == s.stopTimes
    ensures |r.store.stopTimes| == |s.stopTimes| + r.stopTimes
  {
    var tripId := TripIdFor(routeId, idx);
    if tripId in KeysOf(s.trips, TripKey) then Growth(s, 0, 0)
    else
      var sts := AddStopTimes(s.stopTimes, tripId, salida.hora, stopIds, 1);
      Growth(s.(trips := s.trips + [NewTrip(routeId, idx)], stopTimes := sts.table), 1, sts.added)
  }

  /** The trip ids of departures `first` to `first + n - 1` of a route. */
  function TripIds(routeId: int, first: nat, n: nat): set<string> {
    set idx: nat | first <= idx < first + n :: TripIdFor(routeId, idx)
  }

  /** The departures of a file, numbered from `first`. */
  function AddTrips(s: Store, routeId: int, salidas: seq<Salida>, first: nat, stopIds: seq<string>): (r: Growth)
    ensures r.store == s.(trips := r.store.trips, stopTimes := r.store.stopTimes)
    ensures |s.trips| <= |r.store.trips| && r.store.trips[..|s.trips|] == s.trips
    ensures |r.store.trips| == |s.trips| + r.trips
    ensures |s.stopTimes| <= |r.store.stopTimes| && r.store.stopTimes[..|s.stopTimes|] == s.stopTimes
    ensures |r.store.stopTimes| == |s.stopTimes| + r.stopTimes
    decreases |salidas|
  {
    if salidas == [] then Growth(s, 0, 0)
    else
      var g := AddTrip(s, routeId, salidas[0], first, stopIds);
      var rest := AddTrips(g.store, routeId, salidas[1..], first + 1, stopIds);
      assert rest.store.trips[..|s.trips|] == g.store.trips[..|s.trips|];
      assert rest.store.stopTimes[..|s.stopTimes|] == g.store.stopTimes[..|s.stopTimes|];
      Growth(rest.store, g.trips + rest.trips, g.stopTimes + rest.stopTimes)
  }

  lemma SuccTimes(a: nat, b: nat)
    ensures (a + 1) * b == b + a * b
  {
  }

  lemma AddTripKeys(s: Store, routeId: int, salida: Salida, idx: nat, stopIds: seq<string>)
    ensures KeysOf(AddTrip(s, routeId, salida, idx, stopIds).store.trips, TripKey)
            == KeysOf(s.trips, TripKey) + {TripIdFor(routeId, idx)}
  {
    var g := AddTrip(s, routeId, salida, idx, stopIds);
    if TripIdFor(routeId, idx) in KeysOf(s.trips, TripKey) {
      assert g.store.trips == s.trips;
    } else {
      assert g.store.trips == s.trips + [NewTrip(routeId, idx)];
      KeysOfSnoc(s.trips, NewTrip(routeId, idx), TripKey);
    }
  }

  lemma TripIdsSplit(routeId: int, first: nat, n: nat)
    ensures TripIds(routeId, first, n + 1) == {TripIdFor(routeId, first)} + TripIds(routeId, first + 1, n)
  {
  }

  /** After a file's departures, every one of their trip ids is stored, and
      no other id was added. */
  lemma {:induction false} AddTripsKeys(s: Store, routeId: int, salidas: seq<Salida>, first: nat, stopIds: seq<string>)
    ensures KeysOf(AddTrips(s, routeId, salidas, first, stopIds).store.trips, TripKey)
            == KeysOf(s.trips, TripKey) + TripIds(routeId, first, |salidas|)
    decreases |salidas|
  {
    if salidas != [] {
      var g := AddTrip(s, routeId, salidas[0], first, stopIds);
      AddTripsKeys(g.store, routeId, salidas[1..], first + 1, stopIds);
      AddTripKeys(s, routeId, salidas[0], first, stopIds);
      TripIdsSplit(routeId, first, |salidas| - 1);
    }
  }

  /** A file whose departures are all stored adds nothing. */
  lemma {:induction false} AddTripsOfStored(s: Store, routeId: int, salidas: seq<Salida>, first: nat, stopIds: seq<string>)
    requires TripIds(routeId, first, |salidas|) <= KeysOf(s.trips, TripKey)
    ensures AddTrips(s, routeId, salidas, first, stopIds) == Growth(s, 0, 0)
    decreases |salidas|
  {
    if salidas != [] {
      assert TripIdFor(routeId, first) in TripIds(routeId, first, |salidas|);
      assert TripIds(routeId, first + 1, |salidas| - 1) <= TripIds(routeId, first, |salidas|);
      AddTripsOfStored(s, routeId, salidas[1..], first + 1, stopIds);
    }
  }

  /** Trip ids, stop-time ids and stop-time triples stay unique. */
  lemma {:induction false} AddTripsUnique(s: Store, routeId: int, salidas: seq<Salida>, first: nat, stopIds: seq<string>)
    requires UniqueBy(s.trips, TripKey) && UniqueBy(s.stopTimes, StopTimeId) && UniqueBy(s.stopTimes, TripleOf)
    ensures var r := AddTrips(s, routeId, salidas, first, stopIds).store;
            UniqueBy(r.trips, TripKey) && UniqueBy(r.stopTimes, StopTimeId) && UniqueBy(r.stopTimes, TripleOf)
    decreases |salidas|
  {
    if salidas != [] {
      var g := AddTrip(s, routeId, salidas[0], first, stopIds);
      if TripIdFor(routeId, first) !in KeysOf(s.trips, TripKey) {
        UniqueSnoc(s.trips, NewTrip(routeId, first), TripKey);
        AddStopTimesUnique(s.stopTimes, TripIdFor(routeId, first), salidas[0].hora, stopIds, 1);
      }
      AddTripsUnique(g.store, routeId, salidas[1..], first + 1, stopIds);
    }
  }

  /** Every stored stop-time belongs to a stored trip. */
  predicate StopTimesOfStoredTrips(s: Store) {
    forall i :: 0 <= i < |s.stopTimes| ==> s.stopTimes[i].tripId in KeysOf(s.trips, TripKey)
  }

  /** A departure whose trip is not stored adds its trip and one stop-time
      per stop. */
  lemma AddNewTrip(s: Store, routeId: int, salida: Salida, idx: nat, stopIds: seq<string>)
    requires TripIdFor(routeId, idx) !in KeysOf(s.trips, TripKey)
    requires forall i :: 0 <= i < |s.stopTimes| ==> s.stopTimes[i].tripId in KeysOf(s.trips, TripKey)
    ensures var g := AddTrip(s, routeId, salida, idx, stopIds);
            g.trips == 1 && g.stopTimes == |stopIds|
  {
    AddStopTimesOfNewTrip(s.stopTimes, TripIdFor(routeId, idx), salida.hora, stopIds, 1);
  }

  /** ... and stored stop-times keep belonging to stored trips. */
  lemma AddTripOwned(s: Store, routeId: int, salida: Salida, idx: nat, stopIds: seq<string>)
    requires StopTimesOfStoredTrips(s)
    ensures StopTimesOfStoredTrips(AddTrip(s, routeId, salida, idx, stopIds).store)
  {
    var tripId := TripIdFor(routeId, idx);
    if tripId !in KeysOf(s.trips, TripKey) {
      var g := AddTrip(s, routeId, salida, idx, stopIds).store;
      KeysOfSnoc(s.trips, NewTrip(routeId, idx), TripKey);
      forall i | 0 <= i < |g.stopTimes|
        ensures g.stopTimes[i].tripId in KeysOf(g.trips, TripKey)
      {
        if i < |s.stopTimes| {
          assert g.stopTimes[i] == s.stopTimes[i];
        }
      }
    }
  }

  /** The trip ids of later departures differ from the current one. */
  lemma LaterTripIdsFresh(routeId: int, first: nat, n: nat, keys: set<string>)
    requires TripIds(routeId, first, n + 1) !! keys
    ensures TripIds(routeId, first + 1, n) !! keys + {TripIdFor(routeId, first)}
  {
    TripIdsSplit(routeId, first, n);
    forall idx: nat | first + 1 <= idx < first + 1 + n
      ensures TripIdFor(routeId, idx) != TripIdFor(routeId, first)
    {
      if TripIdFor(routeId, idx) == TripIdFor(routeId, first) {
        TripIdInjective(routeId, idx, routeId, first);
      }
    }
  }

  /** A file none of whose departures is stored adds one trip per departure
      and one stop-time per departure and stop. */
  lemma {:induction false} AddTripsOfNew(s: Store, routeId: int, salidas: seq<Salida>, first: nat, stopIds: seq<string>)
    requires TripIds(routeId, first, |salidas|) !! KeysOf(s.trips, TripKey)
    requires StopTimesOfStoredTrips(s)
    ensures var r := AddTrips(s, routeId, salidas, first, stopIds);
            r.trips == |salidas| && r.stopTimes == |salidas| * |stopIds|
    decreases |salidas|
  {
    if salidas != [] {
      var tripId := TripIdFor(routeId, first);
      TripIdsSplit(routeId, first, |salidas| - 1);
      var g := AddTrip(s, routeId, salidas[0], first, stopIds);
      AddNewTrip(s, routeId, salidas[0], first, stopIds);
      AddTripOwned(s, routeId, salidas[0], first, stopIds);
      assert TripIds(routeId, first + 1, |salidas| - 1) !! KeysOf(g.store.trips, TripKey) by {
        AddTripKeys(s, routeId, salidas[0], first, stopIds);
        LaterTripIdsFresh(routeId, first, |salidas| - 1, KeysOf(s.trips, TripKey));
      }
      AddTripsOfNew(g.store, routeId, salidas[1..], first + 1, stopIds);
      var rest := AddTrips(g.store, routeId, salidas[1..], first + 1, stopIds);
      assert AddTrips(s, routeId, salidas, first, stopIds).stopTimes == |stopIds| + rest.stopTimes;
      SuccTimes(|salidas| - 1, |stopIds|);
    }
  }

  /** Every stop the ids name is stored. */
  predicate StopsStored(s: Store, stopIds: seq<string>) {
    forall j :: 0 <= j < |stopIds| ==> stopIds[j] in KeysOf(s.stops, StopKey)
  }

  /** A departure's trip names the route and its stop-times name that trip
      and the file's stops, so foreign keys keep resolving. */
  lemma AddTripReferences(s: Store, routeId: int, salida: Salida, idx: nat, stopIds: seq<string>)
    requires ReferencesResolve(s)
    requires routeId in KeysOf(s.routes, RouteKey) && StopsStored(s, stopIds)
    ensures ReferencesResolve(AddTrip(s, routeId, salida, idx, stopIds).store)
  {
    var tripId := TripIdFor(routeId, idx);
    if tripId !in KeysOf(s.trips, TripKey) {
      var g := AddTrip(s, routeId, salida, idx, stopIds).store;
      KeysOfSnoc(s.trips, NewTrip(routeId, idx), TripKey);
      ReferencesAfterAppend(s, g);
    }
  }

  /** Foreign keys keep resolving when trips and stop-times are appended
      whose references are stored. */
  lemma ReferencesAfterAppend(s: Store, g: Store)
    requires ReferencesResolve(s)
    requires g == s.(trips := g.trips, stopTimes := g.stopTimes)
    requires |s.trips| <= |g.trips| && g.trips[..|s.trips|] == s.trips
    requires |s.stopTimes| <= |g.stopTimes| && g.stopTimes[..|s.stopTimes|] == s.stopTimes
    requires forall i :: |s.trips| <= i < |g.trips| ==> g.trips[i].routeId in KeysOf(s.routes, RouteKey)
    requires forall i :: |s.stopTimes| <= i < |g.stopTimes| ==>
               g.stopTimes[i].tripId in KeysOf(g.trips, TripKey) && g.stopTimes[i].stopId in KeysOf(s.stops, StopKey)
    ensures ReferencesResolve(g)
  {
    KeysOfAppend(s.trips, g.trips[|s.trips|..], TripKey);
    assert g.trips == s.trips + g.trips[|s.trips|..];
    forall t | t in g.trips
      ensures t.routeId in KeysOf(g.routes, RouteKey)
    {
      var i :| 0 <= i < |g.trips| && g.trips[i] == t;
      if i < |s.trips| {
        assert t in s.trips;
      }
    }
    forall st | st in g.stopTimes
      ensures st.tripId in KeysOf(g.trips, TripKey) && st.stopId in KeysOf(g.stops, StopKey)
    {
      var i :| 0 <= i < |g.stopTimes| && g.stopTimes[i] == st;
      if i < |s.stopTimes| {
        assert st in s.stopTimes;
      }
    }
  }

  /** Foreign keys keep resolving over all the departures of a file. */
  lemma {:induction false} AddTripsReferences(s: Store, routeId: int, salidas: seq<Salida>, first: nat, stopIds: seq<string>)
    requires ReferencesResolve(s)
    requires routeId in KeysOf(s.routes, RouteKey) && StopsStored(s, stopIds)
    ensures ReferencesResolve(AddTrips(s, routeId, salidas, first, stopIds).store)
    decreases |salidas|
  {
    if salidas != [] {
      AddTripReferences(s, routeId, salidas[0], first, stopIds);
      AddTripsReferences(AddTrip(s, routeId, salidas[0], first, stopIds).store, routeId, salidas[1..], first + 1, stopIds);
    }
  }

  /** `b` is `a` with `n` rows appended. */
  predicate Extends<T(==)>(a: seq<T>, b: seq<T>, n: nat) {
    |b| == |a| + n && b[..|a|] == a
  }

  /** `t` is `s` with the rows `c` counts appended, table by table; the
      calendar tables are untouched. */
  predicate Grew(s: Store, t: Store, c: Counts) {
    && Extends(s.regions, t.regions, c.regions)
    && Extends(s.routes, t.routes, c.routes)
    && Extends(s.stops, t.stops, c.stops)
    && Extends(s.trips, t.trips, c.trips)
    && Extends(s.stopTimes, t.stopTimes, c.stopTimes)
    && t.calendars == s.calendars && t.calendarDates == s.calendarDates
  }

  /** `t` is `s` with rows appended to any of the five tables, and the
      route sequence never goes back. */
  predicate Extended(s: Store, t: Store) {
    && s.routeSerial <= t.routeSerial
    && |s.regions| <= |t.regions| && t.regions[..|s.regions|] == s.regions
    && |s.routes| <= |t.routes| && t.routes[..|s.routes|] == s.routes
    && |s.stops| <= |t.stops| && t.stops[..|s.stops|] == s.stops
    && |s.trips| <= |t.trips| && t.trips[..|s.trips|] == s.trips
    && |s.stopTimes| <= |t.stopTimes| && t.stopTimes[..|s.stopTimes|] == s.stopTimes
    && t.calendars == s.calendars && t.calendarDates == s.calendarDates
  }

  lemma ExtendedTransitive(s: Store, t: Store, u: Store)
    requires Extended(s, t) && Extended(t, u)
    ensures Extended(s, u)
  {
    assert u.regions[..|s.regions|] == u.regions[..|t.regions|][..|s.regions|];
    assert u.routes[..|s.routes|] == u.routes[..|t.routes|][..|s.routes|];
    assert u.stops[..|s.stops|] == u.stops[..|t.stops|][..|s.stops|];
    assert u.trips[..|s.trips|] == u.trips[..|t.trips|][..|s.trips|];
    assert u.stopTimes[..|s.stopTimes|] == u.stopTimes[..|t.stopTimes|][..|s.stopTimes|];
  }

  /** The outcome of one file: the store after its commits, and its counts
      or the error that stopped it. */
  datatype FileRun = FileRun(store: Store, outcome: Result<Counts, JsonError>)

  /** One route file, step by step: region, route, stops, departures. A
      failed route insert raises after the region's commit, and it spends a
      value of the route sequence. */
  function LoadFile(s: Store, file: JsonFile, uuid: nat -> string): (r: FileRun)
    ensures r.outcome.Err? ==> r.outcome.error.RegionRequired? || r.outcome.error.DuplicateRouteId?
    ensures r.outcome.Err? ==> r.outcome.error.file == file.name
    ensures r.outcome.Ok? ==> Grew(s, r.store, r.outcome.value)
    ensures r.outcome.Ok? ==> r.store.routeSerial == s.routeSerial + r.outcome.value.routes
    ensures Extended(s, r.store)
    ensures r.outcome.Ok? ==>
              r.outcome.value.regions <= 1 && r.outcome.value.routes <= 1
              && r.outcome.value.stops <= |file.data.paradas|
  {
    var f := file.data;
    var g := ResolveRegion(s, f.region);
    var spent := g.store.(routeSerial := g.store.routeSerial + 1);
    match ResolveRoute(g.store, g.value, RouteName(f.ruta))
    case Err(NoRegion) => FileRun(spent, Err(RegionRequired(file.name)))
    case Err(IdTaken(id)) => FileRun(spent, Err(DuplicateRouteId(file.name, id)))
    case Ok(rt) =>
      var st := ResolveStops(rt.store, f.paradas, uuid);
      var t := AddTrips(st.store, rt.value.id, f.salidas, 1, st.value);
      RegionStepExtends(s, f.region);
      RouteStepExtends(g.store, g.value, RouteName(f.ruta));
      StepsGrew(s, g.store, rt.store, st.store, t.store, Counts(g.added, rt.added, st.added, t.trips, t.stopTimes));
      FileRun(t.store, Ok(Counts(g.added, rt.added, st.added, t.trips, t.stopTimes)))
  }

  lemma RegionStepExtends(s: Store, name: Option<string>)
    ensures Extends(s.regions, ResolveRegion(s, name).store.regions, ResolveRegion(s, name).added)
    ensures ResolveRegion(s, name).added <= 1
  {
    var r := ResolveRegion(s, name);
    if r.added == 1 {
      assert (s.regions + [r.value.value])[..|s.regions|] == s.regions;
    }
  }

  lemma RouteStepExtends(s: Store, region: Option<Region>, name: string)
    requires ResolveRoute(s, region, name).Ok?
    ensures var r := ResolveRoute(s, region, name).value;
            && Extends(s.routes, r.store.routes, r.added) && r.added <= 1
            && r.store.routeSerial == s.routeSerial + r.added
  {
    var r := ResolveRoute(s, region, name).value;
    if FindFirst(s.routes, NamedRoute(name)).None? {
      assert (s.routes + [r.value])[..|s.routes|] == s.routes;
    }
  }

  /** The four steps of a file, each appending to its own tables, together
      append what their counts say. */
  lemma StepsGrew(s: Store, g: Store, rt: Store, st: Store, t: Store, c: Counts)
    requires g == s.(regions := g.regions) && Extends(s.regions, g.regions, c.regions)
    requires rt == g.(routes := rt.routes, routeSerial := rt.routeSerial)
    requires Extends(g.routes, rt.routes, c.routes) && rt.routeSerial == g.routeSerial + c.routes
    requires st == rt.(stops := st.stops) && Extends(rt.stops, st.stops, c.stops)
    requires t == st.(trips := t.trips, stopTimes := t.stopTimes)
    requires Extends(st.trips, t.trips, c.trips) && Extends(st.stopTimes, t.stopTimes, c.stopTimes)
    ensures Grew(s, t, c)
    ensures t.routeSerial == s.routeSerial + c.routes
    ensures Extended(s, t)
  {
  }

  /** A file fails exactly when its route is not stored and cannot be
      created: no region, or the next sequence value is an id already
      stored. It leaves the committed region, if any, and a spent value of
      the route sequence. */
  lemma LoadFileFailure(s: Store, file: JsonFile, uuid: nat -> string)
    ensures LoadFile(s, file, uuid).outcome.Err? <==>
              && FindFirst(s.routes, NamedRoute(RouteName(file.data.ruta))).None?
              && (!Truthy(file.data.region) || s.routeSerial in KeysOf(s.routes, RouteKey))
    ensures var r := LoadFile(s, file, uuid);
            r.outcome.Err? && !Truthy(file.data.region) ==>
              r.store == s.(routeSerial := s.routeSerial + 1) && r.outcome.error == RegionRequired(file.name)
    ensures var r := LoadFile(s, file, uuid);
            r.outcome.Err? && Truthy(file.data.region) ==>
              && r.outcome.error == DuplicateRouteId(file.name, s.routeSerial)
              && r.store == s.(regions := r.store.regions, routeSerial := s.routeSerial + 1)
  {
    var g := ResolveRegion(s, file.data.region);
    assert g.store.routes == s.routes && g.store.routeSerial == s.routeSerial;
  }

  /** The route a lookup by long name finds. */
  function FoundRoute(s: Store, name: string): (r: Option<Route>)
    ensures r.Some? <==> FindFirst(s.routes, NamedRoute(name)).Some?
  {
    match FindFirst(s.routes, NamedRoute(name))
    case Some(i) => Some(s.routes[i])
    case None => None
  }

  /** Everything a file describes is stored: its region (when named), its
      route, its stops, and a trip for each departure. */
  predicate HoldsFile(s: Store, f: RouteFile) {
    && (Truthy(f.region) ==> FindFirst(s.regions, NamedRegion(f.region.value)).Some?)
    && FoundRoute(s, RouteName(f.ruta)).Some?
    && (forall i :: 0 <= i < |f.paradas| ==> FindFirst(s.stops, NamedStop(f.paradas[i])).Some?)
    && TripIds(FoundRoute(s, RouteName(f.ruta)).value.id, 1, |f.salidas|) <= KeysOf(s.trips, TripKey)
  }

  /** A file that loads leaves everything it describes stored. */
  lemma LoadFileHolds(s: Store, file: JsonFile, uuid: nat -> string)
    requires LoadFile(s, file, uuid).outcome.Ok?
    ensures HoldsFile(LoadFile(s, file, uuid).store, file.data)
  {
    var f := file.data;
    var name := RouteName(f.ruta);
    var g := ResolveRegion(s, f.region);
    var rt := ResolveRoute(g.store, g.value, name).value;
    var st := ResolveStops(rt.store, f.paradas, uuid);
    var t := AddTrips(st.store, rt.value.id, f.salidas, 1, st.value);
    assert LoadFile(s, file, uuid).store == t.store;
    assert FoundRoute(t.store, name) == Some(rt.value) by {
      assert t.store.routes == rt.store.routes;
    }
    assert forall i :: 0 <= i < |f.paradas| ==> FindFirst(t.store.stops, NamedStop(f.paradas[i])).Some? by {
      ResolveStopsNames(rt.store, f.paradas, uuid);
      assert t.store.stops == st.store.stops;
    }
    AddTripsKeys(st.store, rt.value.id, f.salidas, 1, st.value);
  }

  /** A file whose contents are all stored loads without adding anything. */
  lemma LoadFileOfHeld(s: Store, file: JsonFile, uuid: nat -> string)
    requires HoldsFile(s, file.data)
    ensures LoadFile(s, file, uuid) == FileRun(s, Ok(NoCounts))
  {
    var f := file.data;
    var name := RouteName(f.ruta);
    var g := ResolveRegion(s, f.region);
    assert g == Step(s, g.value, 0);
    var rt := ResolveRoute(s, g.value, name);
    assert rt == Ok(Step(s, FoundRoute(s, name).value, 0));
    ResolveStopsOfKnown(s, f.paradas, uuid);
    var st := ResolveStops(s, f.paradas, uuid);
    AddTripsOfStored(s, FoundRoute(s, name).value.id, f.salidas, 1, st.value);
  }

  /** Loading a file a second time adds nothing and changes nothing. */
  lemma LoadFileIdempotent(s: Store, file: JsonFile, uuid: nat -> string)
    requires LoadFile(s, file, uuid).outcome.Ok?
    ensures var t := LoadFile(s, file, uuid).store;
            LoadFile(t, file, uuid) == FileRun(t, Ok(NoCounts))
  {
    LoadFileHolds(s, file, uuid);
    LoadFileOfHeld(LoadFile(s, file, uuid).store, file, uuid);
  }

  /** What a store holds, a store grown from it holds too. */
  lemma HoldsFileGrown(s: Store, t: Store, f: RouteFile)
    requires HoldsFile(s, f) && Extended(s, t)
    ensures HoldsFile(t, f)
  {
    assert t.regions == s.regions + t.regions[|s.regions|..];
    assert t.routes == s.routes + t.routes[|s.routes|..];
    assert t.stops == s.stops + t.stops[|s.stops|..];
    assert t.trips == s.trips + t.trips[|s.trips|..];
    if Truthy(f.region) {
      FindFirstAppend(s.regions, t.regions[|s.regions|..], NamedRegion(f.region.value));
    }
    var name := RouteName(f.ruta);
    FindFirstAppend(s.routes, t.routes[|s.routes|..], NamedRoute(name));
    assert FoundRoute(t, name) == FoundRoute(s, name);
    forall i | 0 <= i < |f.paradas|
      ensures FindFirst(t.stops, NamedStop(f.paradas[i])).Some?
    {
      FindFirstAppend(s.stops, t.stops[|s.stops|..], NamedStop(f.paradas[i]));
    }
    KeysOfAppend(s.trips, t.trips[|s.trips|..], TripKey);
  }

  /** Appending regions, routes whose region is stored, and stops keeps
      foreign keys resolving. */
  lemma ReferencesBeforeTrips(s: Store, t: Store)
    requires ReferencesResolve(s)
    requires t.trips == s.trips && t.stopTimes == s.stopTimes
    requires |s.regions| <= |t.regions| && t.regions[..|s.regions|] == s.regions
    requires |s.routes| <= |t.routes| && t.routes[..|s.routes|] == s.routes
    requires |s.stops| <= |t.stops| && t.stops[..|s.stops|] == s.stops
    requires forall i :: |s.routes| <= i < |t.routes| ==> t.routes[i].regionId in KeysOf(t.regions, RegionKey)
    ensures ReferencesResolve(t)
  {
    KeysOfPrefix(s.regions, t.regions, RegionKey);
    KeysOfPrefix(s.routes, t.routes, RouteKey);
    KeysOfPrefix(s.stops, t.stops, StopKey);
    forall r | r in t.routes
      ensures r.regionId in KeysOf(t.regions, RegionKey)
    {
      var i :| 0 <= i < |t.routes| && t.routes[i] == r;
      if i < |s.routes| {
        assert r == s.routes[i];
      }
    }
  }

  lemma KeysOfPrefix<T, K>(a: seq<T>, b: seq<T>, key: T -> K)
    requires |a| <= |b| && b[..|a|] == a
    ensures KeysOf(a, key) <= KeysOf(b, key)
  {
    assert b == a + b[|a|..];
    KeysOfAppend(a, b[|a|..], key);
  }

  /** The route a file resolves to lies in a stored region, and resolving
      the region and the route keeps foreign keys resolving. */
  lemma ResolvedRouteReferences(s: Store, region: Option<string>, name: string)
    requires ReferencesResolve(s)
    requires ResolveRoute(ResolveRegion(s, region).store, ResolveRegion(s, region).value, name).Ok?
    ensures var rt := ResolveRoute(ResolveRegion(s, region).store, ResolveRegion(s, region).value, name).value;
            ReferencesResolve(rt.store) && rt.value.id in KeysOf(rt.store.routes, RouteKey)
  {
    var g := ResolveRegion(s, region);
    var rt := ResolveRoute(g.store, g.value, name).value;
    assert ReferencesResolve(g.store) by {
      KeysOfPrefix(s.regions, g.store.regions, RegionKey);
    }
    ResolvedRouteRegion(s, region, name);
    assert ReferencesResolve(rt.store) by {
      RouteAdded(g.store, rt.store, rt.value);
    }
    assert rt.value in rt.store.routes;
  }

  /** Storing routes that lie in stored regions keeps foreign keys resolving. */
  lemma RouteAdded(s: Store, t: Store, route: Route)
    requires ReferencesResolve(s)
    requires t == s.(routes := t.routes, routeSerial := t.routeSerial)
    requires t.routes == s.routes || t.routes == s.routes + [route]
    requires route.regionId in KeysOf(t.regions, RegionKey)
    ensures ReferencesResolve(t)
  {
    if t.routes != s.routes {
      KeysOfSnoc(s.routes, route, RouteKey);
    }
  }

  lemma ResolvedRouteRegion(s: Store, region: Option<string>, name: string)
    requires ReferencesResolve(s)
    requires ResolveRoute(ResolveRegion(s, region).store, ResolveRegion(s, region).value, name).Ok?
    ensures var rt := ResolveRoute(ResolveRegion(s, region).store, ResolveRegion(s, region).value, name).value;
            rt.value.regionId in KeysOf(rt.store.regions, RegionKey)
  {
    var g := ResolveRegion(s, region);
    var rt := ResolveRoute(g.store, g.value, name).value;
    if FindFirst(g.store.routes, NamedRoute(name)).Some? {
      assert rt.value in s.routes;
      KeysOfPrefix(s.regions, g.store.regions, RegionKey);
    } else {
      assert g.value.value in g.store.regions;
    }
  }

  /** Loading a file keeps foreign keys resolving, whether or not it fails. */
  lemma LoadFileReferences(s: Store, file: JsonFile, uuid: nat -> string)
    requires ReferencesResolve(s)
    ensures ReferencesResolve(LoadFile(s, file, uuid).store)
  {
    var g := ResolveRegion(s, file.data.region);
    assert ReferencesResolve(g.store) by {
      KeysOfPrefix(s.regions, g.store.regions, RegionKey);
    }
    if ResolveRoute(g.store, g.value, RouteName(file.data.ruta)).Err? {
      assert LoadFile(s, file, uuid).store == g.store.(routeSerial := g.store.routeSerial + 1);
    } else {
      RoutedFileReferences(s, file, uuid);
    }
  }

  /** The steps after the route keep foreign keys resolving. */
  lemma RoutedFileReferences(s: Store, file: JsonFile, uuid: nat -> string)
    requires ReferencesResolve(s)
    requires ResolveRoute(ResolveRegion(s, file.data.region).store, ResolveRegion(s, file.data.region).value,
                          RouteName(file.data.ruta)).Ok?
    ensures ReferencesResolve(LoadFile(s, file, uuid).store)
  {
    var f := file.data;
    var g := ResolveRegion(s, f.region);
    var rt := ResolveRoute(g.store, g.value, RouteName(f.ruta)).value;
    ResolvedRouteReferences(s, f.region, RouteName(f.ruta));
    var st := ResolveStops(rt.store, f.paradas, uuid);
    ReferencesBeforeTrips(rt.store, st.store);
    assert StopsStored(st.store, st.value) by {
      ResolveStopsNames(rt.store, f.paradas, uuid);
    }
    AddTripsReferences(st.store, rt.value.id, f.salidas, 1, st.value);
  }

  /** With fresh stop ids, loading a file keeps every primary key and every
      stop-time triple unique. */
  lemma LoadFileUnique(s: Store, file: JsonFile, uuid: nat -> string)
    requires KeysUnique(s) && TriplesUnique(s) && FreshStopIds(s.stops, uuid)
    ensures var t := LoadFile(s, file, uuid).store;
            KeysUnique(t) && TriplesUnique(t) && FreshStopIds(t.stops, uuid)
  {
    var f := file.data;
    var g := ResolveRegion(s, f.region);
    if g.added == 1 {
      UniqueSnoc(s.regions, g.value.value, RegionKey);
    }
    match ResolveRoute(g.store, g.value, RouteName(f.ruta))
    case Err(_) =>
    case Ok(rt) =>
      if rt.added == 1 {
        UniqueSnoc(g.store.routes, rt.value, RouteKey);
      }
      ResolveStopsUnique(rt.store, f.paradas, uuid);
      var st := ResolveStops(rt.store, f.paradas, uuid);
      AddTripsUnique(st.store, rt.value.id, f.salidas, 1, st.value);
  }

  /** The files the loader reads: those whose name ends in `.json`. */
  predicate IsJsonFile(file: JsonFile) {
    EndsWith(file.name, ".json")
  }

  /** The summary entry of one loaded file. */
  datatype Entry = Entry(file: string, counts: Counts)

  /** The outcome of a run: the store after every commit made, and the
      per-file summary or the error that stopped the run. */
  datatype Run = Run(store: Store, outcome: Result<seq<Entry>, JsonError>)

  /** The names of the files a run reads, in listing order. */
  function JsonNames(files: seq<JsonFile>): (names: seq<string>)
    ensures forall n :: n in names <==> exists i :: 0 <= i < |files| && IsJsonFile(files[i]) && files[i].name == n
    decreases |files|
  {
    if files == [] then []
    else
      assert forall i :: 1 <= i < |files| ==> files[i] == files[1..][i - 1];
      if IsJsonFile(files[0]) then [files[0].name] + JsonNames(files[1..]) else JsonNames(files[1..])
  }

  /** One file read by `LoadFile`, with the stop ids `uuid` hands out. */
  function FileLoader(uuid: nat -> string): (Store, JsonFile) -> FileRun {
    (t: Store, file: JsonFile) => LoadFile(t, file, uuid)
  }

  /** The listed files in order, each read by `load`; the first failing file
      ends the run, and what earlier files committed stays. */
  function LoadFiles(s: Store, files: seq<JsonFile>, load: (Store, JsonFile) -> FileRun): (r: Run)
    ensures files == [] ==> r == Run(s, Ok([]))
    decreases |files|
  {
    if files == [] then Run(s, Ok([]))
    else if !IsJsonFile(files[0]) then LoadFiles(s, files[1..], load)
    else
      var fr := load(s, files[0]);
      match fr.outcome
      case Err(e) => Run(fr.store, Err(e))
      case Ok(c) =>
        var rest := LoadFiles(fr.store, files[1..], load);
        match rest.outcome
        case Err(e) => rest
        case Ok(entries) => Run(rest.store, Ok([Entry(files[0].name, c)] + entries))
  }

  /** A run only appends rows when every file does. */
  lemma {:induction false} LoadFilesExtended(s: Store, files: seq<JsonFile>, load: (Store, JsonFile) -> FileRun)
    requires forall t: Store, file: JsonFile :: Extended(t, load(t, file).store)
    ensures Extended(s, LoadFiles(s, files, load).store)
    decreases |files|
  {
    if files != [] {
      if !IsJsonFile(files[0]) {
        LoadFilesExtended(s, files[1..], load);
      } else {
        var fr := load(s, files[0]);
        if fr.outcome.Ok? {
          LoadFilesExtended(fr.store, files[1..], load);
          ExtendedTransitive(s, fr.store, LoadFiles(fr.store, files[1..], load).store);
        }
      }
    }
  }

  /** The file names of a summary, in order. */
  function EntryNames(entries: seq<Entry>): (names: seq<string>)
    ensures |names| == |entries|
    ensures forall i :: 0 <= i < |entries| ==> names[i] == entries[i].file
  {
    seq(|entries|, i requires 0 <= i < |entries| => entries[i].file)
  }

  /** A summary has one entry per `.json` file, in listing order; other
      files are skipped. */
  lemma {:induction false} LoadFilesSummary(s: Store, files: seq<JsonFile>, load: (Store, JsonFile) -> FileRun)
    requires LoadFiles(s, files, load).outcome.Ok?
    ensures EntryNames(LoadFiles(s, files, load).outcome.value) == JsonNames(files)
    decreases |files|
  {
    if files != [] {
      if !IsJsonFile(files[0]) {
        LoadFilesSummary(s, files[1..], load);
      } else {
        var fr := load(s, files[0]);
        LoadFilesSummary(fr.store, files[1..], load);
        var entries := LoadFiles(fr.store, files[1..], load).outcome.value;
        assert LoadFiles(s, files, load).outcome.value == [Entry(files[0].name, fr.outcome.value)] + entries;
        assert EntryNames([Entry(files[0].name, fr.outcome.value)] + entries) == [files[0].name] + EntryNames(entries);
      }
    }
  }

  /** The errors a file can raise: its route cannot be created. */
  predicate RouteError(e: JsonError, name: string) {
    (e.RegionRequired? || e.DuplicateRouteId?) && e.file == name
  }

  /** A run fails only on a `.json` file, with the error that file raised. */
  lemma {:induction false} LoadFilesError(s: Store, files: seq<JsonFile>, load: (Store, JsonFile) -> FileRun)
    requires forall t: Store, file: JsonFile :: load(t, file).outcome.Err? ==> RouteError(load(t, file).outcome.error, file.name)
    requires LoadFiles(s, files, load).outcome.Err?
    ensures exists n :: n in JsonNames(files) && RouteError(LoadFiles(s, files, load).outcome.error, n)
    decreases |files|
  {
    if files != [] {
      if !IsJsonFile(files[0]) {
        LoadFilesError(s, files[1..], load);
      } else {
        var fr := load(s, files[0]);
        if fr.outcome.Ok? {
          LoadFilesError(fr.store, files[1..], load);
        } else {
          assert files[0].name in JsonNames(files);
        }
      }
    }
  }

  /** What every file read by `LoadFile` satisfies, for the run lemmas. */
  lemma FileLoaderFacts(uuid: nat -> string)
    ensures forall t: Store, file: JsonFile :: Extended(t, FileLoader(uuid)(t, file).store)
    ensures forall t: Store, file: JsonFile :: FileLoader(uuid)(t, file).outcome.Err? ==>
              RouteError(FileLoader(uuid)(t, file).outcome.error, file.name)
    ensures forall t: Store, file: JsonFile :: FileLoader(uuid)(t, file).outcome.Ok? ==>
              HoldsFile(FileLoader(uuid)(t, file).store, file.data)
    ensures forall t: Store, file: JsonFile :: HoldsFile(t, file.data) ==> FileLoader(uuid)(t, file) == FileRun(t, Ok(NoCounts))
  {
    forall t: Store, file: JsonFile | FileLoader(uuid)(t, file).outcome.Ok?
      ensures HoldsFile(FileLoader(uuid)(t, file).store, file.data)
    {
      LoadFileHolds(t, file, uuid);
    }
    forall t: Store, file: JsonFile | HoldsFile(t, file.data)
      ensures FileLoader(uuid)(t, file) == FileRun(t, Ok(NoCounts))
    {
      LoadFileOfHeld(t, file, uuid);
    }
  }

  /** `json_to_db`: a missing directory is an error before anything is
      read; otherwise a summary naming every `.json` file in listing order,
      or the error of the first file whose route cannot be created. */
  function JsonToDb(dir: Option<seq<JsonFile>>, s: Store, uuid: nat -> string): (r: Run)
    ensures dir.None? <==> r.outcome == Err(DirectoryNotFound)
    ensures dir.None? ==> r.store == s
    ensures Extended(s, r.store)
    ensures r.outcome.Ok? ==> EntryNames(r.outcome.value) == JsonNames(dir.value)
    ensures dir.Some? && r.outcome.Err? ==> exists n :: n in JsonNames(dir.value) && RouteError(r.outcome.error, n)
  {
    match dir
    case None => Run(s, Err(DirectoryNotFound))
    case Some(files) =>
      var r := LoadFiles(s, files, FileLoader(uuid));
      FileLoaderFacts(uuid);
      LoadFilesExtended(s, files, FileLoader(uuid));
      assert r.outcome.Ok? ==> EntryNames(r.outcome.value) == JsonNames(files) by {
        if r.outcome.Ok? {
          LoadFilesSummary(s, files, FileLoader(uuid));
        }
      }
      assert r.outcome.Err? ==> exists n :: n in JsonNames(files) && RouteError(r.outcome.error, n) by {
        if r.outcome.Err? {
          LoadFilesError(s, files, FileLoader(uuid));
        }
      }
      r
  }

  /** After a run that succeeds, every file it read is held by the store. */
  lemma {:induction false} LoadFilesHold(s: Store, files: seq<JsonFile>, load: (Store, JsonFile) -> FileRun)
    requires forall t: Store, file: JsonFile :: Extended(t, load(t, file).store)
    requires forall t: Store, file: JsonFile :: load(t, file).outcome.Ok? ==> HoldsFile(load(t, file).store, file.data)
    requires LoadFiles(s, files, load).outcome.Ok?
    ensures forall i :: 0 <= i < |files| && IsJsonFile(files[i]) ==>
              HoldsFile(LoadFiles(s, files, load).store, files[i].data)
    decreases |files|
  {
    if files != [] {
      var r := LoadFiles(s, files, load);
      if !IsJsonFile(files[0]) {
        LoadFilesHold(s, files[1..], load);
        HoldsAllCons(r.store, files);
      } else {
        var fr := load(s, files[0]);
        LoadFilesHold(fr.store, files[1..], load);
        LoadFilesExtended(fr.store, files[1..], load);
        HoldsFileGrown(fr.store, r.store, files[0].data);
        HoldsAllCons(r.store, files);
      }
    }
  }

  lemma HoldsAllCons(t: Store, files: seq<JsonFile>)
    requires files != []
    requires IsJsonFile(files[0]) ==> HoldsFile(t, files[0].data)
    requires forall i :: 0 <= i < |files| - 1 && IsJsonFile(files[1..][i]) ==> HoldsFile(t, files[1..][i].data)
    ensures forall i :: 0 <= i < |files| && IsJsonFile(files[i]) ==> HoldsFile(t, files[i].data)
  {
    forall i | 1 <= i < |files| && IsJsonFile(files[i])
      ensures HoldsFile(t, files[i].data)
    {
      assert files[i] == files[1..][i - 1];
    }
  }

  /** The summary of a run that adds nothing. */
  function NothingAdded(names: seq<string>): (entries: seq<Entry>)
    ensures |entries| == |names|
    ensures forall i :: 0 <= i < |names| ==> entries[i] == Entry(names[i], NoCounts)
  {
    seq(|names|, i requires 0 <= i < |names| => Entry(names[i], NoCounts))
  }

  lemma NothingAddedCons(name: string, names: seq<string>)
    ensures NothingAdded([name] + names) == [Entry(name, NoCounts)] + NothingAdded(names)
  {
    var a, b := NothingAdded([name] + names), [Entry(name, NoCounts)] + NothingAdded(names);
    assert |a| == |b|;
    forall i | 0 <= i < |a|
      ensures a[i] == b[i]
    {
      if i > 0 {
        assert ([name] + names)[i] == names[i - 1];
      }
    }
  }

  /** A run over files the store already holds adds nothing. */
  lemma {:induction false} LoadFilesOfHeld(s: Store, files: seq<JsonFile>, load: (Store, JsonFile) -> FileRun)
    requires forall t: Store, file: JsonFile :: HoldsFile(t, file.data) ==> load(t, file) == FileRun(t, Ok(NoCounts))
    requires forall i :: 0 <= i < |files| && IsJsonFile(files[i]) ==> HoldsFile(s, files[i].data)
    ensures LoadFiles(s, files, load) == Run(s, Ok(NothingAdded(JsonNames(files))))
    decreases |files|
  {
    if files != [] {
      assert forall i :: 1 <= i < |files| ==> files[i] == files[1..][i - 1];
      LoadFilesOfHeld(s, files[1..], load);
      if IsJsonFile(files[0]) {
        NothingAddedCons(files[0].name, JsonNames(files[1..]));
      }
    }
  }

  /** Running the loader again over the same directory adds nothing: every
      count of the second summary is zero and the store is unchanged. */
  lemma JsonToDbRerun(dir: Option<seq<JsonFile>>, s: Store, uuid: nat -> string)
    requires JsonToDb(dir, s, uuid).outcome.Ok?
    ensures var t := JsonToDb(dir, s, uuid).store;
            JsonToDb(dir, t, uuid) == Run(t, Ok(NothingAdded(JsonNames(dir.value))))
  {
    FileLoaderFacts(uuid);
    LoadFilesHold(s, dir.value, FileLoader(uuid));
    LoadFilesOfHeld(JsonToDb(dir, s, uuid).store, dir.value, FileLoader(uuid));
  }

  /** A feed route with id 1 in a store whose route sequence was never
      advanced: a file naming a new route in a known region draws id 1 and
      breaks the primary key, and the value it spent lets the same file
      succeed with id 2 the next time. */
  const FeedRouteOne := EmptyStore.(
    regions := [Region(1, "Managua")],
    routes := [Route(1, 1, Some("1"), Some("Ruta 1"), None)])

  const NewRouteFile := JsonFile("nueva.json", RouteFile(Some("Managua"), Some("Nueva"), [], []))

  lemma SequenceCollision(uuid: nat -> string)
    ensures LoadFile(FeedRouteOne, NewRouteFile, uuid) ==
              FileRun(FeedRouteOne.(routeSerial := 2), Err(DuplicateRouteId("nueva.json", 1)))
    ensures var t := LoadFile(FeedRouteOne.(routeSerial := 2), NewRouteFile, uuid);
            && t.outcome == Ok(Counts(0, 1, 0, 0, 0))
            && t.store.routes == FeedRouteOne.routes + [Route(2, 1, Some("Nueva"), Some("Nueva"), None)]
  {
    assert FindFirst(FeedRouteOne.regions, NamedRegion("Managua")) == Some(0);
    assert !NamedRoute("Nueva")(FeedRouteOne.routes[0]);
    assert FindFirst(FeedRouteOne.routes, NamedRoute("Nueva")).None?;
    assert KeysOf(FeedRouteOne.routes, RouteKey) == {1};
  }
}
