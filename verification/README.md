# Nicaraguan transit schedules, modelled in Dafny

This project models the schedule side of a small GTFS transit application for
Nicaraguan bus routes. It covers five pieces.

- **Store.** The transit database: regions, routes, stops, trips, stop-times,
  calendars and calendar exceptions, kept as one sequence of records per table
  in insertion order (`Models`).
- **Service resolution and timetable lookup.** The `/api/horarios` endpoint:
  - the `fecha` parameter is read with `strptime('%Y-%m-%d')` (`Dates`);
  - the date's Monday-based weekday selects a calendar flag;
  - the active services are the base set plus the type-1 exceptions, minus the
    type-2 exceptions (`ServiceCalendar`);
  - the matching stop-times are ordered by arrival text, nulls last, and cut at
    ten (`Schedule`).

  The `/api/paradas` endpoint is the join of a route's stop-times with their
  stops, ordered by stop sequence. Both endpoints compare `ruta` with the
  integer `route_id` column, so the database reads it as an `int4` (`PgInt`).
  Text it cannot read makes the query raise, and the application answers 500.
- **GTFS bulk loader.** Stops, routes, trips and stop-times are merged against
  the keys stored before each file is read. A key repeated inside a file is
  inserted once, and a rerun inserts nothing (`Dedup`, `GtfsLoader`). Each
  table's step commits on its own. A commit whose new rows name a missing
  region, route, trip or stop is refused, and the load stops there with the
  earlier steps kept. Calendar
  and calendar-date rows are converted one object per row, with Python's
  `int()` (`PyInt`) and `strptime('%Y%m%d')`, and appended without any merge.
- **JSON route loader.** Each `.json` file names a region, a route, its stops
  and its departures:
  - regions are looked up by name, routes by long name and stops by name, and
    each is created when missing;
  - each departure becomes a trip `"{route.id}_t{idx}"` with one stop-time per
    stop, unless that trip is already stored;
  - a new route takes the next value of the `routes.id` sequence, and that
    value is spent even when the insert fails;
  - the insert fails without a region (`NOT NULL`), or when the value is
    already the id of a route a GTFS feed inserted with an explicit id; either
    failure aborts the run (`JsonLoader`).
- **Chat assistant.** It reads a message in these steps (`ChatBot`):
  - a blank message is never sent;
  - the text is trimmed, lowered and split on white space;
  - the first listed city among the words is the origin, and the next listed
    city is the destination;
  - the intent keywords are ranked `parada` > `horario`/`salida` > `ruta`/`ir`.

Queries, files and directories are inputs. Where the application raises, the
model returns an error value. That covers the constraint checks the database
makes at the four GTFS step commits and at the JSON loader's commits, apart
from the column widths listed under "Left out". The calendar commit is taken
never to fail (see "Left out").
Nothing is read from disk or the network.

## Model

| member | source | states |
|---|---|---|
| Models.SchemaAdmitsRepeatedTriple | models.py:35-42 | the schema's own constraints admit two stop-times with the same (trip, stop, sequence) triple, so the loaders alone keep that triple unique |
| Models.NextId | models.py:37 | a serial id handed out is at least 1 and larger than every id in use |
| Text.DecimalRoundTrip | json_loader.py:65 | reading the decimal rendering of a natural number back gives the number |
| Text.IntToDecimalInjective | json_loader.py:65 | two integers with the same rendering are equal |
| Text.TextLeTotal | api/gtfs_routes.py:86 | any two arrival texts are comparable in the order `ORDER BY` uses |
| Text.TextLeTransitive | api/gtfs_routes.py:86 | the text order is transitive |
| Text.TextLeAntisymmetric | api/gtfs_routes.py:86 | two texts ordered both ways are equal |
| PyInt.ParseDecimalRoundTrip | gtfs_loader.py:110 | `int(str(i)) == i` for every integer, negative ones included |
| PyInt.ParsePlainDigits | gtfs_loader.py:85-91 | a run of ASCII digits reads as its decimal value |
| PyInt.ParseIgnoresSpace | gtfs_loader.py:85-91 | white space around a literal does not change what `int()` reads |
| PyInt.RejectBlank | gtfs_loader.py:85-91 | blank text is not an integer |
| PyInt.RejectNonDigitStart | gtfs_loader.py:85-91 | text that opens with neither a sign nor a digit is not an integer |
| PyInt.RejectDoubleUnderscore | gtfs_loader.py:85-91 | two underscores in a row make the literal invalid |
| PgInt.ParseInt4 | api/gtfs_routes.py:41 | a parameter the database reads as an `int4` lies in the 32-bit range |
| PgInt.Int4RoundTrip | api/gtfs_routes.py:41 | the decimal rendering of every 32-bit integer reads back as that integer |
| PgInt.RejectOutOfRange | api/gtfs_routes.py:41 | a well-formed numeral outside the 32-bit range, such as `99999999999`, is rejected |
| PgInt.ParseInt4IgnoresSpace | api/gtfs_routes.py:41 | blanks around the numeral do not change what it reads as |
| PgInt.RejectNonDigit | api/gtfs_routes.py:41 | a character other than a digit after the optional sign, as in `1.5` or `abc`, is rejected |
| Dates.NextDay | api/gtfs_routes.py:59 | the helper that fixes the weekday `date.weekday()` reads: the day after a valid date is valid and strictly later |
| Dates.NextDayOrdinal | api/gtfs_routes.py:59 | the day after has the next day number |
| Dates.Weekday | api/gtfs_routes.py:59 | `date.weekday()` is a number from 0 to 6; `Dates.WeekdayOfNextDay` and `Dates.WeekdayExample` fix which day is which |
| Dates.WeekdayOfNextDay | api/gtfs_routes.py:59 | consecutive days have consecutive weekdays, and Sunday wraps to Monday |
| Dates.WeekdayExample | api/gtfs_routes.py:59 | 2024-03-04 is weekday 0, a Monday |
| Dates.LeIffOrdinalLe | api/gtfs_routes.py:61-62 | comparing dates field by field agrees with comparing their day numbers |
| Dates.Strptime | api/gtfs_routes.py:54-57 | every date `strptime` accepts exists |
| Dates.StrptimePadded | api/gtfs_routes.py:54-57 | zero-padded fields read as the date they spell if it exists, and as an error if not (e.g. 29 February outside a leap year, a 31st in a 30-day month, year 0) |
| Dates.StrptimeRoundTrip | gtfs_loader.py:92-93 | reading back a formatted valid date gives the date, in both the dashed and the compact format |
| Dates.StrptimeUnpadded | api/gtfs_routes.py:55 | `%Y-%m-%d` also accepts a one-digit month and a one-digit day |
| ServiceCalendar.WeekdayFlag | api/gtfs_routes.py:59-63 | the weekday of the date picks its flag from the seven, Monday first, as the day-name list indexes them |
| ServiceCalendar.FlagOfDay | api/gtfs_routes.py:59-63 | the name at position w of the day list selects the flag of day w, for all seven days |
| ServiceCalendar.ActiveServices | api/gtfs_routes.py:59-74 | a service is active exactly when the GTFS reading says it runs: (1) a removal on the date excludes it; (2) otherwise an addition includes it; (3) otherwise a calendar whose range holds the date and whose weekday flag is set. An active service has an in-range calendar or an addition |
| ServiceCalendar.OutOfRangeNeverByPattern | api/gtfs_routes.py:60-64 | a calendar whose range misses the date never puts its service in the base set, whatever its flags |
| ServiceCalendar.RemovalWins | api/gtfs_routes.py:65-74 | a service both added and removed on the date is inactive |
| ServiceCalendar.MondayPattern | api/gtfs_routes.py:59-64 | a Monday-only calendar for 2024 covers Monday 2024-03-04 by its pattern and not Tuesday 2024-03-05 |
| ServiceCalendar.MondayScenarios | api/gtfs_routes.py:59-74 | a Monday-only 2024 calendar runs on Monday 4 March, does not run on Tuesday 5 March unless an addition says so, and stops on 4 March under a removal |
| Seqs.Filter | api/gtfs_routes.py:81-85 | the filter keeps only the elements that satisfy the condition, and keeps all of them |
| Seqs.FilterCounts | api/gtfs_routes.py:81-85 | the filter keeps every occurrence of a selected row and no occurrence of any other row |
| Seqs.Sort | api/gtfs_routes.py:42 | the result is sorted and is a permutation of the input |
| Seqs.SortTake | api/gtfs_routes.py:86-87 | `ORDER BY … LIMIT n` gives min(n, #rows) rows, sorted, drawn from the input, with no omitted row ordered before a returned one |
| Seqs.SortedTake | api/gtfs_routes.py:87 | a limit keeps a sorted prefix, and every row cut off comes no earlier than any row kept |
| Seqs.FindFirst | json_loader.py:34 | `.first()` under a filter finds the earliest matching row, or reports that none matches |
| Seqs.FindFirstAppend | json_loader.py:34-38 | inserting rows never changes an existing first match, and a lookup that failed finds the first inserted match |
| Schedule.ArrivalOrder | api/gtfs_routes.py:86 | ordering by arrival text with nulls last is a total preorder |
| Schedule.RouteMatchesRendered | api/gtfs_routes.py:41 | the decimal rendering of a 32-bit route id matches that route and no other |
| Schedule.Departures | api/gtfs_routes.py:78-85 | the query keeps every occurrence of a stop-time at the stop on an active trip of the route, and nothing else |
| Schedule.NoServiceNoDepartures | api/gtfs_routes.py:75-76 | with no active service, no stop-time is selected |
| Schedule.NextDepartures | api/gtfs_routes.py:75-88 | the selected rows:<br>• are empty when no service is active<br>• are stop-times at the stop on a trip of the route with an active service<br>• number min(10, #matches)<br>• are sorted by arrival, with no omitted match arriving before a returned row |
| Schedule.Timetable | api/gtfs_routes.py:78-90 | at most ten rows, sorted by arrival |
| Schedule.TimetableRowSelected | api/gtfs_routes.py:78-85 | every timetable row is the arrival and departure of a stop-time at the stop whose trip is on the route and runs an active service |
| Schedule.Horarios | api/gtfs_routes.py:48-90 | the reply is:<br>• 400 with an empty list when `ruta`, `parada` or `fecha` is missing or empty<br>• 400 with the error object when `fecha` is not a date<br>• 200 with an empty list when no service is active on the date<br>• 500 when a service is active and `ruta` is not an `int4`<br>• 200 with the timetable otherwise |
| Schedule.FindStop | api/gtfs_routes.py:39 | the join finds the stop with the stop-time's id, or there is none |
| Schedule.VisitsSound | api/gtfs_routes.py:31-43 | every `paradas` row joins a stop-time of a trip on the route with the stop it names |
| Schedule.VisitsComplete | api/gtfs_routes.py:31-43 | every stop-time of a trip on the route whose stop exists yields a row |
| Schedule.VisitsOnePerStopTime | api/gtfs_routes.py:31-43 | the join yields each row as often as there are stop-times of the route with a stored stop that give it |
| Schedule.Paradas | api/gtfs_routes.py:27-45 | the reply is:<br>• 400 with an empty list without `ruta`<br>• 500 exactly when `ruta` is given and is not an `int4`<br>• otherwise 200 with rows sorted by stop sequence, each joining a stop-time of the route with its stop, one row per such stop-time |
| Schedule.ParadasRejectsNonInteger | api/gtfs_routes.py:27-45 | a `ruta` such as `1.5` or `abc` is a server error whatever the store holds |
| Dedup.Fresh | gtfs_loader.py:138-143 | every inserted row is an incoming row whose key was not seen |
| Dedup.FreshKeys | gtfs_loader.py:138-143 | the inserted rows have pairwise distinct keys, and these keys are exactly the incoming keys not seen before |
| Dedup.FreshCount | gtfs_loader.py:137-145 | the count is the number of distinct incoming keys not stored before |
| Dedup.FreshOfSeen | gtfs_loader.py:139-140 | when every incoming key is stored, nothing is inserted |
| Dedup.MergeIdempotent | gtfs_loader.py:136-143 | merging the same rows again, against the keys the first merge left, inserts nothing |
| Dedup.DuplicateInBatch | gtfs_loader.py:141-143 | two new rows with the same key yield one insert, the first |
| Dedup.DistinctKeysInBatch | gtfs_loader.py:141-143 | two new rows with different keys are both inserted, in order |
| Dedup.MergeRows | gtfs_loader.py:136-145 | the loop with its growing seen-set inserts exactly the fresh rows and counts them |
| Dedup.AppendConverted | gtfs_loader.py:136-145 | appending the converted fresh rows:<br>• adds one row per new key<br>• leaves the stored keys plus the incoming keys<br>• keeps keys unique |
| Dedup.MergeTable | gtfs_loader.py:136-145 | the merged table is the stored rows unchanged, then the fresh rows converted in order |
| Dedup.MergeTableOfStored | gtfs_loader.py:139-140 | rows whose keys are all stored leave the table unchanged |
| GtfsLoader.RowToStop | gtfs_loader.py:27-33 | a stop copies the row's four columns, and the row can be recovered from it |
| GtfsLoader.RowToRoute | gtfs_loader.py:17-24 | a route is filed under region 1 and copies the row's columns unchanged |
| GtfsLoader.RowToTrip | gtfs_loader.py:36-43 | a trip copies the row's columns unchanged |
| GtfsLoader.RowToStopTime | gtfs_loader.py:46-53 | a stop-time copies the row's columns and takes the given serial id |
| GtfsLoader.MergeStops | gtfs_loader.py:132-145 | the stops step merges by `stop_id` |
| GtfsLoader.MergeRoutes | gtfs_loader.py:147-160 | the routes step merges by `route_id` |
| GtfsLoader.MergeTrips | gtfs_loader.py:162-175 | the trips step merges by `trip_id` |
| GtfsLoader.MergeStopTimes | gtfs_loader.py:177-196 | the stop-times step:<br>• merges by the (trip, stop, sequence) triple<br>• gives the inserted rows consecutive ids past the largest<br>• keeps ids unique<br>• inserts nothing when every triple is stored |
| GtfsLoader.MergedAreConverted | gtfs_loader.py:138-171 | every added stop, route and trip is an incoming row converted, and an added route is in region 1 |
| GtfsLoader.SerialIdsUnique | models.py:37 | ids drawn consecutively past the largest id in use keep ids unique |
| GtfsLoader.CountsMap | gtfs_loader.py:130-196 | the counts hold an entry for a kind exactly when its file is present, with that file's count |
| GtfsLoader.LoadFolder | gtfs_loader.py:130-200 | a missing file leaves its table unchanged and its kind out of the counts, and regions and calendars are untouched |
| GtfsLoader.LoadFolderKeys | gtfs_loader.py:136-196 | after a load, a present kind holds the keys stored before plus the keys of its file |
| GtfsLoader.LoadFolderCounts | gtfs_loader.py:137-196 | the count of a present kind is the number of its incoming keys that were not stored |
| GtfsLoader.LoadFolderUnique | gtfs_loader.py:136-196 | a load keeps every primary key and the stop-time triple unique |
| GtfsLoader.LoadGtfsData | gtfs_loader.py:124-200 | a missing directory raises `FileNotFoundError` and stores nothing; otherwise the steps run and commit in order |
| GtfsLoader.Commit | gtfs_loader.py:144-196 | the load completes exactly when every inserted route names a stored region, every inserted trip a stored route, and every inserted stop-time a stored trip and stop. Otherwise the first refused step raises a foreign-key error, is rolled back, and no later step runs |
| GtfsLoader.CommitKeepsReferences | gtfs_loader.py:132-196 | whichever step raises, every foreign key of the committed store names a stored row |
| GtfsLoader.CommitResolves | gtfs_loader.py:144-196 | when the steps only append rows, a commit that refuses dangling rows keeps every foreign key resolved |
| GtfsLoader.LoadGtfsDataRerun | gtfs_loader.py:124-200 | after a completed load, loading the same directory again completes, changes nothing, and counts zero for every present kind |
| GtfsLoader.DanglingTripExample | gtfs_loader.py:162-175 | a feed whose trip names a route that neither it nor the store holds keeps its routes and raises at the trips step, storing no trip |
| GtfsLoader.CommitDangling | gtfs_loader.py:159-174 | with region 1 stored, route 5 commits and a trip on route 7 is refused |
| GtfsLoader.RerunStops | gtfs_loader.py:132-145 | merging the same stops twice inserts nothing the second time |
| GtfsLoader.RerunRoutes | gtfs_loader.py:147-160 | merging the same routes twice inserts nothing the second time |
| GtfsLoader.RerunTrips | gtfs_loader.py:162-175 | merging the same trips twice inserts nothing the second time |
| GtfsLoader.RerunStopTimes | gtfs_loader.py:177-196 | merging the same stop-times twice inserts nothing the second time |
| GtfsLoader.LoadStored | gtfs_loader.py:136-196 | a store that already holds every row of the files is left as it is, and every present kind counts zero |
| GtfsLoader.LoadIdempotent | gtfs_loader.py:136-196 | a second load of the same files changes nothing and reports zero for every present kind |
| GtfsLoader.DistinctTriplesBothInserted | gtfs_loader.py:181-193 | two new stop-time rows that differ in trip, stop or sequence are both inserted |
| GtfsLoader.SameTripleInsertedOnce | gtfs_loader.py:189-193 | two new stop-time rows with the same triple are inserted once |
| GtfsLoader.ReadInt | gtfs_loader.py:110 | `int(text)` succeeds exactly when Python reads the text as an integer, and raises on the text otherwise |
| GtfsLoader.ReadIntDigits | gtfs_loader.py:110 | a cell of ASCII digits reads as its decimal value, and a blank cell raises |
| GtfsLoader.ReadIntRoundTrip | gtfs_loader.py:110 | `int(str(i)) == i` for a cell |
| GtfsLoader.ReadFlag | gtfs_loader.py:85-91 | `bool(int(text))` succeeds exactly when `int` does, and raises on the text otherwise |
| GtfsLoader.ReadFlagDigits | gtfs_loader.py:85-91 | a cell of digits is true exactly when one of its digits is not `0` |
| GtfsLoader.ReadDate | gtfs_loader.py:92-93 | `strptime(text, '%Y%m%d')` succeeds exactly when the text spells a date, gives that date, and raises on the text otherwise |
| GtfsLoader.ReadDateRoundTrip | gtfs_loader.py:92-93 | a date written as `%Y%m%d` reads back as itself |
| GtfsLoader.RowToCalendar | gtfs_loader.py:82-94 | a calendar is read exactly when all seven flags and both dates read. It keeps the service id and takes each flag and each date from its own cell |
| GtfsLoader.RowToCalendarError | gtfs_loader.py:82-94 | a row raises on its first unreadable cell: the weekday cells in order, then the start date, then the end date |
| GtfsLoader.FlagTextRead | gtfs_loader.py:85 | the flags `1` and `0` read back as true and false |
| GtfsLoader.CalendarRoundTrip | gtfs_loader.py:82-94 | reading back the row written for a calendar gives the calendar |
| GtfsLoader.RowToCalendarDate | gtfs_loader.py:106-111 | a calendar exception is read exactly when its date and type read. It keeps the service id and takes the date and type from their cells. A bad date raises first, and a bad type raises after a good date |
| GtfsLoader.CalendarDateRoundTrip | gtfs_loader.py:106-111 | reading back the row written for a calendar exception gives the exception |
| GtfsLoader.ConvertAll | gtfs_loader.py:81-95 | the rows convert in order, and the first row that raises aborts the file |
| GtfsLoader.LoadCalendars | gtfs_loader.py:117-121 | the load succeeds exactly when every row of both files converts, and it changes no other table (the calendar tables are taken to have no key constraint) |
| GtfsLoader.LoadCalendarsOk | gtfs_loader.py:117-121 | a completed load appends both files' converted rows to the stored ones |
| GtfsLoader.CalendarErrorFirst | gtfs_loader.py:119-120 | a bad calendar row aborts the load with a calendar row's error, whatever the calendar-date rows hold |
| GtfsLoader.LoadCalendarsRows | gtfs_loader.py:76-97 | a load appends one calendar per row of `calendar.txt`, in file order, after those stored |
| GtfsLoader.LoadCalendarDatesRows | gtfs_loader.py:100-114 | a load appends one calendar exception per row of `calendar_dates.txt`, in file order |
| GtfsLoader.CalendarsNotMerged | gtfs_loader.py:76-114 | loading the same calendar files twice stores every row twice, as the calendar tables are taken to have no unique key |
| JsonLoader.TripIdInjective | json_loader.py:65 | distinct (route, departure) pairs get distinct trip ids |
| JsonLoader.TripIdFor | json_loader.py:65 | a trip id starts with the route id's rendering and ends with the departure's index; `JsonLoader.TripIdInjective` shows it names both |
| JsonLoader.ResolveRegion | json_loader.py:31-39 | the region:<br>• is absent, with nothing added, when the name is missing or empty<br>• is reused when a region has the name<br>• is otherwise created, new, and counted once |
| JsonLoader.ResolveRoute | json_loader.py:42-50 | the route:<br>• is reused when a route has the long name<br>• is otherwise created with that name as both names in the file's region, taking the next sequence value as its id, and counted once<br>• cannot be created without a region, or when the sequence value is a stored id; each is its own error |
| JsonLoader.ResolveStop | json_loader.py:55-61 | a stop is reused by name, or created at 0,0 with the next fresh id; afterwards the name's lookup gives the returned id, and unique ids stay unique |
| JsonLoader.ResolveStops | json_loader.py:53-61 | `stop_ids` has one id per name, and the stored stops are kept as a prefix |
| JsonLoader.ResolveStopsNames | json_loader.py:53-61 | each id in `stop_ids` is the id the final table gives that stop's name |
| JsonLoader.ResolveStopsCreated | json_loader.py:55-60 | each created stop carries the next fresh id, lies at 0,0, and has a name of the file that no stored stop had |
| JsonLoader.ResolveStopsOfKnown | json_loader.py:55-61 | a file whose stops are all stored adds none |
| JsonLoader.ResolveStopsUnique | json_loader.py:57 | with fresh ids, stop ids stay unique |
| JsonLoader.AddStopTimes | json_loader.py:73-83 | each added stop-time belongs to the trip, has arrival = departure = `hora`, and visits the j-th stop with sequence number j |
| JsonLoader.AddStopTimesUnique | json_loader.py:73-83 | adding stop-times keeps their ids and their triples unique |
| JsonLoader.AddStopTimesOfNewTrip | json_loader.py:73-83 | a new trip gets one stop-time per stop |
| JsonLoader.AddTrip | json_loader.py:64-84 | a departure only appends to the trips and stop-times |
| JsonLoader.AddTrips | json_loader.py:64-84 | the departures only append to the trips and stop-times, and the counters count the appended rows |
| JsonLoader.AddTripsKeys | json_loader.py:64-71 | after the departures, their trip ids are stored and no other trip id was added |
| JsonLoader.AddTripsOfStored | json_loader.py:66-67 | departures whose trips are all stored add nothing |
| JsonLoader.AddNewTrip | json_loader.py:64-83 | a departure whose trip is not stored adds that trip and one stop-time per stop |
| JsonLoader.AddTripsOfNew | json_loader.py:64-83 | departures none of which is stored add one trip each and one stop-time per departure and stop |
| JsonLoader.AddTripsUnique | json_loader.py:64-84 | trip ids, stop-time ids and stop-time triples stay unique |
| JsonLoader.AddTripsReferences | json_loader.py:68-81 | new trips name the route, and new stop-times name a stored trip and a stored stop |
| JsonLoader.LoadFile | json_loader.py:28-86 | a failing file raises a route error naming the file. A file that loads grows each table by its counts, at most one region, one route and one stop per name, and advances the route sequence once per route created |
| JsonLoader.LoadFileFailure | json_loader.py:31-49 | a file fails exactly when its route is not stored and either it names no region or the next sequence value is a stored id. The failure keeps the committed region and spends the sequence value |
| JsonLoader.SequenceCollision | json_loader.py:42-49 | with GTFS route 1 stored and the sequence at 1, a new route fails with a duplicate id 1, and the same file then loads with route id 2 |
| JsonLoader.LoadFileHolds | json_loader.py:28-84 | after a file loads, its region (when named), its route, its stops and a trip per departure are stored |
| JsonLoader.LoadFileOfHeld | json_loader.py:31-84 | a file whose contents are all stored loads with all counts zero and changes nothing |
| JsonLoader.LoadFileIdempotent | json_loader.py:28-86 | loading a file again adds nothing |
| JsonLoader.HoldsFileGrown | json_loader.py:34-66 | what a store holds, a store grown from it still holds |
| JsonLoader.LoadFileReferences | json_loader.py:28-84 | loading a file keeps every foreign key resolving |
| JsonLoader.LoadFileUnique | json_loader.py:28-84 | with fresh stop ids, loading a file keeps primary keys and stop-time triples unique |
| JsonLoader.JsonNames | json_loader.py:21-23 | the files read are exactly the ones whose name ends in `.json` |
| JsonLoader.LoadFiles | json_loader.py:21-86 | with no file the run is empty; `JsonLoader.LoadFilesExtended` states that a run only appends rows |
| JsonLoader.LoadFilesExtended | json_loader.py:21-86 | when every file only appends rows, so does a run, whether it completes or stops at a failing file |
| JsonLoader.LoadFilesSummary | json_loader.py:21-23 | the summary has one entry per `.json` file, in listing order |
| JsonLoader.LoadFilesError | json_loader.py:42-49 | a run fails only on a `.json` file whose route cannot be created, with that file's error |
| JsonLoader.JsonToDb | json_loader.py:9-90 | a missing directory raises before anything changes. Otherwise the run only appends rows, and either the summary names every `.json` file in order, or the run stops with the route error of one of them |
| JsonLoader.FileLoaderFacts | json_loader.py:28-86 | each file only appends rows, fails only with its own route error, holds its contents after loading, and adds nothing when already held |
| JsonLoader.LoadFilesHold | json_loader.py:21-86 | after a successful run, the store holds every file that was read |
| JsonLoader.LoadFilesOfHeld | json_loader.py:21-86 | a run over files the store already holds adds nothing and reports zeros |
| JsonLoader.JsonToDbRerun | json_loader.py:9-90 | running the loader again over the same directory changes nothing, and every count is zero |
| ChatBot.Trim | frontend/components/ChatBot.jsx:25 | trimmed text neither starts nor ends with white space |
| ChatBot.TrimIsInfix | frontend/components/ChatBot.jsx:25 | trimming removes only white space, and only from the ends |
| ChatBot.TrimEmptyIffBlank | frontend/components/ChatBot.jsx:25-26 | a text trims to nothing exactly when it is all white space |
| ChatBot.LowerText | frontend/components/ChatBot.jsx:35 | lowering maps each character on its own and keeps the length |
| ChatBot.LowerKeepsSpaces | frontend/components/ChatBot.jsx:35 | lowering moves no word boundary |
| ChatBot.Split | frontend/components/ChatBot.jsx:35 | the split yields at least one word, and no word holds white space |
| ChatBot.SplitEdges | frontend/components/ChatBot.jsx:35 | white space before or after a single word gives an empty first or last word, as `split(/\s+/)` does |
| ChatBot.SplitWords | frontend/components/ChatBot.jsx:35 | a non-empty word is among the split's words exactly when it stands in the text as a whole word |
| ChatBot.Words | frontend/components/ChatBot.jsx:35 | the words of a message hold no white space, and a non-empty word is among them exactly when it stands as a whole word in the lowered message |
| ChatBot.CityNamesAreWords | frontend/components/ChatBot.jsx:4-14 | every lowered city name is one non-empty word |
| ChatBot.MentionedIsWholeWord | frontend/components/ChatBot.jsx:35-40 | a city is mentioned exactly when its lowered name stands as a whole word in the lowered message |
| ChatBot.NextCity | frontend/components/ChatBot.jsx:38-41 | the scan finds the first mentioned city in list order, or reports that none in range is mentioned |
| ChatBot.NextCityStep | frontend/components/ChatBot.jsx:38-41 | scanning one more city changes the first city found only when none was found |
| ChatBot.PlacesOf | frontend/components/ChatBot.jsx:38-44 | a destination is only ever found with an origin, and differs from it |
| ChatBot.ScanStep | frontend/components/ChatBot.jsx:38-43 | one loop step: an unmentioned city changes nothing; the first mentioned city becomes the origin; the next distinct one becomes the destination; later ones change nothing |
| ChatBot.LocateCities | frontend/components/ChatBot.jsx:36-44 | the loop sets the origin to the first mentioned city in list order and the destination to the next one |
| ChatBot.IntentOf | frontend/components/ChatBot.jsx:46-49 | the intent is:<br>• `parada` when that word is present<br>• else `horario` for `horario`/`salida`<br>• else `ruta` for `ruta`/`ir`<br>• else none |
| ChatBot.IntentIsRanked | frontend/components/ChatBot.jsx:46-49 | the overriding tests pick the best-ranked keyword present |
| ChatBot.Interpret | frontend/components/ChatBot.jsx:34-53 | a message is unanswerable exactly when no intent keyword is present, and otherwise it asks a lookup for its intent |
| ChatBot.RegionIsOrigin | frontend/components/ChatBot.jsx:53 | the region a lookup uses is always the origin, since no destination is found without one |
| ChatBot.Answer | frontend/components/ChatBot.jsx:51-83 | an unrecognised intent, or a lookup that finds nothing, yields the fixed apology |
| ChatBot.SendMessage | frontend/components/ChatBot.jsx:24-31 | a blank input changes nothing. Otherwise: the trimmed text is appended as the user's message, the box is cleared and the bot's reply follows |
| ChatBot.SendMessageAnswers | frontend/components/ChatBot.jsx:28-31 | the bot's reply answers what the posted text asks |

## Left out

- Flask routing, `request.args`, `jsonify` and the HTTP layer: a handler's outcome is a status and a body datatype. A query parameter is an `Option` of its text.
- SQLAlchemy sessions, `commit` and `bulk_save_objects`. The store is one sequence per table in insertion order. A query's `.first()` is the first match in that order.
- `/api/rutas` and its `ilike` region match. They are reached only through the chat assistant's network lookups, which are a parameter `lookup`.
- `load_agency` and the `Agency` table: `models.py` declares no `Agency` class. The `Calendar` and `CalendarDate` records, also undeclared there, take their fields from their use in the loaders and the endpoint.
- GtfsLoader.LoadCalendars, GtfsLoader.CalendarsNotMerged: the calendar tables are taken to have no primary-key, unique or foreign-key constraint, so the commit at `gtfs_loader.py:121` never fails. `models.py` declares no `Calendar` or `CalendarDate` class, so their keys are unknown. If `service_id` were the calendar's key, a second load would raise an integrity error rather than store every row twice. If calendar dates referenced the calendar, a service found only in `calendar_dates.txt` would be refused.
- pandas `read_csv` and csv reading: rows arrive parsed, with the types the columns are declared with. NaN cells, dtype inference, and the `numpy` integer keys compared against stored ids are not modelled.
- `os.path.isdir`, `os.path.exists`, `os.listdir` and `json.load`:
  - a directory is `Option` of its files;
  - a file is `Option` of its rows;
  - a route file is its parsed content;
  - the listing order is whatever order the sequence has.
- `uuid4()` stop ids: a stop created when the table holds n rows gets `uuid(n)` for a parameter `uuid`. Uniqueness results assume `FreshStopIds`, i.e. that `uuid` hands out new, distinct ids.
- `print` of the counts and the summary.
- `load_gtfs_data` counts: they are keyed by the datatype `Kind`, and `GtfsLoader.KindName` gives the dictionary key text of each kind.
- `PyInt.ParsePyInt`, `Dates.Strptime`, `PyInt.RejectNonDigitStart`: only ASCII digits are digits here. Python's `int()` and `strptime`'s `\d` also accept other Unicode decimal digits (`int("٣") == 3`), which the model rejects.
- Ids drawn from a sequence that a failed insert spends: only the route sequence is a counter (`Store.routeSerial`). Region and stop-time ids are one more than the largest stored id, which matches the sequence as long as no insert into those tables fails.
- Column widths (`String(32)`, `String(8)`, …): the database would reject an over-long value. Such rejections are not modelled. `Models.TimesFit` states the time-column width as a schema predicate only.
- Floating-point `lat`/`lon`: they are carried as `real` values and never computed with.
- Database collation: text order is code-point order, with a proper prefix first. The timetable sorts missing arrivals last, as PostgreSQL does for `ASC`.
- `PgInt.ParseInt4`: PostgreSQL 16 also reads `0x`, `0o` and `0b` prefixes and underscores between digits in an `int4`. The model rejects them, as earlier versions do.
- Tie order among equal sort keys in `ORDER BY`: the results are stated as sorted permutations and bounded sorted prefixes, not as one particular order.
- `toLowerCase` beyond ASCII and Latin-1 capitals. Every city name lies within that range.
- Rendering, the `axios` calls and the reply templates of the chat component (lines 51-79). A recognised query is handed to `lookup`, and its text is the reply.
- `await` interleavings in the chat component: a send is one atomic step.
- `Schedule.Timetable`: its own contract states only the bound and the order. Where the rows come from is stated by `Schedule.TimetableRowSelected`, and how many there are by `Schedule.NextDepartures`.
- `JsonLoader.AddStopTimes`: it states what every added stop-time is. That a new trip gets one stop-time for each stop is stated by `JsonLoader.AddStopTimesOfNewTrip`, and that no triple repeats by `JsonLoader.AddStopTimesUnique`.
