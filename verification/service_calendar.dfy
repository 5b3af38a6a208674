/** Which services run on a date: the calendars whose inclusive date range
    holds the date and whose flag for its weekday is set, plus the services
    a type-1 exception adds on that date, minus those a type-2 exception
    removes. Exception types follow the `calendar_dates.txt` field
    definitions of the GTFS Schedule Reference. */
module ServiceCalendar {
  import opened Wrappers
  import opened Dates
  import opened Models

  /** Flag names indexed by `date.weekday()`. */
  const WeekdayNames: seq<string> :=
    ["monday", "tuesday", "wednesday", "thursday", "friday", "saturday", "sunday"]

  /** The calendar flag with the given name. */
  function FlagNamed(c: Calendar, name: string): Option<bool> {
    if name == "monday" then Some(c.monday)
    else if name == "tuesday" then Some(c.tuesday)
    else if name == "wednesday" then Some(c.wednesday)
    else if name == "thursday" then Some(c.thursday)
    else if name == "friday" then Some(c.friday)
    else if name == "saturday" then Some(c.saturday)
    else if name == "sunday" then Some(c.sunday)
    else None
  }

  /** The flag for the weekday of `d`. */
  function WeekdayFlag(c: Calendar, d: Date): (on: bool)
    requires Valid(d)
    ensures on == [c.monday, c.tuesday, c.wednesday, c.thursday, c.friday, c.saturday, c.sunday][Weekday(d)]
  {
    FlagOfDay(c, Weekday(d));
    FlagNamed(c, WeekdayNames[Weekday(d)]).GetOr(false)
  }

  /** The name of day `w` selects the flag of day `w`. */
  lemma FlagOfDay(c: Calendar, w: int)
    requires 0 <= w < 7
    ensures FlagNamed(c, WeekdayNames[w])
            == Some([c.monday, c.tuesday, c.wednesday, c.thursday, c.friday, c.saturday, c.sunday][w])
  {
    if w == 0 {
      assert WeekdayNames[0] == "monday";
    } else if w == 1 {
      assert WeekdayNames[1] == "tuesday";
      assert "tuesday" != "monday";
    } else if w == 2 {
      assert WeekdayNames[2] == "wednesday";
      assert "wednesday" != "monday" && "wednesday" != "tuesday";
    } else if w == 3 {
      assert WeekdayNames[3] == "thursday";
      assert "thursday" != "monday" && "thursday" != "tuesday" && "thursday" != "wednesday";
    } else if w == 4 {
      assert WeekdayNames[4] == "friday";
      assert "friday" != "monday" && "friday" != "tuesday" && "friday" != "wednesday" && "friday" != "thursday";
    } else if w == 5 {
      assert WeekdayNames[5] == "saturday";
      assert "saturday" != "monday" && "saturday" != "tuesday" && "saturday" != "wednesday"
             && "saturday" != "thursday" && "saturday" != "friday";
    } else {
      assert WeekdayNames[6] == "sunday";
      assert "sunday" != "monday" && "sunday" != "tuesday" && "sunday" != "wednesday"
             && "sunday" != "thursday" && "sunday" != "friday" && "sunday" != "saturday";
    }
  }

  /** The weekly pattern of `c` covers `d`. */
  predicate RunsByPattern(c: Calendar, d: Date)
    requires Valid(d)
  {
    Le(c.startDate, d) && Le(d, c.endDate) && WeekdayFlag(c, d)
  }

  function BaseServices(calendars: seq<Calendar>, d: Date): set<string>
    requires Valid(d)
  {
    set c | c in calendars && RunsByPattern(c, d) :: c.serviceId
  }

  function ExceptionServices(exceptions: seq<CalendarDate>, d: Date, exceptionType: int): set<string> {
    set e | e in exceptions && e.date == d && e.exceptionType == exceptionType :: e.serviceId
  }

  predicate HasException(s: Store, serviceId: string, d: Date, exceptionType: int) {
    exists e :: e in s.calendarDates && e.serviceId == serviceId && e.date == d && e.exceptionType == exceptionType
  }

  /** The GTFS reading of one service on one date: an exception on that date
      decides, a removal before an addition; otherwise the weekly pattern of
      any of its calendars does. */
  predicate RunsOn(s: Store, serviceId: string, d: Date)
    requires Valid(d)
  {
    if HasException(s, serviceId, d, 2) then false
    else if HasException(s, serviceId, d, 1) then true
    else exists c :: c in s.calendars && c.serviceId == serviceId && RunsByPattern(c, d)
  }

  /** The services active on `d`: the base set united with the additions,
      then the removals taken away, so a removal always wins. */
  function ActiveServices(s: Store, d: Date): (active: set<string>)
    requires Valid(d)
    ensures forall sid :: sid in active <==> RunsOn(s, sid, d)
    ensures forall e :: e in s.calendarDates && e.date == d && e.exceptionType == 2 ==> e.serviceId !in active
    ensures forall sid :: sid in active ==>
              (exists c :: c in s.calendars && c.serviceId == sid && Le(c.startDate, d) && Le(d, c.endDate))
              || HasException(s, sid, d, 1)
  {
    var base := BaseServices(s.calendars, d);
    var added := ExceptionServices(s.calendarDates, d, 1);
    var removed := ExceptionServices(s.calendarDates, d, 2);
    assert forall sid :: sid in removed <==> HasException(s, sid, d, 2);
    assert forall sid :: sid in added <==> HasException(s, sid, d, 1);
    (base + added) - removed
  }

  /** A calendar whose range misses the date contributes nothing, whatever
      its flags; only an addition on that very date can make the service run. */
  lemma OutOfRangeNeverByPattern(s: Store, c: Calendar, d: Date)
    requires Valid(d)
    requires c in s.calendars
    requires !Le(c.startDate, d) || !Le(d, c.endDate)
    requires forall c' :: c' in s.calendars && c'.serviceId == c.serviceId ==> c' == c
    ensures c.serviceId !in BaseServices(s.calendars, d)
    ensures c.serviceId in ActiveServices(s, d) ==> HasException(s, c.serviceId, d, 1)
  {
  }

  /** A service both added and removed on the same date does not run. */
  lemma RemovalWins(s: Store, serviceId: string, d: Date)
    requires Valid(d)
    requires HasException(s, serviceId, d, 1) && HasException(s, serviceId, d, 2)
    ensures serviceId !in ActiveServices(s, d)
  {
  }

  /** A calendar for service `S1` running on Mondays only, through 2024. */
  const MondayOnly := Calendar("S1", true, false, false, false, false, false, false,
                               Date(2024, 1, 1), Date(2024, 12, 31))

  /** The Monday-only pattern covers Monday 2024-03-04 and not Tuesday 2024-03-05. */
  lemma MondayPattern()
    ensures RunsByPattern(MondayOnly, Date(2024, 3, 4))
    ensures !RunsByPattern(MondayOnly, Date(2024, 3, 5))
  {
    WeekdayExample();
    WeekdayOfNextDay(Date(2024, 3, 4));
    assert NextDay(Date(2024, 3, 4)) == Date(2024, 3, 5);
  }

  /** The worked scenarios: a Monday-only calendar for 2024 runs on Monday
      2024-03-04, runs on Tuesday 2024-03-05 only through an addition, and
      stops running on 2024-03-04 under a removal. */
  lemma MondayScenarios()
    ensures "S1" in ActiveServices(Store([], [], [], [], [], [MondayOnly], [], 1), Date(2024, 3, 4))
    ensures "S1" !in ActiveServices(Store([], [], [], [], [], [MondayOnly], [], 1), Date(2024, 3, 5))
    ensures "S1" in ActiveServices(Store([], [], [], [], [], [MondayOnly], [CalendarDate("S1", Date(2024, 3, 5), 1)], 1), Date(2024, 3, 5))
    ensures "S1" !in ActiveServices(Store([], [], [], [], [], [MondayOnly], [CalendarDate("S1", Date(2024, 3, 4), 2)], 1), Date(2024, 3, 4))
  {
    MondayPattern();
    var plain := Store([], [], [], [], [], [MondayOnly], [], 1);
    assert RunsOn(plain, "S1", Date(2024, 3, 4));
    assert !RunsOn(plain, "S1", Date(2024, 3, 5));
    var added := Store([], [], [], [], [], [MondayOnly], [CalendarDate("S1", Date(2024, 3, 5), 1)], 1);
    assert added.calendarDates[0].exceptionType == 1;
    assert RunsOn(added, "S1", Date(2024, 3, 5));
    var removed := Store([], [], [], [], [], [MondayOnly], [CalendarDate("S1", Date(2024, 3, 4), 2)], 1);
    assert removed.calendarDates[0].exceptionType == 2;
    assert !RunsOn(removed, "S1", Date(2024, 3, 4));
  }
}
