/** getApplicableSchedule: which timetable a calendar date runs on, decided
    by the per-year date lists of day.json's schedule_summary and the day of
    the week. */
module Calendar {
  import opened Basics
  import opened Text

  /** A date as the browser's Date reports it: getFullYear(), getMonth() + 1,
      getDate() and getDay() (0 is Sunday, 6 is Saturday). */
  datatype Date = Date(year: int, month: int, day: int, dayOfWeek: int)

  predicate ValidDate(d: Date)
  {
    1 <= d.month <= 12 && 1 <= d.day <= 31 && 0 <= d.dayOfWeek <= 6
  }

  /** One entry of schedule_summary: its description and, per year, the
      "MM-DD" keys it lists. */
  datatype SpecialDays = SpecialDays(description: string, dates: map<int, seq<string>>)

  datatype ScheduleSummary = ScheduleSummary(
    freeRide: SpecialDays,
    noService: SpecialDays,
    summerLimited: SpecialDays)

  /** The scheduleInfo object: type (here kind), details, timetableId, isOperating. */
  datatype ScheduleInfo = ScheduleInfo(kind: string, details: string, timetableId: string, isOperating: bool)

  const Sunday := 0
  const Saturday := 6
  const SaturdayLabel := "土曜ダイヤ"
  const WeekdayLabel := "平日ダイヤ"

  /** The timetable ids the resolver can choose. */
  const TimetableIds: seq<string> := ["1-A", "3", "2", "1-B"]

  /** `${MM}-${DD}`, both zero-padded to two digits. */
  function DateKey(d: Date): string
  {
    PaddedPair(d.month, '-', d.day)
  }

  lemma DateKeyShape(d: Date)
    requires ValidDate(d)
    ensures var k := DateKey(d);
      |k| == 5 && k[2] == '-' && AllDigits(k[..2]) && AllDigits(k[3..]) &&
      ParsePaddedPair(k, '-') == Some((d.month, d.day))
  {
    PaddedPairRoundTrip(d.month, '-', d.day);
  }

  /** dates[year] || []: a year the list does not mention lists nothing. */
  function DatesFor(s: SpecialDays, year: int): seq<string>
  {
    if year in s.dates then s.dates[year] else []
  }

  predicate Listed(s: SpecialDays, d: Date)
  {
    DateKey(d) in DatesFor(s, d.year)
  }

  function GetApplicableSchedule(summary: ScheduleSummary, date: Date): (r: ScheduleInfo)
    ensures r.details == ""
    ensures r.isOperating <==> r.timetableId != ""
    ensures r.isOperating ==> r.timetableId in TimetableIds
    ensures !r.isOperating ==> r.kind == summary.noService.description
  {
    var dateString := DateKey(date);
    var freeRideDates := DatesFor(summary.freeRide, date.year);
    if dateString in freeRideDates then
      ScheduleInfo(summary.freeRide.description, "", "1-A", true)
    else
      var noServiceDates := DatesFor(summary.noService, date.year);
      if dateString in noServiceDates || (date.dayOfWeek == Sunday && dateString !in freeRideDates) then
        ScheduleInfo(summary.noService.description, "", "", false)
      else
        var summerScheduleDates := DatesFor(summary.summerLimited, date.year);
        if dateString in summerScheduleDates then
          ScheduleInfo(summary.summerLimited.description, "", "3", true)
        else if date.dayOfWeek == Saturday then
          ScheduleInfo(SaturdayLabel, "", "2", true)
        else
          ScheduleInfo(WeekdayLabel, "", "1-B", true)
  }

  // An independent statement of the precedence: five regimes, each with the
  // condition under which it applies, tried in a fixed order.

  datatype Regime = FreeRide | NoService | SummerLimited | SaturdayService | WeekdayService

  function Rank(g: Regime): nat
  {
    match g
    case FreeRide => 0
    case NoService => 1
    case SummerLimited => 2
    case SaturdayService => 3
    case WeekdayService => 4
  }

  predicate Applies(summary: ScheduleSummary, date: Date, g: Regime)
  {
    match g
    case FreeRide => Listed(summary.freeRide, date)
    case NoService => Listed(summary.noService, date) || date.dayOfWeek == Sunday
    case SummerLimited => Listed(summary.summerLimited, date)
    case SaturdayService => date.dayOfWeek == Saturday
    case WeekdayService => true
  }

  /** g applies and no regime of higher precedence does. */
  predicate FirstMatch(summary: ScheduleSummary, date: Date, g: Regime)
  {
    Applies(summary, date, g) &&
    forall h: Regime :: Rank(h) < Rank(g) ==> !Applies(summary, date, h)
  }

  function Outcome(summary: ScheduleSummary, g: Regime): ScheduleInfo
  {
    match g
    case FreeRide => ScheduleInfo(summary.freeRide.description, "", "1-A", true)
    case NoService => ScheduleInfo(summary.noService.description, "", "", false)
    case SummerLimited => ScheduleInfo(summary.summerLimited.description, "", "3", true)
    case SaturdayService => ScheduleInfo(SaturdayLabel, "", "2", true)
    case WeekdayService => ScheduleInfo(WeekdayLabel, "", "1-B", true)
  }

  /** The five outcomes are told apart by timetableId and isOperating alone. */
  lemma OutcomesDistinct(summary: ScheduleSummary, g: Regime, h: Regime)
    requires Outcome(summary, g).timetableId == Outcome(summary, h).timetableId
    requires Outcome(summary, g).isOperating == Outcome(summary, h).isOperating
    ensures g == h
  {
  }

  /** Some regime is the first that applies (FirstMatchUnique: only one). */
  lemma FirstMatchExists(summary: ScheduleSummary, date: Date)
    ensures exists g: Regime :: FirstMatch(summary, date, g)
  {
    var g :=
      if Applies(summary, date, FreeRide) then FreeRide
      else if Applies(summary, date, NoService) then NoService
      else if Applies(summary, date, SummerLimited) then SummerLimited
      else if Applies(summary, date, SaturdayService) then SaturdayService
      else WeekdayService;
    forall h: Regime | Rank(h) < Rank(g)
      ensures !Applies(summary, date, h)
    {
      match h
      case FreeRide =>
      case NoService =>
      case SummerLimited =>
      case SaturdayService =>
    }
    assert FirstMatch(summary, date, g);
  }

  lemma FirstMatchUnique(summary: ScheduleSummary, date: Date, g: Regime, h: Regime)
    requires FirstMatch(summary, date, g) && FirstMatch(summary, date, h)
    ensures g == h
  {
  }

  /** The resolver returns the outcome of regime g exactly when g is the
      first regime, in precedence order, whose condition holds. */
  lemma ResolvedByFirstMatch(summary: ScheduleSummary, date: Date, g: Regime)
    ensures GetApplicableSchedule(summary, date) == Outcome(summary, g) <==> FirstMatch(summary, date, g)
  {
    FirstMatchExists(summary, date);
    var f :| FirstMatch(summary, date, f);
    assert GetApplicableSchedule(summary, date) == Outcome(summary, f) by {
      match f
      case FreeRide =>
      case NoService =>
        assert !Applies(summary, date, FreeRide);
      case SummerLimited =>
        assert !Applies(summary, date, FreeRide) && !Applies(summary, date, NoService);
      case SaturdayService =>
        assert !Applies(summary, date, FreeRide) && !Applies(summary, date, NoService);
        assert !Applies(summary, date, SummerLimited);
      case WeekdayService =>
        assert !Applies(summary, date, FreeRide) && !Applies(summary, date, NoService);
        assert !Applies(summary, date, SummerLimited) && !Applies(summary, date, SaturdayService);
    }
    if GetApplicableSchedule(summary, date) == Outcome(summary, g) {
      OutcomesDistinct(summary, f, g);
    }
    if FirstMatch(summary, date, g) {
      FirstMatchUnique(summary, date, f, g);
    }
  }

  /** A free-ride date runs timetable "1-A", even on a Sunday and even when
      the no-service list names it too. */
  lemma FreeRideWins(summary: ScheduleSummary, date: Date)
    requires Listed(summary.freeRide, date)
    ensures var r := GetApplicableSchedule(summary, date);
      r.isOperating && r.timetableId == "1-A" && r.kind == summary.freeRide.description
  {
    ResolvedByFirstMatch(summary, date, FreeRide);
  }

  /** There is no service exactly on the dates that are not free-ride and are
      either listed as no-service or a Sunday; the timetable id is then empty. */
  lemma NoServiceExactly(summary: ScheduleSummary, date: Date)
    ensures var r := GetApplicableSchedule(summary, date);
      !r.isOperating <==>
        !Listed(summary.freeRide, date) && (Listed(summary.noService, date) || date.dayOfWeek == Sunday)
    ensures !GetApplicableSchedule(summary, date).isOperating ==> GetApplicableSchedule(summary, date).timetableId == ""
  {
    ResolvedByFirstMatch(summary, date, NoService);
  }

  /** Timetable "3" is chosen only when the date is on the summer list and
      neither free-ride nor no-service/Sunday matched; "2" only on a Saturday
      that none of the three lists decided; "1-B" when nothing else applied. */
  lemma LaterRulesOnlyAfterEarlierFail(summary: ScheduleSummary, date: Date)
    ensures var r := GetApplicableSchedule(summary, date);
      (r.timetableId == "3" <==>
        !Listed(summary.freeRide, date) && !Listed(summary.noService, date) &&
        date.dayOfWeek != Sunday && Listed(summary.summerLimited, date)) &&
      (r.timetableId == "2" <==>
        !Listed(summary.freeRide, date) && !Listed(summary.noService, date) &&
        date.dayOfWeek != Sunday && !Listed(summary.summerLimited, date) && date.dayOfWeek == Saturday) &&
      (r.timetableId == "1-B" <==>
        !Listed(summary.freeRide, date) && !Listed(summary.noService, date) &&
        date.dayOfWeek != Sunday && !Listed(summary.summerLimited, date) && date.dayOfWeek != Saturday)
  {
    ResolvedByFirstMatch(summary, date, SummerLimited);
    ResolvedByFirstMatch(summary, date, SaturdayService);
    ResolvedByFirstMatch(summary, date, WeekdayService);
  }

  /** A year that none of the three lists mentions is not an error: such a
      date is decided by its day of the week alone. */
  lemma MissingYearDecidedByWeekday(summary: ScheduleSummary, date: Date)
    requires date.year !in summary.freeRide.dates
    requires date.year !in summary.noService.dates
    requires date.year !in summary.summerLimited.dates
    ensures GetApplicableSchedule(summary, date) ==
      if date.dayOfWeek == Sunday then Outcome(summary, NoService)
      else if date.dayOfWeek == Saturday then Outcome(summary, SaturdayService)
      else Outcome(summary, WeekdayService)
  {
  }
}
