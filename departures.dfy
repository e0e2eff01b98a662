/** getNextBuses: the next departures of one direction from a time of day,
    running on into hours 0..6 of the following day when fewer than two
    remain today. The current date, the two datasets and the number of
    further departures to show, which the source reads from globals, are
    parameters here. */
module Departures {
  import opened Basics
  import opened Calendar

  /** One entry of upcomingBuses. A same-day entry has no isNextDay field in
      the source, which reads as false. */
  datatype Departure = Departure(hour: int, minute: int, isNextDay: bool)

  /** One direction of a timetable: an hour of the day to its departure
      minutes, in the order the timetable lists them. */
  type Hourly = map<int, seq<int>>

  /** One entry of the timetable catalog: its id and a schedule per direction. */
  datatype Timetable = Timetable(id: string, schedule: map<string, Hourly>)

  /** What getNextBuses returns; null is None. */
  datatype NextBuses = NextBuses(next: Option<Departure>, afterNext: Option<Departure>, upcomingBuses: seq<Departure>)

  const NoBuses := NextBuses(None, None, [])

  /** The source's upcomingBusCount. */
  const UpcomingBusCount: nat := 5

  /** The rollover scan covers hours 0 .. LastRolloverHour of the next day. */
  const LastRolloverHour: nat := 6

  function MinutesAt(sched: Hourly, h: int): seq<int>
  {
    if h in sched then sched[h] else []
  }

  /** timetables.find(t => t.id === id): the first timetable with that id. */
  function FindTimetable(catalog: seq<Timetable>, id: string): (r: Option<Timetable>)
    ensures r.None? <==> forall t :: t in catalog ==> t.id != id
    ensures r.Some? ==> r.value.id == id
    ensures r.Some? ==>
      exists i :: 0 <= i < |catalog| && catalog[i] == r.value && (forall j :: 0 <= j < i ==> catalog[j].id != id)
    decreases |catalog|
  {
    if catalog == [] then None
    else if catalog[0].id == id then Some(catalog[0])
    else
      var r := FindTimetable(catalog[1..], id);
      assert r.Some? ==>
        exists i :: 1 <= i < |catalog| && catalog[i] == r.value && (forall j :: 0 <= j < i ==> catalog[j].id != id) by {
        if r.Some? {
          var i :| 0 <= i < |catalog[1..]| && catalog[1..][i] == r.value &&
            forall j :: 0 <= j < i ==> catalog[1..][j].id != id;
          assert forall j :: 1 <= j < i + 1 ==> catalog[j].id == catalog[1..][j - 1].id;
        }
      }
      r
  }

  /** JavaScript's s.slice(start, end) for non-negative bounds. */
  function Slice<T>(s: seq<T>, start: nat, end: nat): (r: seq<T>)
    ensures |r| <= |s| && (start < end ==> |r| <= end - start)
    ensures start < end <= |s| ==> r == s[start..end]
    ensures start < |s| < end ==> r == s[start..]
    ensures start >= end || start >= |s| ==> r == []
  {
    var e := if end < |s| then end else |s|;
    if start >= e then [] else s[start..e]
  }

  // ---------------------------------------------------------------------
  // The list the two scans of getNextBuses build, as functions.

  /** Today's departures of hour h that are at or after hour:minute, in
      the order of h's minute list. */
  function SameDayHour(h: int, ms: seq<int>, hour: int, minute: int): seq<Departure>
    decreases |ms|
  {
    if ms == [] then []
    else
      var m := ms[|ms| - 1];
      SameDayHour(h, ms[..|ms| - 1], hour, minute) +
      (if h > hour || (h == hour && m >= minute) then [Departure(h, m, false)] else [])
  }

  /** The same-day scan over hours lo .. hi - 1. */
  function SameDayHours(sched: Hourly, lo: int, hi: int, hour: int, minute: int): seq<Departure>
    decreases hi - lo
  {
    if hi <= lo then []
    else SameDayHours(sched, lo, hi - 1, hour, minute) + SameDayHour(hi - 1, MinutesAt(sched, hi - 1), hour, minute)
  }

  /** The same-day scan, hours hour .. 23. */
  function SameDay(sched: Hourly, hour: int, minute: int): seq<Departure>
  {
    SameDayHours(sched, hour, 24, hour, minute)
  }

  /** Every minute of hour h on the following day. */
  function NextDayHour(h: int, ms: seq<int>): (r: seq<Departure>)
  {
    seq(|ms|, i requires 0 <= i < |ms| => Departure(h, ms[i], true))
  }

  /** The following day's departures of hours 0 .. hi - 1. */
  function NextDayHours(sched: Hourly, hi: int): seq<Departure>
    decreases hi
  {
    if hi <= 0 then []
    else NextDayHours(sched, hi - 1) + NextDayHour(hi - 1, MinutesAt(sched, hi - 1))
  }

  /** Everything the rollover scan could reach. */
  function Rollover(sched: Hourly): seq<Departure>
  {
    NextDayHours(sched, LastRolloverHour + 1)
  }

  function Take<T>(s: seq<T>, k: nat): seq<T>
  {
    if k < |s| then s[..k] else s
  }

  /** upcomingBuses as the two scans leave it: today's departures and, only
      when fewer than two, the following day's until count + 2 are held. */
  function Collected(sched: Hourly, hour: int, minute: int, count: nat): seq<Departure>
  {
    Extend(SameDay(sched, hour, minute), Rollover(sched), count)
  }

  /** today, followed by the start of later up to count + 2 in all when
      today holds fewer than two. */
  function Extend(today: seq<Departure>, later: seq<Departure>, count: nat): seq<Departure>
  {
    if |today| < 2 then today + Take(later, count + 2 - |today|) else today
  }

  /** The returned object: the first two collected and slice(2, count + 2). */
  function Split(c: seq<Departure>, count: nat): NextBuses
  {
    NextBuses(
      if |c| > 0 then Some(c[0]) else None,
      if |c| > 1 then Some(c[1]) else None,
      Slice(c, 2, count + 2))
  }

  /** getNextBuses as a function of the date, the datasets, the direction,
      the query time and the count. */
  function NextBusesOf(summary: ScheduleSummary, catalog: seq<Timetable>, today: Date,
                       direction: string, hour: int, minute: int, count: nat): NextBuses
  {
    var info := GetApplicableSchedule(summary, today);
    if !info.isOperating then NoBuses
    else
      match FindTimetable(catalog, info.timetableId)
      case None => NoBuses
      case Some(t) =>
        if direction !in t.schedule then NoBuses
        else Split(Collected(t.schedule[direction], hour, minute, count), count)
  }

  // ---------------------------------------------------------------------
  // The imperative getNextBuses.

  method GetNextBuses(summary: ScheduleSummary, catalog: seq<Timetable>, today: Date,
                      direction: string, hour: int, minute: int, count: nat)
    returns (r: NextBuses)
    ensures r == NextBusesOf(summary, catalog, today, direction, hour, minute, count)
  {
    var applicableSchedule := GetApplicableSchedule(summary, today);
    if !applicableSchedule.isOperating {
      return NoBuses;
    }
    var timetable := FindTimetable(catalog, applicableSchedule.timetableId);
    if timetable.None? || direction !in timetable.value.schedule {
      return NoBuses;
    }
    var sched := timetable.value.schedule[direction];
    var upcomingBuses := ScanToday(sched, hour, minute);
    if |upcomingBuses| < 2 {
      upcomingBuses := ScanNextDay(sched, upcomingBuses, count);
    }
    r := Split(upcomingBuses, count);
  }

  /** The first loop of getNextBuses: hours hour .. 23 of today. */
  method ScanToday(sched: Hourly, hour: int, minute: int) returns (buses: seq<Departure>)
    ensures buses == SameDay(sched, hour, minute)
  {
    buses := [];
    var h := hour;
    while h <= 23
      invariant h == hour || hour <= h <= 24
      invariant buses == SameDayHours(sched, hour, h, hour, minute)
    {
      if h in sched {
        var minutesForHour := sched[h];
        var i := 0;
        while i < |minutesForHour|
          invariant 0 <= i <= |minutesForHour|
          invariant buses == SameDayHours(sched, hour, h, hour, minute) + SameDayHour(h, minutesForHour[..i], hour, minute)
        {
          var m := minutesForHour[i];
          if h > hour || (h == hour && m >= minute) {
            buses := buses + [Departure(h, m, false)];
          }
          assert minutesForHour[..i + 1][..i] == minutesForHour[..i];
          i := i + 1;
        }
        assert minutesForHour[..i] == minutesForHour;
      }
      h := h + 1;
    }
  }

  /** The second loop of getNextBuses: hours 0 .. 6 of the following day,
      stopping as soon as count + 2 departures are held. */
  method ScanNextDay(sched: Hourly, sameDay: seq<Departure>, count: nat) returns (buses: seq<Departure>)
    requires |sameDay| < 2
    ensures buses == Extend(sameDay, Rollover(sched), count)
  {
    buses := sameDay;
    var h := 0;
    while h <= LastRolloverHour
      invariant 0 <= h <= LastRolloverHour + 1
      invariant buses == sameDay + NextDayHours(sched, h)
      invariant |buses| < count + 2
    {
      var full := false;
      ghost var before := buses;
      if h in sched {
        buses, full := PushNextDayHour(buses, h, sched[h], count + 2);
      }
      if full {
        StoppedInsideRollover(sched, sameDay, before, h, buses, count);
        break;
      }
      assert buses == before + NextDayHour(h, MinutesAt(sched, h));
      WholeHourTaken(sched, sameDay, before, h, buses);
      h := h + 1;
    }
    if h > LastRolloverHour {
      TakeFromRollover(sameDay, Rollover(sched), buses, count);
    }
  }

  /** The inner loop of the rollover scan: each minute of hour h becomes a
      next-day departure, until limit departures are held. */
  method PushNextDayHour(start: seq<Departure>, h: int, ms: seq<int>, limit: nat)
    returns (buses: seq<Departure>, full: bool)
    requires |start| < limit
    ensures full <==> |buses| >= limit
    ensures !full ==> buses == start + NextDayHour(h, ms)
    ensures full ==> limit - |start| <= |ms| && buses == start + NextDayHour(h, ms[..limit - |start|])
  {
    buses := start;
    full := false;
    var i := 0;
    while i < |ms|
      invariant 0 <= i <= |ms|
      invariant buses == start + NextDayHour(h, ms[..i])
      invariant |buses| < limit
    {
      buses := buses + [Departure(h, ms[i], true)];
      if |buses| >= limit {
        full := true;
        break;
      }
      i := i + 1;
    }
    if !full {
      assert ms[..i] == ms;
    }
  }

  /** Where the rollover scan takes the whole of hour h, it holds the
      same-day list followed by hours 0 .. h. */
  lemma WholeHourTaken(sched: Hourly, sameDay: seq<Departure>, before: seq<Departure>, h: int,
                       buses: seq<Departure>)
    requires 0 <= h
    requires before == sameDay + NextDayHours(sched, h)
    requires buses == before + NextDayHour(h, MinutesAt(sched, h))
    ensures buses == sameDay + NextDayHours(sched, h + 1)
  {
    assert NextDayHours(sched, h + 1) == NextDayHours(sched, h) + NextDayHour(h, MinutesAt(sched, h));
    AppendAssoc(sameDay, NextDayHours(sched, h), NextDayHour(h, MinutesAt(sched, h)));
  }

  /** What the rollover scan holds after i minutes of hour h is a prefix of
      everything it could reach. */
  lemma RolloverPrefix(sched: Hourly, h: int, i: nat)
    requires 0 <= h <= LastRolloverHour && i <= |MinutesAt(sched, h)|
    ensures NextDayHours(sched, h) + NextDayHour(h, MinutesAt(sched, h)[..i]) <= Rollover(sched)
  {
    var ms := MinutesAt(sched, h);
    assert NextDayHour(h, ms[..i]) <= NextDayHour(h, ms);
    NextDayHoursPrefix(sched, h + 1, LastRolloverHour + 1);
  }

  /** Where the rollover scan stops inside hour h, having reached count + 2,
      it holds what Extend describes. */
  lemma StoppedInsideRollover(sched: Hourly, sameDay: seq<Departure>, before: seq<Departure>, h: int,
                              buses: seq<Departure>, count: nat)
    requires 0 <= h <= LastRolloverHour && h in sched && |sameDay| < 2
    requires before == sameDay + NextDayHours(sched, h) && |before| < count + 2
    requires count + 2 - |before| <= |sched[h]|
    requires buses == before + NextDayHour(h, sched[h][..count + 2 - |before|])
    ensures buses == Extend(sameDay, Rollover(sched), count)
  {
    var k := count + 2 - |before|;
    var part := NextDayHour(h, sched[h][..k]);
    var p := NextDayHours(sched, h) + part;
    assert MinutesAt(sched, h) == sched[h];
    RolloverPrefix(sched, h, k);
    AppendAssoc(sameDay, NextDayHours(sched, h), part);
    PrefixAppend(sameDay, p, Rollover(sched));
    assert |part| == k;
    TakeFromRollover(sameDay, Rollover(sched), buses, count);
  }

  lemma AppendAssoc<T>(a: seq<T>, b: seq<T>, c: seq<T>)
    ensures (a + b) + c == a + (b + c)
  {
  }

  lemma PrefixAppend<T>(a: seq<T>, p: seq<T>, r: seq<T>)
    requires p <= r
    ensures a + p <= a + r
  {
    assert (a + r)[..|a| + |p|] == a + r[..|p|];
  }

  lemma {:induction false} NextDayHoursPrefix(sched: Hourly, lo: int, hi: int)
    requires lo <= hi
    ensures NextDayHours(sched, lo) <= NextDayHours(sched, hi)
    decreases hi - lo
  {
    if lo < hi {
      NextDayHoursPrefix(sched, lo, hi - 1);
    }
  }

  /** Closing step of the rollover scan: either it ran out of hours below
      the bound, or it stopped exactly at the bound on a prefix. */
  lemma TakeFromRollover(today: seq<Departure>, later: seq<Departure>, buses: seq<Departure>, count: nat)
    requires |today| < 2
    requires (buses == today + later && |buses| < count + 2) ||
             (|buses| == count + 2 && buses <= today + later)
    ensures buses == Extend(today, later, count)
  {
    if buses != today + later {
      assert buses == (today + later)[..count + 2];
      assert (today + later)[..count + 2] == today + later[..count + 2 - |today|];
    }
  }

  // ---------------------------------------------------------------------
  // What the collected list holds.

  lemma {:induction false} SameDayHourMembers(h: int, ms: seq<int>, hour: int, minute: int, d: Departure)
    ensures d in SameDayHour(h, ms, hour, minute) <==>
      d.hour == h && !d.isNextDay && d.minute in ms && (h > hour || (h == hour && d.minute >= minute))
    decreases |ms|
  {
    if ms != [] {
      var init := ms[..|ms| - 1];
      SameDayHourMembers(h, init, hour, minute, d);
      assert ms == init + [ms[|ms| - 1]];
    }
  }

  lemma {:induction false} SameDayHoursMembers(sched: Hourly, lo: int, hi: int, hour: int, minute: int, d: Departure)
    ensures d in SameDayHours(sched, lo, hi, hour, minute) <==>
      lo <= d.hour < hi && !d.isNextDay && d.minute in MinutesAt(sched, d.hour) &&
      (d.hour > hour || (d.hour == hour && d.minute >= minute))
    decreases hi - lo
  {
    if lo < hi {
      SameDayHoursMembers(sched, lo, hi - 1, hour, minute, d);
      SameDayHourMembers(hi - 1, MinutesAt(sched, hi - 1), hour, minute, d);
    }
  }

  /** The same-day scan keeps exactly today's departures at or after
      hour:minute in hours hour .. 23: none is missed, none is earlier. */
  lemma SameDayMembers(sched: Hourly, hour: int, minute: int, d: Departure)
    ensures d in SameDay(sched, hour, minute) <==>
      !d.isNextDay && hour <= d.hour <= 23 && d.minute in MinutesAt(sched, d.hour) &&
      (d.hour > hour || d.minute >= minute)
  {
    SameDayHoursMembers(sched, hour, 24, hour, minute, d);
  }

  lemma NextDayHourMembers(h: int, ms: seq<int>, d: Departure)
    ensures d in NextDayHour(h, ms) <==> d.hour == h && d.isNextDay && d.minute in ms
  {
    if d.hour == h && d.isNextDay && d.minute in ms {
      var i :| 0 <= i < |ms| && ms[i] == d.minute;
      assert NextDayHour(h, ms)[i] == d;
    }
  }

  lemma {:induction false} NextDayHoursMembers(sched: Hourly, hi: int, d: Departure)
    ensures d in NextDayHours(sched, hi) <==> d.isNextDay && 0 <= d.hour < hi && d.minute in MinutesAt(sched, d.hour)
    decreases hi
  {
    if hi > 0 {
      NextDayHoursMembers(sched, hi - 1, d);
      NextDayHourMembers(hi - 1, MinutesAt(sched, hi - 1), d);
    }
  }

  /** Everything the rollover scan can reach: every departure listed for
      hours 0 .. 6, each marked as the next day's. */
  lemma RolloverMembers(sched: Hourly, d: Departure)
    ensures d in Rollover(sched) <==>
      d.isNextDay && 0 <= d.hour <= LastRolloverHour && d.minute in MinutesAt(sched, d.hour)
  {
    NextDayHoursMembers(sched, LastRolloverHour + 1, d);
  }

  /** The collected list starts with the whole same-day scan. Next-day
      departures follow only when that scan found fewer than two; they come
      from hours 0 .. 6 and then the list holds at most count + 2. */
  lemma CollectedShape(sched: Hourly, hour: int, minute: int, count: nat)
    ensures var today := SameDay(sched, hour, minute);
      var c := Collected(sched, hour, minute, count);
      |today| <= |c| && c[..|today|] == today &&
      (|today| >= 2 ==> c == today) &&
      (|today| < 2 ==> |c| <= count + 2 && c[|today|..] <= Rollover(sched))
    ensures var today := SameDay(sched, hour, minute);
      var c := Collected(sched, hour, minute, count);
      |today| < 2 ==>
        c[|today|..] == Take(Rollover(sched), count + 2 - |today|) &&
        |c| == (if |today| + |Rollover(sched)| < count + 2 then |today| + |Rollover(sched)| else count + 2)
    ensures forall d :: d in Collected(sched, hour, minute, count) ==>
      (!d.isNextDay && hour <= d.hour <= 23 && d.minute in MinutesAt(sched, d.hour) &&
        (d.hour > hour || d.minute >= minute)) ||
      (d.isNextDay && 0 <= d.hour <= LastRolloverHour && d.minute in MinutesAt(sched, d.hour) &&
        |SameDay(sched, hour, minute)| < 2)
  {
    var today := SameDay(sched, hour, minute);
    var c := Collected(sched, hour, minute, count);
    forall d | d in c
      ensures (!d.isNextDay && hour <= d.hour <= 23 && d.minute in MinutesAt(sched, d.hour) &&
                (d.hour > hour || d.minute >= minute)) ||
              (d.isNextDay && 0 <= d.hour <= LastRolloverHour && d.minute in MinutesAt(sched, d.hour) &&
                |today| < 2)
    {
      SameDayMembers(sched, hour, minute, d);
      if d !in today {
        assert |today| < 2 && d in Take(Rollover(sched), count + 2 - |today|);
        RolloverMembers(sched, d);
      }
    }
  }

  /** Once a next-day departure appears in the collected list, all that
      follow it are next-day ones too. */
  lemma NextDayAtTheEnd(sched: Hourly, hour: int, minute: int, count: nat, i: int, j: int)
    requires var c := Collected(sched, hour, minute, count); 0 <= i < j < |c| && c[i].isNextDay
    ensures Collected(sched, hour, minute, count)[j].isNextDay
  {
    var today := SameDay(sched, hour, minute);
    var c := Collected(sched, hour, minute, count);
    CollectedShape(sched, hour, minute, count);
    if i < |today| {
      SameDayMembers(sched, hour, minute, today[i]);
      assert false;
    }
    assert c[j] in c[|today|..];
    RolloverMembers(sched, c[j]);
  }

  // ---------------------------------------------------------------------
  // Order: with each hour's minutes ascending, the collected list is in
  // time order, today's departures before the next day's.

  /** a departs no later than b. */
  predicate NotLater(a: Departure, b: Departure)
  {
    (!a.isNextDay && b.isNextDay) ||
    (a.isNextDay == b.isNextDay && (a.hour < b.hour || (a.hour == b.hour && a.minute <= b.minute)))
  }

  predicate Chronological(s: seq<Departure>)
  {
    forall i, j :: 0 <= i < j < |s| ==> NotLater(s[i], s[j])
  }

  predicate Ascending(ms: seq<int>)
  {
    forall i, j :: 0 <= i < j < |ms| ==> ms[i] <= ms[j]
  }

  /** Each hour's minute list is in ascending order, as the timetable data is. */
  predicate AscendingHours(sched: Hourly)
  {
    forall h :: h in sched ==> Ascending(sched[h])
  }

  lemma ChronologicalAppend(a: seq<Departure>, b: seq<Departure>)
    requires Chronological(a) && Chronological(b)
    requires forall x, y :: x in a && y in b ==> NotLater(x, y)
    ensures Chronological(a + b)
  {
    var s := a + b;
    forall i, j | 0 <= i < j < |s| ensures NotLater(s[i], s[j]) {
      if i < |a| && j >= |a| {
        assert s[i] in a && s[j] in b;
      } else if i >= |a| {
        assert s[i] == b[i - |a|] && s[j] == b[j - |a|];
      }
    }
  }

  lemma {:induction false} SameDayHourChronological(h: int, ms: seq<int>, hour: int, minute: int)
    requires Ascending(ms)
    ensures Chronological(SameDayHour(h, ms, hour, minute))
    decreases |ms|
  {
    if ms != [] {
      var init, m := ms[..|ms| - 1], ms[|ms| - 1];
      SameDayHourChronological(h, init, hour, minute);
      var kept := if h > hour || (h == hour && m >= minute) then [Departure(h, m, false)] else [];
      forall x, y | x in SameDayHour(h, init, hour, minute) && y in kept ensures NotLater(x, y) {
        SameDayHourMembers(h, init, hour, minute, x);
        var k :| 0 <= k < |init| && init[k] == x.minute;
        assert ms[k] == x.minute;
      }
      ChronologicalAppend(SameDayHour(h, init, hour, minute), kept);
    }
  }

  lemma {:induction false} SameDayHoursChronological(sched: Hourly, lo: int, hi: int, hour: int, minute: int)
    requires AscendingHours(sched)
    ensures Chronological(SameDayHours(sched, lo, hi, hour, minute))
    decreases hi - lo
  {
    if lo < hi {
      var a := SameDayHours(sched, lo, hi - 1, hour, minute);
      var b := SameDayHour(hi - 1, MinutesAt(sched, hi - 1), hour, minute);
      SameDayHoursChronological(sched, lo, hi - 1, hour, minute);
      SameDayHourChronological(hi - 1, MinutesAt(sched, hi - 1), hour, minute);
      forall x, y | x in a && y in b ensures NotLater(x, y) {
        SameDayHoursMembers(sched, lo, hi - 1, hour, minute, x);
        SameDayHourMembers(hi - 1, MinutesAt(sched, hi - 1), hour, minute, y);
      }
      ChronologicalAppend(a, b);
    }
  }

  lemma {:induction false} NextDayHoursChronological(sched: Hourly, hi: int)
    requires AscendingHours(sched)
    ensures Chronological(NextDayHours(sched, hi))
    decreases hi
  {
    if hi > 0 {
      var a := NextDayHours(sched, hi - 1);
      var b := NextDayHour(hi - 1, MinutesAt(sched, hi - 1));
      NextDayHoursChronological(sched, hi - 1);
      forall x, y | x in a && y in b ensures NotLater(x, y) {
        NextDayHoursMembers(sched, hi - 1, x);
        NextDayHourMembers(hi - 1, MinutesAt(sched, hi - 1), y);
      }
      ChronologicalAppend(a, b);
    }
  }

  /** With ascending minute lists the collected list is in time order. */
  lemma CollectedChronological(sched: Hourly, hour: int, minute: int, count: nat)
    requires AscendingHours(sched)
    ensures Chronological(Collected(sched, hour, minute, count))
  {
    var today := SameDay(sched, hour, minute);
    SameDayHoursChronological(sched, hour, 24, hour, minute);
    if |today| < 2 {
      var later := Take(Rollover(sched), count + 2 - |today|);
      NextDayHoursChronological(sched, LastRolloverHour + 1);
      assert later <= Rollover(sched);
      forall x, y | x in today && y in later ensures NotLater(x, y) {
        SameDayMembers(sched, hour, minute, x);
        RolloverMembers(sched, y);
      }
      ChronologicalAppend(today, later);
    }
  }

  /** With ascending minute lists, next is the nearest departure: no
      departure of today from the query time on, and none of hours 0..6 of
      the following day, is earlier. */
  lemma NextIsNearest(sched: Hourly, hour: int, minute: int, count: nat, d: Departure)
    requires AscendingHours(sched)
    requires d in SameDay(sched, hour, minute) || d in Rollover(sched)
    ensures var r := Split(Collected(sched, hour, minute, count), count);
      r.next.Some? && NotLater(r.next.value, d)
  {
    var today := SameDay(sched, hour, minute);
    var c := Collected(sched, hour, minute, count);
    CollectedShape(sched, hour, minute, count);
    if |today| > 0 {
      assert c[0] == today[0];
      SameDayMembers(sched, hour, minute, today[0]);
      if d in today {
        SameDayHoursChronological(sched, hour, 24, hour, minute);
        var k :| 0 <= k < |today| && today[k] == d;
        if k > 0 {
          assert NotLater(today[0], today[k]);
        }
      } else {
        RolloverMembers(sched, d);
      }
    } else {
      var later := Rollover(sched);
      NextDayHoursChronological(sched, LastRolloverHour + 1);
      var k :| 0 <= k < |later| && later[k] == d;
      assert c[0] == later[0];
      if k > 0 {
        assert NotLater(later[0], later[k]);
      }
    }
  }

  // ---------------------------------------------------------------------
  // The returned object.

  /** next and afterNext are the first two collected departures, and with
      upcomingBuses they make up exactly the first count + 2 of them. */
  lemma SplitParts(c: seq<Departure>, count: nat)
    ensures var r := Split(c, count);
      (r.next.Some? <==> |c| >= 1) && (r.afterNext.Some? <==> |c| >= 2) &&
      (r.next.Some? ==> r.next.value == c[0]) &&
      (r.afterNext.Some? ==> r.afterNext.value == c[1]) &&
      |r.upcomingBuses| <= count &&
      (|c| < 2 ==> r.upcomingBuses == []) &&
      (|c| >= 2 ==> [c[0], c[1]] + r.upcomingBuses == Take(c, count + 2))
  {
    var r := Split(c, count);
    if |c| >= 2 {
      if count + 2 < |c| {
        assert c[..count + 2] == [c[0], c[1]] + c[2..count + 2];
      } else {
        assert c == [c[0], c[1]] + c[2..];
      }
    }
  }

  /** With the source's upcomingBusCount, at most five further departures
      are returned besides next and afterNext. */
  lemma AtMostFiveUpcoming(summary: ScheduleSummary, catalog: seq<Timetable>, today: Date,
                           direction: string, hour: int, minute: int)
    ensures |NextBusesOf(summary, catalog, today, direction, hour, minute, UpcomingBusCount).upcomingBuses| <= 5
  {
    var info := GetApplicableSchedule(summary, today);
    var t := FindTimetable(catalog, info.timetableId);
    if info.isOperating && t.Some? && direction in t.value.schedule {
      SplitParts(Collected(t.value.schedule[direction], hour, minute, UpcomingBusCount), UpcomingBusCount);
    }
  }

  /** With ascending minute lists, next is no later than afterNext, and
      afterNext no later than any of upcomingBuses. */
  lemma SplitInOrder(sched: Hourly, hour: int, minute: int, count: nat)
    requires AscendingHours(sched)
    ensures var r := Split(Collected(sched, hour, minute, count), count);
      (r.afterNext.Some? ==> r.next.Some? && NotLater(r.next.value, r.afterNext.value)) &&
      (r.upcomingBuses != [] ==> r.afterNext.Some?) &&
      (forall u :: u in r.upcomingBuses ==> NotLater(r.afterNext.value, u))
  {
    var c := Collected(sched, hour, minute, count);
    var r := Split(c, count);
    CollectedChronological(sched, hour, minute, count);
    SplitParts(c, count);
    forall u | u in r.upcomingBuses ensures NotLater(r.afterNext.value, u) {
      var k :| 0 <= k < |r.upcomingBuses| && r.upcomingBuses[k] == u;
      assert u == c[k + 2];
    }
  }

  /** Every timetable lists each hour's minutes in ascending order. */
  predicate AscendingCatalog(catalog: seq<Timetable>)
  {
    forall t, dir :: t in catalog && dir in t.schedule ==> AscendingHours(t.schedule[dir])
  }

  /** getNextBuses never returns a next later than afterNext, nor an
      afterNext later than one of the upcoming departures. */
  lemma NextBusesInOrder(summary: ScheduleSummary, catalog: seq<Timetable>, today: Date,
                         direction: string, hour: int, minute: int, count: nat)
    requires AscendingCatalog(catalog)
    ensures var r := NextBusesOf(summary, catalog, today, direction, hour, minute, count);
      (r.afterNext.Some? ==> r.next.Some? && NotLater(r.next.value, r.afterNext.value)) &&
      (forall u :: u in r.upcomingBuses ==> r.afterNext.Some? && NotLater(r.afterNext.value, u))
  {
    var info := GetApplicableSchedule(summary, today);
    if info.isOperating {
      var t := FindTimetable(catalog, info.timetableId);
      if t.Some? && direction in t.value.schedule {
        SplitInOrder(t.value.schedule[direction], hour, minute, count);
      }
    }
  }

  /** No next departure is reported exactly when the day does not run,
      the timetable or the direction is missing, or the scans found nothing;
      in those cases the whole result is empty. */
  lemma NothingNextExactly(summary: ScheduleSummary, catalog: seq<Timetable>, today: Date,
                           direction: string, hour: int, minute: int, count: nat)
    ensures var r := NextBusesOf(summary, catalog, today, direction, hour, minute, count);
      var info := GetApplicableSchedule(summary, today);
      var t := FindTimetable(catalog, info.timetableId);
      (r.next.None? <==>
        !info.isOperating || t.None? || direction !in t.value.schedule ||
        Collected(t.value.schedule[direction], hour, minute, count) == []) &&
      (r.next.None? ==> r == NoBuses)
  {
    var info := GetApplicableSchedule(summary, today);
    var t := FindTimetable(catalog, info.timetableId);
    if info.isOperating && t.Some? && direction in t.value.schedule {
      SplitParts(Collected(t.value.schedule[direction], hour, minute, count), count);
    }
  }

  /** A query at 9:25 against an hour 9 that lists 0, 20 and 40 has the
      9:40 departure next. */
  lemma QueryWithinHour(count: nat)
    ensures Split(Collected(map[9 := [0, 20, 40]], 9, 25, count), count).next == Some(Departure(9, 40, false))
  {
    var sched := map[9 := [0, 20, 40]];
    var today := SameDay(sched, 9, 25);
    SameDayMembers(sched, 9, 25, Departure(9, 40, false));
    SameDayMembers(sched, 9, 25, today[0]);
    CollectedShape(sched, 9, 25, count);
    assert Collected(sched, 9, 25, count)[0] == today[0];
  }

  /** A query at 23:55, after the day's last departure at 23:50, has the
      00:10 departure of the following day next. */
  lemma QueryAfterLastDeparture(count: nat)
    ensures Split(Collected(map[23 := [50], 0 := [10]], 23, 55, count), count).next == Some(Departure(0, 10, true))
  {
    var sched := map[23 := [50], 0 := [10]];
    var later := Rollover(sched);
    RolloverMembers(sched, Departure(0, 10, true));
    RolloverMembers(sched, later[0]);
    assert Collected(sched, 23, 55, count)[0] == later[0];
  }
}
