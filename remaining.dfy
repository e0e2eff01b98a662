/** calculateRemainingTime: the whole minutes from now until a departure,
    shown as "あとN分" under an hour and as "あとH時間M分" from an hour on. */
module Remaining {
  import opened Basics
  import opened Text
  import opened Departures

  /** The wall-clock part of now: hours, minutes, seconds and milliseconds
      into the local day. */
  datatype Clock = Clock(hour: int, minute: int, second: int, millisecond: int)

  predicate ValidClock(c: Clock)
  {
    0 <= c.hour <= 23 && 0 <= c.minute <= 59 && 0 <= c.second <= 59 && 0 <= c.millisecond <= 999
  }

  const MsPerMinute := 60000
  const MsPerDay := 86400000

  const Prefix := "あと"
  const HoursUnit := "時間"
  const MinutesUnit := "分"

  function NowMs(c: Clock): int
  {
    ((c.hour * 60 + c.minute) * 60 + c.second) * 1000 + c.millisecond
  }

  /** busTime: now with setHours(hour, minute, 0, 0), and one day on when
      isNextDay. */
  function BusTimeMs(hour: int, minute: int, isNextDay: bool): int
  {
    (hour * 60 + minute) * MsPerMinute + (if isNextDay then MsPerDay else 0)
  }

  /** Math.floor((busTime - now) / 60000): the largest whole number of
      minutes that does not pass the departure. */
  function DiffMinutes(now: Clock, hour: int, minute: int, isNextDay: bool): (d: int)
    ensures d * MsPerMinute <= BusTimeMs(hour, minute, isNextDay) - NowMs(now) < (d + 1) * MsPerMinute
  {
    (BusTimeMs(hour, minute, isNextDay) - NowMs(now)) / MsPerMinute
  }

  /** The text for a difference of d minutes. */
  function RemainingText(d: int): string
  {
    if d < 60 then Prefix + IntToString(d) + MinutesUnit
    else HoursForm(d / 60, d % 60)
  }

  /** The text for h hours and m minutes. */
  function HoursForm(h: int, m: int): string
  {
    Prefix + (IntToString(h) + HoursUnit + IntToString(m)) + MinutesUnit
  }

  function CalculateRemainingTime(now: Clock, hour: int, minute: int, isNextDay: bool): string
  {
    RemainingText(DiffMinutes(now, hour, minute, isNextDay))
  }

  /** Reads a remaining-time text back into minutes. */
  function ParseRemaining(s: string): Option<int>
  {
    if |s| >= 4 && s[..2] == Prefix && s[|s| - 1..] == MinutesUnit then ParseBody(s[2..|s| - 1])
    else None
  }

  /** The part between the prefix and the minutes unit: minutes, or hours,
      the hours unit and minutes. */
  function ParseBody(body: string): Option<int>
  {
    if IndexOf(body, HoursUnit[0]) == -1 then ParseInt(body)
    else
      match HoursFields(body)
      case Some((h, m)) => Some(h * 60 + m)
      case None => None
  }

  /** The two fields of a body in the hours form: the number before the
      hours unit and the number after it. */
  function HoursFields(body: string): Option<(int, int)>
  {
    var k := IndexOf(body, HoursUnit[0]);
    if k != -1 && k + 2 <= |body| && body[k..k + 2] == HoursUnit then
      match (ParseInt(body[..k]), ParseInt(body[k + 2..]))
      case (Some(h), Some(m)) => Some((h, m))
      case _ => None
    else None
  }

  /** Reads the hours and minutes fields of a remaining-time text in the
      hours form. */
  function RemainingFields(s: string): Option<(int, int)>
  {
    if |s| >= 4 && s[..2] == Prefix && s[|s| - 1..] == MinutesUnit then HoursFields(s[2..|s| - 1])
    else None
  }

  lemma NoHoursMark(i: int)
    ensures HoursUnit[0] !in IntToString(i)
  {
    if HoursUnit[0] in IntToString(i) {
      IntToStringChars(i, HoursUnit[0]);
    }
  }

  lemma IndexAfter(a: string, b: string, x: char)
    requires x !in a
    ensures IndexOf(a + [x] + b, x) == |a|
  {
    var s := a + [x] + b;
    assert s[|a|] == x;
    assert s[..|a|] == a;
  }

  /** Both forms are a body between the prefix and the minutes unit. */
  lemma Frame(body: string)
    requires |body| >= 1
    ensures ParseRemaining(Prefix + body + MinutesUnit) == ParseBody(body)
    ensures RemainingFields(Prefix + body + MinutesUnit) == HoursFields(body)
  {
    var s := Prefix + body + MinutesUnit;
    assert s[..2] == Prefix && s[|s| - 1..] == MinutesUnit && s[2..|s| - 1] == body;
  }

  /** The text loses nothing: it reads back to the same number of minutes.
      It takes the hours form exactly from 60 minutes on, and its two fields
      are then the whole hours (at least one) and the minutes left (0..59). */
  lemma RemainingTextRoundTrip(d: int)
    ensures ParseRemaining(RemainingText(d)) == Some(d)
    ensures HoursUnit[0] in RemainingText(d) <==> d >= 60
    ensures d >= 60 ==>
      RemainingFields(RemainingText(d)) == Some((d / 60, d % 60)) && d / 60 >= 1 && 0 <= d % 60 < 60
  {
    if d < 60 {
      ShortFormRoundTrip(d);
    } else {
      LongFormRoundTrip(d);
    }
  }

  lemma ShortFormRoundTrip(d: int)
    requires d < 60
    ensures ParseRemaining(RemainingText(d)) == Some(d)
    ensures HoursUnit[0] !in RemainingText(d)
  {
    IntToStringRoundTrip(d);
    NoHoursMark(d);
    Frame(IntToString(d));
    assert HoursUnit[0] !in Prefix && HoursUnit[0] !in MinutesUnit;
  }

  lemma LongFormRoundTrip(d: int)
    requires d >= 60
    ensures ParseRemaining(RemainingText(d)) == Some(d)
    ensures HoursUnit[0] in RemainingText(d)
    ensures RemainingFields(RemainingText(d)) == Some((d / 60, d % 60))
  {
    var h, m := d / 60, d % 60;
    assert RemainingText(d) == HoursForm(h, m);
    LongFrame(h, m, Some(d));
  }

  /** The hours form of h hours and m minutes reads back to v, the total
      h * 60 + m minutes, and to its two fields h and m. */
  lemma LongFrame(h: int, m: int, v: Option<int>)
    requires Some(h * 60 + m) == v
    ensures var s := HoursForm(h, m);
      ParseRemaining(s) == v && HoursUnit[0] in s && RemainingFields(s) == Some((h, m))
  {
    HoursFormReadBack(h, m);
  }

  /** The hours form of h hours and m minutes reads back to its two fields
      and to h * 60 + m minutes. */
  lemma HoursFormReadBack(h: int, m: int)
    ensures var s := HoursForm(h, m);
      ParseRemaining(s) == Some(h * 60 + m) && HoursUnit[0] in s && RemainingFields(s) == Some((h, m))
  {
    var hs, ms := IntToString(h), IntToString(m);
    IntToStringRoundTrip(h);
    IntToStringRoundTrip(m);
    NoHoursMark(h);
    LongBody(hs, ms, h, m);
    var body := hs + HoursUnit + ms;
    Frame(body);
    assert (Prefix + body + MinutesUnit)[2 + |hs|] == HoursUnit[0];
  }

  /** A body with the hours unit parses to hours * 60 + minutes. */
  lemma LongBody(hs: string, ms: string, h: int, m: int)
    requires HoursUnit[0] !in hs
    requires ParseInt(hs) == Some(h) && ParseInt(ms) == Some(m)
    ensures HoursFields(hs + HoursUnit + ms) == Some((h, m))
    ensures ParseBody(hs + HoursUnit + ms) == Some(h * 60 + m)
  {
    var body := hs + HoursUnit + ms;
    assert body == hs + [HoursUnit[0]] + ([HoursUnit[1]] + ms);
    IndexAfter(hs, [HoursUnit[1]] + ms, HoursUnit[0]);
    assert body[..|hs|] == hs && body[|hs|..|hs| + 2] == HoursUnit && body[|hs| + 2..] == ms;
  }

  /** Every minute in the timetable is a minute of an hour. */
  predicate MinutesInRange(sched: Hourly)
  {
    forall h, m :: h in sched && m in sched[h] ==> 0 <= m <= 59
  }

  /** For a departure the finder collected at now's hour and minute, the
      remaining time is never below -1 minute, and it is -1 exactly for a
      same-day departure in now's own minute once that minute has begun
      (a second or a millisecond past it). */
  lemma RemainingForCollected(sched: Hourly, now: Clock, count: nat, d: Departure)
    requires ValidClock(now) && MinutesInRange(sched)
    requires d in Collected(sched, now.hour, now.minute, count)
    ensures DiffMinutes(now, d.hour, d.minute, d.isNextDay) >= -1
    ensures DiffMinutes(now, d.hour, d.minute, d.isNextDay) == -1 <==>
      !d.isNextDay && d.hour == now.hour && d.minute == now.minute && (now.second > 0 || now.millisecond > 0)
  {
    CollectedShape(sched, now.hour, now.minute, count);
    var diff := BusTimeMs(d.hour, d.minute, d.isNextDay) - NowMs(now);
    var late := now.second * 1000 + now.millisecond;
    assert 0 <= late < MsPerMinute;
    assert 0 <= d.minute <= 59;
    if d.isNextDay {
      assert diff >= 0;
    } else if d.hour > now.hour {
      assert diff == ((d.hour - now.hour) * 60 + d.minute - now.minute) * MsPerMinute - late;
      assert diff > 0;
    } else {
      assert diff == (d.minute - now.minute) * MsPerMinute - late;
      if d.minute > now.minute {
        assert diff > 0;
      } else if late > 0 {
        assert -MsPerMinute <= diff < 0;
      } else {
        assert diff == 0;
      }
    }
  }

  /** Now at 09:25, a departure at 09:40 the same day is 15 minutes away. */
  lemma FifteenMinutes()
    ensures CalculateRemainingTime(Clock(9, 25, 0, 0), 9, 40, false) == "あと15分"
  {
    assert DiffMinutes(Clock(9, 25, 0, 0), 9, 40, false) == 15;
    assert IntToString(15) == "15";
  }
}
