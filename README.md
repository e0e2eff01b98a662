# Bus timetable engine — a Dafny model

This project models the timetable engine of a shuttle-bus web page (`script.js`). The engine has four parts:

- **`getApplicableSchedule`** decides which timetable a calendar date runs on. It looks the date up, as an `MM-DD` key, in the per-year lists of `day.json`'s `schedule_summary`. The precedence is free-ride ("1-A"), then no-service or Sunday (no service), then summer-limited ("3"), then Saturday ("2"), then weekday ("1-B").
- **`getNextBuses`** finds departures for one direction. It collects the remaining same-day departures from a query time. When fewer than two remain, it rolls over into hours 0–6 of the following day, stopping at `upcomingBusCount + 2`. The result is split into `next`, `afterNext` and up to `upcomingBusCount` further departures.
- **`calculateRemainingTime`** and **`formatTime`** produce the display text: `あとN分` / `あとH時間M分` and a zero-padded `HH:MM`.
- **`ThemeManager`** cycles the colour theme auto → light → dark → auto.

The modules are:

- `Basics`: `Option` and JavaScript's `Array.prototype.indexOf`.
- `Text`: the decimal text of integers, `padStart`, and `formatTime` and the date key. Each comes with a parser that reads the text back.
- `Calendar`: `getApplicableSchedule`. An independent "first applicable regime" definition serves as its partner.
- `Departures`: `getNextBuses` as imperative methods. Each method is proved against specification functions.
- `Remaining`: `calculateRemainingTime`.
- `Theme`: `ThemeManager` as a class with mutable fields.

The source reads some values from ambient state; here they are parameters:

- the current date and time (`getCurrentDateTime`);
- the two datasets (`timeTableData`, `dayScheduleData`);
- `upcomingBusCount`, passed in as `count`. Its value in the source, 5, is the constant `UpcomingBusCount`, which `AtMostFiveUpcoming` uses.

A direction's timetable is a map from hour to that hour's minute list, in the order the data lists them.

## Model

| member | source | states |
|---|---|---|
| Basics.IndexOf | script.js:1095 | `indexOf` returns -1 exactly when the value is absent. Otherwise it returns the first position holding the value. |
| Text.IntToStringRoundTrip | script.js:288-292 | The decimal text of an integer (minus sign, digits, no leading zeros) parses back to the same integer. |
| Text.IntToStringChars | script.js:288-292 | The text of an integer contains only digits and `-`. |
| Text.PadStart | script.js:160-161 | `padStart(width, fill)` gives a result of length max(\|s\|, width). The result ends with `s` and every added character is `fill`. |
| Text.Pad2Digits | script.js:298 | For 0..99, `n.toString().padStart(2,'0')` is exactly two digits whose value is n. |
| Text.PaddedPairRoundTrip | script.js:160-162 | Two padded fields 0..99 joined by a separator make five characters: separator at position 2, reading back to the same two numbers. |
| Text.FormatTimeShape | script.js:297-299 | For hour and minute in 0..99, `formatTime` gives two digits, `:`, two digits, and the text reads back to (hour, minute). |
| Text.FormatTimeInjective | script.js:297-299 | Distinct (hour, minute) pairs in 0..99 are never formatted to the same text. |
| Calendar.DateKeyShape | script.js:159-162 | The date key is `MM-DD`: two digits, `-`, two digits, reading back to (month, day). |
| Calendar.GetApplicableSchedule | script.js:158-210 | `details` stays empty. `isOperating` holds exactly when `timetableId` is non-empty. An operating result's id is one of "1-A", "3", "2", "1-B". A non-operating result carries the no-service description. |
| Calendar.ResolvedByFirstMatch | script.js:175-209 | The resolver returns regime g's outcome exactly when g is the first regime, in precedence order, whose condition holds. |
| Calendar.FreeRideWins | script.js:176-181 | A free-ride date gets "1-A", operating, with the free-ride description, even on a Sunday or when the no-service list also names it. |
| Calendar.NoServiceExactly | script.js:184-189 | There is no service exactly when the date is not free-ride and is either listed as no-service or a Sunday. The id is then empty. |
| Calendar.LaterRulesOnlyAfterEarlierFail | script.js:191-209 | "3", "2" and "1-B" are each chosen exactly when every earlier rule failed and their own condition holds. |
| Calendar.MissingYearDecidedByWeekday | script.js:176-209 | A year missing from all three lists is no error. Such a date is decided by its day of the week alone. |
| Departures.FindTimetable | script.js:225 | `find` returns None exactly when no timetable has the id. Otherwise it returns the first timetable with that id. |
| Departures.Slice | script.js:270 | For non-negative bounds, `slice(start, end)` follows JavaScript's clamping. It gives `s[start..end]`, the tail when end passes the length, and empty when start is not below end or past the length. |
| Departures.GetNextBuses | script.js:213-272 | The method's result equals `NextBusesOf`, the function built from the schedule resolver, the timetable lookup, the two scans and the split. |
| Departures.ScanToday | script.js:237-247 | The first nested loop leaves exactly the same-day scan `SameDay`. |
| Departures.ScanNextDay | script.js:249-265 | The rollover loop, with both `break`s, leaves the same-day list followed by the first next-day departures of hours 0..6. It stops once `count + 2` are held in all. |
| Departures.PushNextDayHour | script.js:253-261 | The inner rollover loop appends the hour's minutes as next-day departures. It reports full exactly when the limit is reached, and then it has appended exactly the minutes needed. |
| Departures.SameDayMembers | script.js:238-247 | A departure is collected the same day exactly when it is not next-day, its hour is in hour..23, its minute is listed for that hour, and it is at or after the query time. |
| Departures.RolloverMembers | script.js:251-264 | The rollover scan can reach exactly the listed departures of hours 0..6, each marked next-day. |
| Departures.CollectedShape | script.js:237-265 | The collected list starts with the whole same-day scan. Next-day departures follow only when that scan found fewer than two. They are then exactly the first count + 2 − \|today\| departures of the rollover, or all of it when it is shorter, so the total is the smaller of count + 2 and \|today\| + \|rollover\|. Every entry satisfies the same-day or the next-day condition. |
| Departures.NextDayAtTheEnd | script.js:249-265 | After a next-day departure in the collected list, every later entry is next-day too. |
| Departures.CollectedChronological | script.js:237-265 | When each hour's minute list is ascending, the collected list is in time order, with today's departures before the next day's. |
| Departures.NextIsNearest | script.js:237-268 | With ascending minute lists, `next` is present and no later than any departure of today from the query time on, and no later than any departure of hours 0..6 of the following day. |
| Departures.SplitParts | script.js:267-271 | `next` and `afterNext` are the first and second collected departures (null when missing). `upcomingBuses` has at most count entries. Together the three are exactly the first count + 2 collected. |
| Departures.SplitInOrder | script.js:267-271 | With ascending minute lists, `next` is no later than `afterNext`, and `afterNext` is no later than any upcoming departure. |
| Departures.NextBusesInOrder | script.js:213-272 | For a catalog whose minute lists ascend, `getNextBuses` never returns `next` after `afterNext`, nor `afterNext` after an upcoming departure. |
| Departures.NothingNextExactly | script.js:216-232 | `next` is null exactly when the day does not run, the timetable or direction is missing, or nothing was collected. The whole result is then empty. |
| Departures.AtMostFiveUpcoming | script.js:270 | With `upcomingBusCount` = 5, at most five upcoming departures are returned besides `next` and `afterNext`. |
| Departures.QueryWithinHour | script.js:238-247 | A query at 9:25 against minutes 0, 20, 40 of hour 9 has 9:40 next. |
| Departures.QueryAfterLastDeparture | script.js:250-268 | A query at 23:55 after a last departure at 23:50 has 00:10 of the following day next. |
| Remaining.DiffMinutes | script.js:276-285 | The difference is the largest whole number of minutes not past the departure, with one day added for a next-day departure. |
| Remaining.RemainingTextRoundTrip | script.js:287-293 | The text reads back to the exact minute difference. It contains the hours unit exactly when d ≥ 60. In that form its two fields read back as d / 60 (at least 1) and d % 60 (0..59). |
| Remaining.RemainingForCollected | script.js:275-285 | For a valid clock and timetable minutes in 0..59, for any departure `getNextBuses` collects at now's hour and minute, the difference is at least -1. It is -1 exactly for a same-day departure in now's own minute once a second or millisecond of it has passed. |
| Remaining.FifteenMinutes | script.js:275-288 | At 09:25:00.000, a same-day 9:40 departure reads `あと15分`. |
| Theme.NextThemeCycle | script.js:1093-1097 | The next theme is always one of auto, light, dark. Auto (or an unset or empty theme) goes to light, light to dark, and dark to auto. Any unknown theme gets index -1 and goes to auto. |
| Theme.ThreeStepsReturn | script.js:1093-1097 | Three steps from any of the three themes return to it. |
| Theme.ThemeManager.SetTheme | script.js:1072-1090 | `currentTheme` becomes the given theme. `data-theme` is set for light and dark and removed otherwise. |
| Theme.ThemeManager.Init | script.js:1058-1069 | A saved non-empty theme is restored; otherwise the theme is auto. |
| Theme.ThemeManager.ToggleTheme | script.js:1093-1099 | `currentTheme` moves to `NextTheme` of the old value, and the attribute follows it. |
| Theme.ToggleThreeTimes | script.js:1093-1099 | When the manager starts on auto, light or dark, three presses of the theme button return it to that theme. |

## Left out

- Rendering and UI: `setElementText`, `updateDisplay` and its caches, the direction/status panels, tab bars, modals, `showToast` and `updateThemeButton`. They only display the engine's outputs.
- Data loading (`fetch` of the two JSON files, `init`, `fastInit`) and timers (`setInterval`, debouncing): network I/O and event-loop timing. The datasets are parameters.
- The manual-time feature and `getCurrentDateTime`: the current date and time are parameters (`Date`, `Clock`).
- QR codes, clipboard, Web Share and downloads: browser and library calls.
- `localStorage` in `ThemeManager.init`/`setTheme`: the saved theme is a parameter of `Init`, and the write-back is not modelled.
- sw.js, the service worker: Cache API, fetch events and notifications, all I/O.
- JSON typing: hours and minutes are taken to be integers. A direction's schedule is keyed by integer hour, whereas the JSON keys are strings that JavaScript looks up by number.
- Daylight saving: `setHours`/`setDate` are modelled as plain arithmetic on milliseconds within a day. A daylight-saving shift, which would change the length of the day, is not modelled.
- Repeated times: `upcomingBuses` is `slice(2, count + 2)` of the collected list, so an entry may equal `afterNext` when a minute list repeats a time. SplitInOrder proves "no earlier than" for ascending minute lists.
