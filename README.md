# Dragon respawn timer list, modelled in Dafny

The web page keeps a list of dragon-respawn timers. A user enters a channel
number, the time of day a dragon was killed ("HH:mm") and the dragon kind
('수룡' or '화룡'). The page turns the kill time into a respawn instant and
appends a timer. Once a second it recomputes every timer's countdown text.
When a timer reaches its respawn instant it is marked completed and a
notification fires. Timers can be deleted by id.

This project models that engine, extracted from the `App` component:

- `clock.dfy` (module `Clock`): local wall-clock time as integer
  milliseconds with uniform 86 400 000 ms days. It also holds the `Date`
  mutators the code uses (`setHours`, `setDate`, `setMinutes`) and
  JavaScript's truncating `%` and `Math.floor` of a quotient.
- `decimal.dfy` (module `Decimal`): `Number.prototype.toString` for
  integers, `String.prototype.padStart`, and the inverse reading of digit
  strings.
- `timer_types.dfy` (module `TimerTypes`): the `DragonType` enum and the
  `TimerData` record.
- `respawn.dfy` (module `Respawn`): the kill instant and the respawn
  instant computed by `handleAddTimer`.
- `countdown.dfy` (module `Countdown`): the `m:ss` countdown text, and a
  parser for it that serves as its inverse.
- `timer_list.dfy` (module `TimerList`): the tick as a map over the list,
  the timers it notifies, and delete-by-id as a filter.
- `app.dfy` (module `App`): class `TimerBoard`. Its field `timerList` is
  the component's state cell. `AddTimer`, `DeleteTimer` and `Tick` replace
  that field.

How the model handles the outside world:

- The current instant `now` is a parameter. One `now` is used for a whole
  tick.
- The tick returns the timers it would hand to `showNotification`. It does
  not play sound or raise notifications.
- `AddTimer` returns whether the "fill in every field" alert was raised.
- The id (`Date.now()`) is a parameter. So are the parsed channel number,
  hours and minutes. Ids are not assumed to be unique.

Notes on the code's behaviour:

- The offsets are 30 minutes for '수룡' and 40 minutes for '화룡'.
- A kill time later than now is moved back exactly one day; no other
  adjustment is made.
- The new timer's respawn instant can already be in the past when it is
  created (`Respawn.RespawnAlreadyDue`).
- A completed timer is not skipped on later ticks. It drops back to the
  countdown formula, which then prints negative fields such as `-1:-60`
  (`Countdown.LateAlmostMinute`). It is still never notified again.
- The list stays in insertion order; nothing sorts it.

## Model

| member | source | states |
|---|---|---|
| `Clock.SetTimeOfDay` | src/App.tsx:91-92 | `setHours(h, m, 0, 0)` keeps the calendar day and makes the time of day exactly h:m:00.000 |
| `Clock.AddDays` | src/App.tsx:96 | `setDate(getDate() - 1)` moves the instant by exactly one day and keeps its time of day |
| `Clock.AddMinutes` | src/App.tsx:100 | `setMinutes(getMinutes() + k)` keeps the seconds and milliseconds; the new time of day is the old one plus k minutes modulo a day, and the day moves by as many whole days as that sum overflows |
| `Clock.TruncRem` | src/App.tsx:60 | JavaScript `%`: dividend minus remainder is a multiple of the divisor, the remainder is below the divisor in size, is never positive for a negative dividend, and equals the ordinary remainder for a non-negative one |
| `Clock.TruncRemOdd` | src/App.tsx:60 | negating the dividend negates JavaScript's remainder |
| `Clock.FloorDiv` | src/App.tsx:59-60 | `Math.floor(a / b)` is the greatest q with q·b ≤ a |
| `Decimal.NatToString` | src/App.tsx:64 | the text of a non-negative number is a non-empty string of digits with no leading zero |
| `Decimal.IntToString` | src/App.tsx:64 | the text of a number is all digits exactly when the number is non-negative, and those digits read back as the number; a negative number prints as '-' followed by digits that read back as its magnitude; no leading zero either way |
| `Decimal.PadStart` | src/App.tsx:64 | `padStart(width, fill)` gives length max(\|s\|, width): fill characters, then s unchanged |
| `Decimal.ParseNatToString` | src/App.tsx:64 | reading back the digits printed for n gives n |
| `Decimal.IntToStringInjective` | src/App.tsx:64 | two different integers never print the same text |
| `Respawn.OffsetMinutes` | src/App.tsx:100 | the respawn offset is 30 or 40 minutes, and 30 exactly for '수룡' |
| `Respawn.SameDayCandidate` | src/App.tsx:89-92 | the first candidate lies on now's day, at hours:minutes:00.000 |
| `Respawn.KilledAt` | src/App.tsx:89-97 | the kill instant is at or before now and less than 24 h before it, with time of day exactly hours:minutes:00.000 |
| `Respawn.RespawnAt` | src/App.tsx:99-100 | the respawn instant lies in the 24 hours ending one offset after now, and its time of day is the entered hours:minutes plus the offset, wrapping past midnight (offsets in `RespawnOffsets`, bounds in `RespawnWindow`) |
| `Respawn.KilledAtShift` | src/App.tsx:94-97 | the day shift subtracts exactly one day, and does so exactly when the same-day candidate is strictly later than now; otherwise the candidate is kept |
| `Respawn.KilledAtUnique` | src/App.tsx:89-97 | the kill instant is the only instant in (now − 24 h, now] with the entered time of day |
| `Respawn.RespawnOffsets` | src/App.tsx:99-100 | respawn − kill is exactly 30 min for '수룡' and 40 min for '화룡' |
| `Respawn.RespawnWindow` | src/App.tsx:89-100 | now − 24 h + offset < respawn ≤ now + offset, so respawn ≤ now + 40 min; respawn ≤ now exactly when the kill was at least the offset ago |
| `Respawn.RespawnAlreadyDue` | src/App.tsx:89-100 | at 10:00 a '수룡' killed at 09:00 gets respawn 09:30, already before now |
| `Respawn.KilledPreviousEvening` | src/App.tsx:94-100 | at 00:10 a kill entered as 23:50 lands on the previous day, and a '화룡' respawns at 00:30 |
| `Countdown.Minutes` | src/App.tsx:59 | the minutes field is the whole number of minutes in diff, rounded down |
| `Countdown.Seconds` | src/App.tsx:60 | the seconds field is 0..59 while diff ≥ 0 and −60..0 once diff < 0 (how it combines with the minutes: `CountdownFields`) |
| `Countdown.CountdownText` | src/App.tsx:59-64 | the countdown text has at least four characters (its shape: `CountdownShape`, `CountdownSign`; its inverse: `CountdownRoundTrip`) |
| `Countdown.CountdownFields` | src/App.tsx:59-60 | for diff ≥ 0: minutes ≥ 0, seconds in 0..59, and minutes·60 + seconds = floor(diff/1000); for diff < 0: minutes < 0 and seconds in −60..0 |
| `Countdown.PaddedSeconds` | src/App.tsx:64 | seconds 0..59 print as exactly two digits, the tens then the units |
| `Countdown.CountdownShape` | src/App.tsx:59-64 | for diff ≥ 0 the text is the decimal minutes, ':' and two second digits |
| `Countdown.CountdownRoundTrip` | src/App.tsx:59-64 | for diff ≥ 0, reading the countdown text back gives floor(diff/1000), the whole seconds remaining |
| `Countdown.ParseMinutesSeconds` | src/App.tsx:64 | the canonical `m:ss` text reads back as m·60 + ss |
| `Countdown.CountdownSign` | src/App.tsx:59-64 | the text starts with a digit exactly when diff ≥ 0, and with '-' once the respawn instant has passed |
| `TimerList.CountdownIsNotMarker` | src/App.tsx:53-64 | no countdown text equals the completion marker '완료!' |
| `Countdown.LateHalfSecond` | src/App.tsx:59-64 | 500 ms past the respawn instant the formula prints `-1:-1` |
| `Countdown.LateWholeMinute` | src/App.tsx:59-64 | 60 000 ms past the respawn instant the formula prints `-1:00` |
| `Countdown.LateAlmostMinute` | src/App.tsx:59-64 | 59 999 ms past the respawn instant the formula prints `-1:-60` |
| `TimerList.TickEntry` | src/App.tsx:44-66 | a tick keeps id, channel, kill text, kind and respawn instant; the timer is completed afterwards iff it was already completed or diff ≤ 0; it shows '완료!' iff it was due (diff ≤ 0, diff = 0 included, and not yet completed); otherwise it shows the countdown |
| `TimerList.TickAll` | src/App.tsx:43-67 | the list keeps its length and order; each timer is ticked on its own and only remainingTime and isCompleted change |
| `TimerList.Notified` | src/App.tsx:44-50 | a tick notifies at most as many timers as the list holds (which ones: `NotifiedMembers`; order: `NotifiedKeepsOrder`) |
| `TimerList.NotifiedMembers` | src/App.tsx:48-50 | the notified timers are exactly those of the list that are due (diff ≤ 0 and not yet completed), taken before the tick |
| `TimerList.NotifiedAreNewlyCompleted` | src/App.tsx:48-55 | a tick notifies exactly as many timers as it turns from running to completed |
| `TimerList.NotifiedKeepsOrder` | src/App.tsx:44-50 | notifications follow list order |
| `TimerList.NotifiedOnlyOnce` | src/App.tsx:48-55 | a timer notified on one tick is completed and shows '완료!' afterwards, and is not due on any later tick |
| `TimerList.NotifiedAtMostOnce` | src/App.tsx:41-68 | over any run of ticks a timer is notified at most once: exactly once if it was running and some tick reached its respawn instant; completion never reverts |
| `TimerList.DeleteById` | src/App.tsx:121 | deleting never lengthens the list (which timers stay: `DeleteMembers`; order: `DeleteKeepsOrder`) |
| `TimerList.DeleteMembers` | src/App.tsx:120-122 | the result holds exactly the timers of the list whose id differs |
| `TimerList.DeleteKeepsOrder` | src/App.tsx:121 | deleting distributes over concatenation, so the kept timers stay in their original relative order |
| `TimerList.DeleteAbsent` | src/App.tsx:121 | deleting an id that no timer has leaves the list unchanged |
| `TimerList.DeleteTwice` | src/App.tsx:121 | deleting the same id twice equals deleting it once |
| `TimerList.AppendThenDelete` | src/App.tsx:112-121 | appending a timer with a fresh id and then deleting that id restores the list |
| `TimerList.DeleteCommutesWithTick` | src/App.tsx:43-121 | deleting before or after a tick gives the same list |
| `App.TimerBoard.constructor` | src/App.tsx:13 | the list starts empty |
| `App.TimerBoard.AddTimer` | src/App.tsx:82-117 | an empty channel or time field raises the alert and leaves the list unchanged; otherwise exactly one timer is appended with the given id, channel and kind, the time text verbatim, the normalised respawn instant, empty remainingTime and isCompleted false; earlier timers are unchanged |
| `App.TimerBoard.DeleteTimer` | src/App.tsx:120-122 | the list becomes the old list without the timers of that id |
| `App.TimerBoard.Tick` | src/App.tsx:41-68 | the list becomes the ticked old list; the returned timers are the ones notified |

## Left out

- React machinery: `useState`, `useEffect` and the `setInterval`/`clearInterval` driver. `TimerBoard.Tick` is called with the current instant instead.
- Sound (`ALERT_SOUND.play`), the toast and its 3-second hide, the `Notification` permission request and the desktop notification. These are browser output. The tick returns the notified timers instead.
- `alert()`: only whether it is raised is modelled, as `AddTimer`'s result.
- Parsing: `killedTime.split(':').map(Number)` and `parseInt(channelNumber)`. Their results are parameters. Hours must lie in 0..23 and minutes in 0..59, because the code does no range check of its own.
- `Date.now()` as the id source: the id is a parameter.
- Clearing the two input fields after an add (src/App.tsx:115-116). This is form state; `TimerBoard` holds only the timer list.
- `Date` and time-zone semantics: there are no DST transitions, and days are 24 hours long. Month rollover of `setDate` is covered by this uniform day.
- The separate `new Date()` per timer inside the map. One `now` serves the whole tick.
- `Math.floor` on floating-point quotients is modelled as exact integer floor division. Rounding is not modelled.
- JSX rendering, `toLocaleTimeString`, and `src/components/Toast.tsx`. These are view code.
- JavaScript's `-0` is not distinguished from `0` in the seconds field. `(-0).toString()` prints "0", so the countdown text is the same.
