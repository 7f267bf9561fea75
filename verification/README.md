# Timewarrior status for Waybar, modelled in Dafny

The script `configs/waybar/.config/waybar/timew.py` drives a Waybar widget from the
Timewarrior time tracker. It reads today's intervals (`timew export :today`). It
collects the intervals that carry the same tags as the most recent one. It sums their
durations, and the durations of the whole day, into `HH:MM[:SS]` texts. It classifies
the most recent interval as active, idle, paused or stopped. It picks one tag as the
task's label. The result is a record `{"class": ..., "text": "{tag} {total}/{day_total}"}`.
The same script can also toggle tracking: `timew continue` on a stopped task,
`timew stop` on a running one.

The model has two modules:

- `PyFormat` (`pyformat.dfy`) models Python's `f"{n:02d}"` for every integer. It also
  has a reader that turns such a numeral back into the integer, and `LexLess`,
  Python's `<` on strings (code-point order, a proper prefix first).
- `Timew` (`timew.dfy`) models the rest: the interval record, the duration
  formatter, the display-tag choice, the idle test, the grouping, the status
  projection and the toggle decision.

Timestamps are whole seconds, already parsed. The current time is a parameter `now`.
The settings dictionary is a `Config` value passed to every operation that reads it.

The source has three loops. Each is a method proved equal to a specification
function:

- the duration sum in `calculate_total` is `CalculateTotal`;
- the early-return scan in `get_display_tag` is `GetDisplayTag`;
- the `append` loop in `to_waybar` is `ToWaybar`.

The properties are proved about those functions.

## Model

| member | source | states |
|---|---|---|
| `PyFormat.Digits` | configs/waybar/.config/waybar/timew.py:58 | decimal digits of a natural number: at least one digit, no leading zero, one digit below 10, two below 100, and reading them back gives the number |
| `PyFormat.Pad2` | configs/waybar/.config/waybar/timew.py:56-58 | the `02d` format: reading the text back gives `n` for every integer; at least two characters, exactly two for 0..99, only digits when `n >= 0`, a minus sign then digits when `n < 0`; no zero in front from 10 on and none after the minus sign, so 100 gives `100` and -10 gives `-10` |
| `PyFormat.Pad2Examples` | configs/waybar/.config/waybar/timew.py:56-58 | `02d` renders 0, 7, 59 and 99 as `00`, `07`, `59` and `99`, 100 as `100`, -7 as `-7` and -10 as `-10` |
| `PyFormat.Pad2Order` | configs/waybar/.config/waybar/timew.py:56-58 | for 0..99 the two-digit texts compare as strings (code-point order, as Python's `<` on `str`) exactly as the numbers do, and are equal exactly when the numbers are |
| `Timew.StatusNameInjective` | configs/waybar/.config/waybar/timew.py:20-27 | `StatusName` gives the JSON values `active`, `paused`, `stopped` and `idle` of the four members of `Status`, and they are pairwise distinct |
| `Timew.TotalNonNegative` | configs/waybar/.config/waybar/timew.py:43-49 | `Span` is an interval's `end` (or `now` when it is open) minus its `start`, and `TotalSeconds` sums the spans in list order; when no interval ends before it starts, that sum is non-negative |
| `Timew.TotalAppend` | configs/waybar/.config/waybar/timew.py:43-49 | `TotalSeconds` of a concatenation is the sum of the two parts' `TotalSeconds` |
| `Timew.CalculateTotal` | configs/waybar/.config/waybar/timew.py:42-58 | the loop's result is the rendering of the sum over the intervals of `(end, or now when open) - start` |
| `Timew.FormatDuration` | configs/waybar/.config/waybar/timew.py:52-58 | the rendered total has at least 5 characters (8 with seconds), exactly that many for totals from 0 up to (not including) 100 hours, and a colon 3 (and 6) characters from the end |
| `Timew.ClockFields` | configs/waybar/.config/waybar/timew.py:52-58 | the hours field reads back as `s // 3600`, not wrapped at 24; the minutes field reads back as `(s % 3600) // 60`, within 0..59; the seconds field, when shown, reads back as `s % 60`, within 0..59 |
| `Timew.ClockArith` | configs/waybar/.config/waybar/timew.py:52-56 | the hours, minutes and seconds fields recombine to the total, with minutes and seconds in 0..59 |
| `Timew.ClockChars` | configs/waybar/.config/waybar/timew.py:52-58 | a rendered total holds only digits, colons and a minus sign |
| `Timew.ClockRoundTrip` | configs/waybar/.config/waybar/timew.py:52-58 | reading a rendered total back gives the total to the second when seconds are shown, and the total rounded down to the minute otherwise |
| `Timew.FormatInjective` | configs/waybar/.config/waybar/timew.py:52-58 | with seconds shown, two totals render alike if and only if they are equal |
| `Timew.FormatMinutesInjective` | configs/waybar/.config/waybar/timew.py:52-58 | without seconds, two totals render alike if and only if they agree to the minute |
| `Timew.FormatExamples` | configs/waybar/.config/waybar/timew.py:52-58 | 0 s renders as `00:00:00`; 3661 s as `01:01:01`, or `01:01` without seconds; 2700 s as `00:45:00` and `00:45` |
| `Timew.FormatOrdered` | configs/waybar/.config/waybar/timew.py:52-58 | for totals from 0 up to (not including) 100 hours, one rendered total sorts before another as a string exactly when its total is smaller (to the second, or to the minute without seconds) |
| `Timew.OrderBreaksAtHundredHours` | configs/waybar/.config/waybar/timew.py:52-58 | 360000 s renders as `100:00:00` and 359999 s as `99:59:59`, and the first sorts before the second as a string |
| `Timew.Contains` | configs/waybar/.config/waybar/timew.py:79 | Python's substring test `sub in s` holds if and only if `sub` occurs at some position of `s` (the empty string occurs everywhere) |
| `Timew.ContainsChar` | configs/waybar/.config/waybar/timew.py:79 | for a one-character delimiter, the substring test is membership of that character |
| `Timew.FirstMatch` | configs/waybar/.config/waybar/timew.py:78-80 | the position found holds the first tag, in list order, that contains the delimiter; no position exactly when no tag contains it |
| `Timew.PyIndex` | configs/waybar/.config/waybar/timew.py:84 | Python list indexing: a position exists if and only if `-n <= i < n`; a negative index counts from the end |
| `Timew.DisplayTag` | configs/waybar/.config/waybar/timew.py:74-84 | `"empty"` for a missing or empty tag list; otherwise the first tag containing the delimiter; otherwise the tag at the fallback index, Python-style; `IndexError` exactly when no tag matches and the index is outside `-len..len-1` |
| `Timew.DisplayTagExamples` | configs/waybar/.config/waybar/timew.py:74-84 | with the default settings, `["proj-sub", "misc"]` gives `proj-sub`, `["misc", "other"]` gives `other`, and a missing list gives `empty` |
| `Timew.GetDisplayTag` | configs/waybar/.config/waybar/timew.py:74-84 | the early-return scan returns exactly `DisplayTag` of its input, including the error case |
| `Timew.IsIdle` | configs/waybar/.config/waybar/timew.py:87-93 | an open interval is never idle; a closed one is idle if and only if more than the threshold has passed since its end, strictly, the threshold being `IdleThresholdSeconds`, 60 times the configured minutes, or 60 times 10 when that setting is 0 |
| `Timew.IdleBoundary` | configs/waybar/.config/waybar/timew.py:91-93 | exactly at the threshold an interval is not yet idle; one second later it is; once idle it stays idle as `now` grows |
| `Timew.IdleExamples` | configs/waybar/.config/waybar/timew.py:87-93 | with a 10-minute threshold, ended 11 minutes ago is idle, 9 or exactly 10 minutes ago is not; a threshold of 0 acts as 10 (9 minutes ago is not idle under it, 11 minutes ago is) |
| `Timew.StatusOf` | configs/waybar/.config/waybar/timew.py:112-118 | never STOPPED; ACTIVE if and only if the interval is open; IDLE if and only if it is closed and idle; PAUSED if and only if it is closed and not idle |
| `Timew.TaskGroup` | configs/waybar/.config/waybar/timew.py:100-105 | the group holds only intervals of the day whose tags equal the given tags (`TagsOf` reads a missing `tags` field as `[]`, as `get("tags", [])` does), and every such interval; it is no longer than the day |
| `Timew.TaskGroupCount` | configs/waybar/.config/waybar/timew.py:100-105 | each interval occurs in the group of its own tags as often as in the day, and in no other group, so the groups partition the day |
| `Timew.TaskGroupOrdered` | configs/waybar/.config/waybar/timew.py:103-105 | the group is a subsequence of the day: the day's order is kept |
| `Timew.TaskGroupNonEmpty` | configs/waybar/.config/waybar/timew.py:100-108 | an interval that is part of the day is in the group of its own tags, so that group is not empty |
| `Timew.GroupTotalAtMostDay` | configs/waybar/.config/waybar/timew.py:110-111 | when no interval ends before it starts, the group's total lies between 0 and the day's total |
| `Timew.Project` | configs/waybar/.config/waybar/timew.py:96-127 | the text of a shown record is the display tag, a space, the group's total rendered with the configured seconds setting, `/` and the day's total rendered without seconds; STOPPED with empty text if and only if the current task or the list is missing or the group of the current task's tags is empty; never STOPPED when the current task is in the list; a STOPPED result is always the empty record; any other state is the `StatusOf` of the current task; an error exactly when the group is non-empty and choosing the display tag fails, and then it is the display tag's error |
| `Timew.ProjectExample` | configs/waybar/.config/waybar/timew.py:96-127 | two intervals tagged `a`, 0..1800 and one opened at 1800, seen at 2700 with the default settings, give an ACTIVE record with text `a 00:45:00/00:45` |
| `Timew.ToWaybar` | configs/waybar/.config/waybar/timew.py:96-127 | the append loop and the calls return exactly `Project` of the inputs |
| `Timew.StoppedIffHidden` | configs/waybar/.config/waybar/timew.py:30-32 | a produced record has empty text (the widget is hidden) if and only if its state is STOPPED |
| `Timew.ExportNeverStopped` | configs/waybar/.config/waybar/timew.py:96-118 | when the last interval of a non-empty list is the current one, the state is that interval's `StatusOf`, never STOPPED |
| `Timew.SplitLast` | configs/waybar/.config/waybar/timew.py:125 | splitting at the last occurrence of a character: none exactly when the character is absent; otherwise front, character and back rebuild the text, and the back does not contain the character |
| `Timew.ReadStatusTextOf` | configs/waybar/.config/waybar/timew.py:125 | the text `"{tag} {total}/{day_total}"` reads back into the tag and both totals, even when the tag contains spaces or slashes |
| `Timew.StatusTextRoundTrip` | configs/waybar/.config/waybar/timew.py:110-125 | the text of a non-STOPPED record reads back into the display tag, the group total (to the second when seconds are shown, else to the minute) and the day total to the minute |
| `Timew.Toggle` | configs/waybar/.config/waybar/timew.py:130-134 | `continue` if and only if the last interval has an end, `stop` if and only if it has none |
| `Timew.ToggleMatchesStatus` | configs/waybar/.config/waybar/timew.py:130-134 | on a shown record, the toggle stops tracking exactly when the state is ACTIVE, and resumes it exactly when the state is PAUSED or IDLE |

## Left out

- `get_current_task` (lines 61-71) is not modelled. It runs `timew export` with a one-second timeout and parses the JSON. The model takes its result as the parameters `current` and `all`. Its rule "last element of a non-empty list" appears only as the hypothesis of `ExportNeverStopped`.
- The `subprocess.run` calls in `toggle` (lines 132 and 134) are not modelled. `Toggle` returns the command the script would run.
- `main` and its `argparse` handling (lines 137-151) are not modelled. Neither is the rule that a toggle without a current task prints the status instead.
- `json.dumps` (lines 30-32 and 122-127) is not modelled. The record is the datatype `Waybar`, and `StatusName` gives the JSON value of its class. JSON escaping is not modelled.
- `dateutil.parser.parse` and time zones (lines 46-47 and 91) are not modelled. Timestamps are whole seconds since the epoch.
- Reads of the clock (lines 47 and 91): the model reads it once, as the parameter `now`. That value is used for every open interval and for the idle test. The script reads `datetime.now` separately at each of those places, so its totals can differ from one another by the time between the reads.
- Sub-second time is not modelled. `datetime.now` carries microseconds, which `int()` at line 52 truncates. With whole-second timestamps that truncation does nothing. The idle test at line 93 compares a `timedelta` that keeps the microseconds, so with `now` rounded down to the second the model reports PAUSED for up to one second after the script would report IDLE.
- Errors other than `IndexError` in `get_display_tag` are not modelled: a missing `start` key and unparsable timestamps are outside the model.
- `config.get("fallback_tag_index", -1)` (line 82): the model uses `Config.fallbackTagIndex`. The settings always contain that key, so the default is never used.
- FormatOrdered: string order of rendered totals is proved only for totals from 0 to below 100 hours. At 100 hours the hours field grows a third digit and order breaks: `OrderBreaksAtHundredHours` shows `100:00:00` sorting before `99:59:59`. Negative totals, rendered with a minus sign, are outside the lemma too.
