# Anime season counter for Shikimori profiles

The generator writes one stylesheet per year for Shikimori profile pages.
For every day of the year it emits two CSS rules keyed by the page's
`data-server_time` attribute:

- a label such as "5 дней до конца осеннего аниме марафона";
- the width of the profile's "lifetime" bar.

Together they show a countdown through a fixed yearly cycle. There are four
14-day watch windows (January, April, July and October, each from the 14th
to the 27th), separated by waiting periods.

- Inside a window the label counts down to the window's last day, and the
  bar shrinks from 100% to 0%.
- Between windows the label counts down to the next window's first day,
  and the bar grows from 0% to 100%.
- After October 27 the count runs to January 14 of the next year.

The model covers:

- **Calendar**: the proleptic Gregorian dates that Python's `date` works
  with, years 1 to 9999. It has the day ordinal behind date subtraction,
  the lexicographic date order, and the successor behind
  `+= timedelta(days=1)`.
- **Text**: `str` of integers, `date.isoformat()` (the full-date form of
  section 5.6 of RFC 3339), `"".join`, `str.replace` with an empty
  replacement, and `str.lower` on Latin and Cyrillic letters. Each has a
  parser or a property as its partner.
- **Seasons**: the season table, `get_day_word` and `get_season_info`.
  `get_season_info` is written as the loop's own control flow (`Scan`)
  and the dictionary each `return` builds (`Describe`). A date for which
  one of the `date(…)` calls falls outside years 1..9999 raises
  ValueError, which the model returns as `None`.
- **SeasonProofs**: what the countdown promises. The lemmas prove:
  - every date falls into exactly one of the branches, by a reference
    classification `Phase` that depends only on month and day;
  - the fallback `return` is unreachable;
  - the day counts and the lengths of the periods;
  - the endpoints of the percentage (100/0 in a window, 0/100 while
    waiting);
  - the percentage changes strictly monotonically within a period;
  - what happens from each day to the next.
- **Emitter**: `generate_year_css` as a method with its `while` loop over
  the dates of the year, proved equal to a specification `YearCss` built
  from the per-day rules. Lemmas about `YearCss` state:
  - for which years it exists;
  - that it has two rules per day;
  - that each day's label comes before its width;
  - that the rules run in date order;
  - that each rule's selector reads back as its day;
  - that each width reads back as the rounded percentage.

  The `@import` loop of `generate_all_files` is a method with its own
  loop.

The percentage is computed exactly as a `real`. Python's `round(x, 2)` is
modelled as rounding to the nearest hundredth, with ties going to the even
hundredth. Its printed form follows the shape of Python's float repr
(`100.0`, `92.31`, `1.3`).

## Model

| member | source | states |
|---|---|---|
| Seasons.DayWord | shikimori_season-counter-generator.py:35-44 | "день" exactly when days % 10 is 1 and days % 100 is not 11; "дня" exactly when days % 10 is 2..4 and days % 100 is not 12..14; "дней" in every other case |
| SeasonProofs.TableShape | shikimori_season-counter-generator.py:8-33 | season i's window starts on the 14th and ends on the 27th of month 3i+1, and lasts 14 days |
| Seasons.FindByName | shikimori_season-counter-generator.py:77 | the search from row j returns the first row from j on whose name matches, as `next(...)` does, and returns none only when no row from j on has that name |
| SeasonProofs.PredecessorByName | shikimori_season-counter-generator.py:76-77 | looking the predecessor up by name finds row i-1, and the last row (ЛЕТНЕГО) for the first season |
| Seasons.Scan | shikimori_season-counter-generator.py:51-129 | a watch or wait branch taken from row i onward names a row from i to 3 |
| Seasons.Describe | shikimori_season-counter-generator.py:60-129 | the dictionary each `return` builds: count, title and percentage of the watch, wait and year-wrap branches and the fallback; `SeasonProofs.WatchInfo`, `WaitingForSeason` and `WaitingAcrossNewYear` state its values |
| Seasons.SeasonInfo | shikimori_season-counter-generator.py:46-129 | `get_season_info`: `None` where a `date(…)` it builds raises, otherwise `Describe` of the branch taken; `SeasonProofs.ScanFollowsPhase` and `SeasonInfoInRange` state which branch and the bounds |
| Seasons.Phase | shikimori_season-counter-generator.py:51-129 | the reference classification by month and day is never the fallback, and names a row of the table; `SeasonProofs.ScanFollowsPhase` proves the loop agrees with it |
| Seasons.WatchPercentage | shikimori_season-counter-generator.py:63-66 | the window percentage lies in 0..100, is 100 exactly on the window's first day and 0 exactly on its last, and is 0 when the window has at most one day |
| Seasons.WaitPercentage | shikimori_season-counter-generator.py:94-99 | the waiting percentage lies in 0..100, is 0 exactly on the first waiting day and 100 exactly on the last, and is 0 when the wait has at most one day |
| SeasonProofs.ScanFollowsPhase | shikimori_season-counter-generator.py:51-129 | the branch `get_season_info` returns from is the date's phase by month and day (a watch window, a waiting period or the year wrap), or it raises ValueError exactly for the dates that need year 0 or year 10000 |
| SeasonProofs.FallbackUnreachable | shikimori_season-counter-generator.py:129 | no date reaches the final fallback `return` |
| SeasonProofs.PhaseIntervals | shikimori_season-counter-generator.py:53-111 | a date is in window i exactly when watch_start <= d <= watch_end; it is waiting for season i exactly when prev_end < d < current_start; it is in the year wrap exactly when d > last_end |
| SeasonProofs.WaitLengths | shikimori_season-counter-generator.py:80-95 | the waits before January, April, July and October are 78, 76 or 77 (77 in a leap year), 77 and 78 days; the year wrap waits 78 days, toward the same January 14 as the next year's first wait |
| SeasonProofs.WatchInfo | shikimori_season-counter-generator.py:59-72 | in a window the title is "ДО КОНЦА <season>", the days are watch_end - d + 1 = 28 - day (1..14), and the percentage is (days - 1) / 13 of 100 |
| SeasonProofs.InfoOfPhase | shikimori_season-counter-generator.py:46-129 | for a date that does not raise, `get_season_info` returns the dictionary its phase's branch builds |
| SeasonProofs.WaitingForSeason | shikimori_season-counter-generator.py:87-105 | while waiting for season i, days = current_start - d lies between 1 and the wait's length, the title is "ДО НАЧАЛА <season>", and the percentage is the rising waiting formula |
| SeasonProofs.WaitingAcrossNewYear | shikimori_season-counter-generator.py:107-127 | after October 27, days = next January 14 - d lies in 1..78, the title is "ДО НАЧАЛА ОСЕННЕГО", and the percentage is the rising formula against last_end |
| SeasonProofs.WaitInfo | shikimori_season-counter-generator.py:87-127 | every waiting date (within the year or across it) gets the count to its target, between 1 and the period's length, with the "ДО НАЧАЛА" title and the rising percentage |
| SeasonProofs.SeasonInfoInRange | shikimori_season-counter-generator.py:46-129 | `get_season_info` raises exactly for year 1 outside January 14-27 and for October 28 to December 31 of 9999; otherwise days >= 1 and 0 <= percentage <= 100 |
| SeasonProofs.PercentagesMonotone | shikimori_season-counter-generator.py:63-99 | with more days left the window percentage is strictly larger and the waiting percentage strictly smaller |
| SeasonProofs.WatchPercentageFalls | shikimori_season-counter-generator.py:59-72 | of two dates in the same window, the later has fewer days left and a strictly smaller percentage |
| SeasonProofs.WaitPercentageRises | shikimori_season-counter-generator.py:90-127 | of two dates waiting for the same window, the October 28 - January 13 wait across the new year included, the later has fewer days left and a strictly larger percentage |
| SeasonProofs.WatchEndpoints | shikimori_season-counter-generator.py:59-72 | a window's first day shows 14 days and 100%, its last day 1 day and 0% |
| SeasonProofs.LastWaitingDay | shikimori_season-counter-generator.py:90-105 | the 13th of a window's month shows 1 day and 100% toward that season |
| SeasonProofs.FirstWaitingDay | shikimori_season-counter-generator.py:90-127 | the day after a window shows the whole wait as its count and 0%, in every year 2..9999 where the source returns |
| SeasonProofs.SamePeriodNextDay | shikimori_season-counter-generator.py:51-127 | except from the 13th or the 27th of a window's month, the next day counts toward the same day, with the same title and the same period length |
| SeasonProofs.NextDayInPeriod | shikimori_season-counter-generator.py:51-127 | inside a period the next day keeps the title, has one day less, and its percentage falls in a window and rises while waiting |
| SeasonProofs.WaitToWatch | shikimori_season-counter-generator.py:59-105 | from the 13th to the 14th the count is 1, the title changes, and the percentage stays at 100 |
| SeasonProofs.WaitAfterWindow | shikimori_season-counter-generator.py:80-121 | the day after a window's 27th is the first day of its wait: days left equal the wait's length |
| SeasonProofs.WaitAfterInnerWindow | shikimori_season-counter-generator.py:80-99 | the same for the January, April and July windows, whose following wait is within the year |
| SeasonProofs.WatchToWait | shikimori_season-counter-generator.py:59-127 | from the 27th to the 28th the count goes from 1 to the whole wait, the title changes, and the percentage stays at 0 |
| SeasonProofs.NextDayStep | shikimori_season-counter-generator.py:51-127 | from any day to the next: with more than one day left, same title, one day less, and a monotone percentage; with one day left, a new title and an unchanged percentage |
| Calendar.DateOfDayOfYear | shikimori_season-counter-generator.py:136-139 | day n of year y is a valid date of year y whose day of the year is n |
| Calendar.Ordinal | shikimori_season-counter-generator.py:61 | `toordinal()`, whose differences are the `.days` of date differences; `LessIffOrdinalLess`, `OrdinalInjective` and `NextIsSuccessor` state its properties |
| Calendar.Less | shikimori_season-counter-generator.py:59 | the lexicographic date comparison, which `LessIffOrdinalLess` proves equal to comparing ordinals |
| Calendar.Next | shikimori_season-counter-generator.py:155 | `+ timedelta(days=1)`, which `NextIsSuccessor` proves to be the valid date one ordinal later |
| Calendar.DaysBeforeYearClosedForm | shikimori_season-counter-generator.py:92-95 | the days before a year, counted year by year, equal Python's closed formula 365p + p/4 - p/100 + p/400 with p = y - 1 |
| Calendar.LessIffOrdinalLess | shikimori_season-counter-generator.py:59 | Python's date comparison agrees with comparing day ordinals |
| Calendar.OrdinalInjective | shikimori_season-counter-generator.py:61 | two valid dates are equal exactly when their ordinals are, so date differences are exact |
| Calendar.YearLength | shikimori_season-counter-generator.py:92-95 | a year spans 366 days if leap and 365 otherwise, so differences across the new year count the right days |
| Calendar.DayOfYearBounds | shikimori_season-counter-generator.py:139 | a valid date is day 1..365 (366) of its year |
| Calendar.NextIsSuccessor | shikimori_season-counter-generator.py:155 | adding one day gives a valid date one ordinal later, and strictly after |
| Calendar.NextDayOfYear | shikimori_season-counter-generator.py:155 | the day after day n of a year is day n + 1 |
| Calendar.DaysOfYearInOrder | shikimori_season-counter-generator.py:139-155 | day j of a year comes before day k exactly when j < k |
| Calendar.YearEnds | shikimori_season-counter-generator.py:136-137 | January 1 is day 1 and December 31 the last day of the year |
| Text.NatToString | shikimori_season-counter-generator.py:145 | `str` of a natural is a non-empty string of digits without a leading zero |
| Text.NatToStringRoundTrip | shikimori_season-counter-generator.py:145 | reading `str(n)` back gives n |
| Text.IntToStringRoundTrip | shikimori_season-counter-generator.py:145 | reading `str(i)` back gives i, a minus sign included |
| Text.ZeroPadRoundTrip | shikimori_season-counter-generator.py:148 | a zero-padded field of width w has length w and reads back as its number |
| Text.IsoDateRoundTrip | shikimori_season-counter-generator.py:148 | `isoformat()` is 10 characters and reads back as the date |
| Text.IsoDateInjective | shikimori_season-counter-generator.py:148 | two dates have the same `isoformat()` exactly when they are equal |
| Text.IsoDate | shikimori_season-counter-generator.py:148 | `isoformat()` as zero-padded year, month and day; `IsoDateRoundTrip` and `IsoDateInjective` state that it reads back and tells dates apart |
| Text.Concat | shikimori_season-counter-generator.py:157 | `"".join` of no parts is empty; `ConcatAppend` states how it splits over concatenated lists |
| Text.ConcatAppend | shikimori_season-counter-generator.py:157 | joining two lists one after the other joins their texts one after the other |
| Text.Lower | shikimori_season-counter-generator.py:145 | lower-casing keeps the length and maps each character by itself |
| Text.LowerIdempotent | shikimori_season-counter-generator.py:145 | lower-casing twice is lower-casing once |
| Text.RemoveAllAbsent | shikimori_season-counter-generator.py:144 | removing a word that does not occur leaves the title unchanged |
| Text.RemoveAllShortens | shikimori_season-counter-generator.py:144 | removing a word never lengthens the title |
| Text.RemoveAll | shikimori_season-counter-generator.py:144 | `replace(" СЕЗОНА", "")`; `RemoveAllAbsent` and `RemoveAllShortens` state that it keeps a string without the word and never lengthens one |
| Emitter.Hundredths | shikimori_season-counter-generator.py:71 | `round(p, 2)` in hundredths is within half a hundredth of 100p, and a tie goes to the even hundredth |
| Emitter.RoundingIsNearest | shikimori_season-counter-generator.py:71 | a whole number of hundredths closer than half a hundredth is the rounded value |
| Emitter.HundredthsTextRoundTrip | shikimori_season-counter-generator.py:152 | the printed width reads back as the number of hundredths it was printed from |
| Emitter.PercentTextRoundTrip | shikimori_season-counter-generator.py:152 | the width printed for a percentage reads back as that percentage rounded to hundredths |
| Emitter.HundredthsText | shikimori_season-counter-generator.py:152 | the printed form of `round(p, 2)`, which `HundredthsTextRoundTrip` proves to read back as its hundredths |
| Emitter.PercentText | shikimori_season-counter-generator.py:152 | the width printed for a percentage, which `PercentTextRoundTrip` proves to read back as the rounded percentage |
| Emitter.TextContentStartsWithCount | shikimori_season-counter-generator.py:143-145 | the label starts with the count, which reads back, followed by a space and the form of "день" for it |
| Emitter.TextContent | shikimori_season-counter-generator.py:143-145 | the label text, which `TextContentStartsWithCount` proves to start with the count and its form of "день" |
| Emitter.Appended | shikimori_season-counter-generator.py:149-153 | appending f of each element one at a time yields one result per element, the i-th being f of the i-th element; proved from the recursive calls' contracts |
| Emitter.Texts | shikimori_season-counter-generator.py:148-153 | the lines collected by `css_lines.append` are one text per rule, the i-th being the text of the i-th rule |
| Emitter.SelectorKeysDay | shikimori_season-counter-generator.py:148 | a text starting with the selector of day d reads back as applying to d |
| Emitter.RuleSelectsItsDay | shikimori_season-counter-generator.py:148-152 | the text of every label and width rule selects exactly its own day |
| Emitter.Declaration | shikimori_season-counter-generator.py:148-152 | the `content:` of a label or the `width:` of a bar, each drawn from the day's dictionary |
| Emitter.RuleText | shikimori_season-counter-generator.py:148-152 | `text_rule` and `width_rule`: the day's selector followed by the declaration; `RuleSelectsItsDay` proves the text selects its own day |
| Emitter.GenerateYearCss | shikimori_season-counter-generator.py:131-157 | the loop from January 1 to December 31 returns the year's stylesheet `YearCss`, or raises where a date does |
| Emitter.YearCss | shikimori_season-counter-generator.py:131-157 | the year's stylesheet: `None` where `date(year, …)` or some day's `get_season_info` raises, else the joined texts of the day rules; `YearCssDefined`, `YearCssRules` and `RulesInDateOrder` state its shape |
| Emitter.WalkStarts | shikimori_season-counter-generator.py:133-137 | before the loop, no rules and no lines, on January 1 |
| Emitter.WalkInYear | shikimori_season-counter-generator.py:139 | while current_date <= end_date, the current date is a day of the year |
| Emitter.WalkSteps | shikimori_season-counter-generator.py:140-155 | one iteration appends that day's label and width and moves to the next day |
| Emitter.WalkFails | shikimori_season-counter-generator.py:140 | an iteration that raises leaves the year without a stylesheet |
| Emitter.WalkEnds | shikimori_season-counter-generator.py:139-157 | once past December 31 the joined lines are the year's stylesheet |
| Emitter.DayFails | shikimori_season-counter-generator.py:140 | one day that raises makes the whole year raise |
| Emitter.DayAppends | shikimori_season-counter-generator.py:147-153 | the rules up to day n are those up to day n - 1 followed by day n's label and width |
| Emitter.TextsAppend | shikimori_season-counter-generator.py:149-153 | the texts of two lists of rules, one after the other |
| Emitter.CollectFails | shikimori_season-counter-generator.py:140 | the days' rules fail exactly when some day fails |
| Emitter.CollectPairs | shikimori_season-counter-generator.py:147-153 | with two rules per day, the rules number twice the days, and rule i is rule i % 2 of day i / 2 |
| Emitter.EveryDayRendered | shikimori_season-counter-generator.py:139-155 | in years 2..9998 every day yields its two rules |
| Emitter.DayRaises | shikimori_season-counter-generator.py:140 | a year with a date that raises has no stylesheet |
| Emitter.FirstYearFails | shikimori_season-counter-generator.py:84 | year 1 raises on January 1, whose previous season would end in year 0 |
| Emitter.LastYearFails | shikimori_season-counter-generator.py:113 | year 9999 raises on October 28, whose next season would start in year 10000 |
| Emitter.YearCssDefined | shikimori_season-counter-generator.py:131-157 | a stylesheet exists exactly for the years 2..9998 |
| Emitter.YearCssRules | shikimori_season-counter-generator.py:131-157 | a year's stylesheet is the joined text of 2 × 365 (366) rules, rule i being the i-th rule of the year |
| Emitter.RuleOfYearDay | shikimori_season-counter-generator.py:139-155 | rule i is for day i / 2 + 1; it is the label when i is even and the width when odd; it carries that day's `get_season_info`; its selector reads back as that day |
| Emitter.RulesInDateOrder | shikimori_season-counter-generator.py:139-155 | the rules' days never decrease, and two rules share a day exactly when they are the same day's pair |
| Emitter.ImportLines | shikimori_season-counter-generator.py:217-219 | one `@import` line per year from start_year to end_year, in order, and none when end_year < start_year |
| Emitter.ImportLine | shikimori_season-counter-generator.py:219 | the `@import` of one year's file, guarded by a selector for that year; `ImportLineInjective` proves different years get different lines |
| Emitter.ImportLineInjective | shikimori_season-counter-generator.py:219 | different years get different import lines |
| Emitter.IntToStringDigits | shikimori_season-counter-generator.py:219 | after its first character, `str(year)` holds only digits |

## Left out

- Printing, directories and files (`os.makedirs`, the writes of `all-years.css` and of each year's file), the test dates printed by `generate_all_files`, the README text and the `__main__` driver. These are input/output, with no logic of their own.
- `generate_base_css` is a constant stylesheet. The line `base_css += "\n" + "".join(import_lines)` glues the modelled import lines to it; that gluing is not modelled.
- The `compress` flag is ignored by `generate_year_css`, so it is not a parameter of the model.
- Emitter.Hundredths: rounds the exact percentage, not the binary float that Python computes. So a value that is a tie only in exact arithmetic, or the float's own representation error, is not modelled.
- Emitter.HundredthsText: prints the shape of Python's float repr for hundredths. It does not model the exponent notation of very large or very small floats, which a percentage in 0..100 never reaches. It does not model `-0.0` either.
- Text.Lower: lower-cases only Latin capitals, the Russian capitals А..Я, and Ѐ..Џ (which includes Ё). Only those occur in the titles; full Unicode case mapping is not modelled.
- Seasons.Describe: the fallback's percentage is an `int` 0 in the source, which prints as `0` rather than `0.0`. The model keeps a single `real` percentage, because the fallback is proved unreachable.
- Emitter.GenerateYearCss: `current_date += timedelta(days=1)` on December 31 of 9999 would raise OverflowError. This is not modelled separately, because every year-9999 walk has already raised ValueError on October 28.
- The fallback at line 129 returns 1 day and 0 (an `int`). `Seasons.Describe` gives it 1 day and 0.0, and `SeasonProofs.FallbackUnreachable` proves no date takes it.
- `generate_all_files` does not reject `end_year < start_year`; the range is then empty and no line is written. The model follows the code.
