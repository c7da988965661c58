/** The season counter of `AnimeSeasonGenerator`: the fixed table of four
    14-day watch windows, the Russian word for "days" that agrees with a
    count, and `get_season_info`, which maps a date to the countdown shown
    on that day. */
module Seasons {
  import opened Wrappers
  import opened Calendar

  /** A month and day of the month, as in the table's `(month, day)` pairs. */
  datatype MonthDay = MonthDay(month: int, day: int)

  /** One row of the season table. */
  datatype Season = Season(name: string, start: MonthDay, end: MonthDay, watchDays: int)

  const AutumnName: string := "ОСЕННЕГО"
  const SummerName: string := "ЛЕТНЕГО"

  /** `self.seasons`: four watch windows in year order. */
  const Table: seq<Season> := [
    Season(AutumnName, MonthDay(1, 14), MonthDay(1, 27), 14),
    Season("ЗИМНЕГО", MonthDay(4, 14), MonthDay(4, 27), 14),
    Season("ВЕСЕННЕГО", MonthDay(7, 14), MonthDay(7, 27), 14),
    Season(SummerName, MonthDay(10, 14), MonthDay(10, 27), 14)
  ]

  /** What the counter shows for one date: the `title`, `days` and
      `percentage` entries of the dictionary `get_season_info` returns. The
      percentage is kept exact; `round(…, 2)` belongs to its rendering. */
  datatype Descriptor = Descriptor(title: string, days: int, percentage: real)

  /** Which `return` statement of `get_season_info` produced the result:
      inside the watch window of season `index`, waiting for season `index`,
      past the last window of the year, or the final fallback. */
  datatype Branch = Watch(index: nat) | Wait(index: nat) | YearWrap | Fallback

  // ---------------------------------------------------------------------------
  // get_day_word

  const DayOne: string := "день"
  const DaysFew: string := "дня"
  const DaysMany: string := "дней"

  /** `get_day_word`: the form of "день" that agrees with `days`. Its result
      follows the usual Russian rule: the singular after a last digit 1
      except in 11, the "few" form after a last digit 2-4 except in 12-14,
      and the "many" form otherwise. (Python's `%` by a positive number is
      the floored remainder, which is Dafny's `%` there.) */
  function DayWord(days: int): (w: string)
    ensures w == DayOne <==> days % 10 == 1 && days % 100 != 11
    ensures w == DaysFew <==> 2 <= days % 10 <= 4 && !(12 <= days % 100 <= 14)
    ensures w == DaysMany <==> w != DayOne && w != DaysFew
  {
    if 11 <= days % 100 <= 19 then DaysMany
    else if days % 10 == 1 then DayOne
    else if 2 <= days % 10 <= 4 then DaysFew
    else DaysMany
  }

  // ---------------------------------------------------------------------------
  // get_season_info

  function OnDay(y: int, md: MonthDay): Date {
    Date(y, md.month, md.day)
  }

  /** The season before season `i` in the yearly cycle. */
  function PrevIndex(i: nat): nat
    requires i < |Table|
  {
    (i + |Table| - 1) % |Table|
  }

  /** The name the source looks the predecessor up by: the previous row's,
      or the last season's for the first row. */
  function PrevName(i: nat): string
    requires i < |Table|
  {
    if i > 0 then Table[i - 1].name else SummerName
  }

  /** `next(s for s in self.seasons if s["name"] == name)`, searching from
      row `j`; `None` where Python would raise StopIteration. */
  function FindByName(name: string, j: nat): (r: Option<nat>)
    requires j <= |Table|
    ensures r.Some? ==> j <= r.value < |Table| && Table[r.value].name == name
    ensures r.Some? ==> forall k :: j <= k < r.value ==> Table[k].name != name
    ensures r.None? ==> forall k :: j <= k < |Table| ==> Table[k].name != name
    decreases |Table| - j
  {
    if j == |Table| then None
    else if Table[j].name == name then Some(j)
    else FindByName(name, j + 1)
  }

  /** The year of the predecessor's last watch day: the year before for the
      autumn season (recognised by name), the same year otherwise. */
  function PrevEndYear(y: int, i: nat): int
    requires i < |Table|
  {
    if Table[i].name == AutumnName then y - 1 else y
  }

  /** `prev_end`: the last watch day of the season before season `i`. */
  function PrevEnd(y: int, i: nat): Date
    requires i < |Table|
  {
    OnDay(PrevEndYear(y, i), Table[PrevIndex(i)].end)
  }

  /** `watch_start` (equally `current_start`) of season `i` in year `y`. */
  function WatchStart(y: int, i: nat): Date
    requires i < |Table|
  {
    OnDay(y, Table[i].start)
  }

  /** `watch_end` of season `i` in year `y`. */
  function WatchEnd(y: int, i: nat): Date
    requires i < |Table|
  {
    OnDay(y, Table[i].end)
  }

  /** `last_end`: the last watch day of the year's last season. */
  function LastEnd(y: int): Date {
    OnDay(y, Table[|Table| - 1].end)
  }

  /** `next_autumn_start`: January 14 of the following year. */
  function NextAutumnStart(y: int): Date {
    Date(y + 1, 1, 14)
  }

  /** The control flow of `get_season_info` from row `i` of the table on:
      the branch whose `return` is taken, or `None` where one of the dates
      it builds lies outside Python's years and `date(…)` raises ValueError. */
  function Scan(d: Date, i: nat): (r: Option<Branch>)
    requires i <= |Table|
    ensures r.Some? && (r.value.Watch? || r.value.Wait?) ==> i <= r.value.index < |Table|
    decreases |Table| - i
  {
    if i == |Table| then
      if Less(LastEnd(d.year), d) then
        if InPythonRange(d.year + 1) then Some(YearWrap) else None
      else Some(Fallback)
    else if LessOrEqual(WatchStart(d.year, i), d) && LessOrEqual(d, WatchEnd(d.year, i)) then
      Some(Watch(i))
    else if !InPythonRange(PrevEndYear(d.year, i)) then
      None
    else if Less(PrevEnd(d.year, i), d) && Less(d, WatchStart(d.year, i)) then
      Some(Wait(i))
    else
      Scan(d, i + 1)
  }

  /** The title shown inside a season's watch window. */
  function EndTitle(name: string): string {
    "ДО КОНЦА " + name
  }

  /** The title shown while waiting for a season. */
  function StartTitle(name: string): string {
    "ДО НАЧАЛА " + name
  }

  /** The percentage inside a watch window: it falls from 100 when
      `daysLeft == daysTotal` to 0 when one day is left, and is 0 when the
      window is a single day. */
  function WatchPercentage(daysLeft: int, daysTotal: int): (p: real)
    ensures daysTotal > 1 && 1 <= daysLeft <= daysTotal ==> 0.0 <= p <= 100.0
    ensures daysTotal > 1 ==> (p == 100.0 <==> daysLeft == daysTotal)
    ensures daysTotal > 1 ==> (p == 0.0 <==> daysLeft == 1)
    ensures daysTotal <= 1 ==> p == 0.0
  {
    if daysTotal > 1 then (daysLeft - 1) as real / (daysTotal - 1) as real * 100.0 else 0.0
  }

  /** The percentage while waiting: with `totalWait` waiting days it rises
      from 0 on the first (`daysLeft == totalWait`) to 100 on the last
      (`daysLeft == 1`), and is 0 when there is at most one waiting day. */
  function WaitPercentage(daysLeft: int, totalWait: int): (p: real)
    ensures totalWait > 1 && 1 <= daysLeft <= totalWait ==> 0.0 <= p <= 100.0
    ensures totalWait > 1 ==> (p == 0.0 <==> daysLeft == totalWait)
    ensures totalWait > 1 ==> (p == 100.0 <==> daysLeft == 1)
    ensures totalWait <= 1 ==> p == 0.0
  {
    var daysPassed := totalWait - daysLeft;
    if totalWait > 1 then daysPassed as real / (totalWait - 1) as real * 100.0 else 0.0
  }

  /** The dictionary that each `return` of `get_season_info` builds. */
  function Describe(d: Date, b: Branch): Descriptor
    requires b.Watch? || b.Wait? ==> b.index < |Table|
  {
    match b
    case Watch(i) =>
      var daysLeft := Ordinal(WatchEnd(d.year, i)) - Ordinal(d) + 1;
      Descriptor(EndTitle(Table[i].name), daysLeft, WatchPercentage(daysLeft, Table[i].watchDays))
    case Wait(i) =>
      var currentStart := WatchStart(d.year, i);
      var daysLeft := Ordinal(currentStart) - Ordinal(d);
      var totalWait := Ordinal(currentStart) - Ordinal(PrevEnd(d.year, i)) - 1;
      Descriptor(StartTitle(Table[i].name), daysLeft, WaitPercentage(daysLeft, totalWait))
    case YearWrap =>
      var daysLeft := Ordinal(NextAutumnStart(d.year)) - Ordinal(d);
      var totalWait := Ordinal(NextAutumnStart(d.year)) - Ordinal(LastEnd(d.year)) - 1;
      Descriptor(StartTitle(AutumnName), daysLeft, WaitPercentage(daysLeft, totalWait))
    case Fallback =>
      Descriptor(EndTitle(AutumnName), 1, 0.0)
  }

  /** `get_season_info(check_date)`; `None` where the source raises
      ValueError. */
  function SeasonInfo(d: Date): Option<Descriptor>
    requires IsPythonDate(d)
  {
    match Scan(d, 0)
    case None => None
    case Some(b) => Some(Describe(d, b))
  }

  // ---------------------------------------------------------------------------
  // The year, read off the calendar

  /** Where a date lies in the year, told by its quarter alone: before the
      14th of a quarter's first month one waits for that quarter's season,
      from the 14th to the 27th one watches it, and for the rest of the
      quarter one waits for the next quarter's season, or, in the last
      quarter, for the first season of the next year. */
  function Phase(d: Date): (b: Branch)
    ensures !b.Fallback? && (b.Watch? || b.Wait? ==> b.index < |Table|)
  {
    var q := if 1 <= d.month <= 12 then (d.month - 1) / 3 else 0;
    if d.month % 3 == 1 && d.day < 14 then Wait(q)
    else if d.month % 3 == 1 && d.day <= 27 then Watch(q)
    else if q < 3 then Wait(q + 1)
    else YearWrap
  }

  /** The dates whose `get_season_info` raises ValueError: in year 1 every
      date outside the first watch window, whose predecessor would end in
      year 0; in year 9999 every date after the last window, whose next
      season would start in year 10000. */
  predicate RaisesValueError(d: Date) {
    (d.year == MinYear && Phase(d) != Watch(0)) || (d.year == MaxYear && Phase(d) == YearWrap)
  }
}
