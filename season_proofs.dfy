/** What `get_season_info` promises, proved about the model in `Seasons`:
    every date falls into exactly one branch, given by its place in the
    year; the fallback is never taken; days and percentages stay in range;
    the countdown moves by one day per day with the percentage falling while
    watching and rising while waiting; and it passes every change of phase,
    including the turn of the year, without a jump in the percentage. */
module SeasonProofs {
  import opened Wrappers
  import opened Calendar
  import opened Seasons

  /** Row `i` of the table is the window from the 14th to the 27th of the
      first month of quarter `i`. */
  lemma TableShape(i: nat)
    requires i < |Table|
    ensures Table[i].start == MonthDay(3 * i + 1, 14) && Table[i].end == MonthDay(3 * i + 1, 27)
    ensures Table[i].watchDays == 14
  {
  }

  /** Looking the predecessor up by name finds the previous row of the
      table, and the last row for the first. */
  lemma PredecessorByName(i: nat)
    requires i < |Table|
    ensures FindByName(PrevName(i), 0) == Some(PrevIndex(i))
  {
    assert Table[0].name != Table[3].name && Table[1].name != Table[3].name;
    assert Table[2].name != Table[3].name;
    if i == 2 {
      assert Table[0].name != Table[1].name;
    } else if i == 3 {
      assert Table[0].name != Table[2].name && Table[1].name != Table[2].name;
    }
  }

  /** The control flow of `get_season_info` agrees with the calendar
      reading of the year: every date takes the branch its quarter gives,
      unless a date the source builds falls outside Python's years. */
  lemma ScanFollowsPhase(d: Date)
    requires IsPythonDate(d)
    ensures Scan(d, 0) == if RaisesValueError(d) then None else Some(Phase(d))
  {
    var y, m, dd := d.year, d.month, d.day;
    var p := Phase(d);
    assert PrevEndYear(y, 0) == y - 1;
    assert PrevEndYear(y, 1) == y && PrevEndYear(y, 2) == y && PrevEndYear(y, 3) == y;
    if p == Watch(0) {
      assert Scan(d, 0) == Some(Watch(0));
    } else if y == MinYear {
      assert Scan(d, 0) == None;
    } else if p == Wait(0) {
      assert Scan(d, 0) == Some(Wait(0));
    } else {
      assert Scan(d, 0) == Scan(d, 1);
      if p == Watch(1) || p == Wait(1) {
        assert Scan(d, 1) == Some(p);
      } else {
        assert Scan(d, 1) == Scan(d, 2);
        if p == Watch(2) || p == Wait(2) {
          assert Scan(d, 2) == Some(p);
        } else {
          assert Scan(d, 2) == Scan(d, 3);
          if p == Watch(3) || p == Wait(3) {
            assert Scan(d, 3) == Some(p);
          } else {
            assert p == YearWrap;
            assert Scan(d, 3) == Scan(d, 4);
          }
        }
      }
    }
  }

  /** No Python date reaches the final fallback `return`. */
  lemma FallbackUnreachable(d: Date)
    requires IsPythonDate(d)
    ensures Scan(d, 0) != Some(Fallback)
  {
    ScanFollowsPhase(d);
  }

  /** The exact partition of the year: a date is in the watch window of
      season `i` when it lies between that window's first and last day, it
      waits for season `i` when it lies strictly between the predecessor's
      last watch day and season `i`'s first, and it is in the year wrap when
      it comes after the last window's end. */
  lemma PhaseIntervals(d: Date, i: nat)
    requires Valid(d) && i < |Table|
    ensures Phase(d) == Watch(i) <==> LessOrEqual(WatchStart(d.year, i), d) && LessOrEqual(d, WatchEnd(d.year, i))
    ensures Phase(d) == Wait(i) <==> Less(PrevEnd(d.year, i), d) && Less(d, WatchStart(d.year, i))
    ensures Phase(d) == YearWrap <==> Less(LastEnd(d.year), d)
  {
  }

  /** The number of days of the period a date lies in: 14 for a watch
      window; for a waiting period, the days strictly between the two watch
      windows around it, which are 78 before January's window (counted from
      October 28 of the year before), 76 or, in a leap year, 77 before
      April's, 77 before July's and 78 before October's. */
  function PeriodLength(d: Date): int {
    match Phase(d)
    case Watch(_) => 14
    case Wait(i) => if i == 1 then (if IsLeapYear(d.year) then 77 else 76) else if i == 2 then 77 else 78
    case YearWrap => 78
  }

  /** The day a date counts toward: the last watch day inside a window, the
      first watch day of the coming window otherwise. */
  function Target(d: Date): Date {
    match Phase(d)
    case Watch(i) => WatchEnd(d.year, i)
    case Wait(i) => WatchStart(d.year, i)
    case YearWrap => NextAutumnStart(d.year)
  }

  /** The season a date's title names: the one being watched or awaited,
      and January's for the year wrap. */
  function TitleSeason(d: Date): nat {
    match Phase(d)
    case Watch(i) => i
    case Wait(i) => i
    case YearWrap => 0
  }

  /** The waiting periods computed from the calendar: the waiting days
      between two windows number `PeriodLength`, and the year wrap waits for
      the same day, across the same days, as the January wait of the next
      year. */
  lemma WaitLengths(y: int)
    ensures Ordinal(WatchStart(y, 0)) - Ordinal(PrevEnd(y, 0)) - 1 == 78
    ensures Ordinal(WatchStart(y, 1)) - Ordinal(PrevEnd(y, 1)) - 1 == if IsLeapYear(y) then 77 else 76
    ensures Ordinal(WatchStart(y, 2)) - Ordinal(PrevEnd(y, 2)) - 1 == 77
    ensures Ordinal(WatchStart(y, 3)) - Ordinal(PrevEnd(y, 3)) - 1 == 78
    ensures Ordinal(NextAutumnStart(y)) - Ordinal(LastEnd(y)) - 1 == 78
    ensures PrevEnd(y + 1, 0) == LastEnd(y) && WatchStart(y + 1, 0) == NextAutumnStart(y)
  {
    YearLength(y - 1);
    YearLength(y);
  }

  /** Inside a watch window `get_season_info` counts the window's days left,
      today included, under the title "ДО КОНЦА <season>", with a percentage
      of (days - 1) / 13 of 100. */
  lemma WatchInfo(d: Date)
    requires IsPythonDate(d) && !RaisesValueError(d) && Phase(d).Watch?
    ensures SeasonInfo(d).Some?
    ensures var r := SeasonInfo(d).value;
      && r.days == Ordinal(Target(d)) - Ordinal(d) + 1 == 28 - d.day
      && 1 <= r.days <= PeriodLength(d)
      && r.title == EndTitle(Table[TitleSeason(d)].name)
      && r.percentage == WatchPercentage(r.days, 14)
  {
    ScanFollowsPhase(d);
    var i := Phase(d).index;
    assert Table[i].watchDays == 14;
    assert Table[i].end == MonthDay(d.month, 27);
  }

  /** `get_season_info` for a non-failing date is what the branch of its
      phase builds. */
  lemma InfoOfPhase(d: Date)
    requires IsPythonDate(d) && !RaisesValueError(d)
    ensures SeasonInfo(d) == Some(Describe(d, Phase(d)))
  {
    ScanFollowsPhase(d);
  }

  /** Waiting for season `i` within the year: the count runs to the
      window's first day across `PeriodLength` waiting days. */
  lemma WaitingForSeason(d: Date)
    requires IsPythonDate(d) && !RaisesValueError(d) && Phase(d).Wait?
    ensures var r, n := Describe(d, Phase(d)), PeriodLength(d);
      && r.days == Ordinal(Target(d)) - Ordinal(d)
      && 1 <= r.days <= n
      && r.title == StartTitle(Table[TitleSeason(d)].name)
      && r.percentage == WaitPercentage(r.days, n)
  {
    var y, i := d.year, Phase(d).index;
    var s, p := WatchStart(y, i), PrevEnd(y, i);
    PhaseIntervals(d, i);
    TableShape(i);
    TableShape(PrevIndex(i));
    LessIffOrdinalLess(p, d);
    LessIffOrdinalLess(d, s);
    assert Ordinal(p) < Ordinal(d) < Ordinal(s);
    assert Ordinal(s) - Ordinal(p) - 1 == PeriodLength(d) by {
      WaitLengths(y);
      if i == 0 {} else if i == 1 {} else if i == 2 {} else {}
    }
  }

  /** The year wrap: the count runs to January 14 of the next year across
      the 78 days after October 27. */
  lemma WaitingAcrossNewYear(d: Date)
    requires IsPythonDate(d) && !RaisesValueError(d) && Phase(d).YearWrap?
    ensures var r, n := Describe(d, Phase(d)), PeriodLength(d);
      && r.days == Ordinal(Target(d)) - Ordinal(d)
      && 1 <= r.days <= n
      && r.title == StartTitle(Table[TitleSeason(d)].name)
      && r.percentage == WaitPercentage(r.days, n)
  {
    var y := d.year;
    var s, p := NextAutumnStart(y), LastEnd(y);
    assert Phase(d) == YearWrap && Target(d) == s && TitleSeason(d) == 0;
    LessIffOrdinalLess(p, d);
    LessIffOrdinalLess(d, s);
    assert Ordinal(p) < Ordinal(d) < Ordinal(s);
    assert Ordinal(s) - Ordinal(p) - 1 == 78 == PeriodLength(d) by {
      WaitLengths(y);
    }
  }

  /** While waiting `get_season_info` counts the days left before the
      target watch window under the title "ДО НАЧАЛА <season>"; with `n`
      waiting days in the period, the percentage is the waiting days passed
      over n - 1, as a share of 100. */
  lemma WaitInfo(d: Date)
    requires IsPythonDate(d) && !RaisesValueError(d) && (Phase(d).Wait? || Phase(d).YearWrap?)
    ensures SeasonInfo(d).Some?
    ensures var r, n := SeasonInfo(d).value, PeriodLength(d);
      && r.days == Ordinal(Target(d)) - Ordinal(d)
      && 1 <= r.days <= n
      && r.title == StartTitle(Table[TitleSeason(d)].name)
      && r.percentage == WaitPercentage(r.days, n)
  {
    InfoOfPhase(d);
    if Phase(d).Wait? {
      WaitingForSeason(d);
    } else {
      WaitingAcrossNewYear(d);
    }
  }

  /** `get_season_info` fails exactly where a date it builds is outside
      Python's years; everywhere else its days are at least 1 and its
      percentage lies between 0 and 100. */
  lemma SeasonInfoInRange(d: Date)
    requires IsPythonDate(d)
    ensures SeasonInfo(d).None? <==> RaisesValueError(d)
    ensures 2 <= d.year <= 9998 ==> SeasonInfo(d).Some?
    ensures SeasonInfo(d).Some? ==>
      SeasonInfo(d).value.days >= 1 && 0.0 <= SeasonInfo(d).value.percentage <= 100.0
  {
    ScanFollowsPhase(d);
    if !RaisesValueError(d) {
      if Phase(d).Watch? {
        WatchInfo(d);
      } else {
        WaitInfo(d);
      }
    }
  }

  /** Both percentages are strictly monotone in the days left: the watch
      percentage grows with them and the waiting percentage shrinks. */
  lemma PercentagesMonotone(k1: int, k2: int, n: int)
    requires k1 < k2 && n > 1
    ensures WatchPercentage(k1, n) < WatchPercentage(k2, n)
    ensures WaitPercentage(k2, n) < WaitPercentage(k1, n)
  {
    var c := (n - 1) as real;
    assert (k1 - 1) as real / c < (k2 - 1) as real / c;
    assert (n - k2) as real / c < (n - k1) as real / c;
  }

  /** Inside one watch window the days and the percentage fall strictly
      from date to date. */
  lemma WatchPercentageFalls(d1: Date, d2: Date)
    requires IsPythonDate(d1) && IsPythonDate(d2) && !RaisesValueError(d1) && !RaisesValueError(d2)
    requires Phase(d1).Watch? && Phase(d2) == Phase(d1) && d1.year == d2.year && Less(d1, d2)
    ensures SeasonInfo(d1).Some? && SeasonInfo(d2).Some?
    ensures SeasonInfo(d2).value.days < SeasonInfo(d1).value.days
    ensures SeasonInfo(d2).value.percentage < SeasonInfo(d1).value.percentage
  {
    WatchInfo(d1);
    WatchInfo(d2);
    var r1, r2 := SeasonInfo(d1).value, SeasonInfo(d2).value;
    LessIffOrdinalLess(d1, d2);
    PercentagesMonotone(r2.days, r1.days, 14);
  }

  /** Inside one waiting period, the one across the new year included, the
      days fall and the percentage rises strictly from date to date. */
  lemma WaitPercentageRises(d1: Date, d2: Date)
    requires IsPythonDate(d1) && IsPythonDate(d2) && !RaisesValueError(d1) && !RaisesValueError(d2)
    requires !Phase(d1).Watch? && !Phase(d2).Watch? && Target(d1) == Target(d2) && Less(d1, d2)
    ensures SeasonInfo(d1).Some? && SeasonInfo(d2).Some?
    ensures SeasonInfo(d2).value.days < SeasonInfo(d1).value.days
    ensures SeasonInfo(d1).value.percentage < SeasonInfo(d2).value.percentage
  {
    WaitInfo(d1);
    WaitInfo(d2);
    var r1, r2 := SeasonInfo(d1).value, SeasonInfo(d2).value;
    var n := PeriodLength(d1);
    WaitLengths(d1.year);
    WaitLengths(d2.year);
    assert PeriodLength(d2) == n;
    LessIffOrdinalLess(d1, d2);
    assert r2.days < r1.days;
    PercentagesMonotone(r2.days, r1.days, n);
  }

  /** A watch window runs from 14 days and 100% on its first day to 1 day
      and 0% on its last. */
  lemma WatchEndpoints(y: int, i: nat)
    requires i < |Table| && InPythonRange(y) && (y == MinYear ==> i == 0)
    ensures SeasonInfo(WatchStart(y, i)) == Some(Descriptor(EndTitle(Table[i].name), 14, 100.0))
    ensures SeasonInfo(WatchEnd(y, i)) == Some(Descriptor(EndTitle(Table[i].name), 1, 0.0))
  {
    var s, e := WatchStart(y, i), WatchEnd(y, i);
    assert Phase(s) == Watch(i) && Phase(e) == Watch(i) by {
      if i == 0 {} else if i == 1 {} else if i == 2 {} else {}
    }
    WatchInfo(s);
    WatchInfo(e);
  }

  /** The day before a watch window starts is the last waiting day: 1 day
      left and 100%. */
  lemma LastWaitingDay(y: int, i: nat)
    requires i < |Table| && 2 <= y <= MaxYear
    ensures var d := Date(y, Table[i].start.month, 13);
      SeasonInfo(d) == Some(Descriptor(StartTitle(Table[i].name), 1, 100.0))
  {
    var d := Date(y, Table[i].start.month, 13);
    assert Phase(d) == Wait(i) && Target(d) == Next(d) by {
      if i == 0 {} else if i == 1 {} else if i == 2 {} else {}
    }
    WaitInfo(d);
    NextIsSuccessor(d);
  }

  /** The day after a watch window ends is the first waiting day: the whole
      wait ahead and 0%, the same percentage as the window's last day. */
  lemma FirstWaitingDay(y: int, i: nat)
    requires i < |Table| && 2 <= y <= MaxYear && (y == MaxYear ==> i < 3)
    ensures var d := Next(WatchEnd(y, i));
      && SeasonInfo(d).Some?
      && SeasonInfo(d).value.days == PeriodLength(d)
      && SeasonInfo(d).value.percentage == 0.0
  {
    var e := WatchEnd(y, i);
    var d := Next(e);
    TableShape(i);
    NextIsSuccessor(e);
    WaitLengths(y);
    assert d == Date(y, 3 * i + 1, 28);
    if i < 3 {
      TableShape(i + 1);
      assert Phase(d) == Wait(i + 1) && PrevEnd(y, i + 1) == e;
    } else {
      assert Phase(d) == YearWrap && LastEnd(y) == e;
    }
    WaitInfo(d);
  }

  /** The percentage passes a change of phase without a jump; a change of
      phase comes exactly when the countdown reaches 1. */
  lemma {:induction false} SamePeriodNextDay(d: Date)
    requires Valid(d) && !(d.month % 3 == 1 && (d.day == 13 || d.day == 27))
    ensures Target(Next(d)) == Target(d) && PeriodLength(Next(d)) == PeriodLength(d)
    ensures TitleSeason(Next(d)) == TitleSeason(d) && Phase(Next(d)).Watch? == Phase(d).Watch?
  {
    if d.month == 12 && d.day == 31 {
      WaitLengths(d.year);
    }
  }

  /** Within one period the count drops by one a day, the title stays,
      and the percentage moves in the period's direction. */
  lemma NextDayInPeriod(d: Date)
    requires IsPythonDate(d) && IsPythonDate(Next(d))
    requires !RaisesValueError(d) && !RaisesValueError(Next(d))
    requires !(d.month % 3 == 1 && (d.day == 13 || d.day == 27))
    ensures SeasonInfo(d).Some? && SeasonInfo(Next(d)).Some?
    ensures var a, b := SeasonInfo(d).value, SeasonInfo(Next(d)).value;
      && a.days > 1 && b.title == a.title && b.days == a.days - 1
      && (Phase(d).Watch? ==> b.percentage < a.percentage)
      && (!Phase(d).Watch? ==> a.percentage < b.percentage)
  {
    var e := Next(d);
    NextIsSuccessor(d);
    SamePeriodNextDay(d);
    if Phase(d).Watch? {
      WatchInfo(d);
      WatchInfo(e);
      var a, b := SeasonInfo(d).value, SeasonInfo(e).value;
      PercentagesMonotone(b.days, a.days, 14);
    } else {
      WaitInfo(d);
      WaitInfo(e);
      var a, b := SeasonInfo(d).value, SeasonInfo(e).value;
      var n := PeriodLength(d);
      PercentagesMonotone(b.days, a.days, n);
    }
  }

  /** From the last waiting day to a window's first day the count is 1,
      the title changes and the percentage stays at 100. */
  lemma WaitToWatch(d: Date)
    requires IsPythonDate(d) && IsPythonDate(Next(d))
    requires !RaisesValueError(d) && !RaisesValueError(Next(d))
    requires d.month % 3 == 1 && d.day == 13
    ensures SeasonInfo(d).Some? && SeasonInfo(Next(d)).Some?
    ensures var a, b := SeasonInfo(d).value, SeasonInfo(Next(d)).value;
      a.days == 1 && b.title != a.title && b.percentage == a.percentage
  {
    var e := Next(d);
    NextIsSuccessor(d);
    TableShape((d.month - 1) / 3);
    WaitInfo(d);
    WatchInfo(e);
    assert e == Target(d);
    var a, b := SeasonInfo(d).value, SeasonInfo(e).value;
    assert a.title[3] != b.title[3];
  }

  /** The day after a window's last day is the first of a waiting period:
      its count is the whole wait. */
  lemma WaitAfterWindow(d: Date)
    requires Valid(d) && d.month % 3 == 1 && d.day == 27
    ensures Ordinal(Target(Next(d))) - Ordinal(Next(d)) == PeriodLength(Next(d))
  {
    var e, y, q := Next(d), d.year, (d.month - 1) / 3;
    assert d.month != 2 && DaysInMonth(d.month, y) >= 30;
    assert e == Date(y, d.month, 28);
    if q < 3 {
      WaitAfterInnerWindow(d);
    } else {
      assert d.month == 10;
      assert Phase(e) == YearWrap && Target(e) == NextAutumnStart(y) && PeriodLength(e) == 78;
      TableShape(3);
      assert LastEnd(y) == d;
      WaitLengths(y);
      NextIsSuccessor(d);
    }
  }

  /** The same, for the windows of January, April and July, after which
      the next season of the year is awaited. */
  lemma WaitAfterInnerWindow(d: Date)
    requires Valid(d) && d.month % 3 == 1 && d.month < 10 && d.day == 27
    ensures Ordinal(Target(Next(d))) - Ordinal(Next(d)) == PeriodLength(Next(d))
  {
    var e, y, q := Next(d), d.year, (d.month - 1) / 3;
    assert d.month != 2 && DaysInMonth(d.month, y) >= 30;
    assert e == Date(y, d.month, 28);
    assert Phase(e) == Wait(q + 1) && Target(e) == WatchStart(y, q + 1);
    TableShape(q);
    TableShape(q + 1);
    assert PrevEnd(y, q + 1) == d;
    WaitLengths(y);
    NextIsSuccessor(d);
  }

  /** From a window's last day to the first waiting day the count goes
      from 1 to the whole wait, the title changes and the percentage stays
      at 0. */
  lemma WatchToWait(d: Date)
    requires IsPythonDate(d) && IsPythonDate(Next(d))
    requires !RaisesValueError(d) && !RaisesValueError(Next(d))
    requires d.month % 3 == 1 && d.day == 27
    ensures SeasonInfo(d).Some? && SeasonInfo(Next(d)).Some?
    ensures var a, b := SeasonInfo(d).value, SeasonInfo(Next(d)).value;
      a.days == 1 && b.days == PeriodLength(Next(d)) && b.title != a.title && b.percentage == a.percentage
  {
    var e := Next(d);
    WaitAfterWindow(d);
    NextIsSuccessor(d);
    assert Phase(d).Watch? && !Phase(e).Watch?;
    WatchInfo(d);
    WaitInfo(e);
    var a, b := SeasonInfo(d).value, SeasonInfo(e).value;
    assert a.title[3] != b.title[3];
  }

  /** From one day to the next the countdown behaves as the source's
      comments describe: while the count is above 1 the title stays, the
      count drops by one, and the percentage falls inside a watch window and
      rises while waiting, also across New Year, where the year wrap hands
      over to the January wait; when the count is 1 the title changes and
      the percentage carries over unchanged (0% from a window's last day to
      the first waiting day, 100% from the last waiting day to a window's
      first). */
  lemma NextDayStep(d: Date)
    requires IsPythonDate(d) && IsPythonDate(Next(d))
    requires !RaisesValueError(d) && !RaisesValueError(Next(d))
    ensures SeasonInfo(d).Some? && SeasonInfo(Next(d)).Some?
    ensures var a, b := SeasonInfo(d).value, SeasonInfo(Next(d)).value;
      && (a.days > 1 ==>
            && b.title == a.title && b.days == a.days - 1
            && (Phase(d).Watch? ==> b.percentage < a.percentage)
            && (!Phase(d).Watch? ==> a.percentage < b.percentage))
      && (a.days == 1 ==> b.title != a.title && b.percentage == a.percentage)
  {
    if d.month % 3 == 1 && d.day == 13 {
      WaitToWatch(d);
    } else if d.month % 3 == 1 && d.day == 27 {
      WatchToWait(d);
    } else {
      NextDayInPeriod(d);
    }
  }
}
