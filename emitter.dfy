/** `generate_year_css`: the stylesheet of one year, two rules per day keyed
    by the day's ISO date, and the `@import` lines that `generate_all_files`
    puts into `all-years.css`. */
module Emitter {
  import opened Wrappers
  import opened Calendar
  import opened Text
  import opened Seasons
  import opened SeasonProofs

  /** A day `date` accepts: a calendar day of years 1..9999. */
  type PyDate = d: Date | IsPythonDate(d) witness Date(1, 1, 1)

  // ---------------------------------------------------------------------------
  // The text of one day

  /** The word removed from a title before it is shown. */
  const SeasonWord: string := " СЕЗОНА"

  const Marathon: string := " аниме марафона"

  /** The label under the bar: the count, the matching form of "день", the
      lower-cased title without " СЕЗОНА", and " аниме марафона". */
  function TextContent(info: Descriptor): string {
    IntToString(info.days) + " " + DayWord(info.days) + " "
      + Lower(RemoveAll(info.title, SeasonWord)) + Marathon
  }

  /** `round(p, 2)` counted in hundredths: the nearest whole number of
      hundredths, and the even one of two equally near. */
  function Hundredths(p: real): (c: int)
    ensures (c as real) - 0.5 <= p * 100.0 <= (c as real) + 0.5
    ensures p * 100.0 == (c as real) - 0.5 || p * 100.0 == (c as real) + 0.5 ==> c % 2 == 0
  {
    var x := p * 100.0;
    var f := x.Floor;
    var rest := x - f as real;
    if rest < 0.5 then f
    else if rest > 0.5 then f + 1
    else if f % 2 == 0 then f
    else f + 1
  }

  /** The printed form of the float `c / 100`: the whole part, a point and
      the shortest fraction of one or two digits that gives the value back
      (`100.0`, `92.31`, `1.3`). */
  function HundredthsText(c: int): string {
    var a: nat := if c < 0 then -c else c;
    var whole, frac := a / 100, a % 100;
    var digits := if frac % 10 == 0 then [DigitChar(frac / 10)] else ZeroPad(frac, 2);
    (if c < 0 then "-" else "") + NatToString(whole) + "." + digits
  }

  /** The width of the bar, as the rule prints `round(percentage, 2)`. */
  function PercentText(p: real): string {
    HundredthsText(Hundredths(p))
  }

  /** Reads `whole.fraction`, with one or two fraction digits, back as a
      number of hundredths. */
  function ParseUnsignedHundredths(s: string): Option<nat> {
    if |s| >= 3 && s[|s| - 2] == '.' then
      match (ParseNat(s[..|s| - 2]), ParseNat(s[|s| - 1..]))
      case (Some(w), Some(f)) => Some(w * 100 + f * 10)
      case _ => None
    else if |s| >= 4 && s[|s| - 3] == '.' then
      match (ParseNat(s[..|s| - 3]), ParseNat(s[|s| - 2..]))
      case (Some(w), Some(f)) => Some(w * 100 + f)
      case _ => None
    else None
  }

  /** Reads a printed number of hundredths, with an optional minus sign. */
  function ParseHundredths(s: string): Option<int> {
    if |s| > 0 && s[0] == '-' then
      match ParseUnsignedHundredths(s[1..])
      case Some(a) => Some(0 - a as int)
      case None => None
    else
      match ParseUnsignedHundredths(s)
      case Some(a) => Some(a)
      case None => None
  }

  // ---------------------------------------------------------------------------
  // The rules of one day

  /** A rule of the stylesheet: the label of a day, or the width of its
      bar, each drawn from the day's `get_season_info`. */
  datatype Rule = Label(day: PyDate, info: Descriptor) | Width(day: PyDate, info: Descriptor)

  /** `body[data-server_time^="`, which every rule starts with. */
  const SelectorStart: string := "body[data-server_time^=\""
  const SelectorEnd: string := "\"]"
  const LabelStart: string := ".p-profiles .lifetime .title>.label::after{content:\""
  const LabelEnd: string := "\"}"
  const WidthStart: string := ".p-profiles-show .b-stats_bar.lifetime .bar .first{width:"
  const WidthEnd: string := "%!important}"

  /** The attribute selector matching pages served on day `d`. */
  function Selector(d: PyDate): string {
    SelectorStart + IsoDate(d) + SelectorEnd
  }

  /** What a rule sets on the pages its selector matches: the label's
      content, or the bar's width. */
  function Declaration(r: Rule): string {
    match r
    case Label(_, info) => LabelStart + TextContent(info) + LabelEnd
    case Width(_, info) => WidthStart + PercentText(info.percentage) + WidthEnd
  }

  /** The text of a rule: `text_rule` for a label, `width_rule` for a bar. */
  function RuleText(r: Rule): string {
    Selector(r.day) + Declaration(r)
  }

  /** `f` applied to each element of `xs`, each result appended after those
      of the elements before it. */
  function Appended<A, B>(f: A -> B, xs: seq<A>): (ys: seq<B>)
    ensures |ys| == |xs|
    ensures forall i :: 0 <= i < |xs| ==> ys[i] == f(xs[i])
  {
    if xs == [] then [] else Appended(f, xs[..|xs| - 1]) + [f(xs[|xs| - 1])]
  }

  /** The texts of a list of rules, in order, as `css_lines.append` collects
      them. */
  function Texts(rules: seq<Rule>): (texts: seq<string>)
    ensures |texts| == |rules|
    ensures forall i :: 0 <= i < |rules| ==> texts[i] == RuleText(rules[i])
  {
    Appended(RuleText, rules)
  }

  /** The day a rule applies to, read off its selector. */
  function SelectedDay(text: string): Option<Date> {
    if |text| >= |SelectorStart| + 10 && text[..|SelectorStart|] == SelectorStart then
      ParseIsoDate(text[|SelectorStart|..|SelectorStart| + 10])
    else None
  }

  /** The two rules of day `d`, label first, or `None` where
      `get_season_info` raises. */
  function DayRules(d: PyDate): Option<seq<Rule>> {
    match SeasonInfo(d)
    case None => None
    case Some(info) => Some([Label(d, info), Width(d, info)])
  }

  // ---------------------------------------------------------------------------
  // The rules of one year

  /** The parts joined in order, or `None` as soon as one of them is
      `None`: what a loop builds that appends each part to a list and
      stops at the first exception. */
  function Collect<T>(parts: seq<Option<seq<T>>>): Option<seq<T>> {
    if |parts| == 0 then Some([])
    else
      match Collect(parts[..|parts| - 1])
      case None => None
      case Some(earlier) =>
        match parts[|parts| - 1]
        case None => None
        case Some(last) => Some(earlier + last)
  }

  /** The rules of each day of year `y`, January 1 first. */
  function YearDays(y: int): (days: seq<Option<seq<Rule>>>)
    requires InPythonRange(y)
    ensures |days| == DaysInYear(y)
  {
    seq(DaysInYear(y), i requires 0 <= i < DaysInYear(y) => DayRules(DateOfDayOfYear(y, i + 1)))
  }

  /** The stylesheet of year `y`; `None` where `date(y, 1, 1)` or one of
      the days' `get_season_info` raises ValueError. */
  function YearCss(y: int): Option<string> {
    if !InPythonRange(y) then None
    else
      match Collect(YearDays(y))
      case None => None
      case Some(rules) => Some(Concat(Texts(rules)))
  }

  /** Rule `i` of the stylesheet of year `y`: the label of day `i / 2 + 1`
      for even `i`, its width for odd `i`. */
  function RuleOfYear(y: int, i: nat): Rule
    requires 2 <= y <= 9998 && i < 2 * DaysInYear(y)
  {
    var d := DateOfDayOfYear(y, i / 2 + 1);
    SeasonInfoInRange(d);
    var info := SeasonInfo(d).value;
    if i % 2 == 0 then Label(d, info) else Width(d, info)
  }

  /** `generate_year_css(year)`: walks the year from January 1 to
      December 31, appending the text rule and the width rule of each day,
      and joins them. */
  method GenerateYearCss(year: int) returns (r: Option<string>)
    ensures r == YearCss(year)
  {
    if !InPythonRange(year) {
      return None;
    }
    var cssLines: seq<string> := [];
    var current := Date(year, 1, 1);
    var endDate := Date(year, 12, 31);
    ghost var n := 1;
    ghost var rules: seq<Rule> := [];
    WalkStarts(year);
    while LessOrEqual(current, endDate)
      invariant Walked(year, n, current, rules, cssLines)
      decreases DaysInYear(year) + 1 - n
    {
      WalkInYear(year, n, current, rules, cssLines);
      var info := SeasonInfo(current);
      if info.None? {
        WalkFails(year, n, current, rules, cssLines);
        return None;
      }
      var today := [Label(current, info.value), Width(current, info.value)];
      WalkSteps(year, n, current, rules, cssLines);
      cssLines := cssLines + Texts(today);
      rules := rules + today;
      current := Next(current);
      n := n + 1;
    }
    WalkEnds(year, n, current, rules, cssLines);
    return Some(Concat(cssLines));
  }

  /** The state of `generate_year_css` before day `n` of year `y`:
      `current` is that day, or January 1 of the next year once the year is
      done, and the lines hold the texts of the rules of the days before. */
  ghost predicate Walked(y: int, n: int, current: Date, rules: seq<Rule>, cssLines: seq<string>) {
    && InPythonRange(y)
    && 1 <= n <= DaysInYear(y) + 1
    && (n <= DaysInYear(y) ==> current == DateOfDayOfYear(y, n))
    && (n == DaysInYear(y) + 1 ==> current == Date(y + 1, 1, 1))
    && Collect(YearDays(y)[..n - 1]) == Some(rules)
    && cssLines == Texts(rules)
  }

  lemma WalkStarts(y: int)
    requires InPythonRange(y)
    ensures Walked(y, 1, Date(y, 1, 1), [], [])
  {
    YearEnds(y);
  }

  /** While the walk has not passed December 31, the current day is a day
      of the year. */
  lemma WalkInYear(y: int, n: int, current: Date, rules: seq<Rule>, cssLines: seq<string>)
    requires Walked(y, n, current, rules, cssLines) && LessOrEqual(current, Date(y, 12, 31))
    ensures n <= DaysInYear(y) && IsPythonDate(current)
  {
  }

  /** A day that raises ends the walk without a stylesheet. */
  lemma WalkFails(y: int, n: int, current: Date, rules: seq<Rule>, cssLines: seq<string>)
    requires Walked(y, n, current, rules, cssLines) && n <= DaysInYear(y)
    requires IsPythonDate(current) && SeasonInfo(current).None?
    ensures YearCss(y) == None
  {
    DayFails(y, n);
  }

  /** A day that has its rules moves the walk on to the next day. */
  lemma WalkSteps(y: int, n: int, current: Date, rules: seq<Rule>, cssLines: seq<string>)
    requires Walked(y, n, current, rules, cssLines) && n <= DaysInYear(y)
    requires IsPythonDate(current) && SeasonInfo(current).Some?
    ensures var info := SeasonInfo(current).value;
      var today := [Label(current, info), Width(current, info)];
      Walked(y, n + 1, Next(current), rules + today, cssLines + Texts(today))
  {
    var info := SeasonInfo(current).value;
    var today := [Label(current, info), Width(current, info)];
    DayAppends(y, n, rules);
    TextsAppend(rules, today);
    if n < DaysInYear(y) {
      NextDayOfYear(y, n);
    } else {
      YearEnds(y);
    }
  }

  /** Past December 31 the walk has produced the year's stylesheet. */
  lemma WalkEnds(y: int, n: int, current: Date, rules: seq<Rule>, cssLines: seq<string>)
    requires Walked(y, n, current, rules, cssLines) && !LessOrEqual(current, Date(y, 12, 31))
    ensures YearCss(y) == Some(Concat(cssLines))
  {
    if n <= DaysInYear(y) {
      DayOfYearBounds(current);
    }
    assert YearDays(y)[..n - 1] == YearDays(y);
  }

  /** A day whose `get_season_info` raises leaves the year without a
      stylesheet. */
  lemma DayFails(y: int, n: int)
    requires InPythonRange(y) && 1 <= n <= DaysInYear(y)
    requires SeasonInfo(DateOfDayOfYear(y, n)).None?
    ensures Collect(YearDays(y)).None?
  {
    assert YearDays(y)[n - 1].None?;
    CollectFails(YearDays(y));
  }

  /** The rules of the first `n` days are those of the first `n - 1` days
      followed by day `n`'s label and width. */
  lemma DayAppends(y: int, n: int, rules: seq<Rule>)
    requires InPythonRange(y) && 1 <= n <= DaysInYear(y)
    requires Collect(YearDays(y)[..n - 1]) == Some(rules)
    requires SeasonInfo(DateOfDayOfYear(y, n)).Some?
    ensures var d := DateOfDayOfYear(y, n); var info := SeasonInfo(d).value;
      Collect(YearDays(y)[..n]) == Some(rules + [Label(d, info), Width(d, info)])
  {
    var days := YearDays(y);
    assert days[..n][..n - 1] == days[..n - 1];
    assert days[..n][n - 1] == DayRules(DateOfDayOfYear(y, n));
  }

  /** The texts of two lists of rules, one after the other. */
  lemma TextsAppend(rules: seq<Rule>, more: seq<Rule>)
    ensures Texts(rules + more) == Texts(rules) + Texts(more)
  {
    var t, u := Texts(rules + more), Texts(rules) + Texts(more);
    forall i | 0 <= i < |t|
      ensures t[i] == u[i]
    {
      if i < |rules| {
        assert (rules + more)[i] == rules[i];
      } else {
        assert (rules + more)[i] == more[i - |rules|];
      }
    }
  }

  // ---------------------------------------------------------------------------
  // The import lines of all-years.css

  const ImportStart: string := "@import url(\""
  const CssSuffix: string := ".css"
  const ImportMiddle: string := CssSuffix + "\") supports(selector(body[data-server_time^=\""
  const ImportEnd: string := "\"]));"

  /** The `@import` of year `year`'s stylesheet, applied to pages served in
      that year. */
  function ImportLine(year: int): string {
    ImportStart + IntToString(year) + ImportMiddle + IntToString(year) + ImportEnd
  }

  /** The loop of `generate_all_files` over `range(start_year, end_year + 1)`:
      one import line per year, in year order. */
  method ImportLines(startYear: int, endYear: int) returns (lines: seq<string>)
    ensures |lines| == if endYear < startYear then 0 else endYear - startYear + 1
    ensures forall k :: 0 <= k < |lines| ==> lines[k] == ImportLine(startYear + k)
  {
    lines := [];
    var year := startYear;
    while year < endYear + 1
      invariant startYear <= year <= if startYear <= endYear then endYear + 1 else startYear
      invariant |lines| == year - startYear
      invariant forall k :: 0 <= k < |lines| ==> lines[k] == ImportLine(startYear + k)
    {
      lines := lines + [ImportLine(year)];
      year := year + 1;
    }
  }

  // ---------------------------------------------------------------------------
  // Lemmas

  /** `Collect` fails exactly when one of the parts does. */
  lemma {:induction false} CollectFails<T>(parts: seq<Option<seq<T>>>)
    ensures Collect(parts).None? <==> exists i :: 0 <= i < |parts| && parts[i].None?
  {
    if |parts| > 0 {
      var init := parts[..|parts| - 1];
      CollectFails(init);
      if exists i :: 0 <= i < |init| && init[i].None? {
        var i :| 0 <= i < |init| && init[i].None?;
        assert parts[i].None?;
      }
      if exists i :: 0 <= i < |parts| && parts[i].None? {
        var i :| 0 <= i < |parts| && parts[i].None?;
        if i < |init| {
          assert init[i].None?;
        }
      }
    }
  }

  /** Parts of two elements each are joined into twice as many elements,
      element `i` coming from part `i / 2`. */
  lemma {:induction false} CollectPairs<T>(parts: seq<Option<seq<T>>>)
    requires forall i :: 0 <= i < |parts| ==> parts[i].Some? && |parts[i].value| == 2
    ensures Collect(parts).Some? && |Collect(parts).value| == 2 * |parts|
    ensures forall i :: 0 <= i < 2 * |parts| ==> Collect(parts).value[i] == parts[i / 2].value[i % 2]
  {
    if |parts| > 0 {
      var init := parts[..|parts| - 1];
      CollectPairs(init);
      var all := Collect(parts).value;
      forall i | 0 <= i < 2 * |parts|
        ensures all[i] == parts[i / 2].value[i % 2]
      {
        if i < 2 * |init| {
          assert all[i] == Collect(init).value[i];
          assert init[i / 2] == parts[i / 2];
        }
      }
    }
  }

  /** Rounding to hundredths gives the nearest hundredth, so the printed
      width is within half a hundredth of the exact percentage. */
  lemma RoundingIsNearest(p: real, c: int)
    ensures (c as real) - 0.5 < p * 100.0 < (c as real) + 0.5 ==> Hundredths(p) == c
  {
  }

  /** The printed number reads back as the rounded number of hundredths. */
  lemma HundredthsTextRoundTrip(c: int)
    ensures ParseHundredths(HundredthsText(c)) == Some(c)
  {
    var a: nat := if c < 0 then -c else c;
    if a % 100 % 10 == 0 {
      OneDigitFraction(a);
      LeadingSign(c, NatToString(a / 100), [DigitChar(a % 100 / 10)]);
    } else {
      TwoDigitFraction(a);
      LeadingSign(c, NatToString(a / 100), ZeroPad(a % 100, 2));
    }
  }

  /** A multiple of ten hundredths is printed with one fraction digit. */
  lemma OneDigitFraction(a: nat)
    requires a % 100 % 10 == 0
    ensures NatToString(a / 100)[0] != '-'
    ensures ParseUnsignedHundredths(NatToString(a / 100) + "." + [DigitChar(a % 100 / 10)]) == Some(a)
  {
    var w, f := NatToString(a / 100), [DigitChar(a % 100 / 10)];
    NatToStringRoundTrip(a / 100);
    var u := w + "." + f;
    assert u[..|u| - 2] == w && u[|u| - 1..] == f;
    assert AllDigits(f) && DigitsValue(f) == a % 100 / 10;
    assert ParseNat(f) == Some(a % 100 / 10);
    assert IsDigit(w[0]);
  }

  /** Any other number of hundredths is printed with two fraction digits. */
  lemma TwoDigitFraction(a: nat)
    requires a % 100 % 10 != 0
    ensures NatToString(a / 100)[0] != '-'
    ensures ParseUnsignedHundredths(NatToString(a / 100) + "." + ZeroPad(a % 100, 2)) == Some(a)
  {
    var w, f := NatToString(a / 100), ZeroPad(a % 100, 2);
    NatToStringRoundTrip(a / 100);
    assert Pow10(2) == 100;
    ZeroPadRoundTrip(a % 100, 2);
    var u := w + "." + f;
    assert u[..|u| - 3] == w && u[|u| - 2..] == f;
    assert u[|u| - 2] != '.' by {
      assert u[|u| - 2] == f[0] && IsDigit(f[0]);
    }
    assert IsDigit(w[0]);
  }

  /** The sign in front of the printed magnitude `w.f` of `c` is read back. */
  lemma LeadingSign(c: int, w: string, f: string)
    requires |w| > 0 && w[0] != '-'
    requires ParseUnsignedHundredths(w + "." + f) == Some(if c < 0 then -c else c)
    ensures ParseHundredths((if c < 0 then "-" else "") + w + "." + f) == Some(c)
  {
    var u := w + "." + f;
    var s := (if c < 0 then "-" else "") + w + "." + f;
    if c < 0 {
      assert s == "-" + u;
      assert s[0] == '-';
      assert s[1..] == u;
    } else {
      assert s == u;
      assert s[0] == w[0];
    }
  }

  /** The width printed for a percentage reads back as that percentage
      rounded to hundredths. */
  lemma PercentTextRoundTrip(p: real)
    ensures ParseHundredths(PercentText(p)) == Some(Hundredths(p))
  {
    HundredthsTextRoundTrip(Hundredths(p));
  }

  /** A label starts with the count, which reads back from the text before
      the first space, followed by the form of "день" for it. */
  lemma TextContentStartsWithCount(info: Descriptor)
    ensures var n, t := IntToString(info.days), TextContent(info);
      && |n| < |t| && t[..|n|] == n && t[|n|] == ' '
      && ParseInt(t[..|n|]) == Some(info.days)
      && t[|n| + 1..|n| + 1 + |DayWord(info.days)|] == DayWord(info.days)
  {
    IntToStringRoundTrip(info.days);
  }

  /** A text that starts with the selector of day `d` applies to `d`. */
  lemma SelectorKeysDay(d: PyDate, rest: string)
    ensures SelectedDay(Selector(d) + rest).Some? && SelectedDay(Selector(d) + rest).value == d
  {
    IsoDateRoundTrip(d);
    var k := |SelectorStart|;
    var t := Selector(d) + rest;
    assert t[..k] == SelectorStart;
    assert t[k..k + 10] == IsoDate(d);
  }

  /** Every rule applies to its own day. */
  lemma RuleSelectsItsDay(r: Rule)
    ensures SelectedDay(RuleText(r)).Some? && SelectedDay(RuleText(r)).value == r.day
  {
    SelectorKeysDay(r.day, Declaration(r));
  }

  /** For a year of 2..9998 every day yields its label and its width rule. */
  lemma EveryDayRendered(y: int)
    requires 2 <= y <= 9998
    ensures forall i :: 0 <= i < |YearDays(y)| ==> YearDays(y)[i].Some? && |YearDays(y)[i].value| == 2
    ensures forall i :: 0 <= i < 2 * DaysInYear(y) ==> YearDays(y)[i / 2].value[i % 2] == RuleOfYear(y, i)
  {
    var days := YearDays(y);
    forall i | 0 <= i < |days|
      ensures days[i].Some? && |days[i].value| == 2
    {
      SeasonInfoInRange(DateOfDayOfYear(y, i + 1));
    }
    forall i | 0 <= i < 2 * DaysInYear(y)
      ensures days[i / 2].value[i % 2] == RuleOfYear(y, i)
    {
      SeasonInfoInRange(DateOfDayOfYear(y, i / 2 + 1));
    }
  }

  /** A single day of the year that raises leaves the year without a
      stylesheet. */
  lemma DayRaises(d: PyDate)
    requires RaisesValueError(d)
    ensures Collect(YearDays(d.year)).None?
  {
    var n := DayOfYear(d);
    DayOfYearBounds(d);
    OrdinalInjective(d, DateOfDayOfYear(d.year, n));
    SeasonInfoInRange(d);
    DayFails(d.year, n);
  }

  /** In year 1 January 1 already raises: its waiting period would start
      in year 0. */
  lemma FirstYearFails()
    ensures Collect(YearDays(MinYear)).None?
  {
    DayRaises(Date(MinYear, 1, 1));
  }

  /** In year 9999 October 28 raises: the next season would start in year
      10000. */
  lemma LastYearFails()
    ensures Collect(YearDays(MaxYear)).None?
  {
    DayRaises(Date(MaxYear, 10, 28));
  }

  /** The stylesheet exists exactly for the years 2..9998: in year 1 every
      day but January 14-27 raises, and in year 9999 every day after
      October 27. */
  lemma YearCssDefined(y: int)
    ensures YearCss(y).Some? <==> 2 <= y <= 9998
  {
    if 2 <= y <= 9998 {
      EveryDayRendered(y);
      CollectPairs(YearDays(y));
    } else if y == MinYear {
      FirstYearFails();
    } else if y == MaxYear {
      LastYearFails();
    }
  }

  /** The stylesheet of a year of 2..9998 is two rules per day, `2 * 365`
      or `2 * 366` in all, the label of each day before its width, and
      each drawn from that day's `get_season_info`. */
  lemma YearCssRules(y: int)
    requires 2 <= y <= 9998
    ensures exists rules: seq<Rule> ::
      && YearCss(y) == Some(Concat(Texts(rules)))
      && |rules| == 2 * DaysInYear(y)
      && forall i :: 0 <= i < |rules| ==> rules[i] == RuleOfYear(y, i)
  {
    EveryDayRendered(y);
    CollectPairs(YearDays(y));
    var rules := Collect(YearDays(y)).value;
    assert YearCss(y) == Some(Concat(Texts(rules)));
  }

  /** Rule `i` of a year belongs to day `i / 2 + 1`, is its label when `i`
      is even and its width when `i` is odd, carries that day's
      `get_season_info`, and its text selects that day. */
  lemma RuleOfYearDay(y: int, i: nat)
    requires 2 <= y <= 9998 && i < 2 * DaysInYear(y)
    ensures var r := RuleOfYear(y, i);
      && r.day == DateOfDayOfYear(y, i / 2 + 1)
      && (r.Label? <==> i % 2 == 0)
      && Some(r.info) == SeasonInfo(r.day)
      && SelectedDay(RuleText(r)).Some? && SelectedDay(RuleText(r)).value == r.day
  {
    SeasonInfoInRange(DateOfDayOfYear(y, i / 2 + 1));
    RuleSelectsItsDay(RuleOfYear(y, i));
  }

  /** The rules run in date order and each day is selected by exactly two
      of them. */
  lemma RulesInDateOrder(y: int, i: nat, j: nat)
    requires 2 <= y <= 9998 && i < 2 * DaysInYear(y) && j < 2 * DaysInYear(y)
    ensures i < j ==> LessOrEqual(RuleOfYear(y, i).day, RuleOfYear(y, j).day)
    ensures RuleOfYear(y, i).day == RuleOfYear(y, j).day <==> i / 2 == j / 2
  {
    RuleOfYearDay(y, i);
    RuleOfYearDay(y, j);
    DaysOfYearInOrder(y, i / 2 + 1, j / 2 + 1);
    DaysOfYearInOrder(y, j / 2 + 1, i / 2 + 1);
  }

  /** Distinct years get distinct import lines. */
  lemma ImportLineInjective(a: int, b: int)
    ensures ImportLine(a) == ImportLine(b) <==> a == b
  {
    if ImportLine(a) == ImportLine(b) {
      var sa, sb := IntToString(a), IntToString(b);
      var k := |ImportStart|;
      var la := ImportStart + sa + (ImportMiddle + IntToString(a) + ImportEnd);
      var lb := ImportStart + sb + (ImportMiddle + IntToString(b) + ImportEnd);
      assert la == ImportLine(a) && lb == ImportLine(b);
      assert ImportMiddle[0] == CssSuffix[0] == '.';
      assert la[k..k + |sa|] == sa && la[k + |sa|] == '.';
      assert lb[k..k + |sb|] == sb && lb[k + |sb|] == '.';
      IntToStringDigits(a);
      IntToStringDigits(b);
      assert sa == la[k..k + |sa|] == sb;
      IntToStringRoundTrip(a);
      IntToStringRoundTrip(b);
    }
  }

  /** After its first character `str(i)` holds only digits. */
  lemma IntToStringDigits(i: int)
    ensures forall k :: 1 <= k < |IntToString(i)| ==> IsDigit(IntToString(i)[k])
  {
    if i < 0 {
      var s := IntToString(i);
      assert s[1..] == NatToString(-i);
      forall k | 1 <= k < |s|
        ensures IsDigit(s[k])
      {
        assert s[k] == s[1..][k - 1];
      }
    }
  }
}
