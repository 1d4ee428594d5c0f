/** The release date of a game, read from the summary texts of its page
    at day, month or year precision, and the older single-pattern reader
    whose date is merged in only to fill an empty result. */
module Release {
  import opened Wrappers
  import opened Text

  /** A day as the pattern `\d{1,2}` captures it. */
  type Day = d: nat | d < 100

  /** A year as the pattern `\d{4}` captures it. */
  type Year = y: nat | y < 10000

  /** The first match in one text of "CODE: Month Day(st|nd|rd|th), Year". */
  datatype DayMatch = DayMatch(monthName: string, day: Day, year: Year)

  /** The first match in one text of "CODE: Month Year". */
  datatype MonthMatch = MonthMatch(monthName: string, year: Year)

  /** One summary text of the page (its visible strings joined by blanks)
      with the first match of each of the three patterns in it. */
  datatype Summary = Summary(text: string, dayMatch: Option<DayMatch>, monthMatch: Option<MonthMatch>, yearMatch: Option<Year>)

  /** No pattern matches an empty text. */
  predicate WellFormed(s: Summary) {
    s.text == [] ==> s.dayMatch.None? && s.monthMatch.None? && s.yearMatch.None?
  }

  /** `MONTHS`. */
  const Months: map<string, nat> := map[
    "january" := 1, "february" := 2, "march" := 3, "april" := 4,
    "may" := 5, "june" := 6, "july" := 7, "august" := 8,
    "september" := 9, "october" := 10, "november" := 11, "december" := 12
  ]

  /** The number of a month name in any case; `None` for a name outside
      the table. */
  function MonthNumber(name: string): (r: Option<nat>)
    ensures r.Some? ==> 1 <= r.value <= 12
    ensures r.Some? <==> Lower(name) in Months
  {
    var n := Lower(name);
    if n in Months then Some(Months[n]) else None
  }

  /** The twelve names in calendar order. */
  const MonthNames: seq<string> := [
    "january", "february", "march", "april", "may", "june",
    "july", "august", "september", "october", "november", "december"
  ]

  /** `MONTHS` numbers the names in calendar order, one number each. */
  lemma MonthsInOrder()
    ensures forall k :: k in Months ==> 1 <= Months[k] <= 12 && MonthNames[Months[k] - 1] == k
    ensures forall i :: 0 <= i < 12 ==> MonthNames[i] in Months && Months[MonthNames[i]] == i + 1
  {
  }

  lemma MonthNamesLower(i: nat)
    requires i < 12
    ensures Lower(MonthNames[i]) == MonthNames[i]
  {
    var n := MonthNames[i];
    forall j | 0 <= j < |n|
      ensures !('A' <= n[j] <= 'Z') && n[j] < '\U{C0}'
    {
      assert 'a' <= n[j] <= 'z';
    }
    LowerNoCapitals(n);
  }

  /** Two names with the same number are the same name up to case. */
  lemma MonthNumberOneToOne(a: string, b: string)
    requires MonthNumber(a).Some? && MonthNumber(a) == MonthNumber(b)
    ensures Lower(a) == Lower(b)
  {
    MonthsInOrder();
  }

  /** Every month 1..12 has a name, and the name's number is its place in
      the calendar. */
  lemma MonthNumberOnto(m: nat)
    requires 1 <= m <= 12
    ensures MonthNumber(MonthNames[m - 1]) == Some(m)
  {
    MonthsInOrder();
    MonthNamesLower(m - 1);
  }

  // ---------------------------------------------------------------- formatting

  /** `f"{year:04d}"`, `f"{month:02d}"`, `f"{day:02d}"`. */
  function YearText(y: Year): (r: string)
    ensures |r| == 4 && AllDigits(r) && DigitsValue(r) == y
  {
    NatToStringLength(y, 4, Pow10(4));
    ZeroPad(y, 4)
  }

  function TwoDigits(n: nat): (r: string)
    requires n < 100
    ensures |r| == 2 && AllDigits(r) && DigitsValue(r) == n
  {
    NatToStringLength(n, 2, Pow10(2));
    ZeroPad(n, 2)
  }

  /** The five release fields of a record. */
  datatype ReleaseInfo = ReleaseInfo(
    date: Option<string>,
    precision: Option<string>,
    year: Option<string>,
    month: Option<string>,
    day: Option<string>)

  const NoRelease: ReleaseInfo := ReleaseInfo(None, None, None, None, None)

  function DayInfo(y: Year, m: nat, d: Day): ReleaseInfo
    requires 1 <= m <= 12
  {
    var ys := YearText(y);
    var ms := TwoDigits(m);
    var ds := TwoDigits(d);
    ReleaseInfo(Some(ys + "-" + ms + "-" + ds), Some("day"), Some(ys), Some(ms), Some(ds))
  }

  function MonthInfo(y: Year, m: nat): ReleaseInfo
    requires 1 <= m <= 12
  {
    var ys := YearText(y);
    var ms := TwoDigits(m);
    ReleaseInfo(Some(ys + "-" + ms), Some("month"), Some(ys), Some(ms), None)
  }

  function YearInfo(y: Year): ReleaseInfo {
    var ys := YearText(y);
    ReleaseInfo(Some(ys), Some("year"), Some(ys), None, None)
  }

  predicate IsYearText(s: string) {
    |s| == 4 && AllDigits(s)
  }

  predicate IsMonthText(s: string) {
    |s| == 2 && AllDigits(s) && 1 <= DigitsValue(s) <= 12
  }

  predicate IsDayText(s: string) {
    |s| == 2 && AllDigits(s)
  }

  /** The precision invariant of a record: day precision has all three
      components, month precision no day, year precision only the year, no
      precision nothing at all; the date is the present components joined
      by "-", each zero-padded to its width. */
  predicate Consistent(r: ReleaseInfo) {
    match r.precision
    case None => r.date.None? && r.year.None? && r.month.None? && r.day.None?
    case Some(p) =>
      && r.year.Some? && IsYearText(r.year.value)
      && (p == "day" ==>
            && r.month.Some? && IsMonthText(r.month.value)
            && r.day.Some? && IsDayText(r.day.value)
            && r.date == Some(r.year.value + "-" + r.month.value + "-" + r.day.value))
      && (p == "month" ==>
            && r.month.Some? && IsMonthText(r.month.value) && r.day.None?
            && r.date == Some(r.year.value + "-" + r.month.value))
      && (p == "year" ==> r.month.None? && r.day.None? && r.date == r.year)
      && (p == "day" || p == "month" || p == "year")
  }

  // ---------------------------------------------------------------- tiers

  /** A tier hit: the components a matching text yields. */
  datatype Hit = Hit(year: Year, month: nat, day: Day)

  /** The day tier in one text: its first match, if its month is known. */
  function DayHit(s: Summary): (r: Option<Hit>)
    ensures r.Some? ==> 1 <= r.value.month <= 12
  {
    match s.dayMatch
    case None => None
    case Some(m) =>
      match MonthNumber(m.monthName)
      case None => None
      case Some(n) => Some(Hit(m.year, n, m.day))
  }

  /** The month tier in one text (no day). */
  function MonthHit(s: Summary): (r: Option<Hit>)
    ensures r.Some? ==> 1 <= r.value.month <= 12
  {
    match s.monthMatch
    case None => None
    case Some(m) =>
      match MonthNumber(m.monthName)
      case None => None
      case Some(n) => Some(Hit(m.year, n, 0))
  }

  /** The year tier in one text (no month, no day). */
  function YearHit(s: Summary): Option<Hit> {
    match s.yearMatch
    case None => None
    case Some(y) => Some(Hit(y, 0, 0))
  }

  function DayHits(ss: seq<Summary>): (r: seq<Option<Hit>>)
    ensures |r| == |ss| && forall i :: 0 <= i < |ss| ==> r[i] == DayHit(ss[i])
  {
    seq(|ss|, i requires 0 <= i < |ss| => DayHit(ss[i]))
  }

  function MonthHits(ss: seq<Summary>): (r: seq<Option<Hit>>)
    ensures |r| == |ss| && forall i :: 0 <= i < |ss| ==> r[i] == MonthHit(ss[i])
  {
    seq(|ss|, i requires 0 <= i < |ss| => MonthHit(ss[i]))
  }

  function YearHits(ss: seq<Summary>): (r: seq<Option<Hit>>)
    ensures |r| == |ss| && forall i :: 0 <= i < |ss| ==> r[i] == YearHit(ss[i])
  {
    seq(|ss|, i requires 0 <= i < |ss| => YearHit(ss[i]))
  }

  /** The summaries whose text is not empty, in order. */
  function NonEmpty(ss: seq<Summary>): (r: seq<Summary>)
    ensures forall i :: 0 <= i < |r| ==> r[i].text != []
    decreases |ss|
  {
    if ss == [] then []
    else (if ss[0].text == [] then [] else [ss[0]]) + NonEmpty(ss[1..])
  }

  /** `parse_release_info`: over the non-empty summary texts, the first
      text whose day-tier match names a known month gives a day-precision
      date; failing that, the month tier; failing that, the year tier;
      failing all three, nothing. */
  function ParseReleaseInfo(ss: seq<Summary>): (r: ReleaseInfo)
    ensures Consistent(r)
  {
    var texts := NonEmpty(ss);
    var d := First(DayHits(texts));
    var m := First(MonthHits(texts));
    var y := First(YearHits(texts));
    if d.Some? then
      DayInfoConsistent(d.value.year, d.value.month, d.value.day);
      DayInfo(d.value.year, d.value.month, d.value.day)
    else if m.Some? then
      MonthInfoConsistent(m.value.year, m.value.month);
      MonthInfo(m.value.year, m.value.month)
    else if y.Some? then
      YearInfo(y.value.year)
    else NoRelease
  }

  lemma DayInfoConsistent(y: Year, m: nat, d: Day)
    requires 1 <= m <= 12
    ensures Consistent(DayInfo(y, m, d))
  {
  }

  lemma MonthInfoConsistent(y: Year, m: nat)
    requires 1 <= m <= 12
    ensures Consistent(MonthInfo(y, m))
  {
  }

  predicate SomeHit(hs: seq<Option<Hit>>) {
    exists i :: 0 <= i < |hs| && hs[i].Some?
  }

  /** Tier priority: the result has day precision exactly when some
      non-empty text has a day match with a known month, and then it is
      the first such text's date; month precision exactly when no text has
      a day hit and some has a month hit; year precision exactly when only
      the year tier hits; an unknown month name counts as no hit. */
  lemma ReleaseTiers(ss: seq<Summary>)
    ensures var texts := NonEmpty(ss);
      var r := ParseReleaseInfo(ss);
      && (r.precision == Some("day") <==> SomeHit(DayHits(texts)))
      && (r.precision == Some("month") <==> !SomeHit(DayHits(texts)) && SomeHit(MonthHits(texts)))
      && (r.precision == Some("year") <==> !SomeHit(DayHits(texts)) && !SomeHit(MonthHits(texts)) && SomeHit(YearHits(texts)))
      && (r.precision.None? <==> !SomeHit(DayHits(texts)) && !SomeHit(MonthHits(texts)) && !SomeHit(YearHits(texts)))
  {
  }

  /** At day precision the date is that of the first non-empty text with
      a day hit, whatever the later texts say. */
  lemma ReleaseFirstDay(ss: seq<Summary>, i: int)
    requires FirstAt(DayHits(NonEmpty(ss)), i)
    ensures var h := DayHits(NonEmpty(ss))[i].value;
      ParseReleaseInfo(ss) == DayInfo(h.year, h.month, h.day)
  {
    FirstIsAt(DayHits(NonEmpty(ss)), i);
  }

  /** At month precision the date is that of the first non-empty text
      with a month hit, when no text has a day hit. */
  lemma ReleaseFirstMonth(ss: seq<Summary>, i: int)
    requires !SomeHit(DayHits(NonEmpty(ss)))
    requires FirstAt(MonthHits(NonEmpty(ss)), i)
    ensures var h := MonthHits(NonEmpty(ss))[i].value;
      ParseReleaseInfo(ss) == MonthInfo(h.year, h.month)
  {
    FirstIsAt(MonthHits(NonEmpty(ss)), i);
  }

  /** At year precision the date is the year of the first non-empty text
      with a year hit, when no text has a day or a month hit. */
  lemma ReleaseFirstYear(ss: seq<Summary>, i: int)
    requires !SomeHit(DayHits(NonEmpty(ss))) && !SomeHit(MonthHits(NonEmpty(ss)))
    requires FirstAt(YearHits(NonEmpty(ss)), i)
    ensures ParseReleaseInfo(ss) == YearInfo(YearHits(NonEmpty(ss))[i].value.year)
  {
    FirstIsAt(YearHits(NonEmpty(ss)), i);
  }

  // ---------------------------------------------------------------- legacy and merge

  /** `f"{year:04d}-{month:02d}-{day:02d}"`. */
  function DayText(h: Hit): string
    requires 1 <= h.month <= 12
  {
    YearText(h.year) + "-" + TwoDigits(h.month) + "-" + TwoDigits(h.day)
  }

  /** `parse_release_date_legacy`: the day-tier pattern over every summary
      text, empty ones included; the first match with a known month gives
      a day-precision date string. It finds a date exactly when some text
      has such a match, the date is that of the first one, and it always
      splits back into year, month and day. */
  function LegacyDate(ss: seq<Summary>): (r: Option<string>)
    ensures r.Some? <==> SomeHit(DayHits(ss))
    ensures r.Some? ==> exists i :: FirstAt(DayHits(ss), i) && r.value == DayText(DayHits(ss)[i].value)
    ensures r.Some? ==> |Split(r.value, '-')| == 3
  {
    var h := First(DayHits(ss));
    if h.Some? then
      DayTextParts(h.value);
      Some(DayText(h.value))
    else None
  }

  /** `merge_release_info`: a primary result without a date (absent or
      empty) takes a non-empty fallback date, split on "-" into year,
      month and day at day precision; a fallback that does not split into
      exactly three parts raises the unpacking `ValueError`. Any other
      primary result comes back unchanged. */
  function MergeReleaseInfo(primary: ReleaseInfo, fallback: Option<string>): (r: Result<ReleaseInfo>)
    ensures primary.date.Some? && primary.date.value != [] ==> r == Ok(primary)
    ensures fallback.None? || fallback.value == [] ==> r == Ok(primary)
    ensures r.Err? <==> (primary.date.None? || primary.date.value == []) && fallback.Some? && fallback.value != [] && |Split(fallback.value, '-')| != 3
  {
    if (primary.date.None? || primary.date.value == []) && fallback.Some? && fallback.value != [] then
      var parts := Split(fallback.value, '-');
      if |parts| != 3 then Err("the fallback date does not split into year, month and day")
      else Ok(ReleaseInfo(fallback, Some("day"), Some(parts[0]), Some(parts[1]), Some(parts[2])))
    else Ok(primary)
  }

  /** A formatted day date fills an empty result with exactly the
      components it was formatted from. */
  lemma MergeDayText(primary: ReleaseInfo, h: Hit)
    requires primary.date.None? || primary.date.value == []
    requires 1 <= h.month <= 12
    ensures MergeReleaseInfo(primary, Some(DayText(h))) == Ok(DayInfo(h.year, h.month, h.day))
  {
    DayTextParts(h);
    assert DayText(h) != [];
  }

  /** A formatted day date splits back into its three fields. */
  lemma DayTextParts(h: Hit)
    requires 1 <= h.month <= 12
    ensures Split(DayText(h), '-') == [YearText(h.year), TwoDigits(h.month), TwoDigits(h.day)]
  {
    var ys := YearText(h.year);
    var ms := TwoDigits(h.month);
    var ds := TwoDigits(h.day);
    assert '-' !in ys && '-' !in ms && '-' !in ds by {
      assert forall i :: 0 <= i < 4 ==> IsDigit(ys[i]);
      assert forall i :: 0 <= i < 2 ==> IsDigit(ms[i]) && IsDigit(ds[i]);
    }
    var parts := [ys, ms, ds];
    assert Join("-", parts) == ys + "-" + ms + "-" + ds by {
      assert Join("-", [ds]) == ds;
      assert Join("-", [ms, ds]) == ms + "-" + Join("-", [ds]);
      assert Join("-", parts) == ys + "-" + Join("-", [ms, ds]);
    }
    SplitJoin(parts, '-');
    assert "-" == ['-'];
  }

  /** Every summary of a page is well-formed: no pattern matches an empty
      text. */
  predicate AllWellFormed(ss: seq<Summary>) {
    forall i :: 0 <= i < |ss| ==> WellFormed(ss[i])
  }

  lemma DayHitsCons(s: Summary, ss: seq<Summary>)
    ensures DayHits([s] + ss) == [DayHit(s)] + DayHits(ss)
  {
    assert forall i :: 0 <= i < |ss| ==> ([s] + ss)[i + 1] == ss[i];
  }

  /** Dropping the empty texts drops no day hit. */
  lemma {:induction false} NonEmptyDayHits(ss: seq<Summary>)
    requires AllWellFormed(ss)
    ensures First(DayHits(NonEmpty(ss))) == First(DayHits(ss))
    decreases |ss|
  {
    if ss != [] {
      var s0 := ss[0];
      var tail := ss[1..];
      assert ss == [s0] + tail;
      assert AllWellFormed(tail) by {
        assert forall i :: 0 <= i < |tail| ==> tail[i] == ss[i + 1];
      }
      NonEmptyDayHits(tail);
      DayHitsCons(s0, tail);
      FirstCons(DayHit(s0), DayHits(tail));
      if s0.text == [] {
        assert WellFormed(ss[0]);
        assert NonEmpty(ss) == NonEmpty(tail);
      } else {
        assert NonEmpty(ss) == [s0] + NonEmpty(tail);
        DayHitsCons(s0, NonEmpty(tail));
        FirstCons(DayHit(s0), DayHits(NonEmpty(tail)));
      }
    }
  }

  /** On a page the legacy date never changes the primary result: it is
      found exactly when the primary reader already found a day date. */
  lemma MergeLegacyUnchanged(ss: seq<Summary>)
    requires AllWellFormed(ss)
    ensures MergeReleaseInfo(ParseReleaseInfo(ss), LegacyDate(ss)) == Ok(ParseReleaseInfo(ss))
  {
    NonEmptyDayHits(ss);
    var r := ParseReleaseInfo(ss);
    if First(DayHits(ss)).Some? {
      var h := First(DayHits(ss)).value;
      assert r == DayInfo(h.year, h.month, h.day);
      assert r.date.value != [];
    }
  }
}
