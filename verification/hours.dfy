/** Opening hours: the places API lists only the periods a restaurant is
    open; the pipeline turns them into one row per period plus one "closed"
    row for each weekday that no period opens on.

    Two writers produce these rows: the Airflow task (`format_opening_hours_periods`,
    Postgres rows with Portuguese day names) and the older Lambda
    (`convert_opening_hours_to_dynamodb_format`, DynamoDB items with the day
    number as text). The migration script reads the DynamoDB items back
    (`day_of_week_name`) and writes Postgres rows. */
module Hours {
  import opened Wrappers
  import opened Text
  import opened Places

  // ---------------------------------------------------------------------
  // Day names

  /** Day 0 is Sunday. */
  const DayNames: seq<string> :=
    ["Domingo", "Segunda-feira", "Terça-feira", "Quarta-feira",
     "Quinta-feira", "Sexta-feira", "Sábado"]

  /** `format_day_name`: the Portuguese name of a day number, or nothing
      for a number outside 0 to 6. */
  function DayName(day: int): (r: Option<string>)
    ensures r.Some? <==> 0 <= day < 7
    ensures r.Some? ==> r.value == DayNames[day]
  {
    if 0 <= day < 7 then Some(DayNames[day]) else None
  }

  /** Different days have different names. */
  lemma DayNameInjective(a: int, b: int)
    requires 0 <= a < 7
    ensures DayName(a) == DayName(b) ==> a == b
  {
  }

  /** `day_of_week_name` of the migration script: the table is keyed by the
      texts "0" to "6", and the key looked up is `str(day)`; a missing day
      is `str(None)`, which is not a key. */
  function StoredDayName(day: Option<string>): (r: Option<string>)
    ensures r.Some? <==> day.Some? && exists d :: 0 <= d < 7 && day.value == [DigitChar(d)]
  {
    match day
    case None => None
    case Some(key) =>
      if |key| == 1 && '0' <= key[0] <= '6' then
        var d := key[0] as int - '0' as int;
        assert key == [DigitChar(d)];
        Some(DayNames[d])
      else
        assert forall d :: 0 <= d < 7 ==> key != [DigitChar(d)];
        None
  }

  /** A day number written as text and read back by the migration script
      gets the name the Airflow task gives it, for every integer. */
  lemma StoredDayReadBack(day: int)
    ensures StoredDayName(Some(IntToString(day))) == DayName(day)
  {
    var key := IntToString(day);
    if 0 <= day < 7 {
      assert key == [DigitChar(day)];
    } else if day < 0 {
      assert key[0] == '-';
    } else if day < 10 {
      assert key == [DigitChar(day)];
    } else {
      assert |key| >= 2;
    }
  }

  // ---------------------------------------------------------------------
  // Times

  /** `f'{str(hour).zfill(2)}:{str(minute).zfill(2)}'` for one end of a
      period, a missing end or field counting as 0. */
  function ClockText(t: Option<TimePoint>): string {
    match t
    case None => ZFill2(0) + ":" + ZFill2(0)
    case Some(tp) => ZFill2(tp.hour.GetOr(0)) + ":" + ZFill2(tp.minute.GetOr(0))
  }

  /** For an hour and a minute below 100 the text is `HH:MM`, and reading the
      two digit pairs back gives the hour and the minute. */
  lemma ClockTextRoundTrip(h: int, m: int)
    requires 0 <= h < 100 && 0 <= m < 100
    ensures var s := ClockText(Some(TimePoint(None, Some(h), Some(m))));
            |s| == 5 && s[2] == ':' && AllDigits(s[..2]) && AllDigits(s[3..])
            && DigitsValue(s[..2]) == h && DigitsValue(s[3..]) == m
  {
    var s := ClockText(Some(TimePoint(None, Some(h), Some(m))));
    assert s[..2] == ZFill2(h) && s[3..] == ZFill2(m);
  }

  // ---------------------------------------------------------------------
  // Days that some period opens on

  /** The day of a period's opening, when the period has one. */
  function OpeningDay(p: Period): Option<int> {
    match p.open
    case None => None
    case Some(tp) => tp.day
  }

  /** The day an open row is filed under: `period.get('open', {}).get('day', 0)`. */
  function RowDay(p: Period): int {
    OpeningDay(p).GetOr(0)
  }

  /** `opened_days`: the days some period opens on. A period whose opening
      has no day contributes nothing. */
  function OpenedDays(ps: seq<Period>): (r: set<int>)
    ensures forall d :: d in r <==> exists i :: 0 <= i < |ps| && OpeningDay(ps[i]) == Some(d)
  {
    if ps == [] then {}
    else
      var rest := OpenedDays(ps[1..]);
      assert forall d :: (exists i :: 1 <= i < |ps| && OpeningDay(ps[i]) == Some(d))
                         <==> (exists i :: 0 <= i < |ps[1..]| && OpeningDay(ps[1..][i]) == Some(d)) by {
        forall d | exists i :: 0 <= i < |ps[1..]| && OpeningDay(ps[1..][i]) == Some(d)
          ensures exists i :: 1 <= i < |ps| && OpeningDay(ps[i]) == Some(d)
        {
          var i :| 0 <= i < |ps[1..]| && OpeningDay(ps[1..][i]) == Some(d);
          assert OpeningDay(ps[i + 1]) == Some(d);
        }
        forall d | exists i :: 1 <= i < |ps| && OpeningDay(ps[i]) == Some(d)
          ensures exists i :: 0 <= i < |ps[1..]| && OpeningDay(ps[1..][i]) == Some(d)
        {
          var i :| 1 <= i < |ps| && OpeningDay(ps[i]) == Some(d);
          assert OpeningDay(ps[1..][i - 1]) == Some(d);
        }
      }
      match OpeningDay(ps[0])
      case Some(d) => {d} + rest
      case None => rest
  }

  /** The weekdays 0 to 6 that are not in `openDays`, counting up from `lo`. */
  function ClosedDaysFrom(openDays: set<int>, lo: nat): (r: seq<int>)
    requires lo <= 7
    ensures forall i :: 0 <= i < |r| ==> lo <= r[i] < 7
    ensures forall i, j :: 0 <= i < j < |r| ==> r[i] < r[j]
    ensures forall d :: d in r <==> lo <= d < 7 && d !in openDays
    decreases 7 - lo
  {
    if lo == 7 then []
    else if lo in openDays then ClosedDaysFrom(openDays, lo + 1)
    else [lo] + ClosedDaysFrom(openDays, lo + 1)
  }

  /** The weekdays without an opening, in ascending order. */
  function ClosedDays(openDays: set<int>): (r: seq<int>)
    ensures forall i, j :: 0 <= i < j < |r| ==> r[i] < r[j]
    ensures forall d :: d in r <==> 0 <= d < 7 && d !in openDays
  {
    ClosedDaysFrom(openDays, 0)
  }

  /** The days from `lo` to 6 that are in `openDays`. */
  function OpenedFrom(openDays: set<int>, lo: int): set<int> {
    set d | d in openDays && lo <= d < 7
  }

  /** As many closed days as weekdays are missing from `openDays`. */
  lemma {:induction false} ClosedDaysFromCount(openDays: set<int>, lo: nat)
    requires lo <= 7
    ensures |ClosedDaysFrom(openDays, lo)| + |OpenedFrom(openDays, lo)| == 7 - lo
    decreases 7 - lo
  {
    if lo == 7 {
      assert OpenedFrom(openDays, lo) == {};
    } else {
      ClosedDaysFromCount(openDays, lo + 1);
      if lo in openDays {
        assert OpenedFrom(openDays, lo) == OpenedFrom(openDays, lo + 1) + {lo};
      } else {
        assert OpenedFrom(openDays, lo) == OpenedFrom(openDays, lo + 1);
      }
    }
  }

  /** Distinct opening days, one per period. */
  predicate DistinctDays(ps: seq<Period>) {
    forall i, j :: 0 <= i < j < |ps| ==> OpeningDay(ps[i]) != OpeningDay(ps[j])
  }

  /** Every period opens on a weekday. */
  predicate OpensOnWeekdays(ps: seq<Period>) {
    forall i :: 0 <= i < |ps| ==> OpeningDay(ps[i]).Some? && 0 <= OpeningDay(ps[i]).value < 7
  }

  /** Periods that open on distinct days contribute one day each. */
  lemma {:induction false} OpenedDaysCount(ps: seq<Period>)
    requires OpensOnWeekdays(ps) && DistinctDays(ps)
    ensures |OpenedDays(ps)| == |ps|
  {
    if ps != [] {
      var rest := ps[1..];
      assert OpensOnWeekdays(rest) && DistinctDays(rest) by {
        forall i, j | 0 <= i < j < |rest|
          ensures OpeningDay(rest[i]) != OpeningDay(rest[j])
        {
          assert OpeningDay(rest[i]) == OpeningDay(ps[i + 1]);
        }
      }
      OpenedDaysCount(rest);
      var d := OpeningDay(ps[0]).value;
      forall i | 0 <= i < |rest|
        ensures OpeningDay(rest[i]) != Some(d)
      {
        assert rest[i] == ps[i + 1];
      }
    }
  }

  // ---------------------------------------------------------------------
  // The Airflow normaliser

  /** A row of the `opening_hours` table, without the restaurant id. */
  datatype HoursRow = HoursRow(day: Option<string>, opensAt: Option<string>, closesAt: Option<string>, isOpened: bool)

  /** The open row of one period. */
  function OpenRow(p: Period): HoursRow {
    HoursRow(DayName(RowDay(p)), Some(ClockText(p.open)), Some(ClockText(p.close)), true)
  }

  /** The closed row of one day. */
  function ClosedRow(day: int): HoursRow {
    HoursRow(DayName(day), None, None, false)
  }

  /** The open rows of the periods, in order. */
  function OpenRows(ps: seq<Period>): (r: seq<HoursRow>)
    ensures |r| == |ps| && forall i :: 0 <= i < |ps| ==> r[i] == OpenRow(ps[i])
  {
    if ps == [] then [] else [OpenRow(ps[0])] + OpenRows(ps[1..])
  }

  /** The closed rows of the days, in order. */
  function ClosedRows(days: seq<int>): (r: seq<HoursRow>)
    ensures |r| == |days| && forall i :: 0 <= i < |days| ==> r[i] == ClosedRow(days[i])
  {
    if days == [] then [] else [ClosedRow(days[0])] + ClosedRows(days[1..])
  }

  /** `format_opening_hours_periods`: no rows without periods; otherwise the
      open rows in the order of the periods, then a closed row for each
      weekday no period opens on, in ascending order. */
  function FormatPeriods(periods: Option<seq<Period>>): (r: seq<HoursRow>)
    ensures periods.None? || periods == Some([]) ==> r == []
    ensures periods.Some? && periods.value != [] ==>
              var ps := periods.value;
              var closed := ClosedDays(OpenedDays(ps));
              && |r| == |ps| + |closed|
              && (forall i :: 0 <= i < |ps| ==> r[i].isOpened && r[i].day == DayName(RowDay(ps[i]))
                                                && r[i].opensAt == Some(ClockText(ps[i].open))
                                                && r[i].closesAt == Some(ClockText(ps[i].close)))
              && (forall j :: |ps| <= j < |r| ==> r[j] == ClosedRow(closed[j - |ps|]))
  {
    match periods
    case None => []
    case Some(ps) =>
      if ps == [] then []
      else
        PeriodRows(ps, ClosedDays(OpenedDays(ps)));
        OpenRows(ps) + ClosedRows(ClosedDays(OpenedDays(ps)))
  }

  /** The open rows followed by the closed rows, row by row. */
  lemma PeriodRows(ps: seq<Period>, closed: seq<int>)
    ensures var r := OpenRows(ps) + ClosedRows(closed);
            && |r| == |ps| + |closed|
            && (forall i :: 0 <= i < |ps| ==> r[i].isOpened && r[i].day == DayName(RowDay(ps[i]))
                                              && r[i].opensAt == Some(ClockText(ps[i].open))
                                              && r[i].closesAt == Some(ClockText(ps[i].close)))
            && (forall j :: |ps| <= j < |r| ==> r[j] == ClosedRow(closed[j - |ps|]))
  {
    var open := OpenRows(ps);
    var shut := ClosedRows(closed);
    var r := open + shut;
    forall i | 0 <= i < |ps|
      ensures r[i].isOpened && r[i].day == DayName(RowDay(ps[i]))
              && r[i].opensAt == Some(ClockText(ps[i].open))
              && r[i].closesAt == Some(ClockText(ps[i].close))
    {
      assert r[i] == open[i];
      OpenRowFields(ps[i], open[i]);
    }
    forall j | |ps| <= j < |r|
      ensures r[j] == ClosedRow(closed[j - |ps|])
    {
      assert r[j] == shut[j - |ps|];
    }
  }

  lemma OpenRowFields(p: Period, row: HoursRow)
    requires row == OpenRow(p)
    ensures row.isOpened && row.day == DayName(RowDay(p))
            && row.opensAt == Some(ClockText(p.open)) && row.closesAt == Some(ClockText(p.close))
  {
  }

  /** Periods opening on distinct weekdays give exactly seven rows. */
  lemma SevenRows(ps: seq<Period>)
    requires ps != [] && OpensOnWeekdays(ps) && DistinctDays(ps)
    ensures |FormatPeriods(Some(ps))| == 7
  {
    var openDays := OpenedDays(ps);
    OpenedDaysCount(ps);
    ClosedDaysFromCount(openDays, 0);
    assert OpenedFrom(openDays, 0) == openDays;
  }

  /** Every weekday gets a row: an open row when some period opens on it,
      and a closed row otherwise, never both. */
  lemma EveryDayHasOneKindOfRow(ps: seq<Period>, d: int)
    requires ps != [] && 0 <= d < 7
    ensures var r := FormatPeriods(Some(ps));
            (exists i :: 0 <= i < |ps| && OpeningDay(ps[i]) == Some(d))
              <==> !(exists j :: 0 <= j < |r| && r[j] == ClosedRow(d))
  {
    var closed := ClosedDays(OpenedDays(ps));
    var r := FormatPeriods(Some(ps));
    assert d in closed <==> exists j :: 0 <= j < |r| && r[j] == ClosedRow(d) by {
      ClosedRowIffClosed(r, |ps|, closed, d);
    }
    assert d in closed <==> !(exists i :: 0 <= i < |ps| && OpeningDay(ps[i]) == Some(d)) by {
      assert d in closed <==> d !in OpenedDays(ps);
    }
  }

  /** Rows made of `n` open rows followed by the closed rows of `closed` hold
      the closed row of a weekday exactly when the day is in `closed`. */
  lemma ClosedRowIffClosed(r: seq<HoursRow>, n: nat, closed: seq<int>, d: int)
    requires |r| == n + |closed| && 0 <= d < 7
    requires forall j :: 0 <= j < n ==> r[j].isOpened
    requires forall j :: n <= j < |r| ==> r[j] == ClosedRow(closed[j - n])
    ensures d in closed <==> exists j :: 0 <= j < |r| && r[j] == ClosedRow(d)
  {
    if d in closed {
      var k :| 0 <= k < |closed| && closed[k] == d;
      assert r[n + k] == ClosedRow(d);
    } else {
      forall j | 0 <= j < |r|
        ensures r[j] != ClosedRow(d)
      {
        if j >= n {
          DayNameInjective(d, closed[j - n]);
        }
      }
    }
  }

  // ---------------------------------------------------------------------
  // The DynamoDB normaliser and the migration back to rows

  /** An item of the `opening_hours` list of a DynamoDB restaurant, or of its
      JSON export; every key may be missing. */
  datatype StoredHours = StoredHours(day: Option<string>, opens: Option<string>, closes: Option<string>, isOpened: Option<bool>)

  /** The stored item of one period. */
  function OpenItem(p: Period): StoredHours {
    StoredHours(Some(IntToString(RowDay(p))), Some(ClockText(p.open)), Some(ClockText(p.close)), Some(true))
  }

  /** The stored item of one closed day. */
  function ClosedItem(day: int): StoredHours {
    StoredHours(Some(IntToString(day)), None, None, Some(false))
  }

  function OpenItems(ps: seq<Period>): (r: seq<StoredHours>)
    ensures |r| == |ps| && forall i :: 0 <= i < |ps| ==> r[i] == OpenItem(ps[i])
  {
    if ps == [] then [] else [OpenItem(ps[0])] + OpenItems(ps[1..])
  }

  function ClosedItems(days: seq<int>): (r: seq<StoredHours>)
    ensures |r| == |days| && forall i :: 0 <= i < |days| ==> r[i] == ClosedItem(days[i])
  {
    if days == [] then [] else [ClosedItem(days[0])] + ClosedItems(days[1..])
  }

  /** Some period has no opening. */
  predicate SomeWithoutOpening(ps: seq<Period>) {
    exists i :: 0 <= i < |ps| && ps[i].open.None?
  }

  /** `convert_opening_hours_to_dynamodb_format`: as the Airflow normaliser,
      but the day is kept as its number in text, closed items have no times,
      and a period without an opening makes `period['open']` raise. */
  function DynamoFormat(periods: Option<seq<Period>>): (r: Result<seq<StoredHours>, string>)
    ensures periods.None? || periods == Some([]) ==> r == Success([])
    ensures periods.Some? && periods.value != [] ==> (r.Failure? <==> SomeWithoutOpening(periods.value))
    ensures r.Success? && periods.Some? ==>
              var ps := periods.value;
              && |r.value| >= |ps|
              && (forall i :: 0 <= i < |ps| ==> r.value[i].day == Some(IntToString(RowDay(ps[i])))
                                                && r.value[i].isOpened == Some(true))
  {
    match periods
    case None => Success([])
    case Some(ps) =>
      if ps == [] then Success([])
      else if SomeWithoutOpening(ps) then Failure("KeyError: 'open'")
      else
        var open := OpenItems(ps);
        var closed := ClosedItems(ClosedDays(OpenedDays(ps)));
        assert |open + closed| == |open| + |closed|;
        Success(open + closed)
  }

  /** A period whose opening has no day is filed under day "0" and, as no
      opening day 0 is recorded for it, day "0" is also listed as closed. */
  lemma DayZeroBothOpenAndClosed(p: Period)
    requires p.open.Some? && p.open.value.day.None?
    ensures var r := DynamoFormat(Some([p]));
            r.Success? && r.value[0].day == Some("0") && r.value[0].isOpened == Some(true)
            && r.value[1] == StoredHours(Some("0"), None, None, Some(false))
  {
    assert !SomeWithoutOpening([p]);
    assert OpeningDay(p).None?;
    var closed := ClosedDays(OpenedDays([p]));
    assert 0 in closed;
    assert closed[0] == 0;
    var r := OpenItems([p]) + ClosedItems(closed);
    assert DynamoFormat(Some([p])) == Success(r);
    assert r[0] == OpenItem(p);
    assert r[1] == ClosedItem(0);
  }

  /** The row the migration script writes for one stored item. */
  function MigratedRow(e: StoredHours): HoursRow {
    HoursRow(StoredDayName(e.day), e.opens, e.closes, e.isOpened.GetOr(false))
  }

  /** A JSON object is truthy when it has some key. */
  predicate NonEmptyItem(e: StoredHours) {
    e.day.Some? || e.opens.Some? || e.closes.Some? || e.isOpened.Some?
  }

  /** The migration script's hours loop: one row per non-empty item, in
      order; none for a missing or empty list. */
  function MigrateHours(items: Option<seq<StoredHours>>): (r: seq<HoursRow>)
    ensures items.None? ==> r == []
    ensures items.Some? && (forall i :: 0 <= i < |items.value| ==> NonEmptyItem(items.value[i])) ==>
              |r| == |items.value| && forall i :: 0 <= i < |r| ==> r[i] == MigratedRow(items.value[i])
    ensures items.Some? ==>
              forall row :: row in r <==>
                exists i :: 0 <= i < |items.value| && NonEmptyItem(items.value[i]) && row == MigratedRow(items.value[i])
  {
    match items
    case None => []
    case Some(es) => MigrateItems(es)
  }

  /** The rows of the non-empty items, in order (`MigrateOneItem` and
      `MigrateAppend` together pin the result down). */
  function MigrateItems(es: seq<StoredHours>): (r: seq<HoursRow>)
    ensures |r| <= |es|
    ensures (forall i :: 0 <= i < |es| ==> NonEmptyItem(es[i])) ==>
              |r| == |es| && forall i :: 0 <= i < |r| ==> r[i] == MigratedRow(es[i])
    ensures forall row :: row in r <==> exists i :: 0 <= i < |es| && NonEmptyItem(es[i]) && row == MigratedRow(es[i])
  {
    if es == [] then []
    else
      var h := if NonEmptyItem(es[0]) then [MigratedRow(es[0])] else [];
      h + MigrateItems(es[1..])
  }

  /** Writing hours to DynamoDB and migrating them to Postgres gives the
      rows the Airflow task writes directly, whenever the DynamoDB writer
      succeeds. */
  lemma MigrationMatchesAirflow(ps: seq<Period>)
    requires DynamoFormat(Some(ps)).Success?
    ensures MigrateHours(Some(DynamoFormat(Some(ps)).value)) == FormatPeriods(Some(ps))
  {
    if ps != [] {
      var closed := ClosedDays(OpenedDays(ps));
      MigrateOpenItems(ps);
      MigrateClosedItems(closed);
      MigrateAppend(OpenItems(ps), ClosedItems(closed));
    }
  }

  lemma MigrateOpenItems(ps: seq<Period>)
    ensures MigrateItems(OpenItems(ps)) == OpenRows(ps)
  {
    if ps != [] {
      StoredDayReadBack(RowDay(ps[0]));
      assert OpenItems(ps)[1..] == OpenItems(ps[1..]);
      MigrateOpenItems(ps[1..]);
    }
  }

  lemma MigrateClosedItems(days: seq<int>)
    ensures MigrateItems(ClosedItems(days)) == ClosedRows(days)
  {
    if days != [] {
      StoredDayReadBack(days[0]);
      assert ClosedItems(days)[1..] == ClosedItems(days[1..]);
      MigrateClosedItems(days[1..]);
    }
  }

  /** One item gives its row when it is non-empty and nothing otherwise. */
  lemma MigrateOneItem(e: StoredHours)
    ensures MigrateItems([e]) == if NonEmptyItem(e) then [MigratedRow(e)] else []
  {
    assert [e][1..] == [];
  }

  /** The loop's rows for a concatenation are the rows of each part, in
      order. */
  lemma {:induction false} MigrateAppend(a: seq<StoredHours>, b: seq<StoredHours>)
    ensures MigrateItems(a + b) == MigrateItems(a) + MigrateItems(b)
  {
    if a == [] {
      assert a + b == b;
    } else {
      var h := if NonEmptyItem(a[0]) then [MigratedRow(a[0])] else [];
      assert MigrateItems(a + b) == h + MigrateItems(a[1..] + b) by {
        assert (a + b)[0] == a[0] && (a + b)[1..] == a[1..] + b;
      }
      MigrateAppend(a[1..], b);
      AppendAssoc(h, MigrateItems(a[1..]), MigrateItems(b));
    }
  }

  // ---------------------------------------------------------------------
  // Opening-hours description

  /** U+2009 THIN SPACE, which the places API puts inside time ranges. */
  const ThinSpace: char := '\U{2009}'

  /** Each description line with its thin spaces removed. */
  function CleanLines(ls: seq<string>): (r: seq<string>)
    ensures |r| == |ls| && forall i :: 0 <= i < |ls| ==> r[i] == RemoveChar(ls[i], ThinSpace)
  {
    if ls == [] then [] else [RemoveChar(ls[0], ThinSpace)] + CleanLines(ls[1..])
  }

  /** `format_opening_hours_description`: no description for a missing or
      empty list; otherwise the lines joined by newlines, thin spaces
      removed, and every newline turned into `", "`. */
  function FormatDescription(ds: Option<seq<string>>): (r: Option<string>)
    ensures r.None? <==> ds.None? || ds == Some([])
    ensures r.Some? ==> ThinSpace !in r.value && '\n' !in r.value
  {
    match ds
    case None => None
    case Some(ls) =>
      if ls == [] then None
      else Some(ReplaceChar(RemoveChar(Join("\n", ls), ThinSpace), '\n', ", "))
  }

  /** The migration script's description: the stored lines joined with
      `", "`, or none for a missing or empty list. */
  function JoinedDescription(ds: Option<seq<string>>): (r: Option<string>)
    ensures r.None? <==> ds.None? || ds == Some([])
    ensures ds.Some? && |ds.value| == 1 ==> r == Some(ds.value[0])
  {
    match ds
    case None => None
    case Some(ls) => if ls == [] then None else Some(Join(", ", ls))
  }

  /** For lines without newlines, the Airflow description is the lines with
      their thin spaces removed, joined with `", "`. */
  lemma DescriptionJoinsCleanLines(ls: seq<string>)
    requires ls != []
    requires forall i :: 0 <= i < |ls| ==> '\n' !in ls[i]
    ensures FormatDescription(Some(ls)) == Some(Join(", ", CleanLines(ls)))
  {
    var cleaned := CleanLines(ls);
    RemoveThinSpaces(ls);
    forall i | 0 <= i < |cleaned|
      ensures '\n' !in cleaned[i]
    {
      RemoveCharAddsNothing(ls[i], ThinSpace, '\n');
    }
    NewlinesToCommas(cleaned);
  }

  /** The DynamoDB writer stores the lines with thin spaces removed; the
      migration script then writes the description the Airflow task writes
      directly. */
  lemma DescriptionsAgree(ls: seq<string>)
    requires forall i :: 0 <= i < |ls| ==> '\n' !in ls[i]
    ensures JoinedDescription(Some(CleanLines(ls))) == FormatDescription(Some(ls))
  {
    if ls != [] {
      DescriptionJoinsCleanLines(ls);
    }
  }

  lemma {:induction false} RemoveThinSpaces(ls: seq<string>)
    ensures RemoveChar(Join("\n", ls), ThinSpace) == Join("\n", CleanLines(ls))
  {
    if |ls| == 1 {
      assert CleanLines(ls) == [RemoveChar(ls[0], ThinSpace)];
    } else if |ls| > 1 {
      RemoveThinSpaces(ls[1..]);
      assert CleanLines(ls)[1..] == CleanLines(ls[1..]);
      RemoveCharAppend(ls[0] + "\n", Join("\n", ls[1..]), ThinSpace);
      RemoveCharAppend(ls[0], "\n", ThinSpace);
    }
  }

  lemma {:induction false} NewlinesToCommas(ls: seq<string>)
    requires forall i :: 0 <= i < |ls| ==> '\n' !in ls[i]
    ensures ReplaceChar(Join("\n", ls), '\n', ", ") == Join(", ", ls)
  {
    if |ls| > 1 {
      NewlinesToCommas(ls[1..]);
      ReplaceCharAppend(ls[0] + "\n", Join("\n", ls[1..]), '\n', ", ");
      ReplaceCharAppend(ls[0], "\n", '\n', ", ");
    }
  }
}
