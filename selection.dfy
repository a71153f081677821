/**
 * The range selection of SimpleDateRangePicker as pure functions: the state that `dayClicked`
 * reads and writes, the transition one click makes together with the callbacks it fires, and the
 * classification `render` gives every day cell (its background colour).
 */
module Selection {
  import opened Wrappers
  import opened Dates
  import opened DateFormat

  /** The component state `dayClicked` works on: the two bounds and the texts of the two inputs. */
  datatype PickerState = PickerState(
    fromDate: Option<Date>,
    toDate: Option<Date>,
    fromDateValue: string,
    toDateValue: string)

  /** A call of one of the two callbacks the embedding page passes in. */
  datatype Callback = OnChangeFrom(date: Option<Date>) | OnChangeTo(date: Option<Date>)

  datatype ClickOutcome = ClickOutcome(next: PickerState, fired: seq<Callback>)

  /** The state the constructor sets up. */
  const INITIAL := PickerState(None, None, "", "")

  predicate BoundValid(d: Option<Date>) {
    d.Some? ==> ValidDate(d.value)
  }

  predicate BoundsValid(s: PickerState) {
    BoundValid(s.fromDate) && BoundValid(s.toDate)
  }

  /** What an input shows for a bound: its formatted date, or nothing while the bound is unset. */
  function Mirror(d: Option<Date>): string
    requires BoundValid(d)
  {
    if d.Some? then Format(d.value) else ""
  }

  /** Each text input shows its bound. */
  predicate MirrorsAgree(s: PickerState)
    requires BoundsValid(s)
  {
    s.fromDateValue == Mirror(s.fromDate) && s.toDateValue == Mirror(s.toDate)
  }

  /** `to` is set only together with `from`, and then `from` is not after `to`. */
  predicate Ordered(s: PickerState) {
    s.toDate.Some? ==> s.fromDate.Some? && AtMost(s.fromDate.value, s.toDate.value)
  }

  /** The date a click on day `day` of the grid stands for: a copy of the shown date with
      `setDate(day)` applied. */
  function ClickedDate(shown: Date, day: int): (r: Date)
    requires ValidDate(shown)
    ensures ValidDate(r)
    ensures 1 <= day <= MonthLength(shown.year, shown.month) ==> r == Date(shown.year, shown.month, day)
    ensures DayNumber(r) == DayNumber(Date(shown.year, shown.month, 1)) + day - 1
  {
    NormalizeDayNumber(shown.year, shown.month, day);
    Normalize(shown.year, shown.month, day)
  }

  /** `dayClicked(e, day)` while the calendar shows the month of `shown`. */
  function Click(s: PickerState, shown: Date, day: int): (o: ClickOutcome)
    requires ValidDate(shown)
    ensures o.next.fromDate.Some? && (BoundsValid(s) ==> BoundsValid(o.next))
    ensures 1 <= |o.fired| <= 2
  {
    var newDate := ClickedDate(shown, day);
    var text := Format(newDate);
    if s.fromDate.Some? && s.toDate.Some? then
      if Before(s.toDate.value, newDate) then
        ClickOutcome(s.(toDate := Some(newDate), toDateValue := text), [OnChangeTo(Some(newDate))])
      else
        ClickOutcome(PickerState(Some(newDate), None, text, ""),
                     [OnChangeFrom(Some(newDate)), OnChangeTo(None)])
    else if s.fromDate.None? then
      ClickOutcome(s.(fromDate := Some(newDate), fromDateValue := text), [OnChangeFrom(Some(newDate))])
    else if s.fromDate.value.day < day then
      ClickOutcome(s.(toDate := Some(newDate), toDateValue := text), [OnChangeTo(Some(newDate))])
    else
      ClickOutcome(s.(fromDate := Some(newDate), fromDateValue := text), [OnChangeFrom(Some(newDate))])
  }

  // ---------------------------------------------------------------------------------------------
  // The branches of dayClicked

  /** No `from` yet: the click sets `from` and its text, `to` stays as it was, and only
      onChangeFrom fires. */
  lemma ClickWithoutFrom(s: PickerState, shown: Date, day: int)
    requires ValidDate(shown)
    requires s.fromDate.None?
    ensures var c, o := ClickedDate(shown, day), Click(s, shown, day);
            o.next == s.(fromDate := Some(c), fromDateValue := Format(c))
            && o.fired == [OnChangeFrom(Some(c))]
  {
  }

  /** Only `from` set: by day of month alone, a later day becomes `to` (onChangeTo fires), and an
      earlier or equal one replaces `from` (onChangeFrom fires). */
  lemma ClickWithOnlyFrom(s: PickerState, shown: Date, day: int)
    requires ValidDate(shown)
    requires s.fromDate.Some? && s.toDate.None?
    ensures var c, o := ClickedDate(shown, day), Click(s, shown, day);
            if s.fromDate.value.day < day then
              o.next == s.(toDate := Some(c), toDateValue := Format(c)) && o.fired == [OnChangeTo(Some(c))]
            else
              o.next == s.(fromDate := Some(c), fromDateValue := Format(c)) && o.fired == [OnChangeFrom(Some(c))]
  {
  }

  /** Both set: a date after `to` extends `to` (onChangeTo fires); any other date starts a new
      range at it, clearing `to` and its text (onChangeFrom, then onChangeTo(undefined)). */
  lemma ClickWithBoth(s: PickerState, shown: Date, day: int)
    requires ValidDate(shown)
    requires s.fromDate.Some? && s.toDate.Some?
    ensures var c, o := ClickedDate(shown, day), Click(s, shown, day);
            if Before(s.toDate.value, c) then
              o.next == s.(toDate := Some(c), toDateValue := Format(c)) && o.fired == [OnChangeTo(Some(c))]
            else
              o.next == PickerState(Some(c), None, Format(c), "")
              && o.fired == [OnChangeFrom(Some(c)), OnChangeTo(None)]
  {
  }

  // ---------------------------------------------------------------------------------------------
  // What clicks preserve

  /** Each text input keeps showing its bound. */
  lemma ClickKeepsMirrors(s: PickerState, shown: Date, day: int)
    requires ValidDate(shown) && BoundsValid(s)
    requires MirrorsAgree(s)
    ensures MirrorsAgree(Click(s, shown, day).next)
  {
  }

  /** The bounds the constructor sets up agree with their (empty) texts and are ordered. */
  lemma InitialState()
    ensures BoundsValid(INITIAL) && MirrorsAgree(INITIAL) && Ordered(INITIAL)
  {
  }

  /** A click with both bounds set keeps the range ordered: extending `to` keeps `from` before it,
      and a reset leaves `to` unset. */
  lemma ClickWithBothKeepsOrder(s: PickerState, shown: Date, day: int)
    requires ValidDate(shown)
    requires s.fromDate.Some? && s.toDate.Some? && Ordered(s)
    ensures Ordered(Click(s, shown, day).next)
  {
    var c := ClickedDate(shown, day);
    if Before(s.toDate.value, c) {
      assert Before(s.fromDate.value, c) by {
        if s.fromDate.value != s.toDate.value {
          BeforeTransitive(s.fromDate.value, s.toDate.value, c);
        }
      }
    }
  }

  /** The shown month is `d`'s month or a later one. */
  predicate MonthNotBefore(shown: Date, d: Date) {
    d.year < shown.year || (d.year == shown.year && d.month <= shown.month)
  }

  /** With only `from` set and the calendar showing `from`'s month or a later one, the
      day-of-month test is safe: a new `to` lies strictly after `from`, whatever day is clicked. */
  lemma ClickFromMonthOnwardOrders(s: PickerState, shown: Date, day: int)
    requires ValidDate(shown) && BoundsValid(s)
    requires s.fromDate.Some? && s.toDate.None?
    requires MonthNotBefore(shown, s.fromDate.value)
    ensures var n := Click(s, shown, day).next;
            n.toDate.Some? ==> Before(n.fromDate.value, n.toDate.value)
  {
    var f, c := s.fromDate.value, ClickedDate(shown, day);
    if f.day < day {
      var first := Date(shown.year, shown.month, 1);
      if !(f.year == shown.year && f.month == shown.month) {
        EarlierMonthSmallerDayNumber(f, first);
      }
      BeforeIffDayNumber(f, c);
    }
  }

  /** A day the grid of the shown month has a cell for. */
  predicate GridDay(shown: Date, day: int)
    requires ValidDate(shown)
  {
    1 <= day <= MonthLength(shown.year, shown.month)
  }

  /** With only `from` set and an earlier month shown that has a day after `from`'s day of month,
      clicking the cell of that next day makes a `to` that comes before `from`. */
  lemma ClickInEarlierMonthInverts(s: PickerState, shown: Date)
    requires ValidDate(shown) && BoundsValid(s)
    requires s.fromDate.Some? && s.toDate.None?
    requires !MonthNotBefore(shown, s.fromDate.value)
    requires s.fromDate.value.day < MonthLength(shown.year, shown.month)
    ensures GridDay(shown, s.fromDate.value.day + 1)
    ensures var n := Click(s, shown, s.fromDate.value.day + 1).next;
            n.toDate.Some? && Before(n.toDate.value, n.fromDate.value)
  {
    var f := s.fromDate.value;
    var c := ClickedDate(shown, f.day + 1);
    var last := Date(shown.year, shown.month, MonthLength(shown.year, shown.month));
    EarlierMonthSmallerDayNumber(last, Date(f.year, f.month, 1));
    BeforeIffDayNumber(c, f);
  }

  /** With only `from` set, every click on a cell of the grid keeps the range ordered exactly when
      the calendar shows `from`'s month or a later one, or a month with no day after `from`'s day
      of month. */
  lemma OnlyFromOrderedIff(s: PickerState, shown: Date)
    requires ValidDate(shown) && BoundsValid(s)
    requires s.fromDate.Some? && s.toDate.None?
    ensures (forall day | GridDay(shown, day) :: Ordered(Click(s, shown, day).next))
            <==> MonthNotBefore(shown, s.fromDate.value)
                 || MonthLength(shown.year, shown.month) <= s.fromDate.value.day
  {
    if MonthNotBefore(shown, s.fromDate.value) {
      forall day | GridDay(shown, day) ensures Ordered(Click(s, shown, day).next) {
        ClickFromMonthOnwardOrders(s, shown, day);
      }
    } else if MonthLength(shown.year, shown.month) <= s.fromDate.value.day {
      forall day | GridDay(shown, day) ensures Ordered(Click(s, shown, day).next) {
      }
    } else {
      ClickInEarlierMonthInverts(s, shown);
      var n := Click(s, shown, s.fromDate.value.day + 1).next;
      assert !Ordered(n);
    }
  }

  /** Every click from an ordered state gives an ordered state, provided that a click made while
      only `from` is set is not on a month before `from`'s. */
  lemma ClickKeepsOrder(s: PickerState, shown: Date, day: int)
    requires ValidDate(shown) && BoundsValid(s) && Ordered(s)
    requires s.fromDate.Some? && s.toDate.None? ==> MonthNotBefore(shown, s.fromDate.value)
    ensures Ordered(Click(s, shown, day).next)
  {
    if s.fromDate.Some? && s.toDate.Some? {
      ClickWithBothKeepsOrder(s, shown, day);
    } else if s.fromDate.Some? {
      ClickFromMonthOnwardOrders(s, shown, day);
    }
  }

  /** The day-of-month test breaks the order across months: with `from` on 5 April 2024 and March
      2024 shown, clicking the 10th makes 10 March the `to` of a range that starts on 5 April. */
  lemma CrossMonthClickInvertsRange()
    ensures var s := PickerState(Some(Date(2024, 4, 5)), None, Format(Date(2024, 4, 5)), "");
            var n := Click(s, Date(2024, 3, 1), 10).next;
            n.fromDate == Some(Date(2024, 4, 5)) && n.toDate == Some(Date(2024, 3, 10))
            && Before(n.toDate.value, n.fromDate.value) && !Ordered(n)
  {
    assert ClickedDate(Date(2024, 3, 1), 10) == Date(2024, 3, 10);
  }

  /** Clicking on an equal day of month re-anchors `from`, even though the clicked day may be a
      different calendar day in another month. */
  lemma ClickOnFromDayReanchors(s: PickerState, shown: Date)
    requires ValidDate(shown) && BoundsValid(s)
    requires s.fromDate.Some? && s.toDate.None?
    requires s.fromDate.value.day <= MonthLength(shown.year, shown.month)
    ensures var n := Click(s, shown, s.fromDate.value.day).next;
            n.fromDate == Some(Date(shown.year, shown.month, s.fromDate.value.day)) && n.toDate.None?
  {
  }

  lemma BeforeTransitive(a: Date, b: Date, c: Date)
    requires Before(a, b) && Before(b, c)
    ensures Before(a, c)
  {
  }

  // ---------------------------------------------------------------------------------------------
  // Cell classification

  /** The three backgrounds of a day cell: a bound (#265b5f), inside the range (#1EA1A1), plain (#fff). */
  datatype Cell = Endpoint | InRange | Plain

  function FormatBound(d: Option<Date>): Option<string>
    requires BoundValid(d)
  {
    if d.Some? then Some(Format(d.value)) else None
  }

  /** The background `render` picks for the cell of day `day` of the shown month: a bound when its
      text equals that of `from` or `to`, inside the range when both are set and the date lies
      strictly between them, plain otherwise. */
  function Classify(s: PickerState, shown: Date, day: int): (r: Cell)
    requires ValidDate(shown) && BoundsValid(s)
    ensures r == Endpoint ==> s.fromDate.Some? || s.toDate.Some?
    ensures r == InRange ==> s.fromDate.Some? && s.toDate.Some? && Before(s.fromDate.value, s.toDate.value)
  {
    var date := ClickedDate(shown, day);
    var text := Some(Format(date));
    if text == FormatBound(s.fromDate) || text == FormatBound(s.toDate) then Endpoint
    else if s.fromDate.Some? && s.toDate.Some? && Before(s.fromDate.value, date)
            && Before(date, s.toDate.value) then InRange
    else Plain
  }

  /** All dates involved lie in one era, where the text comparison is calendar-day equality. */
  predicate OneEra(s: PickerState, date: Date) {
    (s.fromDate.Some? ==> (s.fromDate.value.year > 0) == (date.year > 0))
    && (s.toDate.Some? ==> (s.toDate.value.year > 0) == (date.year > 0))
  }

  /** A cell is a bound exactly when its date is the same calendar day as `from` or `to`. */
  lemma ClassifyEndpointIff(s: PickerState, shown: Date, day: int)
    requires ValidDate(shown) && BoundsValid(s)
    requires OneEra(s, ClickedDate(shown, day))
    ensures var date := ClickedDate(shown, day);
            Classify(s, shown, day) == Endpoint <==> s.fromDate == Some(date) || s.toDate == Some(date)
  {
    var date := ClickedDate(shown, day);
    if s.fromDate.Some? {
      FormatInjective(s.fromDate.value, date);
    }
    if s.toDate.Some? {
      FormatInjective(s.toDate.value, date);
    }
  }

  /** A cell is inside the range exactly when both bounds are set and its date lies strictly
      between them. */
  lemma ClassifyInRangeIff(s: PickerState, shown: Date, day: int)
    requires ValidDate(shown) && BoundsValid(s)
    requires OneEra(s, ClickedDate(shown, day))
    ensures var date := ClickedDate(shown, day);
            Classify(s, shown, day) == InRange
            <==> s.fromDate.Some? && s.toDate.Some?
                 && Before(s.fromDate.value, date) && Before(date, s.toDate.value)
  {
    ClassifyEndpointIff(s, shown, day);
    var date := ClickedDate(shown, day);
    if s.fromDate.Some? && s.toDate.Some? && Before(s.fromDate.value, date) && Before(date, s.toDate.value) {
      assert s.fromDate != Some(date) && s.toDate != Some(date);
    }
  }

  /** No cell is inside the range while a bound is unset, or while `from` is not before `to`. */
  lemma NoInRangeWithoutProperRange(s: PickerState, shown: Date, day: int)
    requires ValidDate(shown) && BoundsValid(s)
    requires s.fromDate.None? || s.toDate.None? || !Before(s.fromDate.value, s.toDate.value)
    ensures Classify(s, shown, day) != InRange
  {
    var date := ClickedDate(shown, day);
    if s.fromDate.Some? && s.toDate.Some? && Before(s.fromDate.value, date) && Before(date, s.toDate.value) {
      BeforeTransitive(s.fromDate.value, date, s.toDate.value);
    }
  }
}
