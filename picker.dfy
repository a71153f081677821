/**
 * The SimpleDateRangePicker component as an object: the state fields that `dayClicked`, the
 * navigation buttons and the "Today" button update, and the parts of `render` that compute
 * (days in month, the week rows, the background of every day cell).
 */
module Picker {
  import opened Wrappers
  import opened Dates
  import DateFormat
  import opened Grid
  import opened Selection

  class SimpleDateRangePicker {
    var fromDate: Option<Date>
    var toDate: Option<Date>
    var fromDateValue: string
    var toDateValue: string
    /** The date whose month the calendar shows. */
    var currentCalendarDate: Date

    /** The part of the state `dayClicked` reads and writes. */
    function State(): PickerState
      reads this
    {
      PickerState(fromDate, toDate, fromDateValue, toDateValue)
    }

    /** Every date the component holds is a real calendar day. */
    ghost predicate Valid()
      reads this
    {
      ValidDate(currentCalendarDate) && BoundsValid(State())
    }

    /** The component starts with no bounds, empty inputs, and today's month shown (`today`
        stands for `new Date()`). */
    constructor (today: Date)
      requires ValidDate(today)
      ensures Valid() && State() == INITIAL && currentCalendarDate == today
      ensures MirrorsAgree(State()) && Ordered(State())
    {
      fromDateValue := "";
      toDateValue := "";
      currentCalendarDate := today;
      fromDate := None;
      toDate := None;
    }

    /** A click on day `day` of the grid; returns the callbacks it fires, in order. */
    method DayClicked(day: int) returns (fired: seq<Callback>)
      requires Valid()
      modifies this
      ensures Valid() && currentCalendarDate == old(currentCalendarDate)
      ensures State() == Click(old(State()), old(currentCalendarDate), day).next
      ensures fired == Click(old(State()), old(currentCalendarDate), day).fired
      ensures fromDate.Some?
      ensures old(MirrorsAgree(State())) ==> MirrorsAgree(State())
    {
      ghost var before := State();
      var newDate := ClickedDate(currentCalendarDate, day);
      var text := DateFormat.Format(newDate);
      fired := [];
      if fromDate.Some? && toDate.Some? {
        if Before(toDate.value, newDate) {
          toDate, toDateValue := Some(newDate), text;
          fired := fired + [OnChangeTo(Some(newDate))];
        } else {
          fromDate, fromDateValue := Some(newDate), text;
          toDate, toDateValue := None, "";
          fired := fired + [OnChangeFrom(Some(newDate))];
          fired := fired + [OnChangeTo(None)];
        }
      } else if fromDate.None? {
        fromDate, fromDateValue := Some(newDate), text;
        fired := fired + [OnChangeFrom(Some(newDate))];
      } else if fromDate.value.day < day {
        toDate, toDateValue := Some(newDate), text;
        fired := fired + [OnChangeTo(Some(newDate))];
      } else {
        fromDate, fromDateValue := Some(newDate), text;
        fired := fired + [OnChangeFrom(Some(newDate))];
      }
      if MirrorsAgree(before) {
        ClickKeepsMirrors(before, currentCalendarDate, day);
      }
    }

    /** The "previous month" button, as intended: the month before the shown one. */
    method NavigateBack()
      requires Valid()
      modifies this`currentCalendarDate
      ensures Valid() && currentCalendarDate == ShiftMonth(old(currentCalendarDate), -1)
    {
      currentCalendarDate := ShiftMonth(currentCalendarDate, -1);
    }

    /** The "next month" button, as intended: the month after the shown one. */
    method NavigateNext()
      requires Valid()
      modifies this`currentCalendarDate
      ensures Valid() && currentCalendarDate == ShiftMonth(old(currentCalendarDate), 1)
    {
      currentCalendarDate := ShiftMonth(currentCalendarDate, 1);
    }

    /** The "Today" button; `now` stands for `new Date()`. */
    method ShowToday(now: Date)
      requires Valid() && ValidDate(now)
      modifies this`currentCalendarDate
      ensures Valid() && currentCalendarDate == now
    {
      currentCalendarDate := now;
    }

    /** getCurrentCalendarDateDaysInMonth: the length of the shown month. */
    method DaysInShownMonth() returns (n: int)
      requires Valid()
      ensures n == MonthLength(currentCalendarDate.year, currentCalendarDate.month)
      ensures 28 <= n <= 31
    {
      n := DaysInMonth(currentCalendarDate.year, currentCalendarDate.month);
    }

    /** What `render` computes for the calendar: the week rows of the shown month and, for every
        day in them, the background of its cell. */
    method Render() returns (weeks: seq<seq<int>>, cells: seq<seq<Cell>>)
      requires Valid()
      ensures weeks == MonthWeeks(MonthLength(currentCalendarDate.year, currentCalendarDate.month))
      ensures |cells| == |weeks|
      ensures forall w :: 0 <= w < |weeks| ==> |cells[w]| == |weeks[w]|
      ensures forall w, k :: 0 <= w < |weeks| && 0 <= k < |weeks[w]| ==>
                cells[w][k] == Classify(State(), currentCalendarDate, weeks[w][k])
    {
      var daysInMonth := DaysInShownMonth();
      weeks := BuildWeeks(daysInMonth);
      var s, shown := State(), currentCalendarDate;
      cells := seq(|weeks|, w requires 0 <= w < |weeks| =>
                 seq(|weeks[w]|, k requires 0 <= k < |weeks[w]| => Classify(s, shown, weeks[w][k])));
    }
  }

  /** Finding behind `DaysInShownMonth` and `Render`: for February of year 0 the component's own
      month length lays out 4 rows, the calendar's length 5. */
  lemma YearZeroFebruaryRows()
    ensures |MonthWeeks(DaysInMonthAsWritten(0, 2))| == 4
    ensures |MonthWeeks(DaysInMonth(0, 2))| == 5
  {
    var asWritten, calendar := DaysInMonthAsWritten(0, 2), DaysInMonth(0, 2);
    DaysInMonthAsWrittenYearZero();
    assert asWritten == 28 && calendar == 29;
    MonthWeeksCount(asWritten);
    MonthWeeksCount(calendar);
  }
}
