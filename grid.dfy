/**
 * The weeks `render` lays out for the shown month: the day numbers 1..daysInMonth cut into rows
 * of seven from day 1 on, with no offset for the weekday of the first and no padding, the last row
 * holding what remains.
 */
module Grid {

  /** The integers lo, lo + 1, ..., hi - 1. */
  function Range(lo: int, hi: int): (r: seq<int>)
    requires lo <= hi
    ensures |r| == hi - lo
    ensures forall k :: 0 <= k < |r| ==> r[k] == lo + k
  {
    seq(hi - lo, k => lo + k)
  }

  /** `s` in reverse order (JavaScript's `Array.prototype.reverse`). */
  function Reversed(s: seq<int>): (r: seq<int>)
    ensures |r| == |s|
    ensures forall k :: 0 <= k < |s| ==> r[k] == s[|s| - 1 - k]
  {
    if s == [] then [] else [s[|s| - 1]] + Reversed(s[..|s| - 1])
  }

  /** The rows one after another. */
  function Flatten(rows: seq<seq<int>>): seq<int> {
    if rows == [] then [] else Flatten(rows[..|rows| - 1]) + rows[|rows| - 1]
  }

  function Min(a: int, b: int): int {
    if a < b then a else b
  }

  /** How many rows a month of `n` days takes: the ceiling of n / 7. */
  function WeekCount(n: nat): nat {
    (n + 6) / 7
  }

  /** Row `w` (from 0) of a month of `n` days: days 7w + 1 to 7w + 7, cut off after day n. */
  function Week(w: nat, n: nat): seq<int>
    requires w < WeekCount(n)
  {
    Range(7 * w + 1, Min(7 * w + 8, n + 1))
  }

  /** The rows of a month of `n` days. */
  function MonthWeeks(n: nat): seq<seq<int>> {
    seq(WeekCount(n), w requires 0 <= w < WeekCount(n) => Week(w, n))
  }

  lemma MonthWeeksCount(n: nat)
    ensures |MonthWeeks(n)| == WeekCount(n)
  {
  }

  /** The week-building loops of `render`. The first loop pushes a full week, built backwards and
      reversed, for every multiple i of 7 below daysInMonth; the last of these weeks then ends on
      a day before daysInMonth, so the remainder branch always runs and pushes the final days. */
  method BuildWeeks(daysInMonth: int) returns (weeks: seq<seq<int>>)
    requires 7 < daysInMonth
    ensures weeks == MonthWeeks(daysInMonth)
  {
    weeks := [];
    var i := 7;
    while i < daysInMonth
      invariant 7 <= i < daysInMonth + 7
      invariant i == 7 * (|weeks| + 1)
      invariant forall w :: 0 <= w < |weeks| ==> weeks[w] == Range(7 * w + 1, 7 * w + 8)
    {
      var r: seq<int> := [];
      var j := i;
      while j > i - 7
        invariant i - 7 <= j <= i
        invariant |r| == i - j
        invariant forall k :: 0 <= k < |r| ==> r[k] == i - k
      {
        r := r + [j];
        j := j - 1;
      }
      assert Reversed(r) == Range(i - 6, i + 1);
      weeks := weeks + [Reversed(r)];
      i := i + 7;
    }

    var lastWeek := weeks[|weeks| - 1];
    if lastWeek[|lastWeek| - 1] != daysInMonth {
      var finalWeek: seq<int> := [];
      var k := lastWeek[|lastWeek| - 1] + 1;
      while k <= daysInMonth
        invariant i - 6 <= k <= daysInMonth + 1
        invariant finalWeek == Range(i - 6, k)
      {
        finalWeek := finalWeek + [k];
        k := k + 1;
      }
      weeks := weeks + [finalWeek];
    } else {
      assert false;
    }
    assert |weeks| == WeekCount(daysInMonth);
    forall w | 0 <= w < |weeks| ensures weeks[w] == MonthWeeks(daysInMonth)[w] {
    }
  }

  lemma RangeConcat(a: int, b: int, c: int)
    requires a <= b <= c
    ensures Range(a, b) + Range(b, c) == Range(a, c)
  {
  }

  /** Concatenating the first `k` rows gives the days 1 to 7k (or to n, for all the rows). */
  lemma {:induction false} FlattenPrefix(n: nat, k: nat)
    requires k <= WeekCount(n)
    ensures Flatten(MonthWeeks(n)[..k]) == Range(1, Min(7 * k, n) + 1)
  {
    var g := MonthWeeks(n);
    if k > 0 {
      var prefix := g[..k];
      assert prefix[..k - 1] == g[..k - 1];
      assert Flatten(prefix) == Flatten(g[..k - 1]) + g[k - 1];
      FlattenPrefix(n, k - 1);
      assert Min(7 * (k - 1), n) == 7 * (k - 1);
      assert g[k - 1] == Range(7 * (k - 1) + 1, Min(7 * k, n) + 1);
      RangeConcat(1, 7 * (k - 1) + 1, Min(7 * k, n) + 1);
    }
  }

  /** Every day of the month occurs exactly once, in ascending order. */
  lemma MonthWeeksCoverMonth(n: nat)
    ensures Flatten(MonthWeeks(n)) == Range(1, n + 1)
  {
    var g := MonthWeeks(n);
    FlattenPrefix(n, WeekCount(n));
    assert g[..WeekCount(n)] == g;
  }

  /** There are ceil(n / 7) rows; the first starts at day 1; all but the last hold seven days and
      the last holds one to seven. */
  lemma MonthWeeksShape(n: nat)
    requires 1 <= n
    ensures |MonthWeeks(n)| == WeekCount(n) && WeekCount(n) * 7 - 7 < n <= WeekCount(n) * 7
    ensures MonthWeeks(n)[0][0] == 1
    ensures forall w :: 0 <= w < |MonthWeeks(n)| - 1 ==> |MonthWeeks(n)[w]| == 7
    ensures 1 <= |MonthWeeks(n)[|MonthWeeks(n)| - 1]| <= 7
  {
  }
}
