/**
 * The text `format(date, 'MM/dd/yyyy')` of date-fns produces for the picker's text mirrors and
 * for its same-day test: month and day of month as at least two decimal digits, the year of era
 * as at least four, separated by slashes.
 *
 * date-fns' `y` tokens print the year of era, so the year before 1 (JavaScript's year 0) prints as
 * 1, year -1 as 2 and so on; the text then names a calendar day only within one era.
 */
module DateFormat {
  import opened Dates

  predicate IsDigit(c: char) {
    '0' <= c <= '9'
  }

  function DigitChar(k: int): (c: char)
    requires 0 <= k <= 9
    ensures IsDigit(c) && c as int - '0' as int == k
  {
    ('0' as int + k) as char
  }

  /** The decimal numeral of `n` without leading zeros, as `Number.prototype.toString` gives it. */
  function Decimal(n: nat): (s: string)
    ensures 1 <= |s|
    ensures n < 100 ==> |s| <= 2
    ensures forall i :: 0 <= i < |s| ==> IsDigit(s[i])
  {
    if n < 10 then [DigitChar(n)] else Decimal(n / 10) + [DigitChar(n % 10)]
  }

  function Zeros(k: nat): (s: string)
    ensures |s| == k && forall i :: 0 <= i < k ==> s[i] == '0'
  {
    seq(k, _ => '0')
  }

  /** `s` with zeros added in front until it is `width` characters long (date-fns'
      `addLeadingZeros`). */
  function PadStart(s: string, width: nat): (r: string)
    ensures |r| == if |s| < width then width else |s|
  {
    if |s| < width then Zeros(width - |s|) + s else s
  }

  /** The number a string of decimal digits denotes; the inverse of the numerals above. */
  function DecimalValue(s: string): int {
    if s == [] then 0 else DecimalValue(s[..|s| - 1]) * 10 + (s[|s| - 1] as int - '0' as int)
  }

  lemma {:induction false} DecimalValueOfDecimal(n: nat)
    ensures DecimalValue(Decimal(n)) == n
  {
    if n >= 10 {
      var s := Decimal(n / 10) + [DigitChar(n % 10)];
      assert s[..|s| - 1] == Decimal(n / 10);
      DecimalValueOfDecimal(n / 10);
    }
  }

  lemma {:induction false} LeadingZerosAddNothing(k: nat, s: string)
    ensures DecimalValue(Zeros(k) + s) == DecimalValue(s)
    decreases |s|, k
  {
    if s == [] {
      assert Zeros(k) + s == Zeros(k);
      if k > 0 {
        assert Zeros(k)[..k - 1] == Zeros(k - 1);
        LeadingZerosAddNothing(k - 1, []);
        assert Zeros(k - 1) + [] == Zeros(k - 1);
      }
    } else {
      var z := Zeros(k) + s;
      assert z[..|z| - 1] == Zeros(k) + s[..|s| - 1];
      LeadingZerosAddNothing(k, s[..|s| - 1]);
    }
  }

  /** Reading back a zero-padded numeral gives the number. */
  lemma PaddedDecimalRoundTrip(n: nat, width: nat)
    ensures DecimalValue(PadStart(Decimal(n), width)) == n
  {
    DecimalValueOfDecimal(n);
    if |Decimal(n)| < width {
      LeadingZerosAddNothing(width - |Decimal(n)|, Decimal(n));
    }
  }

  /** The year date-fns prints for JavaScript's full year `y`. */
  function EraYear(y: int): (r: nat)
    ensures r >= 1
    ensures y > 0 ==> r == y
    ensures y <= 0 ==> r == 1 - y
  {
    if y > 0 then y else 1 - y
  }

  /** `format(d, 'MM/dd/yyyy')`. */
  function Format(d: Date): (s: string)
    requires ValidDate(d)
    ensures |s| >= 10 && s[2] == '/' && s[5] == '/'
  {
    PadStart(Decimal(d.month), 2) + "/" + PadStart(Decimal(d.day), 2) + "/"
      + PadStart(Decimal(EraYear(d.year)), 4)
  }

  /** The three fields of the text read back as month, day of month and year of era. */
  lemma FormatFields(d: Date)
    requires ValidDate(d)
    ensures DecimalValue(Format(d)[0..2]) == d.month
    ensures DecimalValue(Format(d)[3..5]) == d.day
    ensures DecimalValue(Format(d)[6..]) == EraYear(d.year)
  {
    var mm, dd := PadStart(Decimal(d.month), 2), PadStart(Decimal(d.day), 2);
    var yyyy := PadStart(Decimal(EraYear(d.year)), 4);
    var s := mm + "/" + dd + "/" + yyyy;
    assert s[0..2] == mm && s[3..5] == dd && s[6..] == yyyy;
    PaddedDecimalRoundTrip(d.month, 2);
    PaddedDecimalRoundTrip(d.day, 2);
    PaddedDecimalRoundTrip(EraYear(d.year), 4);
  }

  /** Two dates have the same text exactly when month, day and year of era agree. */
  lemma FormatEqualIff(a: Date, b: Date)
    requires ValidDate(a) && ValidDate(b)
    ensures Format(a) == Format(b)
            <==> a.month == b.month && a.day == b.day && EraYear(a.year) == EraYear(b.year)
  {
    if Format(a) == Format(b) {
      FormatFields(a);
      FormatFields(b);
    }
  }

  /** Within one era, equal text means the same calendar day: the string comparison of the
      component tests calendar-day equality. */
  lemma FormatInjective(a: Date, b: Date)
    requires ValidDate(a) && ValidDate(b)
    requires (a.year > 0) == (b.year > 0)
    ensures Format(a) == Format(b) <==> a == b
  {
    FormatEqualIff(a, b);
  }

  /** Across eras it does not: 1 January of year 0 prints like 1 January of year 1. */
  lemma FormatConflatesEras()
    ensures Format(Date(0, 1, 1)) == Format(Date(1, 1, 1))
  {
  }
}
