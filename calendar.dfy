/**
 * Calendar dates as the ledger uses them: a due date chosen in a date
 * field, moved forward by whole months with JavaScript's Date.setMonth, and
 * shown by its Portuguese month name. Months are numbered 0 to 11, as
 * Date.getMonth numbers them; the proleptic Gregorian calendar applies.
 */
module Calendar {
  import opened Text
  import opened Wrappers

  datatype Date = Date(year: int, month: int, day: int)

  predicate IsLeapYear(y: int) {
    y % 4 == 0 && (y % 100 != 0 || y % 400 == 0)
  }

  function DaysInMonth(y: int, m: int): (n: int)
    requires 0 <= m < 12
    ensures 28 <= n <= 31
    ensures n == 31 <==> m in {0, 2, 4, 6, 7, 9, 11}
    ensures n == 30 <==> m in {3, 5, 8, 10}
    ensures n == 29 <==> m == 1 && IsLeapYear(y)
    ensures n == 28 <==> m == 1 && !IsLeapYear(y)
  {
    if m == 1 then (if IsLeapYear(y) then 29 else 28)
    else if m in {3, 5, 8, 10} then 30
    else 31
  }

  predicate IsCalendarDate(d: Date) {
    0 <= d.month < 12 && 1 <= d.day <= DaysInMonth(d.year, d.month)
  }

  /** A day that exists in the calendar. */
  type CalendarDate = d: Date | IsCalendarDate(d) witness Date(1970, 0, 1)

  /** The number of months from January of year 0 to the month of `d`. */
  function MonthOrdinal(d: Date): int {
    d.year * 12 + d.month
  }

  /** Chronological order of days. */
  predicate Before(a: Date, b: Date) {
    MonthOrdinal(a) < MonthOrdinal(b) || (MonthOrdinal(a) == MonthOrdinal(b) && a.day < b.day)
  }

  /**
   * Date.setMonth(getMonth() + k): the month moves forward by k, carrying
   * into the year, and the day of the month is kept; a day the target month
   * does not have rolls over into the following month (31 January plus one
   * month is 2 or 3 March).
   */
  function AddMonths(d: CalendarDate, k: nat): CalendarDate {
    var total := d.month + k;
    var y, m := d.year + total / 12, total % 12;
    var length := DaysInMonth(y, m);
    // December has 31 days, so only a month before December can overflow
    // and the carry never reaches the next year.
    if d.day <= length then Date(y, m, d.day)
    else Date(y, m + 1, d.day - length)
  }

  /**
   * The month k later is reached by whole months; the day of the month is
   * kept if that month has it, and otherwise the days left over are counted
   * into the month after.
   */
  lemma AddMonthsSpec(d: CalendarDate, k: nat)
    ensures var r := AddMonths(d, k);
      var y, m := d.year + (d.month + k) / 12, (d.month + k) % 12;
      MonthOrdinal(Date(y, m, 1)) == MonthOrdinal(d) + k
      && if d.day <= DaysInMonth(y, m) then
           MonthOrdinal(r) == MonthOrdinal(d) + k && r.day == d.day
         else
           MonthOrdinal(r) == MonthOrdinal(d) + k + 1 && r.day == d.day - DaysInMonth(y, m)
  {
  }

  /** Moving by no months keeps the date. */
  lemma AddMonthsZero(d: CalendarDate)
    ensures AddMonths(d, 0) == d
  {
  }

  /**
   * A day that every month has (1 to 28) is kept, and the result is the
   * month exactly k later; any other day lands at most one month late.
   */
  lemma AddMonthsLandsInTargetMonth(d: CalendarDate, k: nat)
    ensures d.day <= 28 ==> AddMonths(d, k).day == d.day && MonthOrdinal(AddMonths(d, k)) == MonthOrdinal(d) + k
    ensures MonthOrdinal(d) + k <= MonthOrdinal(AddMonths(d, k)) <= MonthOrdinal(d) + k + 1
    ensures MonthOrdinal(AddMonths(d, k)) == MonthOrdinal(d) + k <==> AddMonths(d, k).day == d.day
  {
    AddMonthsSpec(d, k);
  }

  /** Each further month of the schedule is strictly later than the one before. */
  lemma AddMonthsIncreasing(d: CalendarDate, k: nat)
    ensures Before(AddMonths(d, k), AddMonths(d, k + 1))
  {
    var a, b := AddMonths(d, k), AddMonths(d, k + 1);
    AddMonthsSpec(d, k);
    AddMonthsSpec(d, k + 1);
    if MonthOrdinal(a) == MonthOrdinal(d) + k + 1 {
      assert a.day < d.day;
    }
  }

  /** 31 January plus one month is 3 March in a common year and 2 March in a leap year. */
  lemma AddMonthsJanuary31(y: int)
    ensures AddMonths(Date(y, 0, 31), 1) == if IsLeapYear(y) then Date(y, 2, 2) else Date(y, 2, 3)
  {
  }

  /** The schedule is in chronological order for any two offsets. */
  lemma {:induction false} AddMonthsMonotone(d: CalendarDate, j: nat, k: nat)
    requires j < k
    ensures Before(AddMonths(d, j), AddMonths(d, k))
    decreases k - j
  {
    AddMonthsIncreasing(d, j);
    if j + 1 < k {
      AddMonthsMonotone(d, j + 1, k);
    }
  }

  /** The month names that toLocaleString('pt-BR', { month: 'long' }) gives. */
  function MonthName(m: int): string
    requires 0 <= m < 12
  {
    match m
    case 0 => "janeiro"  case 1 => "fevereiro"  case 2 => "março"     case 3 => "abril"
    case 4 => "maio"     case 5 => "junho"      case 6 => "julho"     case 7 => "agosto"
    case 8 => "setembro" case 9 => "outubro"    case 10 => "novembro" case _ => "dezembro"
  }

  /** The month a (lower-case) Portuguese month name stands for, if any. */
  function MonthNumber(name: string): (m: Option<int>)
    ensures m.Some? ==> 0 <= m.value < 12 && MonthName(m.value) == name
  {
    if name == "janeiro" then Some(0) else if name == "fevereiro" then Some(1)
    else if name == "março" then Some(2) else if name == "abril" then Some(3)
    else if name == "maio" then Some(4) else if name == "junho" then Some(5)
    else if name == "julho" then Some(6) else if name == "agosto" then Some(7)
    else if name == "setembro" then Some(8) else if name == "outubro" then Some(9)
    else if name == "novembro" then Some(10) else if name == "dezembro" then Some(11)
    else None
  }

  /** Month names are already lower case, and reading a name back gives its month. */
  lemma MonthNameRoundTrip(m: int)
    requires 0 <= m < 12
    ensures Lower(MonthName(m)) == MonthName(m)
    ensures MonthNumber(MonthName(m)) == Some(m)
  {
    var name := MonthName(m);
    forall k | 0 <= k < |name|
      ensures LowerChar(name[k]) == name[k]
    {
    }
  }

  /** No two months share a name, even ignoring case. */
  lemma MonthNameInjective(a: int, b: int)
    requires 0 <= a < 12 && 0 <= b < 12
    ensures Lower(MonthName(a)) == Lower(MonthName(b)) <==> a == b
  {
    MonthNameRoundTrip(a);
    MonthNameRoundTrip(b);
  }
}
