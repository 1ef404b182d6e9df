/**
 * Brazilian money formatting, on integer cents: formatCurrency turns
 * 1234567.5 into "1.234.567,50". The value is first written with two
 * decimals (Number.prototype.toFixed(2)), the decimal point becomes a comma,
 * and a dot goes before every complete group of three integer digits
 * counted from the comma.
 */
module Currency {
  import opened Text
  import opened Wrappers

  function Abs(x: int): nat {
    if x < 0 then -x else x
  }

  function Sign(cents: int): string {
    if cents < 0 then "-" else ""
  }

  /** Two digits for a number of cents below 100, with a leading zero. */
  function TwoDigits(c: nat): (r: string)
    requires c < 100
    ensures |r| == 2 && AllDigits(r) && DecimalValue(r) == c
  {
    var r := [DigitChar(c / 10), DigitChar(c % 10)];
    assert r[..1] == [DigitChar(c / 10)] && r[..1][..0] == [];
    assert DecimalValue(r[..1]) == c / 10;
    r
  }

  /** toFixed(2) of the amount: sign, integer part, a point, exactly two decimals. */
  function ToFixed2(cents: int): string {
    Sign(cents) + NatToString(Abs(cents) / 100) + "." + TwoDigits(Abs(cents) % 100)
  }

  /** Reads a toFixed(2) rendering back into cents. */
  function ParseFixed2(s: string): Option<int> {
    var negative := |s| > 0 && s[0] == '-';
    var body := if negative then s[1..] else s;
    if |body| >= 4 && body[|body| - 3] == '.' && AllDigits(body[..|body| - 3]) && AllDigits(body[|body| - 2..]) then
      var magnitude := DecimalValue(body[..|body| - 3]) * 100 + DecimalValue(body[|body| - 2..]);
      Some(if negative then -magnitude else magnitude)
    else None
  }

  /** Every amount has one two-decimal rendering, and reading it gives the amount back. */
  lemma ToFixed2RoundTrip(cents: int)
    ensures ParseFixed2(ToFixed2(cents)) == Some(cents)
  {
    var s := ToFixed2(cents);
    var digits := NatToString(Abs(cents) / 100);
    var body := digits + "." + TwoDigits(Abs(cents) % 100);
    assert s == Sign(cents) + body;
    assert body[..|body| - 3] == digits;
    assert body[|body| - 2..] == TwoDigits(Abs(cents) % 100);
    DecimalValueOfNatToString(Abs(cents) / 100);
    if cents < 0 {
      assert s[0] == '-' && s[1..] == body;
    } else {
      assert s == body && s[0] != '-';
    }
  }

  /**
   * The replacement of /\B(?=(\d{3})+(?!\d))/g by ".", on a run of digits:
   * a position strictly inside the run that has a positive multiple of three
   * digits after it gets a dot.
   */
  function Group(digits: string): (r: string)
    decreases |digits|
  {
    if |digits| <= 3 then digits
    else Group(digits[..|digits| - 3]) + "." + digits[|digits| - 3..]
  }

  /**
   * A grouped integer part: one to three digits, then any number of groups
   * of a dot and exactly three digits.
   */
  predicate Grouped(g: string)
    decreases |g|
  {
    (1 <= |g| <= 3 && AllDigits(g))
    || (|g| >= 5 && g[|g| - 4] == '.' && AllDigits(g[|g| - 3..]) && Grouped(g[..|g| - 4]))
  }

  function RemoveDots(s: string): string {
    if s == [] then []
    else (if s[0] == '.' then [] else [s[0]]) + RemoveDots(s[1..])
  }

  lemma {:induction false} RemoveDotsConcat(a: string, b: string)
    ensures RemoveDots(a + b) == RemoveDots(a) + RemoveDots(b)
  {
    if a != [] {
      assert (a + b)[1..] == a[1..] + b;
      RemoveDotsConcat(a[1..], b);
    } else {
      assert a + b == b;
    }
  }

  lemma {:induction false} RemoveDotsOfDigits(s: string)
    requires AllDigits(s)
    ensures RemoveDots(s) == s
  {
    if s != [] {
      RemoveDotsOfDigits(s[1..]);
    }
  }

  /** Grouping a non-empty run of digits gives a well-grouped string. */
  lemma {:induction false} GroupIsGrouped(digits: string)
    requires digits != [] && AllDigits(digits)
    ensures Grouped(Group(digits))
    decreases |digits|
  {
    if |digits| > 3 {
      var front, last := digits[..|digits| - 3], digits[|digits| - 3..];
      assert AllDigits(front) && AllDigits(last);
      GroupIsGrouped(front);
      var g := Group(digits);
      assert g == Group(front) + "." + last;
      assert g[..|g| - 4] == Group(front);
      assert g[|g| - 3..] == last;
      assert g[|g| - 4] == '.';
    }
  }

  /** Dropping the dots from a grouped run of digits restores the digits. */
  lemma {:induction false} GroupRemoveDots(digits: string)
    requires AllDigits(digits)
    ensures RemoveDots(Group(digits)) == digits
    decreases |digits|
  {
    if |digits| > 3 {
      var front, last := digits[..|digits| - 3], digits[|digits| - 3..];
      assert AllDigits(front) && AllDigits(last);
      calc {
        RemoveDots(Group(digits));
        { assert Group(digits) == Group(front) + "." + last == Group(front) + ("." + last); }
        RemoveDots(Group(front) + ("." + last));
        { RemoveDotsConcat(Group(front), "." + last); }
        RemoveDots(Group(front)) + RemoveDots("." + last);
        { GroupRemoveDots(front); RemoveDotsOfDot(last); RemoveDotsOfDigits(last); }
        front + last;
        digits;
      }
    } else {
      RemoveDotsOfDigits(digits);
    }
  }

  lemma RemoveDotsOfDot(s: string)
    ensures RemoveDots("." + s) == RemoveDots(s)
  {
    assert ("." + s)[1..] == s;
  }

  /** formatCurrency: "-" for a negative amount, the grouped integer part, a comma, two decimals. */
  function FormatCurrency(cents: int): string {
    Sign(cents) + Group(NatToString(Abs(cents) / 100)) + "," + TwoDigits(Abs(cents) % 100)
  }

  /**
   * A formatted amount has a single comma, exactly two digits after it, and
   * a minus sign in front exactly when the amount is negative.
   */
  lemma FormatCurrencyComma(cents: int)
    ensures var r := FormatCurrency(cents);
      && |r| >= 4
      && r[|r| - 3] == ','
      && AllDigits(r[|r| - 2..])
      && (forall k :: 0 <= k < |r| && k != |r| - 3 ==> r[k] != ',')
      && (cents < 0 <==> r[0] == '-')
  {
    var r := FormatCurrency(cents);
    var digits := NatToString(Abs(cents) / 100);
    var g := Group(digits);
    var two := TwoDigits(Abs(cents) % 100);
    GroupIsGrouped(digits);
    GroupedNoComma(g);
    GroupedStartsWithDigit(g);
    var p := Sign(cents) + g;
    assert forall k :: 0 <= k < |p| ==> p[k] != ',' by {
      assert forall k :: |Sign(cents)| <= k < |p| ==> p[k] == g[k - |Sign(cents)|];
    }
    assert r == p + "," + two;
    assert forall k :: |p| < k < |r| ==> r[k] == two[k - |p| - 1];
    assert forall k :: 0 <= k < |p| ==> r[k] == p[k];
    assert r[|r| - 2..] == two;
    assert r[0] == p[0] == (if cents < 0 then '-' else g[0]);
  }

  /** Between the optional minus sign and the comma stands the grouped integer part. */
  lemma FormatCurrencyGrouped(cents: int)
    ensures var r := FormatCurrency(cents);
      var start := if cents < 0 then 1 else 0;
      |r| >= start + 4 && Grouped(r[start..|r| - 3])
  {
    var r := FormatCurrency(cents);
    var digits := NatToString(Abs(cents) / 100);
    var g := Group(digits);
    GroupIsGrouped(digits);
    GroupedNoComma(g);
    var start := if cents < 0 then 1 else 0;
    assert r == Sign(cents) + g + "," + TwoDigits(Abs(cents) % 100);
    assert r[start..|r| - 3] == g;
  }

  lemma {:induction false} GroupedNoComma(g: string)
    requires Grouped(g)
    ensures |g| >= 1 && forall k :: 0 <= k < |g| ==> g[k] != ','
    decreases |g|
  {
    if !(1 <= |g| <= 3 && AllDigits(g)) {
      var front := g[..|g| - 4];
      GroupedNoComma(front);
      assert forall k :: 0 <= k < |g| - 4 ==> g[k] == front[k];
      assert forall k :: |g| - 3 <= k < |g| ==> g[k] == g[|g| - 3..][k - (|g| - 3)];
    }
  }

  lemma {:induction false} GroupedStartsWithDigit(g: string)
    requires Grouped(g)
    ensures |g| >= 1 && IsDigit(g[0])
    decreases |g|
  {
    if !(1 <= |g| <= 3 && AllDigits(g)) {
      GroupedStartsWithDigit(g[..|g| - 4]);
    }
  }

  /** Replaces the comma by a decimal point: the second half of undoing the formatting. */
  function CommaToPoint(s: string): (r: string)
    ensures |r| == |s|
  {
    if s == [] then []
    else [if s[0] == ',' then '.' else s[0]] + CommaToPoint(s[1..])
  }

  lemma {:induction false} CommaToPointConcat(a: string, b: string)
    ensures CommaToPoint(a + b) == CommaToPoint(a) + CommaToPoint(b)
  {
    if a != [] {
      assert (a + b)[1..] == a[1..] + b;
      CommaToPointConcat(a[1..], b);
    } else {
      assert a + b == b;
    }
  }

  lemma {:induction false} CommaToPointOfDigits(s: string)
    requires AllDigits(s) || s == "-" || s == ""
    ensures CommaToPoint(s) == s
  {
    if s != [] && s != "-" {
      CommaToPointOfDigits(s[1..]);
    }
  }

  /**
   * Removing the dots and turning the comma into a point gives back the
   * two-decimal rendering of the amount.
   */
  lemma FormatCurrencyUnformat(cents: int)
    ensures CommaToPoint(RemoveDots(FormatCurrency(cents))) == ToFixed2(cents)
  {
    var digits := NatToString(Abs(cents) / 100);
    var two := TwoDigits(Abs(cents) % 100);
    GroupRemoveDots(digits);
    RemoveDotsConcat(Sign(cents) + Group(digits) + ",", two);
    RemoveDotsConcat(Sign(cents) + Group(digits), ",");
    RemoveDotsConcat(Sign(cents), Group(digits));
    RemoveDotsOfDigits(two);
    assert RemoveDots(Sign(cents)) == Sign(cents);
    assert RemoveDots(",") == ",";
    var plain := Sign(cents) + digits + "," + two;
    assert RemoveDots(FormatCurrency(cents)) == plain;
    CommaToPointConcat(Sign(cents) + digits + ",", two);
    CommaToPointConcat(Sign(cents) + digits, ",");
    CommaToPointConcat(Sign(cents), digits);
    CommaToPointOfDigits(Sign(cents));
    CommaToPointOfDigits(digits);
    CommaToPointOfDigits(two);
    assert CommaToPoint(",") == ".";
  }
}
