/**
 * The transaction records of the ledger and the pure logic around them:
 * validating and splitting an entry into monthly installments, the
 * open/paid status toggle, deletion by id, and the month projection with its
 * income, expense and balance totals. Amounts are integer cents.
 */
module Transactions {
  import opened Wrappers
  import opened Text
  import opened Calendar

  /** The `type` that counts as income; every other value counts as expense. */
  const Income := "entrada"
  const Open := "Aberto"
  const Paid := "Pago"

  /** `type === 'entrada'`. */
  predicate IsIncome(kind: string) {
    kind == Income
  }

  datatype Transaction = Transaction(
    id: int,
    description: string,
    amount: int,
    date: CalendarDate,
    kind: string,
    status: string)

  // ---------------------------------------------------------------------
  // Adding an entry

  /**
   * The form check of addTransaction, on the trimmed description, the parsed
   * amount and installment count (None where parsing gave NaN) and the due
   * date (None where the field is empty).
   */
  predicate IsValidEntry(description: string, amount: Option<int>, dueDate: Option<CalendarDate>, installments: Option<int>) {
    description != [] && amount.Some? && amount.value > 0 && dueDate.Some?
    && installments.Some? && installments.value > 0
  }

  /** Whole division by repeated subtraction. */
  function Quotient(a: nat, b: nat): nat
    requires b > 0
    decreases a
  {
    if a < b then 0 else 1 + Quotient(a - b, b)
  }

  /** The quotient is the largest q with q * b <= a. */
  lemma {:induction false} QuotientBounds(a: nat, b: nat)
    requires b > 0
    ensures Quotient(a, b) * b <= a < (Quotient(a, b) + 1) * b
    decreases a
  {
    if a >= b {
      QuotientBounds(a - b, b);
    }
  }

  /**
   * The amount of one installment: amount / n rounded to whole cents, a tie
   * going up, as toFixed(2) rounds a positive value.
   */
  function Share(amount: int, n: int): int
    requires amount > 0 && n >= 1
  {
    Quotient(2 * amount + n, 2 * n)
  }

  /**
   * The n equal shares add up to the amount give or take half a cent per
   * installment: 2 * (n * share - amount) lies in (-n, n].
   */
  lemma ShareDrift(amount: int, n: int)
    requires amount > 0 && n >= 1
    ensures -n < 2 * (n * Share(amount, n) - amount) <= n
  {
    var q := Share(amount, n);
    QuotientBounds(2 * amount + n, 2 * n);
    assert q * (2 * n) <= 2 * amount + n < (q + 1) * (2 * n);
    assert 2 * (n * q - amount) == q * (2 * n) - 2 * amount;
  }

  /** A share is a positive number of cents exactly when the amount is at least half a cent per installment. */
  lemma SharePositive(amount: int, n: int)
    requires amount > 0 && n >= 1
    ensures Share(amount, n) >= 0
    ensures Share(amount, n) > 0 <==> 2 * amount >= n
  {
    ShareDrift(amount, n);
    var q := Share(amount, n);
    if q <= 0 {
      assert n * q <= 0;
    }
    if 2 * amount >= n {
      assert 2 * amount + n >= 2 * n;
    }
  }

  /** "<description> (Parcela <i>/<n>)", the description of installment i (from 1) of n. */
  function InstallmentLabel(description: string, i: nat, n: nat): string {
    description + " (Parcela " + NatToString(i) + "/" + NatToString(n) + ")"
  }

  /** The installments of one entry are told apart by their descriptions. */
  lemma InstallmentLabelInjective(description: string, i: nat, j: nat, n: nat)
    requires InstallmentLabel(description, i, n) == InstallmentLabel(description, j, n)
    ensures i == j
  {
    var prefix := description + " (Parcela ";
    var a, b := NatToString(i), NatToString(j);
    var tail := "/" + NatToString(n) + ")";
    assert InstallmentLabel(description, i, n) == prefix + (a + tail);
    assert InstallmentLabel(description, j, n) == prefix + (b + tail);
    var x, y := a + tail, b + tail;
    assert x == (prefix + x)[|prefix|..] == (prefix + y)[|prefix|..] == y;
    if |a| != |b| {
      // The shorter numeral is followed by "/" where the longer one has a digit.
      assert false;
    } else {
      assert a == x[..|a|] == y[..|b|] == b;
      NatToStringInjective(i, j);
    }
  }

  /** Installment i (from 0) of an entry split n ways, created at time `now`. */
  function Installment(description: string, share: int, due: CalendarDate, kind: string, n: nat, now: int, i: nat): Transaction {
    Transaction(now + i, InstallmentLabel(description, i + 1, n), share, AddMonths(due, i), kind, Open)
  }

  /** The first `count` installments of an entry split n ways, in order. */
  function FirstInstallments(description: string, share: int, due: CalendarDate, kind: string, n: nat, now: int, count: nat): (r: seq<Transaction>)
    ensures |r| == count
  {
    if count == 0 then []
    else FirstInstallments(description, share, due, kind, n, now, count - 1) + [Installment(description, share, due, kind, n, now, count - 1)]
  }

  /** The n installments of one entry, in order. */
  function Installments(description: string, share: int, due: CalendarDate, kind: string, n: nat, now: int): (r: seq<Transaction>)
    ensures |r| == n
  {
    FirstInstallments(description, share, due, kind, n, now, n)
  }

  /** Place i holds installment i. */
  lemma {:induction false} InstallmentAt(description: string, share: int, due: CalendarDate, kind: string, n: nat, now: int, count: nat, i: nat)
    requires i < count
    ensures FirstInstallments(description, share, due, kind, n, now, count)[i] == Installment(description, share, due, kind, n, now, i)
  {
    if i < count - 1 {
      InstallmentAt(description, share, due, kind, n, now, count - 1, i);
    }
  }

  /**
   * What the installments of one entry have in common and what sets them
   * apart: all open, all of the entry's type and share; ids and due dates
   * strictly increasing with the installment number, descriptions pairwise
   * distinct.
   */
  lemma InstallmentsOrdered(description: string, share: int, due: CalendarDate, kind: string, n: nat, now: int)
    ensures var r := Installments(description, share, due, kind, n, now);
      && (forall i :: 0 <= i < n ==> r[i].status == Open && r[i].kind == kind && r[i].amount == share)
      && (forall i, j :: 0 <= i < j < n ==> r[i].id < r[j].id && Before(r[i].date, r[j].date))
      && (forall i, j :: 0 <= i < j < n ==> r[i].description != r[j].description)
  {
    var r := Installments(description, share, due, kind, n, now);
    forall i | 0 <= i < n
      ensures r[i] == Installment(description, share, due, kind, n, now, i)
    {
      InstallmentAt(description, share, due, kind, n, now, n, i);
    }
    forall i, j | 0 <= i < j < n
      ensures Before(r[i].date, r[j].date) && r[i].description != r[j].description
    {
      AddMonthsMonotone(due, i, j);
      if r[i].description == r[j].description {
        InstallmentLabelInjective(description, i + 1, j + 1, n);
      }
    }
  }

  /** The first installment falls on the due date itself. */
  lemma FirstInstallmentOnDueDate(description: string, share: int, due: CalendarDate, kind: string, n: nat, now: int)
    requires n >= 1
    ensures Installments(description, share, due, kind, n, now)[0].date == due
  {
    InstallmentAt(description, share, due, kind, n, now, n, 0);
    AddMonthsZero(due);
  }

  // ---------------------------------------------------------------------
  // Totals

  /** Sum of the amounts of the income records. */
  function IncomeOf(ts: seq<Transaction>): int {
    if ts == [] then 0
    else IncomeOf(ts[..|ts| - 1]) + (if IsIncome(ts[|ts| - 1].kind) then ts[|ts| - 1].amount else 0)
  }

  /** Sum of the amounts of all other records. */
  function ExpenseOf(ts: seq<Transaction>): int {
    if ts == [] then 0
    else ExpenseOf(ts[..|ts| - 1]) + (if IsIncome(ts[|ts| - 1].kind) then 0 else ts[|ts| - 1].amount)
  }

  /** Reference definition of the balance: each record signed by its type, summed from the front. */
  function NetOf(ts: seq<Transaction>): int {
    if ts == [] then 0
    else (if IsIncome(ts[0].kind) then ts[0].amount else -ts[0].amount) + NetOf(ts[1..])
  }

  lemma {:induction false} TotalsOfConcat(a: seq<Transaction>, b: seq<Transaction>)
    ensures IncomeOf(a + b) == IncomeOf(a) + IncomeOf(b)
    ensures ExpenseOf(a + b) == ExpenseOf(a) + ExpenseOf(b)
    decreases |b|
  {
    if b == [] {
      assert a + b == a;
    } else {
      var b' := b[..|b| - 1];
      assert (a + b)[..|a + b| - 1] == a + b';
      TotalsOfConcat(a, b');
    }
  }

  /** Extending a prefix by one record adds that record to its total. */
  lemma TotalsStep(ts: seq<Transaction>, i: nat)
    requires i < |ts|
    ensures IncomeOf(ts[..i + 1]) == IncomeOf(ts[..i]) + (if IsIncome(ts[i].kind) then ts[i].amount else 0)
    ensures ExpenseOf(ts[..i + 1]) == ExpenseOf(ts[..i]) + (if IsIncome(ts[i].kind) then 0 else ts[i].amount)
  {
    assert ts[..i + 1][..i] == ts[..i];
  }

  /** Appending a record adds it to the total of its type. */
  lemma TotalsAppend(ts: seq<Transaction>, t: Transaction)
    ensures IncomeOf(ts + [t]) == IncomeOf(ts) + (if IsIncome(t.kind) then t.amount else 0)
    ensures ExpenseOf(ts + [t]) == ExpenseOf(ts) + (if IsIncome(t.kind) then 0 else t.amount)
  {
    assert (ts + [t])[..|ts|] == ts;
  }

  /** The balance, income minus expense, is the signed sum of the records. */
  lemma {:induction false} BalanceIsNet(ts: seq<Transaction>)
    ensures IncomeOf(ts) - ExpenseOf(ts) == NetOf(ts)
  {
    if ts != [] {
      BalanceIsNet(ts[1..]);
      TotalsOfConcat([ts[0]], ts[1..]);
      assert [ts[0]] + ts[1..] == ts;
      assert [ts[0]][..0] == [];
    }
  }

  /**
   * Records of one type and one amount: the income total is all of them, or
   * none of them, and the expense total the other way round.
   */
  lemma {:induction false} TotalsOfUniform(ts: seq<Transaction>, kind: string, amount: int)
    requires forall i :: 0 <= i < |ts| ==> ts[i].kind == kind && ts[i].amount == amount
    ensures IncomeOf(ts) == if kind == Income then |ts| * amount else 0
    ensures ExpenseOf(ts) == if kind == Income then 0 else |ts| * amount
  {
    if ts != [] {
      TotalsOfUniform(ts[..|ts| - 1], kind, amount);
    }
  }

  /**
   * What addTransaction adds to the running totals: every installment's
   * share, n * share in all, on the side of the entry's type, which is within
   * half a cent per installment of the entered amount.
   */
  lemma InstallmentTotals(description: string, amount: int, due: CalendarDate, kind: string, n: nat, now: int)
    requires amount > 0 && n >= 1
    ensures var added := Installments(description, Share(amount, n), due, kind, n, now);
      && IncomeOf(added) + ExpenseOf(added) == n * Share(amount, n)
      && (kind == Income ==> ExpenseOf(added) == 0)
      && (kind != Income ==> IncomeOf(added) == 0)
      && -(n as int) < 2 * (IncomeOf(added) + ExpenseOf(added) - amount) <= n
  {
    var added := Installments(description, Share(amount, n), due, kind, n, now);
    InstallmentsOrdered(description, Share(amount, n), due, kind, n, now);
    TotalsOfUniform(added, kind, Share(amount, n));
    ShareDrift(amount, n);
  }

  // ---------------------------------------------------------------------
  // Order-preserving filtering (Array.prototype.filter)

  function Filter<T>(s: seq<T>, keep: T -> bool): seq<T> {
    if s == [] then []
    else (if keep(s[0]) then [s[0]] else []) + Filter(s[1..], keep)
  }

  /** A filter keeps exactly the elements that pass the test, and no more of them than there were. */
  lemma {:induction false} FilterMembers<T>(s: seq<T>, keep: T -> bool)
    ensures |Filter(s, keep)| <= |s|
    ensures forall i :: 0 <= i < |Filter(s, keep)| ==> Filter(s, keep)[i] in s && keep(Filter(s, keep)[i])
    ensures forall i :: 0 <= i < |s| && keep(s[i]) ==> s[i] in Filter(s, keep)
  {
    if s != [] {
      FilterMembers(s[1..], keep);
      var head := if keep(s[0]) then [s[0]] else [];
      var r := Filter(s, keep);
      assert r == head + Filter(s[1..], keep);
      assert forall i :: |head| <= i < |r| ==> r[i] == Filter(s[1..], keep)[i - |head|];
      assert forall i :: 1 <= i < |s| ==> s[i] == s[1..][i - 1];
    }
  }

  /** Filtering a concatenation filters each part and keeps them in order. */
  lemma {:induction false} FilterConcat<T>(a: seq<T>, b: seq<T>, keep: T -> bool)
    ensures Filter(a + b, keep) == Filter(a, keep) + Filter(b, keep)
  {
    if a == [] {
      assert a + b == b;
    } else {
      var head := if keep(a[0]) then [a[0]] else [];
      calc {
        Filter(a + b, keep);
        { assert (a + b)[0] == a[0] && (a + b)[1..] == a[1..] + b; }
        head + Filter(a[1..] + b, keep);
        { FilterConcat(a[1..], b, keep); }
        head + (Filter(a[1..], keep) + Filter(b, keep));
        (head + Filter(a[1..], keep)) + Filter(b, keep);
        Filter(a, keep) + Filter(b, keep);
      }
    }
  }

  /** A filter that rejects nothing returns the sequence itself. */
  lemma {:induction false} FilterKeepsAll<T>(s: seq<T>, keep: T -> bool)
    requires forall i :: 0 <= i < |s| ==> keep(s[i])
    ensures Filter(s, keep) == s
  {
    if s != [] {
      FilterKeepsAll(s[1..], keep);
    }
  }

  // ---------------------------------------------------------------------
  // Deleting

  /** The ledger after deleteTransaction(id): every record with that id is gone. */
  function WithoutId(ts: seq<Transaction>, id: int): seq<Transaction> {
    Filter(ts, (t: Transaction) => t.id != id)
  }

  /**
   * Deleting removes exactly the records with the id, keeps the others in
   * their original order, and changes nothing when no record has the id.
   */
  lemma WithoutIdSpec(ts: seq<Transaction>, id: int)
    ensures forall t :: t in WithoutId(ts, id) <==> t in ts && t.id != id
    ensures forall a, b :: ts == a + b ==> WithoutId(ts, id) == WithoutId(a, id) + WithoutId(b, id)
    ensures (forall i :: 0 <= i < |ts| ==> ts[i].id != id) ==> WithoutId(ts, id) == ts
  {
    FilterMembers(ts, (t: Transaction) => t.id != id);
    forall a, b | ts == a + b
      ensures WithoutId(ts, id) == WithoutId(a, id) + WithoutId(b, id)
    {
      FilterConcat(a, b, (t: Transaction) => t.id != id);
    }
    if forall i :: 0 <= i < |ts| ==> ts[i].id != id {
      FilterKeepsAll(ts, (t: Transaction) => t.id != id);
    }
  }

  // ---------------------------------------------------------------------
  // Status

  /** markAsPaid: "Aberto" becomes "Pago", anything else becomes "Aberto". */
  function Toggled(status: string): (r: string)
    ensures r == Open || r == Paid
    ensures status == Open || status == Paid ==> r != status
    ensures status != Open && status != Paid ==> r == Open
  {
    if status == Open then Paid else Open
  }

  /** Toggling twice restores a status exactly when it was one of the two known ones. */
  lemma ToggledTwice(status: string)
    ensures Toggled(Toggled(status)) == status <==> status == Open || status == Paid
  {
  }

  /** The index `transactions.find` stops at: the first record with the id. */
  function FirstWithId(ts: seq<Transaction>, id: int): (r: Option<nat>)
    ensures r.Some? ==> r.value < |ts| && ts[r.value].id == id
    ensures r.Some? ==> forall j :: 0 <= j < r.value ==> ts[j].id != id
    ensures r.None? ==> forall j :: 0 <= j < |ts| ==> ts[j].id != id
  {
    if ts == [] then None
    else if ts[0].id == id then Some(0)
    else match FirstWithId(ts[1..], id)
      case None => None
      case Some(k) => Some(k + 1)
  }

  /** The ledger after markAsPaid(id): the first record with the id has its status toggled. */
  function WithToggled(ts: seq<Transaction>, id: int): seq<Transaction> {
    match FirstWithId(ts, id)
    case None => ts
    case Some(k) => ts[k := ts[k].(status := Toggled(ts[k].status))]
  }

  /**
   * Only the status of the first record with the id changes; an unknown id
   * changes nothing.
   */
  lemma WithToggledSpec(ts: seq<Transaction>, id: int)
    ensures var r := WithToggled(ts, id);
      && |r| == |ts|
      && (forall j :: 0 <= j < |ts| && Some(j) != FirstWithId(ts, id) ==> r[j] == ts[j])
      && (forall j :: 0 <= j < |ts| ==> r[j] == ts[j].(status := r[j].status))
      && (FirstWithId(ts, id).Some? ==> r[FirstWithId(ts, id).value].status == Toggled(ts[FirstWithId(ts, id).value].status))
  {
  }

  /** Two ledgers with the same ids at the same places find the same record. */
  lemma FirstWithIdByIds(ts: seq<Transaction>, us: seq<Transaction>, id: int)
    requires |ts| == |us| && forall j :: 0 <= j < |ts| ==> ts[j].id == us[j].id
    ensures FirstWithId(ts, id) == FirstWithId(us, id)
  {
  }

  /** Toggling the same id twice restores the ledger, when the record's status was "Aberto" or "Pago". */
  lemma WithToggledTwice(ts: seq<Transaction>, id: int)
    requires FirstWithId(ts, id).Some? ==> ts[FirstWithId(ts, id).value].status in {Open, Paid}
    ensures WithToggled(WithToggled(ts, id), id) == ts
  {
    var once := WithToggled(ts, id);
    FirstWithIdByIds(ts, once, id);
    match FirstWithId(ts, id)
    case None =>
    case Some(k) =>
      ToggledTwice(ts[k].status);
      assert once[k].status == Toggled(ts[k].status);
  }

  // ---------------------------------------------------------------------
  // Ids

  predicate IdsDistinct(ts: seq<Transaction>) {
    forall i, j :: 0 <= i < j < |ts| ==> ts[i].id != ts[j].id
  }

  /**
   * Appending one entry's installments keeps the ids distinct when the clock
   * reading is later than every id already in the ledger.
   */
  lemma AddKeepsIdsDistinct(ts: seq<Transaction>, added: seq<Transaction>, now: int)
    requires IdsDistinct(ts) && forall i :: 0 <= i < |ts| ==> ts[i].id < now
    requires forall i :: 0 <= i < |added| ==> added[i].id == now + i
    ensures IdsDistinct(ts + added)
  {
    var all := ts + added;
    forall i, j | 0 <= i < j < |all|
      ensures all[i].id != all[j].id
    {
      if j >= |ts| {
        assert all[j] == added[j - |ts|];
        if i >= |ts| {
          assert all[i] == added[i - |ts|];
        }
      }
    }
  }

  /** Toggling a status leaves every id where it was. */
  lemma WithToggledKeepsIds(ts: seq<Transaction>, id: int)
    requires IdsDistinct(ts)
    ensures IdsDistinct(WithToggled(ts, id))
  {
    WithToggledSpec(ts, id);
  }

  /** Deleting keeps the remaining ids distinct. */
  lemma {:induction false} WithoutIdKeepsIds(ts: seq<Transaction>, id: int)
    requires IdsDistinct(ts)
    ensures IdsDistinct(WithoutId(ts, id))
  {
    if ts != [] {
      var rest := ts[1..];
      assert forall k :: 0 <= k < |rest| ==> rest[k] == ts[k + 1];
      WithoutIdKeepsIds(rest, id);
      var tail := WithoutId(rest, id);
      FilterMembers(rest, (t: Transaction) => t.id != id);
      if ts[0].id != id {
        assert WithoutId(ts, id) == [ts[0]] + tail;
        forall k | 0 <= k < |tail|
          ensures tail[k].id != ts[0].id
        {
          var m :| 0 <= m < |rest| && rest[m] == tail[k];
          assert ts[m + 1] == tail[k];
        }
      } else {
        assert WithoutId(ts, id) == tail;
      }
    }
  }

  // ---------------------------------------------------------------------
  // Month projection

  /**
   * The filter of filterByMonth: the long Portuguese name of the record's
   * month equals the selected month, ignoring case; the year plays no part.
   */
  predicate InMonth(t: Transaction, selectedMonth: string) {
    Lower(MonthName(t.date.month)) == Lower(selectedMonth)
  }

  /** The records filterByMonth shows, in ledger order. */
  function Visible(ts: seq<Transaction>, selectedMonth: string): seq<Transaction> {
    Filter(ts, (t: Transaction) => InMonth(t, selectedMonth))
  }

  /**
   * Selecting a month by its name, in any case, shows exactly the records
   * dated in that month, whatever their year; a selection that is no month
   * name shows nothing.
   */
  lemma InMonthByNumber(t: Transaction, selectedMonth: string)
    ensures MonthNumber(Lower(selectedMonth)).Some? ==>
      (InMonth(t, selectedMonth) <==> t.date.month == MonthNumber(Lower(selectedMonth)).value)
    ensures MonthNumber(Lower(selectedMonth)).None? ==> !InMonth(t, selectedMonth)
  {
    MonthNameRoundTrip(t.date.month);
  }

  /**
   * The visible records are those of the ledger in the month, in ledger
   * order, and the projection's balance is their signed sum.
   */
  lemma VisibleSpec(ts: seq<Transaction>, selectedMonth: string)
    ensures |Visible(ts, selectedMonth)| <= |ts|
    ensures forall t :: t in Visible(ts, selectedMonth) <==> t in ts && InMonth(t, selectedMonth)
    ensures forall a, b :: ts == a + b ==> Visible(ts, selectedMonth) == Visible(a, selectedMonth) + Visible(b, selectedMonth)
    ensures IncomeOf(Visible(ts, selectedMonth)) - ExpenseOf(Visible(ts, selectedMonth)) == NetOf(Visible(ts, selectedMonth))
  {
    FilterMembers(ts, (t: Transaction) => InMonth(t, selectedMonth));
    forall a, b | ts == a + b
      ensures Visible(ts, selectedMonth) == Visible(a, selectedMonth) + Visible(b, selectedMonth)
    {
      FilterConcat(a, b, (t: Transaction) => InMonth(t, selectedMonth));
    }
    BalanceIsNet(Visible(ts, selectedMonth));
  }
}
