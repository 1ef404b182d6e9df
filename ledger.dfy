/**
 * The ledger of the finance tracker as the page keeps it: the list of
 * transactions, the two running totals shown in the summary, and the copy
 * of the list kept in the browser's local storage. The operations are the
 * page's event handlers with the form fields they read passed in as
 * parameters.
 */
module LedgerStore {
  import opened Wrappers
  import opened Text
  import opened Calendar
  import opened Transactions

  class Ledger {
    /** The `transactions` array. */
    var transactions: seq<Transaction>
    /** The running totals behind the summary's income and expense fields. */
    var totalIncome: int
    var totalExpense: int
    /** The list stored under the 'transactions' key of local storage, if any. */
    var saved: Option<seq<Transaction>>

    /** Page load: the stored list, or an empty one when nothing is stored; totals start at zero. */
    constructor (stored: Option<seq<Transaction>>)
      ensures transactions == (if stored.Some? then stored.value else [])
      ensures totalIncome == 0 && totalExpense == 0
      ensures saved == stored
    {
      transactions := if stored.Some? then stored.value else [];
      totalIncome, totalExpense := 0, 0;
      saved := stored;
    }

    /** updateSummary's balance. */
    function Balance(): int
      reads this
    {
      totalIncome - totalExpense
    }

    /**
     * addTransaction. On invalid input it rejects (the alert) and changes
     * nothing. Otherwise it appends the installments in order, adds every
     * installment's share to the running total of the entry's type, whatever
     * month is on screen, and saves the list.
     */
    method AddTransaction(rawDescription: string, amount: Option<int>, dueDate: Option<CalendarDate>,
                          kind: string, installments: Option<int>, now: int) returns (accepted: bool)
      modifies this
      ensures accepted == IsValidEntry(Trim(rawDescription), amount, dueDate, installments)
      ensures !accepted ==>
        && transactions == old(transactions) && saved == old(saved)
        && totalIncome == old(totalIncome) && totalExpense == old(totalExpense)
      ensures accepted ==>
        var added := Installments(Trim(rawDescription), Share(amount.value, installments.value),
                                  dueDate.value, kind, installments.value, now);
        && transactions == old(transactions) + added
        && totalIncome == old(totalIncome) + IncomeOf(added)
        && totalExpense == old(totalExpense) + ExpenseOf(added)
        && saved == Some(transactions)
    {
      var description := Trim(rawDescription);
      if !IsValidEntry(description, amount, dueDate, installments) {
        return false;
      }
      AppendInstallments(description, Share(amount.value, installments.value), dueDate.value, kind, installments.value, now);
      saved := Some(transactions);
      return true;
    }

    /**
     * The loop of addTransaction: installment i, for i from 0 up to n, is
     * pushed onto the list and its share added to the running total of its
     * type.
     */
    method AppendInstallments(description: string, share: int, due: CalendarDate, kind: string, n: nat, now: int)
      modifies this`transactions, this`totalIncome, this`totalExpense
      ensures var added := Installments(description, share, due, kind, n, now);
        && transactions == old(transactions) + added
        && totalIncome == old(totalIncome) + IncomeOf(added)
        && totalExpense == old(totalExpense) + ExpenseOf(added)
    {
      for i := 0 to n
        invariant var added := FirstInstallments(description, share, due, kind, n, now, i);
          && transactions == old(transactions) + added
          && totalIncome == old(totalIncome) + IncomeOf(added)
          && totalExpense == old(totalExpense) + ExpenseOf(added)
      {
        var t := Installment(description, share, due, kind, n, now, i);
        TotalsAppend(FirstInstallments(description, share, due, kind, n, now, i), t);
        Push(t);
      }
    }

    /** One step of that loop: the record goes to the end of the list and its amount into the total of its type. */
    method Push(t: Transaction)
      modifies this`transactions, this`totalIncome, this`totalExpense
      ensures transactions == old(transactions) + [t]
      ensures totalIncome == old(totalIncome) + (if IsIncome(t.kind) then t.amount else 0)
      ensures totalExpense == old(totalExpense) + (if IsIncome(t.kind) then 0 else t.amount)
    {
      transactions := transactions + [t];
      if IsIncome(t.kind) {
        totalIncome := totalIncome + t.amount;
      } else {
        totalExpense := totalExpense + t.amount;
      }
    }

    /**
     * markAsPaid: finds the first record with the id and toggles its status
     * between "Aberto" and "Pago", then saves; an unknown id changes nothing.
     */
    method MarkAsPaid(id: int) returns (found: bool)
      modifies this`transactions, this`saved
      ensures found == FirstWithId(old(transactions), id).Some?
      ensures transactions == WithToggled(old(transactions), id)
      ensures saved == if found then Some(transactions) else old(saved)
    {
      var k := 0;
      while k < |transactions| && transactions[k].id != id
        invariant 0 <= k <= |transactions|
        invariant forall j :: 0 <= j < k ==> transactions[j].id != id
      {
        k := k + 1;
      }
      found := k < |transactions|;
      if found {
        var t := transactions[k];
        if t.status == Open {
          transactions := transactions[k := t.(status := Paid)];
        } else {
          transactions := transactions[k := t.(status := Open)];
        }
        saved := Some(transactions);
      }
    }

    /** deleteTransaction: drops every record with the id, keeps the rest in order, and saves. */
    method DeleteTransaction(id: int)
      modifies this`transactions, this`saved
      ensures transactions == WithoutId(old(transactions), id)
      ensures saved == Some(transactions)
    {
      transactions := WithoutId(transactions, id);
      saved := Some(transactions);
    }

    /**
     * filterByMonth: returns the rows to show, the records of the selected
     * month in ledger order, and recomputes both totals from them alone.
     */
    method FilterByMonth(selectedMonth: string) returns (visible: seq<Transaction>)
      modifies this`totalIncome, this`totalExpense
      ensures visible == Visible(transactions, selectedMonth)
      ensures totalIncome == IncomeOf(visible) && totalExpense == ExpenseOf(visible)
      ensures Balance() == NetOf(visible)
    {
      visible := Visible(transactions, selectedMonth);
      totalIncome, totalExpense := 0, 0;
      for i := 0 to |visible|
        invariant totalIncome == IncomeOf(visible[..i])
        invariant totalExpense == ExpenseOf(visible[..i])
      {
        var t := visible[i];
        TotalsStep(visible, i);
        if IsIncome(t.kind) {
          totalIncome := totalIncome + t.amount;
        } else {
          totalExpense := totalExpense + t.amount;
        }
      }
      assert visible[..|visible|] == visible;
      BalanceIsNet(visible);
    }
  }
}
