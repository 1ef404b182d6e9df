# Finance tracker ledger in Dafny

This project models the ledger at the heart of `script.js`, a browser page
that tracks personal income and expenses in Brazilian reais. The ledger holds:

- the list of transactions
- the running totals of income ("entrada") and expense shown in the summary
- the copy of the list kept in local storage

The event handlers become methods of one class, `LedgerStore.Ledger`. What
they read from the form is passed in as parameters:

- `AddTransaction` validates an entry and splits it into monthly installments.
- `MarkAsPaid` toggles a record between "Aberto" and "Pago".
- `DeleteTransaction` removes the records with an id.
- `FilterByMonth` selects the records of a month and recomputes the totals from them.

The pure logic the methods are specified by lives in four modules:

- `Transactions`: the record, installment splitting, totals, filtering, the status toggle and ids.
- `Calendar`: dates, month arithmetic with `Date.setMonth` rollover, and the Portuguese month names.
- `Currency`: `formatCurrency` on integer cents.
- `Text`: trimming, lower-casing and decimal numerals.

Modelling choices:

- Amounts are integer cents. One installment's share is `amount / n` rounded to the nearest cent, with a tie rounding up (`Transactions.Share`).
- Dates are year/month/day with months 0 to 11, as `getMonth` numbers them. Local time is taken to be UTC.
- The clock (`Date.now()`) is a parameter `now`.
- Local storage is the field `saved`: the snapshot of the list last written, or `None`.
- `parseFloat`/`parseInt` results arrive as `Option<int>`, where `None` stands for NaN. An empty date field is `None`.

Where the code and the documented intent differ, the model follows the code:

- A due date whose day does not exist in a later month rolls over into the month after, as `Date.setMonth` does. For example, 31 January plus one month is 2 or 3 March, not the last day of February (`Calendar.AddMonthsJanuary31`).
- `addTransaction` adds every installment to the running totals, including installments outside the month on screen (`Transactions.InstallmentTotals`).
- A share can be 0 cents when the amount is below half a cent per installment (`Transactions.SharePositive`).
- `markAsPaid` on an unknown id does nothing and reports nothing.
- Any status other than "Aberto" becomes "Aberto" on a toggle.

## Model

| member | source | states |
|---|---|---|
| LedgerStore.Ledger.constructor | script.js:15-17 | The list starts as the stored list, or empty when nothing is stored; both totals start at zero. |
| LedgerStore.Ledger.Balance | script.js:21 | The balance: income total minus expense total. |
| LedgerStore.Ledger.AddTransaction | script.js:61-111 | Accepts exactly when the trimmed description is non-empty, the amount is positive, a due date is given and the installment count is positive. On rejection, the list, the totals and the stored copy are unchanged. On acceptance, exactly the n installments are appended after the untouched earlier records, each total grows by the installments of its type, and the new list is saved. |
| LedgerStore.Ledger.AppendInstallments | script.js:75-102 | After the loop, the list is the old list followed by installments 0..n-1 in order, and each running total has grown by the sum of the installments of its type. |
| LedgerStore.Ledger.Push | script.js:88-101 | One loop step: the record goes to the end of the list and its amount into the total of its type; the other total is unchanged. |
| LedgerStore.Ledger.MarkAsPaid | script.js:135-157 | Reports whether some record has the id. The list becomes the one in which only the first record with the id has its status toggled. The list is saved only when such a record exists. |
| LedgerStore.Ledger.DeleteTransaction | script.js:165 | The list becomes the records without the id, in their order, and is saved. |
| LedgerStore.Ledger.FilterByMonth | script.js:34-58 | Returns the records of the selected month in ledger order. Sets the income total to the sum of their "entrada" amounts and the expense total to the sum of the rest, so the balance is their signed sum. |
| Text.Trim | script.js:62 | The result is a slice of the input that neither starts nor ends with a JavaScript white-space character, and everything cut off before and after it is white space. It is empty exactly when the input is all white space. |
| Text.Lower | script.js:42 | Lower-casing keeps the length and lower-cases each character. |
| Text.NatToString | script.js:81 | A number is written as a non-empty run of digits with no leading zero; zero is written "0". |
| Text.DecimalValueOfNatToString | script.js:81 | Reading a written number gives the number back. |
| Text.NatToStringInjective | script.js:81 | Different numbers are written differently. |
| Calendar.AddMonths | script.js:76-77 | `setMonth(getMonth() + k)` on a calendar date: the month moves forward k places, carrying into the year, and a day the target month lacks rolls into the following month. Characterised by `Calendar.AddMonthsSpec`. |
| Calendar.DaysInMonth | script.js:76-77 | Every month has 28 to 31 days: 31 for January, March, May, July, August, October and December; 30 for April, June, September and November; February 29 in a leap year and 28 otherwise. |
| Calendar.AddMonthsSpec | script.js:76-77 | Moving a date k months forward reaches the month k later. The day is kept if that month has it; otherwise the surplus days spill into the following month. |
| Calendar.AddMonthsZero | script.js:76-77 | The first installment (offset 0) keeps the due date. |
| Calendar.AddMonthsLandsInTargetMonth | script.js:76-77 | Days 1 to 28 are always kept. Any date lands in the month k later or the one after, and in the later of the two exactly when the day changed. |
| Calendar.AddMonthsJanuary31 | script.js:76-77 | 31 January plus one month is 2 March in a leap year and 3 March otherwise. |
| Calendar.AddMonthsIncreasing | script.js:75-77 | Each month of the schedule falls strictly after the previous one. |
| Calendar.AddMonthsMonotone | script.js:75-77 | For any two offsets j < k, offset j falls strictly before offset k. |
| Calendar.MonthName | script.js:41 | The long pt-BR month name of a month number, "janeiro" to "dezembro". Inverted by `Calendar.MonthNumber`. |
| Calendar.MonthNumber | script.js:41-42 | A name that is read as a month is that month's Portuguese name. |
| Calendar.MonthNameRoundTrip | script.js:41-42 | Month names are already lower case, and reading a month's name gives the month back. |
| Calendar.MonthNameInjective | script.js:41-42 | Two months have the same name, ignoring case, exactly when they are the same month. |
| Currency.ToFixed2 | script.js:4 | `toFixed(2)` on cents: a "-" for a negative amount, the integer part, a point and two decimals. Read back by `Currency.ToFixed2RoundTrip`. |
| Currency.Group | script.js:6 | The dot insertion of the thousands regex on the integer digits. Characterised by `Currency.GroupIsGrouped` and `Currency.GroupRemoveDots`. |
| Currency.FormatCurrency | script.js:2-7 | `formatCurrency`: sign, dot-grouped integer part, a comma and two decimals. Characterised by the three lemmas below. |
| Currency.TwoDigits | script.js:4 | The cents are written as exactly two digits whose value is the cents. |
| Currency.ToFixed2RoundTrip | script.js:4 | The two-decimal rendering of an amount reads back as that amount. |
| Currency.GroupIsGrouped | script.js:6 | Inserting the thousands dots gives one to three digits followed by groups of a dot and three digits. |
| Currency.GroupRemoveDots | script.js:6 | Dropping the dots from the grouped digits restores the digits. |
| Currency.FormatCurrencyComma | script.js:2-7 | A formatted amount has a single comma with exactly two digits after it, and starts with "-" exactly when the amount is negative. |
| Currency.FormatCurrencyGrouped | script.js:2-7 | Between the optional sign and the comma stands a correctly dot-grouped integer part. |
| Currency.FormatCurrencyUnformat | script.js:3-6 | Removing the dots and turning the comma into a point gives back the two-decimal rendering. |
| Transactions.IsValidEntry | script.js:68 | The form check: a non-empty trimmed description, an amount that parsed and is positive, a due date, and an installment count that parsed and is positive. |
| Transactions.Share | script.js:73-82 | One installment's amount: `amount / n` rounded to whole cents, a tie going up. Bounded by `Transactions.ShareDrift`. |
| Transactions.InstallmentLabel | script.js:81 | The description "<description> (Parcela i/n)". Distinct for distinct i by `Transactions.InstallmentLabelInjective`. |
| Transactions.Installment | script.js:79-86 | The record built for installment i: id now+i, the label, the share, the due date advanced i months, the type and "Aberto". |
| Transactions.QuotientBounds | script.js:73 | The whole quotient q of a by b satisfies q*b <= a < (q+1)*b. |
| Transactions.ShareDrift | script.js:73-82 | The n equal shares add up to the entered amount within half a cent per installment. |
| Transactions.SharePositive | script.js:73-82 | A share is never negative, and is positive exactly when the amount is at least half a cent per installment. |
| Transactions.InstallmentLabelInjective | script.js:81 | The installment descriptions "… (Parcela i/n)" of one entry are distinct for distinct i. |
| Transactions.FirstInstallments | script.js:75 | The first `count` installments number exactly `count`. |
| Transactions.Installments | script.js:75 | An entry split n ways yields exactly n records. |
| Transactions.InstallmentAt | script.js:75-86 | Place i of the list holds installment i, with id now+i, description "(Parcela i+1/n)", the share, the due date advanced i months, the type and status "Aberto". |
| Transactions.InstallmentsOrdered | script.js:75-86 | All installments of an entry are open, of the entry's type and of the same share. Their ids and due dates strictly increase, and their descriptions are pairwise distinct. |
| Transactions.FirstInstallmentOnDueDate | script.js:76-77 | The first installment falls on the due date. |
| Transactions.IncomeOf | script.js:48-55 | The sum of the "entrada" amounts of a list of records. |
| Transactions.ExpenseOf | script.js:48-55 | The sum of the amounts of all other records. |
| Transactions.TotalsOfConcat | script.js:48-55 | The income and expense sums of two lists joined are the sums of each. |
| Transactions.TotalsStep | script.js:48-55 | Extending a prefix by one record adds that record to the total of its type. |
| Transactions.TotalsAppend | script.js:97-101 | Appending a record adds its amount to the total of its type only. |
| Transactions.BalanceIsNet | script.js:21 | Income minus expense equals the sum of the records, each signed by its type. |
| Transactions.TotalsOfUniform | script.js:97-101 | For records of one type and amount, the total of that type is count times amount, and the other total is zero. |
| Transactions.InstallmentTotals | script.js:73-101 | Adding an entry grows the total of its type by n times the share, and the other total by nothing. The growth is within half a cent per installment of the entered amount. |
| Transactions.FilterMembers | script.js:40-43 | A filter keeps exactly the elements that pass the test and is no longer than its input. |
| Transactions.FilterConcat | script.js:40-43 | Filtering keeps relative order: filtering a concatenation is concatenating the filtered parts. |
| Transactions.FilterKeepsAll | script.js:40-43 | A filter that rejects nothing returns its input. |
| Transactions.WithoutId | script.js:165 | The list after the filter by id. Characterised by `Transactions.WithoutIdSpec`. |
| Transactions.WithoutIdSpec | script.js:165 | Deleting keeps exactly the records without the id, in their original relative order, and changes nothing when no record has the id. |
| Transactions.Toggled | script.js:144-152 | "Aberto" becomes "Pago", "Pago" becomes "Aberto", and any other status becomes "Aberto"; the result is always one of the two. |
| Transactions.ToggledTwice | script.js:144-152 | Toggling twice restores a status exactly when it was "Aberto" or "Pago". |
| Transactions.FirstWithId | script.js:141 | The lookup finds the first record with the id, or reports that no record has it. |
| Transactions.WithToggled | script.js:141-155 | The list after `markAsPaid`: the first record with the id, if any, has its status toggled. Characterised by `Transactions.WithToggledSpec`. |
| Transactions.WithToggledSpec | script.js:141-155 | Only the status of the first record with the id changes, and it is toggled. All other records, and all other fields, are unchanged; an unknown id changes nothing. |
| Transactions.FirstWithIdByIds | script.js:141 | The lookup depends only on the ids, so a status change does not move it. |
| Transactions.WithToggledTwice | script.js:141-155 | Toggling the same id twice restores the ledger when that record's status was "Aberto" or "Pago". |
| Transactions.AddKeepsIdsDistinct | script.js:80 | Ids now, now+1, … appended after records whose ids are all below `now` keep all ids distinct. |
| Transactions.WithToggledKeepsIds | script.js:141-155 | A toggle keeps the ids distinct. |
| Transactions.WithoutIdKeepsIds | script.js:165 | A deletion keeps the ids distinct. |
| Transactions.InMonth | script.js:41-42 | The filter's test: the record's month name equals the selection, both lower-cased. |
| Transactions.Visible | script.js:40-43 | The records the month filter keeps, in ledger order. Characterised by `Transactions.VisibleSpec`. |
| Transactions.InMonthByNumber | script.js:40-43 | A record is in the selected month exactly when its month number is the one the selection names, whatever the case of the selection and the record's year. A selection that names no month matches nothing. |
| Transactions.VisibleSpec | script.js:40-43 | The visible records are exactly those of the ledger in the month, in ledger order, and there are no more of them than records in the ledger; with the concatenation clause this fixes the projection record by record. Their balance is their signed sum. |

## Left out

- The DOM is not modelled: reading the form, `addTransactionToTable`, showing new installments of the month on screen, `alert`, clearing the form, the listeners and `initialize`. The page's display is outside the ledger's state.
- `JSON.parse`/`JSON.stringify` are not modelled; local storage is a snapshot of the list. Corrupt stored JSON makes the source throw at load; that path is not modelled.
- Floating point is not modelled: amounts are integer cents, and `toFixed(2)` is rounding to the nearest cent with ties up. The exponential form `toFixed` uses for magnitudes of 10^21 and above is not modelled either.
- Transactions.Share: rounds the exact quotient; it does not model the binary floating-point error of `amount / installments` before `toFixed(2)`.
- `Date` and time zones are not modelled: dates are calendar dates read in UTC. `toLocaleString('pt-BR', { month: 'long' })` is the table `Calendar.MonthName`, and `toISOString`/`formatDate` are not modelled.
- LedgerStore.Ledger.AddTransaction: reads the clock once, as `now`; the source calls `Date.now()` on every iteration, so ids there may be larger than now+i.
- Transactions.AddKeepsIdsDistinct: id uniqueness rests on its requirement that every existing id is below `now`, which the source does not guarantee. Ids `Date.now()+i` collide when an entry follows an n-installment entry within n-1 milliseconds, or when the clock goes back.
- LedgerStore.Ledger.DeleteTransaction: leaves the totals as they are. The source also subtracts the amount it re-parses from the row's displayed text, which depends on the rendered table.
- Ids are plain integers; the loose `==`/`!=` between the string row id and the numeric id is not modelled.
- Text.Lower: covers the Basic Latin and Latin-1 letters only, which include every month name; the rest of Unicode case mapping is not modelled.
- `parseFloat` and `parseInt` of the form fields are not modelled; their results are parameters.
