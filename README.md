# Bank ledger engine

This project models the account ledger behind the Swing/SQLite "Bank
Management System". The repository has two diverging copies of the same
program: `Bank-Management-System` (the first copy) and `BankManagementSystem`
(the second copy). Each keeps four tables:
- `accounts`: number, name, password digest, balance, blocked flag and, in
  the first copy, profile columns;
- `loans`: id, owner, `loan_amount`, `remaining_amount`;
- `transactions`: owner, type, amount;
- `admins`: number and password digest.

Each action handler validates its input in a fixed order. It then issues SQL
statements that update these tables in place.

The model has these layers:

- `Ledger`: the rows as datatypes and the database as a `State` value.
  - Tables are sequences in rowid order and the admins table is a map.
  - The module also holds the lookups, sums and functions the SQL statements
    denote.
  - It defines the invariant `Inv`: distinct account numbers, balances never
    negative, `0 < loan_amount`, `0 <= remaining_amount <= loan_amount`, and
    loan ids ascending below the AUTOINCREMENT counter.
  - It defines the reference condition `Referential`: every loan and record
    belongs to an existing account.
- `EngineOps`: the operations both copies share, as step functions. These are
  deposit, withdraw, transfer, loan issuance, loan repayment, the interest
  update of one row, customer login and the admin bootstrap.
  - Each returns an outcome (`Result`) and the committed state.
  - A refused operation returns the state it was given.
- `EngineLemmas`: what those operations promise:
  - the exact change each success makes, and the refusals;
  - conservation of money by transfers;
  - the round trip of a transfer and its reverse;
  - the "fully repaid" signal;
  - preservation of `Inv` and `Referential`.
- `Engine`: the class `Bank`, whose fields are the four tables.
  - Its statement methods are the single `UPDATE`/`INSERT`/`DELETE`
    statements the handlers issue.
  - Its handler methods run the checks and statements of one action in the
    source's order. Each is proved to commit exactly the outcome of its step
    function.
- `VariantOne` and `VariantOneHandlers`: the first copy's own actions.
  - The interest action has a range check and walks the accounts one row at
    a time, updating each balance and logging an INTEREST record.
  - Block and unblock are separate actions.
  - Delete cascades to the account's loans and records.
  - The profile edit covers every profile column.
  - Registration takes the full profile.
  - Also here: the admin credential change and the account search of the
    account viewer.
- `VariantTwo` and `VariantTwoHandlers`: the second copy's own actions.
  - Block is a toggle.
  - Interest is one bulk multiply, with no range check and no records.
  - Delete removes only the account row.
  - The profile edit sets only the name and password.
  - Registration takes only a name and password.
  - Lemmas relate each of these to the first copy's version: `ToggleBlockAgreesWithBlock`, `ToggleBlockAgreesWithUnblock`, `BulkInterestAgreesWithSetInterestRate`, `DeleteAgreesOnAccounts`, `EditProfileAgreesWithFirstCopy` and `RegisterAgreesWithFirstCopy`.

Money is an exact `real`. The password digest (SHA-256 in the source) is an
arbitrary function `hash: string -> Digest`: every property holds whatever
function it is. The logged-in account, the generated account number, the text
the user typed and the admin's answer to every confirmation dialog ("yes") are
parameters of the operations. Each table's order stands in for timestamps.

Where the code and its own description differ, the model follows the code:

- Withdraw and transfer never check the blocked flag. Only customer login
  refuses a blocked account.
- The second copy's interest action has no range check. With `rate < -100` it
  drives every positive balance negative: `VariantTwo.BulkInterestBelowMinusHundred`.
- The first copy's profile edit writes the digest of whatever the password
  field holds, including an empty field. If the logged-in row is missing, its
  lookup finds nothing and nothing changes.
- The first copy refuses to rename an admin to its own id: the "new id
  already exists" check finds the admin's own row.
- The second copy's delete leaves the account's loans and records behind.
  The tables declare foreign keys, but SQLite does not enforce them unless
  `PRAGMA foreign_keys` is set, and the code never sets it. After such a
  delete `Referential` fails: `VariantTwo.DeleteOrphansLoan`,
  `VariantTwo.DeleteOrphansRecord`.

## Model

| member | source | states |
|---|---|---|
| Ledger.NewAccount | Bank-Management-System/java/Bank/BankManagementSystem.java:1678-1723 | a new accounts row has the column defaults: balance 0.0 and not blocked, with the given number, name, digest and profile |
| Ledger.Find | Bank-Management-System/java/Bank/BankManagementSystem.java:193-200 | the lookup `WHERE account_number = ?` finds a row exactly when the number is in the table, and the row it finds carries that number |
| Ledger.FindFirst | Bank-Management-System/java/Bank/BankManagementSystem.java:193-200 | the lookup returns the first row with the number |
| Ledger.FindUnique | Bank-Management-System/java/Bank/BankManagementSystem.java:1678-1723 | under the primary key the lookup of row k's number returns row k |
| Ledger.IdsIndex | Bank-Management-System/java/Bank/BankManagementSystem.java:193-200 | a number is present exactly when some row carries it |
| Ledger.SetFlagOnlyFlag | Bank-Management-System/java/Bank/BankManagementSystem.java:1383-1386 | `Ledger.SetFlag`, the `UPDATE accounts SET is_blocked = ?` of one row, keeps every number, lookup, other row and the total money |
| Ledger.SetFlagKeeps | Bank-Management-System/java/Bank/BankManagementSystem.java:1383-1386 | setting the flag keeps the invariant and every reference |
| Ledger.AccountsWithout | Bank-Management-System/java/Bank/BankManagementSystem.java:1597 | `DELETE FROM accounts WHERE account_number = ?` keeps only rows with other numbers, each from the table |
| Ledger.AccountsWithoutIds | Bank-Management-System/java/Bank/BankManagementSystem.java:1597 | the delete removes exactly that number from the set of numbers |
| Ledger.AccountsWithoutRowOf | Bank-Management-System/java/Bank/BankManagementSystem.java:1597 | every other account is still found, with its row unchanged |
| Ledger.AccountsWithoutKeeps | Bank-Management-System/java/Bank/BankManagementSystem.java:1597 | the rows left have distinct numbers and non-negative balances |
| Ledger.AccountsWithoutUnique | Bank-Management-System/java/Bank/BankManagementSystem.java:1597 | the rows left have distinct numbers |
| Ledger.FirstActive | Bank-Management-System/java/Bank/BankManagementSystem.java:1062-1069 | the repayment query picks the first loan that is active for the account (`Ledger.ActiveOf`: `account_number = ? AND remaining_amount > 0`); no loan before it is active, and none at all when it finds nothing |
| Ledger.LoansOf | Bank-Management-System/java/Bank/BankManagementSystem.java:1596 | the loans of an account: every loan kept is owned by it and taken from the table, and every loan of the table that it owns is kept |
| Ledger.LoansWithout | Bank-Management-System/java/Bank/BankManagementSystem.java:1596 | `DELETE FROM loans WHERE account_number = ?` keeps only loans of other owners, each from the table |
| Ledger.LoansWithoutLoansOf | Bank-Management-System/java/Bank/BankManagementSystem.java:1596 | afterwards that owner has no loans and every other owner has the same loans in the same order |
| Ledger.LoansWithoutOutstandingOf | Bank-Management-System/java/Bank/BankManagementSystem.java:1596 | every other owner's outstanding sum is unchanged |
| Ledger.LoansWithoutOutstanding | Bank-Management-System/java/Bank/BankManagementSystem.java:1596 | the bank-wide outstanding sum drops by exactly what the owner owed |
| Ledger.LoansWithoutKeeps | Bank-Management-System/java/Bank/BankManagementSystem.java:1596 | the loans left keep their bounds and ids ascending below the counter |
| Ledger.LoansWithoutAscending | Bank-Management-System/java/Bank/BankManagementSystem.java:1596 | the loans left keep table order, so their ids still ascend |
| Ledger.RecordsOf | Bank-Management-System/java/Bank/BankManagementSystem.java:1595 | the records of an owner (the rows `WHERE account_number = ?` selects in the transactions table): every record kept is the owner's and from the log, and every record of the owner in the log is kept |
| Ledger.RecordsWithout | Bank-Management-System/java/Bank/BankManagementSystem.java:1595 | `DELETE FROM transactions WHERE account_number = ?` keeps only records of other owners, each from the log |
| Ledger.RecordsWithoutRecordsOf | Bank-Management-System/java/Bank/BankManagementSystem.java:1595 | afterwards that owner has no records and every other owner keeps the same records |
| Ledger.Newest | Bank-Management-System/java/Bank/BankManagementSystem.java:628 | `ORDER BY timestamp DESC LIMIT count`: exactly `min(count, n)` of the n records, line k being the k-th newest |
| Ledger.Recent | Bank-Management-System/java/Bank/BankManagementSystem.java:628 | the activity query lists the owner's `min(count, n)` newest records, newest first: line k is the owner's k-th newest record, each owned by the account and from the log |
| EngineOps.DepositMoney | Bank-Management-System/java/Bank/BankManagementSystem.java:770-798 | succeeds exactly for a positive amount and an existing account; an amount of at most 0 is refused as invalid; a refusal changes nothing |
| EngineOps.Covered | Bank-Management-System/java/Bank/BankManagementSystem.java:814 | the guarded debit `... AND balance >= ?` changes the account's row exactly when it holds at least the amount |
| EngineOps.WithdrawMoney | Bank-Management-System/java/Bank/BankManagementSystem.java:800-829 | succeeds exactly for a positive amount the balance covers; a refusal changes nothing |
| EngineOps.TransferFunds | Bank-Management-System/java/Bank/BankManagementSystem.java:866-930 | succeeds exactly when the target field is non-empty, the amount is positive, the target exists and the source covers the amount; a refusal changes nothing |
| EngineOps.ApplyForLoan | Bank-Management-System/java/Bank/BankManagementSystem.java:1002-1047 | succeeds exactly for `0 < amount <= 10000` and an existing account; above 10000 the reason is the loan limit; a refusal changes nothing |
| EngineOps.RepayLoan | Bank-Management-System/java/Bank/BankManagementSystem.java:1049-1111 | succeeds exactly for a positive amount, an active loan whose remaining amount is at least the amount, and a balance that covers it; a refusal changes nothing |
| EngineOps.Accrue | Bank-Management-System/java/Bank/BankManagementSystem.java:2128 | the interest update changes the balance column of a row and nothing else |
| EngineOps.Accrued | BankManagementSystem/java/Bank/BankManagementSystem.java:867 | the bulk interest update keeps the number of rows |
| EngineOps.Login | Bank-Management-System/java/Bank/BankManagementSystem.java:193-222 | a customer logs in exactly when the account exists, is not blocked and the digest of the password matches |
| EngineOps.SetupAdmin | Bank-Management-System/java/Bank/BankManagementSystem.java:47-70 | after start-up the bootstrap admin exists; when it was missing it is inserted with the bootstrap digest and nothing else changes; an existing one is left alone; every other admin keeps its digest; the customer tables are untouched |
| EngineLemmas.DepositCredits | Bank-Management-System/java/Bank/BankManagementSystem.java:779-794 | a deposit adds exactly the amount to that balance and to the bank's total, appends one DEPOSIT record of the amount, and leaves the other accounts, the loans and the admins as they were |
| EngineLemmas.DepositRejects | Bank-Management-System/java/Bank/BankManagementSystem.java:779-794 | an amount of at most 0 or a missing account changes nothing |
| EngineLemmas.WithdrawDebits | Bank-Management-System/java/Bank/BankManagementSystem.java:809-824 | a covered withdrawal takes exactly the amount, leaves a non-negative balance, appends one WITHDRAWAL record and touches no other account |
| EngineLemmas.WithdrawOverdraftRejected | Bank-Management-System/java/Bank/BankManagementSystem.java:809-824 | an uncovered withdrawal, or one from a missing account, is refused with no change and no record |
| EngineLemmas.TransferShape | Bank-Management-System/java/Bank/BankManagementSystem.java:876-929 | a successful transfer is the debit of the source row, the credit of the target row, then TRANSFER_OUT and TRANSFER_IN |
| EngineLemmas.TransferConservesMoney | Bank-Management-System/java/Bank/BankManagementSystem.java:876-929 | a transfer keeps the sum of all balances |
| EngineLemmas.TransferMovesMoney | Bank-Management-System/java/Bank/BankManagementSystem.java:876-929 | between two accounts the source loses and the target gains exactly the amount |
| EngineLemmas.TransferToSelf | Bank-Management-System/java/Bank/BankManagementSystem.java:876-929 | a transfer to oneself changes no balance yet writes both records |
| EngineLemmas.TransferLeavesOthers | Bank-Management-System/java/Bank/BankManagementSystem.java:876-929 | every account other than the two parties is as it was |
| EngineLemmas.TransferRejects | Bank-Management-System/java/Bank/BankManagementSystem.java:876-929 | a missing target or an uncovered source aborts with no change |
| EngineLemmas.TransferRoundTrip | Bank-Management-System/java/Bank/BankManagementSystem.java:876-929 | transferring the same amount back succeeds and restores every balance; the log holds all four records in order |
| EngineLemmas.IssueLoanCredits | Bank-Management-System/java/Bank/BankManagementSystem.java:1010-1043 | a loan credits the amount, appends one loan with `loan_amount = remaining_amount = amount` and leaves the other loans alone; it also writes one LOAN record and raises the outstanding sums by the amount |
| EngineLemmas.RepayLoanShape | Bank-Management-System/java/Bank/BankManagementSystem.java:1057-1107 | a successful repayment is the guarded debit plus the decrement of the first active loan, and its value is `remaining - amount <= 0` |
| EngineLemmas.RepayLoanDebits | Bank-Management-System/java/Bank/BankManagementSystem.java:1057-1107 | a repayment debits exactly the amount from the payer's balance and total money, keeps that balance non-negative, touches no other account and writes one LOAN_REPAYMENT record |
| EngineLemmas.RepayLoanDecrements | Bank-Management-System/java/Bank/BankManagementSystem.java:1057-1107 | only the selected loan changes, by exactly the amount; both outstanding sums drop by the amount; "fully repaid" is reported exactly when that loan reaches 0 |
| EngineLemmas.RepayLoanRejects | Bank-Management-System/java/Bank/BankManagementSystem.java:1057-1107 | no active loan, over-repayment and an uncovered balance each give their own error and change nothing |
| EngineLemmas.TwoInstalmentsRepayLoan | Bank-Management-System/java/Bank/BankManagementSystem.java:1057-1107 | two instalments adding up to the remaining amount: the first is not reported final, the second is, and the loan ends at 0 |
| EngineLemmas.AdjustFacts | Bank-Management-System/java/Bank/BankManagementSystem.java:784 | `Ledger.Adjust`, the `balance = balance + ?` of the account's row, raises that balance by exactly the delta, keeps the lookups and every other account's row, and raises the total money by the delta |
| Ledger.TotalMoneyUpdate | Bank-Management-System/java/Bank/BankManagementSystem.java:736 | `Ledger.TotalMoney`, `SUM(balance)`: rewriting one row changes the sum by exactly the change of that row's balance |
| Ledger.TotalMoneyAppend | Bank-Management-System/java/Bank/BankManagementSystem.java:736 | a new row adds exactly its balance to `SUM(balance)` |
| Ledger.TotalOutstandingUpdate | Bank-Management-System/java/Bank/BankManagementSystem.java:753 | `Ledger.TotalOutstanding`, `SUM(remaining_amount)`: rewriting one loan changes the sum by exactly the change of its remaining amount |
| Ledger.OutstandingOfUpdate | Bank-Management-System/java/Bank/BankManagementSystem.java:615 | `Ledger.OutstandingOf`, `SUM(remaining_amount) ... WHERE account_number = ?`: rewriting one of the owner's loans changes the owner's sum by exactly the change of its remaining amount |
| EngineLemmas.AdjustKeepsInv | Bank-Management-System/java/Bank/BankManagementSystem.java:784 | a balance update keeps the invariant when the new balance is not negative |
| EngineLemmas.DepositKeepsInv | Bank-Management-System/java/Bank/BankManagementSystem.java:779-794 | deposit keeps the invariant |
| EngineLemmas.WithdrawKeepsInv | Bank-Management-System/java/Bank/BankManagementSystem.java:809-824 | withdraw keeps the invariant: the guard keeps the balance non-negative |
| EngineLemmas.TransferKeepsInv | Bank-Management-System/java/Bank/BankManagementSystem.java:876-929 | transfer keeps the invariant |
| EngineLemmas.IssueLoanKeepsInv | Bank-Management-System/java/Bank/BankManagementSystem.java:1010-1043 | loan issuance keeps the invariant, including the loan bounds and fresh ascending loan ids |
| EngineLemmas.RepayLoanKeepsInv | Bank-Management-System/java/Bank/BankManagementSystem.java:1057-1107 | repayment keeps the invariant, including `0 <= remaining_amount <= loan_amount` |
| EngineLemmas.SetupAdminKeepsInv | Bank-Management-System/java/Bank/BankManagementSystem.java:47-70 | the bootstrap keeps the invariant |
| EngineLemmas.DepositKeepsReferential | Bank-Management-System/java/Bank/BankManagementSystem.java:779-794 | deposit keeps every loan and record pointing at an account |
| EngineLemmas.WithdrawKeepsReferential | Bank-Management-System/java/Bank/BankManagementSystem.java:809-824 | withdraw keeps every reference |
| EngineLemmas.TransferKeepsReferential | Bank-Management-System/java/Bank/BankManagementSystem.java:876-929 | transfer keeps every reference |
| EngineLemmas.IssueLoanKeepsReferential | Bank-Management-System/java/Bank/BankManagementSystem.java:1010-1043 | loan issuance keeps every reference |
| EngineLemmas.RepayLoanKeepsReferential | Bank-Management-System/java/Bank/BankManagementSystem.java:1057-1107 | repayment keeps every reference |
| EngineLemmas.AccruedPointwise | BankManagementSystem/java/Bank/BankManagementSystem.java:867 | the bulk update gives each row the interest update of that row |
| EngineLemmas.AccruedKeepsLookup | BankManagementSystem/java/Bank/BankManagementSystem.java:867 | the interest update moves no account |
| EngineLemmas.AccruedRowOf | BankManagementSystem/java/Bank/BankManagementSystem.java:867 | each account's row after the update is its old row with the update applied |
| EngineLemmas.AccrueGain | Bank-Management-System/java/Bank/BankManagementSystem.java:2132-2141 | a balance grows by exactly `EngineOps.InterestOn`, the `oldBalance * (rate / 100)` the record logs |
| EngineLemmas.AccruedTotal | BankManagementSystem/java/Bank/BankManagementSystem.java:867 | interest scales the bank's total money by `1 + rate / 100` |
| EngineLemmas.AccruedNonNegative | BankManagementSystem/java/Bank/BankManagementSystem.java:867 | a rate of at least -100 keeps every balance non-negative |
| EngineLemmas.AccruedGoesNegative | BankManagementSystem/java/Bank/BankManagementSystem.java:867 | below -100, an account with money ends negative |
| EngineLemmas.BlockedCannotLogIn | Bank-Management-System/java/Bank/BankManagementSystem.java:201-205 | a blocked account is refused whatever password is given |
| EngineLemmas.TotalMoneyNonNegative | Bank-Management-System/java/Bank/BankManagementSystem.java:736 | while no balance is negative, the admin dashboard's total money is not negative |
| EngineLemmas.OutstandingBounded | Bank-Management-System/java/Bank/BankManagementSystem.java:615 | an account's outstanding loan sum lies between 0 and the bank-wide sum of line 753 |
| EngineLemmas.RecentShowsNewest | Bank-Management-System/java/Bank/BankManagementSystem.java:628 | the record just written heads its owner's activity list |
| Engine.Bank.constructor | Bank-Management-System/java/Bank/BankManagementSystem.java:1678-1723 | a fresh database has four empty tables and the loan counter at 1 |
| Engine.Bank.CreditRow | Bank-Management-System/java/Bank/BankManagementSystem.java:784 | `balance = balance + ?` on the account's row, and the count of rows it updated |
| Engine.Bank.DebitRowIfCovered | Bank-Management-System/java/Bank/BankManagementSystem.java:814 | the guarded debit changes the row exactly when it is covered, and reports 1 or 0 |
| Engine.Bank.LogTransaction | Bank-Management-System/java/Bank/BankManagementSystem.java:1646-1654 | appends one record (owner, type, amount) to the log |
| Engine.Bank.InsertLoan | Bank-Management-System/java/Bank/BankManagementSystem.java:1024 | appends a loan with the next AUTOINCREMENT id and `loan_amount = remaining_amount` |
| Engine.Bank.DecrementLoan | Bank-Management-System/java/Bank/BankManagementSystem.java:1087 | lowers `remaining_amount` of that loan only |
| Engine.Bank.SetBlocked | Bank-Management-System/java/Bank/BankManagementSystem.java:1383 | sets `is_blocked` of the account's row and reports the rows updated |
| Engine.Bank.AccrueRow | Bank-Management-System/java/Bank/BankManagementSystem.java:2128 | applies the interest update to the row of that number |
| Engine.Bank.AccrueAll | BankManagementSystem/java/Bank/BankManagementSystem.java:867 | applies the interest update to every row and reports how many rows there were |
| Engine.Bank.DeleteAccountRow | Bank-Management-System/java/Bank/BankManagementSystem.java:1597 | removes the account's row and reports 1 or 0 |
| Engine.Bank.DeleteLoansOf | Bank-Management-System/java/Bank/BankManagementSystem.java:1596 | removes the account's loans |
| Engine.Bank.DeleteRecordsOf | Bank-Management-System/java/Bank/BankManagementSystem.java:1595 | removes the account's records |
| Engine.Bank.UpdateProfileRow | Bank-Management-System/java/Bank/BankManagementSystem.java:982-992 | sets name, profile columns and digest of the account's row |
| Engine.Bank.UpdateCredentialsRow | BankManagementSystem/java/Bank/BankManagementSystem.java:607-612 | sets name and digest of the account's row |
| Engine.Bank.InsertAccount | Bank-Management-System/java/Bank/BankManagementSystem.java:442-461 | appends the row unless its number exists, which the primary key refuses |
| Engine.Bank.InsertAdmin | Bank-Management-System/java/Bank/BankManagementSystem.java:59 | stores the admin's digest under its number |
| Engine.Bank.RenameAdminRow | Bank-Management-System/java/Bank/BankManagementSystem.java:1849-1855 | moves the admin row to the new number with the new digest and reports 1 or 0 |
| Engine.Bank.DepositMoney | Bank-Management-System/java/Bank/BankManagementSystem.java:770-798 | the handler commits exactly `EngineOps.DepositMoney` |
| Engine.Bank.WithdrawMoney | Bank-Management-System/java/Bank/BankManagementSystem.java:800-829 | the handler commits exactly `EngineOps.WithdrawMoney` |
| Engine.Bank.TransferFunds | Bank-Management-System/java/Bank/BankManagementSystem.java:866-930 | the handler commits exactly `EngineOps.TransferFunds` |
| Engine.Bank.ApplyForLoan | Bank-Management-System/java/Bank/BankManagementSystem.java:1002-1047 | the handler commits exactly `EngineOps.ApplyForLoan` |
| Engine.Bank.RepayLoan | Bank-Management-System/java/Bank/BankManagementSystem.java:1049-1111 | the handler commits exactly `EngineOps.RepayLoan` |
| Engine.Bank.Login | BankManagementSystem/java/Bank/BankManagementSystem.java:190-219 | the outcome is `EngineOps.Login`; success implies an existing, unblocked account |
| Engine.Bank.SetupAdminAccount | BankManagementSystem/java/Bank/BankManagementSystem.java:44-67 | start-up commits exactly `EngineOps.SetupAdmin` |
| Engine.Bank.UserDashboard | Bank-Management-System/java/Bank/BankManagementSystem.java:600-643 | the dashboard shows the account's balance (present exactly when its row exists), its outstanding loan sum and its five latest records, newest first |
| Engine.Bank.AdminDashboard | Bank-Management-System/java/Bank/BankManagementSystem.java:734-768 | the admin dashboard shows the sum of all balances and of all remaining loan amounts |
| VariantOne.InterestRecords | Bank-Management-System/java/Bank/BankManagementSystem.java:2128-2142 | one INTEREST record per account |
| VariantOne.InterestRecordsAt | Bank-Management-System/java/Bank/BankManagementSystem.java:2130-2141 | record k belongs to account k and is `oldBalance * (rate / 100)` |
| VariantOne.SetInterestRate | Bank-Management-System/java/Bank/BankManagementSystem.java:2093-2168 | applies exactly when `0 <= rate <= 100`; a rate out of range changes nothing |
| VariantOne.InterestRecordsTotal | Bank-Management-System/java/Bank/BankManagementSystem.java:2128-2142 | the INTEREST records add up to the money the update created |
| VariantOne.InterestIsLogged | Bank-Management-System/java/Bank/BankManagementSystem.java:2093-2168 | a successful application scales total money by `1 + rate/100`, keeps the old log as a prefix, logs new records adding up to `total * rate/100`, and leaves loans and admins alone |
| VariantOne.SetInterestRateKeepsInv | Bank-Management-System/java/Bank/BankManagementSystem.java:2093-2168 | the range check keeps every balance non-negative and the invariant intact |
| VariantOne.SetInterestRateKeepsReferential | Bank-Management-System/java/Bank/BankManagementSystem.java:2093-2168 | each new INTEREST record belongs to an existing account |
| VariantOne.BlockAccount | Bank-Management-System/java/Bank/BankManagementSystem.java:1347-1399 | blocks exactly when the number and a non-blank reason (`Ledger.Blank` is Java's `trim().isEmpty()`) are given and the account exists unblocked; an already blocked account is refused; refusals change nothing |
| VariantOne.UnblockAccount | Bank-Management-System/java/Bank/BankManagementSystem.java:1401-1447 | unblocks exactly an existing blocked account; a non-blocked one is refused; refusals change nothing |
| VariantOne.BlockSetsOnlyFlag | Bank-Management-System/java/Bank/BankManagementSystem.java:1356-1386 | a block changes only `is_blocked` of that account |
| VariantOne.BlockedAccountCannotLogIn | Bank-Management-System/java/Bank/BankManagementSystem.java:201-205 | after a block no password logs the account in |
| VariantOne.UnblockUndoesBlock | Bank-Management-System/java/Bank/BankManagementSystem.java:1416-1434 | unblocking a just-blocked account restores the database exactly |
| VariantOne.UnblockRestoresLogin | Bank-Management-System/java/Bank/BankManagementSystem.java:1416-1434 | an unblock changes only the flag, after which the stored password logs in again |
| VariantOne.BlockKeepsInvariants | Bank-Management-System/java/Bank/BankManagementSystem.java:1347-1447 | block and unblock keep the invariant and every reference |
| VariantOne.DeleteAccount | Bank-Management-System/java/Bank/BankManagementSystem.java:1552-1636 | deletes exactly when the number and a reason that is not `Ledger.Blank` are given and the account exists; refusals change nothing |
| VariantOne.DeleteRemovesAccount | Bank-Management-System/java/Bank/BankManagementSystem.java:1594-1610 | afterwards the number, its loans and its records are gone; the outstanding total drops by what it owed |
| VariantOne.DeleteKeepsOthers | Bank-Management-System/java/Bank/BankManagementSystem.java:1594-1610 | every other account keeps its row, loans, outstanding sum and records |
| VariantOne.DeleteKeepsInvariants | Bank-Management-System/java/Bank/BankManagementSystem.java:1594-1610 | the cascade keeps the invariant and leaves no loan or record without its account |
| VariantOne.EditProfile | Bank-Management-System/java/Bank/BankManagementSystem.java:932-1000 | the edit succeeds exactly when the logged-in row exists; otherwise nothing changes |
| VariantOne.EditProfileKeepsMoney | Bank-Management-System/java/Bank/BankManagementSystem.java:980-992 | the edit sets name, profile and digest only; the balance, the flag and other accounts are kept, and the new password logs in unless the account is blocked |
| VariantOne.EditProfileKeepsInvariants | Bank-Management-System/java/Bank/BankManagementSystem.java:980-992 | the edit keeps the invariant and every reference |
| VariantOne.Register | Bank-Management-System/java/Bank/BankManagementSystem.java:393-461 | registers exactly when name, address, nationality, NID number, phone number and password are non-empty and the number is free (the date of birth comes from spinners and is never empty); refusals change nothing |
| VariantOne.RegisterOpensAccount | Bank-Management-System/java/Bank/BankManagementSystem.java:442-461 | the new number is added with balance 0 and logs in with its password |
| VariantOne.RegisterKeepsOthers | Bank-Management-System/java/Bank/BankManagementSystem.java:442-461 | no existing account changes and total money is unchanged |
| VariantOne.RegisterKeepsInvariants | Bank-Management-System/java/Bank/BankManagementSystem.java:442-461 | registration keeps the invariant and every reference |
| VariantOne.ChangeAdminCredentials | Bank-Management-System/java/Bank/BankManagementSystem.java:1815-1871 | the change succeeds exactly when all four fields are given, the current credentials match and the new number is free; refusals change nothing |
| VariantOne.ChangeAdminCredentialsMovesLogin | Bank-Management-System/java/Bank/BankManagementSystem.java:1849-1855 | afterwards the new credentials authenticate (`VariantOne.AdminAuth` is the adminLogin query `WHERE account_number = ? AND password = ?` at lines 224-236), the old number is gone, other admins keep their digests and the customer tables are untouched |
| VariantOne.SetupAdminLetsAdminIn | Bank-Management-System/java/Bank/BankManagementSystem.java:47-70 | on first start-up admin123 signs in with the bootstrap password, and every admin who could sign in before still can |
| VariantOne.ChangeAdminCredentialsSameIdRefused | Bank-Management-System/java/Bank/BankManagementSystem.java:1836-1846 | renaming an admin to its own number never changes anything and, with valid credentials, is refused as a duplicate |
| VariantOne.FoldCase | Bank-Management-System/java/Bank/BankManagementSystem.java:1199-1206 | LIKE's case folding maps exactly the ASCII capitals to lower case and keeps the length |
| VariantOne.ContainsExactly | Bank-Management-System/java/Bank/BankManagementSystem.java:1199-1206 | `VariantOne.Contains`, the `LIKE '%part%'` match, holds exactly when the part occurs at some position |
| VariantOne.SearchAccounts | Bank-Management-System/java/Bank/BankManagementSystem.java:1194-1228 | the search lists only table rows that meet `VariantOne.Matches`, the LIKE condition of every non-empty field |
| VariantOne.SearchFindsAll | Bank-Management-System/java/Bank/BankManagementSystem.java:1194-1228 | every matching row is listed |
| VariantOne.SearchBlankListsAll | Bank-Management-System/java/Bank/BankManagementSystem.java:1195-1206 | with both fields empty the search lists the whole table |
| VariantOneHandlers.SetInterestRate | Bank-Management-System/java/Bank/BankManagementSystem.java:2093-2168 | the apply action commits exactly `VariantOne.SetInterestRate` |
| VariantOneHandlers.ApplyInterest | Bank-Management-System/java/Bank/BankManagementSystem.java:2122-2142 | the loop over the rows leaves every balance updated and the INTEREST records appended in table order, with loans and admins untouched |
| VariantOneHandlers.InterestForRow | Bank-Management-System/java/Bank/BankManagementSystem.java:2130-2141 | one pass updates row k from the balance the SELECT returned and writes its record |
| VariantOneHandlers.BlockAccount | Bank-Management-System/java/Bank/BankManagementSystem.java:1347-1399 | the block action commits exactly `VariantOne.BlockAccount` |
| VariantOneHandlers.UnblockAccount | Bank-Management-System/java/Bank/BankManagementSystem.java:1401-1447 | the unblock action commits exactly `VariantOne.UnblockAccount` |
| VariantOneHandlers.DeleteAccount | Bank-Management-System/java/Bank/BankManagementSystem.java:1552-1636 | the delete action commits exactly `VariantOne.DeleteAccount` |
| VariantOneHandlers.EditProfile | Bank-Management-System/java/Bank/BankManagementSystem.java:932-1000 | the edit commits exactly `VariantOne.EditProfile` |
| VariantOneHandlers.Register | Bank-Management-System/java/Bank/BankManagementSystem.java:393-461 | registration commits exactly `VariantOne.Register` |
| VariantOneHandlers.ChangeAdminCredentials | Bank-Management-System/java/Bank/BankManagementSystem.java:1815-1871 | the update action commits exactly `VariantOne.ChangeAdminCredentials` |
| VariantTwo.ToggleBlock | BankManagementSystem/java/Bank/BankManagementSystem.java:802-836 | the toggle succeeds exactly for a given, existing number and reports the new flag, the opposite of the old one; refusals change nothing |
| VariantTwo.ToggleBlockFlips | BankManagementSystem/java/Bank/BankManagementSystem.java:810-832 | the toggle flips only `is_blocked` of that account |
| VariantTwo.ToggleTwiceRestores | BankManagementSystem/java/Bank/BankManagementSystem.java:810-832 | toggling twice restores the database, for every input |
| VariantTwo.ToggleBlockLogin | BankManagementSystem/java/Bank/BankManagementSystem.java:190-219 | after a toggle to blocked no password logs in; after a toggle to unblocked the stored password does |
| VariantTwo.ToggleBlockAgreesWithBlock | BankManagementSystem/java/Bank/BankManagementSystem.java:810-832 | on an unblocked account the toggle commits what the first copy's block commits |
| VariantTwo.ToggleBlockAgreesWithUnblock | BankManagementSystem/java/Bank/BankManagementSystem.java:810-832 | on a blocked account the toggle commits what the first copy's unblock commits |
| VariantTwo.ToggleBlockKeepsInvariants | BankManagementSystem/java/Bank/BankManagementSystem.java:810-832 | the toggle keeps the invariant and every reference |
| VariantTwo.BulkInterest | BankManagementSystem/java/Bank/BankManagementSystem.java:859-879 | reports success exactly when some row was updated; with no accounts it reports an error and changes nothing |
| VariantTwo.BulkInterestScales | BankManagementSystem/java/Bank/BankManagementSystem.java:866-875 | the update keeps every number, scales the total by `1 + rate/100`, writes no records and leaves loans and admins alone |
| VariantTwo.BulkInterestRow | BankManagementSystem/java/Bank/BankManagementSystem.java:867 | each account's row is its old row with the interest update |
| VariantTwo.BulkInterestAgreesWithSetInterestRate | BankManagementSystem/java/Bank/BankManagementSystem.java:859-879 | within [0, 100] the balances equal the first copy's; the two differ only in the INTEREST records |
| VariantTwo.BulkInterestKeepsInvariants | BankManagementSystem/java/Bank/BankManagementSystem.java:866-875 | a rate of at least -100 keeps the invariant and every reference |
| VariantTwo.BulkInterestBelowMinusHundred | BankManagementSystem/java/Bank/BankManagementSystem.java:866-875 | below -100 the update is accepted and leaves a negative balance |
| VariantTwo.DeleteAccount | BankManagementSystem/java/Bank/BankManagementSystem.java:881-904 | deletes exactly a given, existing number; refusals change nothing |
| VariantTwo.DeleteRemovesOnlyRow | BankManagementSystem/java/Bank/BankManagementSystem.java:891-898 | only the account row goes; every other row, all loans, records and admins stay |
| VariantTwo.DeleteAgreesOnAccounts | BankManagementSystem/java/Bank/BankManagementSystem.java:881-904 | the outcome and the accounts table equal the first copy's delete |
| VariantTwo.DeleteKeepsInv | BankManagementSystem/java/Bank/BankManagementSystem.java:891-898 | the delete keeps the invariant |
| VariantTwo.DeleteOrphansLoan | BankManagementSystem/java/Bank/BankManagementSystem.java:891-898 | deleting an account that has a loan leaves a loan without its account |
| VariantTwo.DeleteOrphansRecord | BankManagementSystem/java/Bank/BankManagementSystem.java:891-898 | deleting an account that has a record leaves a record without its account |
| VariantTwo.EditProfile | BankManagementSystem/java/Bank/BankManagementSystem.java:597-621 | the edit succeeds exactly for a non-empty name and password and an existing row; refusals change nothing |
| VariantTwo.EditProfileChangesCredentials | BankManagementSystem/java/Bank/BankManagementSystem.java:601-612 | only name and digest change; balance, flag and other accounts are kept, and the new password logs in unless blocked |
| VariantTwo.EditProfileKeepsInvariants | BankManagementSystem/java/Bank/BankManagementSystem.java:601-612 | the edit keeps the invariant and every reference |
| VariantTwo.EditProfileAgreesWithFirstCopy | BankManagementSystem/java/Bank/BankManagementSystem.java:597-621 | for every profile given to the first copy's edit, this edit succeeds exactly when the name and password are non-empty and the first copy's edit succeeds; on success both leave the same state when the first copy is given the row's own profile columns |
| VariantTwo.Register | BankManagementSystem/java/Bank/BankManagementSystem.java:306-351 | registers exactly for a non-empty name and password and a free number; refusals change nothing |
| VariantTwo.RegisterOpensAccount | BankManagementSystem/java/Bank/BankManagementSystem.java:337-351 | the new account starts with balance 0, unblocked, and logs in with its password |
| VariantTwo.RegisterKeepsInvariants | BankManagementSystem/java/Bank/BankManagementSystem.java:337-351 | registration keeps the invariant and every reference |
| VariantTwo.RegisterAgreesWithFirstCopy | BankManagementSystem/java/Bank/BankManagementSystem.java:306-351 | against the first copy's registration with any filled-in profile: the same outcome, the missing-field and duplicate-id refusals included, and on success the same state except that the new row has empty profile columns |
| VariantTwoHandlers.ToggleBlock | BankManagementSystem/java/Bank/BankManagementSystem.java:802-836 | the toggle action commits exactly `VariantTwo.ToggleBlock` |
| VariantTwoHandlers.SetInterestRate | BankManagementSystem/java/Bank/BankManagementSystem.java:859-879 | the bulk update commits exactly `VariantTwo.BulkInterest` |
| VariantTwoHandlers.DeleteAccount | BankManagementSystem/java/Bank/BankManagementSystem.java:881-904 | the delete commits exactly `VariantTwo.DeleteAccount` |
| VariantTwoHandlers.AbsentDeleteKeeps | BankManagementSystem/java/Bank/BankManagementSystem.java:891-898 | a delete of a number the table lacks deletes nothing |
| VariantTwoHandlers.EditProfile | BankManagementSystem/java/Bank/BankManagementSystem.java:597-621 | the edit commits exactly `VariantTwo.EditProfile` |
| VariantTwoHandlers.Register | BankManagementSystem/java/Bank/BankManagementSystem.java:306-351 | registration commits exactly `VariantTwo.Register` |

## Left out

- The Swing user interface: screens, panels, buttons, message boxes. Every confirmation dialog is answered "yes"; a cancelled input dialog is not modelled.
- JDBC plumbing and commit-mode handling (`setAutoCommit`, `commit`, `rollback`). Each action is modelled by its committed outcome, and all-or-nothing holds because a refusal returns the state it was given.
- Store failures, including an SQL error between the debit and the credit of a transfer.
- SHA-256 password hashing is an arbitrary function `hash`.
- The random account number from `generateAccountNumber` is the parameter `freshId`.
- Parsing typed text (`Double.parseDouble`, the empty-rate check of the interest dialog) and `String.format` output. Amounts and rates enter as numbers.
- `double` rounding: money is an exact `real`.
- `CURRENT_TIMESTAMP`: a table's order stands for time. The first copy's transaction search always filters on `date(timestamp)`, so it is left out.
- The hard-coded bootstrap admin password is a parameter of `Engine.Bank.SetupAdminAccount`.
- The unused `activity_logs` table of the second copy.
- The admin login screen. Its query is `VariantOne.AdminAuth`.
- The balance and history read-outs and the account and transaction listings. These only display table contents.
- VariantOne.SearchAccounts: `%` and `_` typed into a search field are matched literally, not as LIKE wildcards. SQLite's case folding is modelled for ASCII letters only.
- Statements keyed by account number (`UPDATE ... WHERE account_number = ?`) change the first matching row. Under the primary key this is the only row, so updates of several rows with one number are not modelled.
- VariantOneHandlers.SetInterestRate and VariantOneHandlers.ApplyInterest require distinct account numbers. The primary key guarantees this, and the walk relies on it to find each row by its number.
- The loan decrement `WHERE id = ?` acts on the position of the selected loan. Loan ids are kept distinct by the invariant.
