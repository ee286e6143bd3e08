/** The ledger's data model: the four tables of the bank database (accounts,
    loans, transactions, admins) as values, the table-level queries and
    updates the SQL statements perform, the dashboard aggregates, and the
    invariants the engine is meant to keep.

    Tables are sequences in rowid order, which is the order in which SQLite
    returns rows from a query without ORDER BY. */
module Ledger {

  datatype Option<T> = None | Some(value: T)

  /** The failure outcomes of the engine, one per message family the source shows. */
  datatype Error =
    | MissingField          // a required text field was empty
    | InvalidAmount         // amount <= 0
    | AccountNotFound
    | TargetNotFound        // transfer target does not exist
    | InsufficientBalance   // the guarded debit matched no row
    | LoanLimitExceeded     // loan amount above MaxLoanAmount
    | NoActiveLoan
    | OverRepayment         // repayment above the selected loan's remaining amount
    | AccountBlocked        // login of a blocked account
    | WrongPassword
    | RateOutOfRange        // interest rate outside [0, 100]
    | NothingUpdated        // a bulk update touched no row
    | AlreadyBlocked
    | NotBlocked
    | InvalidCredentials    // admin id / password pair not found
    | DuplicateId           // primary-key collision

  datatype Result<T> = Ok(value: T) | Err(error: Error)

  type AccountId = string
  type Digest = string

  /** The free-text profile columns of an account. */
  datatype Profile = Profile(dateOfBirth: string, address: string, nationality: string,
                             nidNumber: string, phoneNumber: string)

  /** The profile of an account created by the copy whose table has no profile columns. */
  const NoProfile := Profile("", "", "", "", "")

  datatype Account = Account(id: AccountId, name: string, passwordHash: Digest,
                             balance: real, blocked: bool, profile: Profile)

  /** A loan row: principal is `loan_amount`, remaining is `remaining_amount`. */
  datatype Loan = Loan(id: nat, owner: AccountId, principal: real, remaining: real)

  /** The `type` column of a transaction record. */
  datatype Kind = Deposit | Withdrawal | TransferOut | TransferIn | LoanIssued | LoanRepayment | Interest

  /** A transaction record; its timestamp is its position in the log. */
  datatype Tx = Tx(owner: AccountId, kind: Kind, amount: real)

  /** The whole database. `nextLoanId` is the AUTOINCREMENT counter of the loans table. */
  datatype State = State(accounts: seq<Account>, loans: seq<Loan>, log: seq<Tx>,
                         admins: map<string, Digest>, nextLoanId: nat)

  /** The loan limit hard-coded in the loan handler. */
  const MaxLoanAmount: real := 10000.0

  /** The identifier of the admin record created on first start-up. */
  const BootstrapAdminId: string := "admin123"

  /** The freshly created, empty database. */
  const Empty: State := State([], [], [], map[], 1)

  /** A new account row with the table's column defaults: balance 0.0, not blocked. */
  function NewAccount(id: AccountId, name: string, passwordHash: Digest, profile: Profile): (a: Account)
    ensures a.balance == 0.0 && !a.blocked
    ensures a.id == id && a.name == name && a.passwordHash == passwordHash && a.profile == profile
  {
    Account(id, name, passwordHash, 0.0, false, profile)
  }

  /** Java's `s.trim().isEmpty()`: every character is at most U+0020. */
  predicate Blank(s: string) {
    forall k :: 0 <= k < |s| ==> s[k] <= ' '
  }

  // ---------------------------------------------------------------- accounts

  /** The account numbers present in the table. */
  function Ids(rows: seq<Account>): set<AccountId> {
    if |rows| == 0 then {} else {rows[0].id} + Ids(rows[1..])
  }

  /** An id is present exactly when some row carries it. */
  lemma {:induction false} IdsIndex(rows: seq<Account>, id: AccountId)
    ensures id in Ids(rows) <==> exists k :: 0 <= k < |rows| && rows[k].id == id
  {
    if |rows| > 0 {
      IdsIndex(rows[1..], id);
      if id in Ids(rows[1..]) {
        var k :| 0 <= k < |rows[1..]| && rows[1..][k].id == id;
        assert rows[k + 1].id == id;
      } else if id != rows[0].id {
        forall k | 0 <= k < |rows| ensures rows[k].id != id {
          if k > 0 { assert rows[k] == rows[1..][k - 1]; }
        }
      }
    }
  }

  /** The primary-key constraint of the accounts table. */
  ghost predicate UniqueIds(rows: seq<Account>) {
    forall i, j :: 0 <= i < j < |rows| ==> rows[i].id != rows[j].id
  }

  /** `SELECT ... FROM accounts WHERE account_number = ?`: the first matching row. */
  function Find(rows: seq<Account>, id: AccountId): (r: Option<nat>)
    ensures r.Some? <==> id in Ids(rows)
    ensures r.Some? ==> r.value < |rows| && rows[r.value].id == id
  {
    if |rows| == 0 then None
    else if rows[0].id == id then Some(0)
    else match Find(rows[1..], id)
      case None => None
      case Some(k) => Some(k + 1)
  }

  /** The lookup returns the first matching row. */
  lemma {:induction false} FindFirst(rows: seq<Account>, id: AccountId, k: nat)
    requires k < |rows| && rows[k].id == id
    ensures Find(rows, id).Some? && Find(rows, id).value <= k
  {
    if rows[0].id != id {
      assert rows[1..][k - 1] == rows[k];
      FindFirst(rows[1..], id, k - 1);
    }
  }

  /** The balance the dashboard shows for `id`. */
  function BalanceOf(rows: seq<Account>, id: AccountId): real
    requires id in Ids(rows)
  {
    rows[Find(rows, id).value].balance
  }

  /** The row the lookup by `id` returns. */
  function RowOf(rows: seq<Account>, id: AccountId): Account
    requires id in Ids(rows)
  {
    rows[Find(rows, id).value]
  }

  /** Every account other than those in `changed` still exists with the same row. */
  ghost predicate OthersUnchanged(before: seq<Account>, after: seq<Account>, changed: set<AccountId>) {
    forall x :: x in Ids(before) && x !in changed ==> x in Ids(after) && RowOf(after, x) == RowOf(before, x)
  }

  /** Updates that leave every row's id in place do not move any account. */
  lemma {:induction false} FindSameIds(a: seq<Account>, b: seq<Account>, id: AccountId)
    requires |a| == |b| && forall k :: 0 <= k < |a| ==> a[k].id == b[k].id
    ensures Find(a, id) == Find(b, id) && Ids(a) == Ids(b)
  {
    if |a| > 0 {
      assert a[0].id == b[0].id;
      forall k | 0 <= k < |a[1..]| ensures a[1..][k].id == b[1..][k].id {
        assert a[1..][k] == a[k + 1] && b[1..][k] == b[k + 1];
      }
      FindSameIds(a[1..], b[1..], id);
    }
  }

  /** `balance = balance + delta` on row i. */
  function Adjust(rows: seq<Account>, i: nat, delta: real): seq<Account>
    requires i < |rows|
  {
    rows[i := rows[i].(balance := rows[i].balance + delta)]
  }

  /** `SUM(balance) FROM accounts` (an empty table sums to 0). */
  function TotalMoney(rows: seq<Account>): real {
    if |rows| == 0 then 0.0 else TotalMoney(rows[..|rows| - 1]) + rows[|rows| - 1].balance
  }

  /** `UPDATE accounts SET is_blocked = ? WHERE ...` on row i. */
  function SetFlag(rows: seq<Account>, i: nat, blocked: bool): seq<Account>
    requires i < |rows|
  {
    rows[i := rows[i].(blocked := blocked)]
  }

  /** Rewriting one row without touching its id moves no account. */
  lemma RowUpdateKeepsLookup(rows: seq<Account>, i: nat, a: Account, id: AccountId)
    requires i < |rows| && a.id == rows[i].id
    ensures Find(rows[i := a], id) == Find(rows, id) && Ids(rows[i := a]) == Ids(rows)
  {
    FindSameIds(rows[i := a], rows, id);
  }

  /** Rewriting one row without touching its id leaves every other account's row in place. */
  lemma RowUpdateOthersUnchanged(rows: seq<Account>, i: nat, a: Account)
    requires i < |rows| && a.id == rows[i].id
    ensures OthersUnchanged(rows, rows[i := a], {rows[i].id})
  {
    forall x | x in Ids(rows) && x != rows[i].id
      ensures x in Ids(rows[i := a]) && RowOf(rows[i := a], x) == RowOf(rows, x)
    {
      RowUpdateKeepsLookup(rows, i, a, x);
    }
  }

  /** Appending a row with a new id keeps every lookup and finds the new row last. */
  lemma {:induction false} FindAppend(rows: seq<Account>, a: Account, id: AccountId)
    requires a.id !in Ids(rows)
    ensures Ids(rows + [a]) == Ids(rows) + {a.id}
    ensures Find(rows + [a], id) == if id == a.id then Some(|rows|) else Find(rows, id)
  {
    if |rows| > 0 {
      assert (rows + [a])[1..] == rows[1..] + [a];
      FindAppend(rows[1..], a, id);
    }
  }

  /** Setting the flag of row i changes nothing but that flag. */
  lemma SetFlagOnlyFlag(rows: seq<Account>, i: nat, blocked: bool)
    requires i < |rows|
    ensures var r := SetFlag(rows, i, blocked);
      && Ids(r) == Ids(rows)
      && Find(r, rows[i].id) == Find(rows, rows[i].id)
      && OthersUnchanged(rows, r, {rows[i].id})
      && TotalMoney(r) == TotalMoney(rows)
  {
    RowUpdateKeepsLookup(rows, i, rows[i].(blocked := blocked), rows[i].id);
    RowUpdateOthersUnchanged(rows, i, rows[i].(blocked := blocked));
    TotalMoneyUpdate(rows, i, rows[i].(blocked := blocked));
  }

  /** Under the primary-key constraint, the lookup of row k's id finds row k. */
  lemma FindUnique(rows: seq<Account>, k: nat)
    requires UniqueIds(rows) && k < |rows|
    ensures Find(rows, rows[k].id) == Some(k)
  {
    FindFirst(rows, rows[k].id, k);
  }

  /** Setting a flag keeps the invariant and every reference. */
  lemma SetFlagKeeps(s: State, i: nat, blocked: bool)
    requires Inv(s) && Referential(s) && i < |s.accounts|
    ensures var t := s.(accounts := SetFlag(s.accounts, i, blocked)); Inv(t) && Referential(t)
  {
    SetFlagOnlyFlag(s.accounts, i, blocked);
    var r := SetFlag(s.accounts, i, blocked);
    assert forall k :: 0 <= k < |r| ==> r[k].id == s.accounts[k].id && r[k].balance == s.accounts[k].balance;
  }

  /** `DELETE FROM accounts WHERE account_number = ?`. */
  function AccountsWithout(rows: seq<Account>, id: AccountId): (r: seq<Account>)
    ensures |r| <= |rows|
    ensures forall k :: 0 <= k < |r| ==> r[k].id != id && r[k] in rows
  {
    if |rows| == 0 then []
    else (if rows[0].id == id then [] else [rows[0]]) + AccountsWithout(rows[1..], id)
  }

  /** Deleting the rows of `id` removes exactly `id` from the id set. */
  lemma {:induction false} AccountsWithoutIds(rows: seq<Account>, id: AccountId)
    ensures Ids(AccountsWithout(rows, id)) == Ids(rows) - {id}
  {
    if |rows| > 0 {
      AccountsWithoutIds(rows[1..], id);
      var head := if rows[0].id == id then [] else [rows[0]];
      var rest := AccountsWithout(rows[1..], id);
      if rows[0].id != id {
        assert (head + rest)[1..] == rest;
      } else {
        assert head + rest == rest;
      }
    }
  }

  /** Deleting the rows of `id` leaves what a lookup of any other id returns. */
  lemma {:induction false} AccountsWithoutRowOf(rows: seq<Account>, id: AccountId, x: AccountId)
    requires x != id && x in Ids(rows)
    ensures x in Ids(AccountsWithout(rows, id)) && RowOf(AccountsWithout(rows, id), x) == RowOf(rows, x)
  {
    var rest := AccountsWithout(rows[1..], id);
    if rows[0].id == x {
      assert AccountsWithout(rows, id) == [rows[0]] + rest;
      RowOfFront(rows[0], rest);
    } else {
      RowOfTail(rows, x);
      AccountsWithoutRowOf(rows[1..], id, x);
      if rows[0].id == id {
        assert AccountsWithout(rows, id) == [] + rest == rest;
      } else {
        assert AccountsWithout(rows, id) == [rows[0]] + rest;
        RowOfTail([rows[0]] + rest, x);
        assert ([rows[0]] + rest)[1..] == rest;
      }
    }
  }

  /** The lookup of the first row's id returns the first row. */
  lemma RowOfFront(a: Account, rest: seq<Account>)
    ensures a.id in Ids([a] + rest) && RowOf([a] + rest, a.id) == a
  {
  }

  /** A lookup that does not match the first row is a lookup in the rest. */
  lemma RowOfTail(rows: seq<Account>, x: AccountId)
    requires x in Ids(rows) && rows[0].id != x
    ensures x in Ids(rows[1..]) && RowOf(rows, x) == RowOf(rows[1..], x)
  {
  }

  /** Deleting rows keeps the primary-key constraint and the non-negative balances. */
  lemma AccountsWithoutKeeps(rows: seq<Account>, id: AccountId)
    requires UniqueIds(rows) && NonNegative(rows)
    ensures UniqueIds(AccountsWithout(rows, id)) && NonNegative(AccountsWithout(rows, id))
  {
    var r := AccountsWithout(rows, id);
    forall k | 0 <= k < |r| ensures r[k].balance >= 0.0 {
      var m :| 0 <= m < |rows| && rows[m] == r[k];
    }
    AccountsWithoutUnique(rows, id);
  }

  /** The rows a delete keeps still have distinct ids. */
  lemma {:induction false} AccountsWithoutUnique(rows: seq<Account>, id: AccountId)
    requires UniqueIds(rows)
    ensures UniqueIds(AccountsWithout(rows, id))
  {
    if |rows| > 0 {
      var tail := rows[1..];
      var rest := AccountsWithout(tail, id);
      assert UniqueIds(tail) by {
        forall i, j | 0 <= i < j < |tail| ensures tail[i].id != tail[j].id {
          assert tail[i] == rows[i + 1] && tail[j] == rows[j + 1];
        }
      }
      AccountsWithoutUnique(tail, id);
      if rows[0].id != id {
        HeadNotKept(rows, id);
        var r := [rows[0]] + rest;
        assert AccountsWithout(rows, id) == r;
        forall i, j | 0 <= i < j < |r| ensures r[i].id != r[j].id {
          assert r[j] == rest[j - 1];
          if i > 0 {
            assert r[i] == rest[i - 1];
          }
        }
      } else {
        assert AccountsWithout(rows, id) == [] + rest == rest;
      }
    }
  }

  /** Under the primary key, no row kept from the tail shares the first row's id. */
  lemma HeadNotKept(rows: seq<Account>, id: AccountId)
    requires |rows| > 0 && UniqueIds(rows)
    ensures var rest := AccountsWithout(rows[1..], id);
      forall k :: 0 <= k < |rest| ==> rest[k].id != rows[0].id
  {
    var rest := AccountsWithout(rows[1..], id);
    forall k | 0 <= k < |rest| ensures rest[k].id != rows[0].id {
      var m :| 0 <= m < |rows[1..]| && rows[1..][m] == rest[k];
      assert rows[m + 1] == rest[k];
    }
  }

  // ------------------------------------------------------------------- loans

  /** `SELECT SUM(remaining_amount) FROM loans`. */
  function TotalOutstanding(loans: seq<Loan>): real {
    if |loans| == 0 then 0.0 else TotalOutstanding(loans[..|loans| - 1]) + loans[|loans| - 1].remaining
  }

  /** `SELECT SUM(remaining_amount) FROM loans WHERE account_number = ?`. */
  function OutstandingOf(loans: seq<Loan>, id: AccountId): real {
    if |loans| == 0 then 0.0
    else
      var last := loans[|loans| - 1];
      OutstandingOf(loans[..|loans| - 1], id) + (if last.owner == id then last.remaining else 0.0)
  }

  /** An active loan of `id`: one the repayment query selects. */
  predicate ActiveOf(l: Loan, id: AccountId) {
    l.owner == id && l.remaining > 0.0
  }

  /** `SELECT id, remaining_amount FROM loans WHERE account_number = ? AND remaining_amount > 0`,
      first row: the earliest active loan of `id`. */
  function FirstActive(loans: seq<Loan>, id: AccountId): (r: Option<nat>)
    ensures r.Some? ==> r.value < |loans| && ActiveOf(loans[r.value], id)
    ensures r.Some? ==> forall k :: 0 <= k < r.value ==> !ActiveOf(loans[k], id)
    ensures r.None? ==> forall k :: 0 <= k < |loans| ==> !ActiveOf(loans[k], id)
  {
    if |loans| == 0 then None
    else if ActiveOf(loans[0], id) then Some(0)
    else match FirstActive(loans[1..], id)
      case None =>
        assert forall k :: 1 <= k < |loans| ==> loans[k] == loans[1..][k - 1];
        None
      case Some(k) => Some(k + 1)
  }

  /** The loans of `id`, in table order. */
  function LoansOf(loans: seq<Loan>, id: AccountId): (r: seq<Loan>)
    ensures forall k :: 0 <= k < |r| ==> r[k].owner == id && r[k] in loans
    ensures forall k :: 0 <= k < |loans| && loans[k].owner == id ==> loans[k] in r
  {
    if |loans| == 0 then []
    else
      var last := loans[|loans| - 1];
      LoansOf(loans[..|loans| - 1], id) + (if last.owner == id then [last] else [])
  }

  /** `DELETE FROM loans WHERE account_number = ?`. */
  function LoansWithout(loans: seq<Loan>, id: AccountId): (r: seq<Loan>)
    ensures forall k :: 0 <= k < |r| ==> r[k].owner != id && r[k] in loans
  {
    if |loans| == 0 then []
    else
      var last := loans[|loans| - 1];
      LoansWithout(loans[..|loans| - 1], id) + (if last.owner == id then [] else [last])
  }

  /** Deleting the loans of `id` keeps every other account's loans, in order. */
  lemma {:induction false} LoansWithoutLoansOf(loans: seq<Loan>, id: AccountId, x: AccountId)
    ensures LoansOf(LoansWithout(loans, id), x) == if x == id then [] else LoansOf(loans, x)
  {
    if |loans| > 0 {
      var n := |loans|;
      var last := loans[n - 1];
      var rest := LoansWithout(loans[..n - 1], id);
      LoansWithoutLoansOf(loans[..n - 1], id, x);
      if last.owner != id {
        assert (rest + [last])[..|rest|] == rest;
      } else {
        assert rest + [] == rest;
      }
    }
  }

  /** Deleting the loans of `id` keeps every other account's outstanding sum. */
  lemma {:induction false} LoansWithoutOutstandingOf(loans: seq<Loan>, id: AccountId, x: AccountId)
    requires x != id
    ensures OutstandingOf(LoansWithout(loans, id), x) == OutstandingOf(loans, x)
  {
    if |loans| > 0 {
      var n := |loans|;
      var last := loans[n - 1];
      var rest := LoansWithout(loans[..n - 1], id);
      LoansWithoutOutstandingOf(loans[..n - 1], id, x);
      if last.owner != id {
        assert (rest + [last])[..|rest|] == rest;
      } else {
        assert rest + [] == rest;
      }
    }
  }

  /** Deleting loans keeps the bounds and the ascending ids of the rest. */
  lemma LoansWithoutKeeps(loans: seq<Loan>, id: AccountId, next: nat)
    requires LoanBounds(loans) && LoanIdsFresh(loans, next)
    ensures LoanBounds(LoansWithout(loans, id)) && LoanIdsFresh(LoansWithout(loans, id), next)
  {
    var r := LoansWithout(loans, id);
    forall k | 0 <= k < |r| ensures 0.0 < r[k].principal && 0.0 <= r[k].remaining <= r[k].principal && r[k].id < next {
      var m :| 0 <= m < |loans| && loans[m] == r[k];
    }
    LoansWithoutAscending(loans, id);
  }

  /** The loans a delete keeps are kept in table order, so their ids still ascend. */
  lemma {:induction false} LoansWithoutAscending(loans: seq<Loan>, id: AccountId)
    requires IdsAscending(loans)
    ensures IdsAscending(LoansWithout(loans, id))
  {
    if |loans| > 0 {
      var n := |loans|;
      var last := loans[n - 1];
      var prefix := loans[..n - 1];
      var rest := LoansWithout(prefix, id);
      assert IdsAscending(prefix);
      LoansWithoutAscending(prefix, id);
      if last.owner != id {
        KeptBelowLast(loans, id);
        var r := rest + [last];
        assert LoansWithout(loans, id) == r;
        forall i, j | 0 <= i < j < |r| ensures r[i].id < r[j].id {
          assert r[i] == rest[i];
          if j < |rest| {
            assert r[j] == rest[j];
          }
        }
      } else {
        assert LoansWithout(loans, id) == rest + [] == rest;
      }
    }
  }

  /** Every loan a delete keeps from the front of the table has a smaller id than the last loan. */
  lemma KeptBelowLast(loans: seq<Loan>, id: AccountId)
    requires |loans| > 0 && IdsAscending(loans)
    ensures var rest := LoansWithout(loans[..|loans| - 1], id);
      forall i :: 0 <= i < |rest| ==> rest[i].id < loans[|loans| - 1].id
  {
    var prefix := loans[..|loans| - 1];
    var rest := LoansWithout(prefix, id);
    forall i | 0 <= i < |rest| ensures rest[i].id < loans[|loans| - 1].id {
      var m :| 0 <= m < |prefix| && prefix[m] == rest[i];
      assert loans[m] == rest[i];
    }
  }

  // ------------------------------------------------------------ transactions

  /** `SELECT ... FROM transactions WHERE account_number = ?`, oldest first. */
  function RecordsOf(log: seq<Tx>, id: AccountId): (r: seq<Tx>)
    ensures |r| <= |log|
    ensures forall k :: 0 <= k < |r| ==> r[k].owner == id && r[k] in log
    ensures forall k :: 0 <= k < |log| && log[k].owner == id ==> log[k] in r
  {
    if |log| == 0 then []
    else
      var last := log[|log| - 1];
      RecordsOf(log[..|log| - 1], id) + (if last.owner == id then [last] else [])
  }

  /** `DELETE FROM transactions WHERE account_number = ?`: the same owner filter
      as `LoansWithout`, on the transactions table. */
  function RecordsWithout(log: seq<Tx>, id: AccountId): (r: seq<Tx>)
    ensures forall k :: 0 <= k < |r| ==> r[k].owner != id && r[k] in log
  {
    if |log| == 0 then []
    else
      var last := log[|log| - 1];
      RecordsWithout(log[..|log| - 1], id) + (if last.owner == id then [] else [last])
  }

  /** Deleting the records of `id` keeps every other account's records, in order. */
  lemma {:induction false} RecordsWithoutRecordsOf(log: seq<Tx>, id: AccountId, x: AccountId)
    ensures RecordsOf(RecordsWithout(log, id), x) == if x == id then [] else RecordsOf(log, x)
  {
    if |log| > 0 {
      var n := |log|;
      var last := log[n - 1];
      var rest := RecordsWithout(log[..n - 1], id);
      RecordsWithoutRecordsOf(log[..n - 1], id, x);
      if last.owner != id {
        assert (rest + [last])[..|rest|] == rest;
      } else {
        assert rest + [] == rest;
      }
    }
  }

  /** `ORDER BY timestamp DESC LIMIT count` over records in log order: the
      `count` newest ones (all of them if there are fewer), newest first. */
  function Newest(records: seq<Tx>, count: nat): (r: seq<Tx>)
    ensures |r| == if count <= |records| then count else |records|
    ensures forall k :: 0 <= k < |r| ==> r[k] == records[|records| - 1 - k]
  {
    if |records| == 0 || count == 0 then []
    else [records[|records| - 1]] + Newest(records[..|records| - 1], count - 1)
  }

  /** The user dashboard's activity list: the `count` most recent records of `id`,
      newest first, with log position as the timestamp. */
  function Recent(log: seq<Tx>, id: AccountId, count: nat): (r: seq<Tx>)
    ensures |r| == if count <= |RecordsOf(log, id)| then count else |RecordsOf(log, id)|
    ensures forall k :: 0 <= k < |r| ==> r[k] == RecordsOf(log, id)[|RecordsOf(log, id)| - 1 - k]
    ensures forall k :: 0 <= k < |r| ==> r[k].owner == id && r[k] in log
  {
    Newest(RecordsOf(log, id), count)
  }

  /** Sum of the amounts of a run of records. */
  function TotalAmount(log: seq<Tx>): real {
    if |log| == 0 then 0.0 else TotalAmount(log[..|log| - 1]) + log[|log| - 1].amount
  }

  // -------------------------------------------------------------- invariants

  ghost predicate NonNegative(rows: seq<Account>) {
    forall k :: 0 <= k < |rows| ==> rows[k].balance >= 0.0
  }

  /** 0 < principal and 0 <= remaining <= principal for every loan. */
  ghost predicate LoanBounds(loans: seq<Loan>) {
    forall k :: 0 <= k < |loans| ==> 0.0 < loans[k].principal && 0.0 <= loans[k].remaining <= loans[k].principal
  }

  /** AUTOINCREMENT: loan ids ascend in table order and stay below the counter. */
  ghost predicate LoanIdsFresh(loans: seq<Loan>, next: nat) {
    && IdsAscending(loans)
    && (forall k :: 0 <= k < |loans| ==> loans[k].id < next)
  }

  /** Loan ids ascend in table order. */
  ghost predicate IdsAscending(loans: seq<Loan>) {
    forall i, j :: 0 <= i < j < |loans| ==> loans[i].id < loans[j].id
  }

  /** The invariant every engine operation is meant to keep. */
  ghost predicate Inv(s: State) {
    && UniqueIds(s.accounts)
    && NonNegative(s.accounts)
    && LoanBounds(s.loans)
    && LoanIdsFresh(s.loans, s.nextLoanId)
  }

  /** Every loan and every transaction record belongs to an existing account. */
  ghost predicate Referential(s: State) {
    && (forall k :: 0 <= k < |s.loans| ==> s.loans[k].owner in Ids(s.accounts))
    && (forall k :: 0 <= k < |s.log| ==> s.log[k].owner in Ids(s.accounts))
  }

  // ------------------------------------------------------------------ lemmas

  lemma {:induction false} TotalMoneyUpdate(rows: seq<Account>, i: nat, a: Account)
    requires i < |rows|
    ensures TotalMoney(rows[i := a]) == TotalMoney(rows) - rows[i].balance + a.balance
  {
    var n := |rows|;
    if i == n - 1 {
      assert rows[i := a][..n - 1] == rows[..n - 1];
    } else {
      assert rows[i := a][..n - 1] == rows[..n - 1][i := a];
      TotalMoneyUpdate(rows[..n - 1], i, a);
    }
  }

  lemma TotalMoneyAdjust(rows: seq<Account>, i: nat, delta: real)
    requires i < |rows|
    ensures TotalMoney(Adjust(rows, i, delta)) == TotalMoney(rows) + delta
  {
    TotalMoneyUpdate(rows, i, rows[i].(balance := rows[i].balance + delta));
  }

  lemma TotalMoneyAppend(rows: seq<Account>, a: Account)
    ensures TotalMoney(rows + [a]) == TotalMoney(rows) + a.balance
  {
    assert (rows + [a])[..|rows|] == rows;
  }

  lemma {:induction false} TotalOutstandingUpdate(loans: seq<Loan>, i: nat, l: Loan)
    requires i < |loans|
    ensures TotalOutstanding(loans[i := l]) == TotalOutstanding(loans) - loans[i].remaining + l.remaining
  {
    var n := |loans|;
    if i == n - 1 {
      assert loans[i := l][..n - 1] == loans[..n - 1];
    } else {
      assert loans[i := l][..n - 1] == loans[..n - 1][i := l];
      TotalOutstandingUpdate(loans[..n - 1], i, l);
    }
  }

  lemma {:induction false} OutstandingOfUpdate(loans: seq<Loan>, i: nat, l: Loan, id: AccountId)
    requires i < |loans| && loans[i].owner == id && l.owner == id
    ensures OutstandingOf(loans[i := l], id) == OutstandingOf(loans, id) - loans[i].remaining + l.remaining
  {
    var n := |loans|;
    if i == n - 1 {
      assert loans[i := l][..n - 1] == loans[..n - 1];
    } else {
      assert loans[i := l][..n - 1] == loans[..n - 1][i := l];
      OutstandingOfUpdate(loans[..n - 1], i, l, id);
    }
  }

  lemma {:induction false} LoansWithoutOutstanding(loans: seq<Loan>, id: AccountId)
    ensures TotalOutstanding(LoansWithout(loans, id)) == TotalOutstanding(loans) - OutstandingOf(loans, id)
  {
    if |loans| > 0 {
      var n := |loans|;
      var last := loans[n - 1];
      var rest := LoansWithout(loans[..n - 1], id);
      LoansWithoutOutstanding(loans[..n - 1], id);
      if last.owner != id {
        assert (rest + [last])[..|rest|] == rest;
      } else {
        assert rest + [] == rest;
      }
    }
  }
}
