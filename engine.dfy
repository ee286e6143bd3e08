/** The bank engine as an object over the database: the four tables are
    fields that the SQL statements update in place.  The first group of
    methods are the single statements the handlers issue; the second group
    are the handlers both copies of the engine share, each proved to commit
    exactly the outcome its step function in EngineOps describes. */
module Engine {
  import opened Ledger
  import EngineOps
  import EngineLemmas

  class Bank {
    var accounts: seq<Account>
    var loans: seq<Loan>
    var log: seq<Tx>
    var admins: map<string, Digest>
    var nextLoanId: nat
    /** The password digest (SHA-256 printed in hex in the source). */
    const hash: string -> Digest

    /** The whole database as a value. */
    function Snapshot(): State
      reads this
    {
      State(accounts, loans, log, admins, nextLoanId)
    }

    /** createTables on a fresh database file: four empty tables, and the
        AUTOINCREMENT counter of the loans table at its first value. */
    constructor (hash: string -> Digest)
      ensures Snapshot() == Empty && this.hash == hash
    {
      this.hash := hash;
      accounts, loans, log, admins, nextLoanId := [], [], [], map[], 1;
    }

    // ---------------------------------------------------------- statements

    /** `UPDATE accounts SET balance = balance + ? WHERE account_number = ?`. */
    method CreditRow(id: AccountId, amount: real) returns (rowsUpdated: nat)
      modifies this`accounts
      ensures rowsUpdated == if id in Ids(old(accounts)) then 1 else 0
      ensures accounts == if id in Ids(old(accounts))
                          then Adjust(old(accounts), Find(old(accounts), id).value, amount)
                          else old(accounts)
    {
      var found := Find(accounts, id);
      if found.Some? {
        accounts := Adjust(accounts, found.value, amount);
        rowsUpdated := 1;
      } else {
        rowsUpdated := 0;
      }
    }

    /** `UPDATE accounts SET balance = balance - ? WHERE account_number = ? AND balance >= ?`. */
    method DebitRowIfCovered(id: AccountId, amount: real) returns (rowsUpdated: nat)
      modifies this`accounts
      ensures var c := EngineOps.Covered(old(accounts), id, amount);
        && rowsUpdated == (if c.Some? then 1 else 0)
        && accounts == if c.Some? then Adjust(old(accounts), c.value, -amount) else old(accounts)
    {
      var found := Find(accounts, id);
      if found.Some? && accounts[found.value].balance >= amount {
        accounts := Adjust(accounts, found.value, -amount);
        rowsUpdated := 1;
      } else {
        rowsUpdated := 0;
      }
    }

    /** logTransaction: `INSERT INTO transactions (account_number, type, amount)`. */
    method LogTransaction(owner: AccountId, kind: Kind, amount: real)
      modifies this`log
      ensures log == old(log) + [Tx(owner, kind, amount)]
    {
      log := log + [Tx(owner, kind, amount)];
    }

    /** `INSERT INTO loans (account_number, loan_amount, remaining_amount)` with
        both amounts equal; the row takes the next AUTOINCREMENT id. */
    method InsertLoan(owner: AccountId, amount: real)
      modifies this`loans, this`nextLoanId
      ensures loans == old(loans) + [Loan(old(nextLoanId), owner, amount, amount)]
      ensures nextLoanId == old(nextLoanId) + 1
    {
      loans := loans + [Loan(nextLoanId, owner, amount, amount)];
      nextLoanId := nextLoanId + 1;
    }

    /** `UPDATE loans SET remaining_amount = remaining_amount - ? WHERE id = ?` on the
        loan row the repayment query selected. */
    method DecrementLoan(k: nat, amount: real)
      requires k < |loans|
      modifies this`loans
      ensures loans == old(loans)[k := old(loans)[k].(remaining := old(loans)[k].remaining - amount)]
    {
      loans := loans[k := loans[k].(remaining := loans[k].remaining - amount)];
    }

    /** `UPDATE accounts SET is_blocked = ? WHERE account_number = ?`. */
    method SetBlocked(id: AccountId, blocked: bool) returns (rowsUpdated: nat)
      modifies this`accounts
      ensures rowsUpdated == if id in Ids(old(accounts)) then 1 else 0
      ensures accounts == if id in Ids(old(accounts))
                          then SetFlag(old(accounts), Find(old(accounts), id).value, blocked)
                          else old(accounts)
    {
      var found := Find(accounts, id);
      if found.Some? {
        accounts := SetFlag(accounts, found.value, blocked);
        rowsUpdated := 1;
      } else {
        rowsUpdated := 0;
      }
    }

    /** `UPDATE accounts SET balance = balance * (1 + ? / 100) WHERE account_number = ?`. */
    method AccrueRow(id: AccountId, rate: real)
      modifies this`accounts
      ensures accounts == if id in Ids(old(accounts))
                          then old(accounts)[Find(old(accounts), id).value
                                 := EngineOps.Accrue(old(accounts)[Find(old(accounts), id).value], rate)]
                          else old(accounts)
    {
      var found := Find(accounts, id);
      if found.Some? {
        accounts := accounts[found.value := EngineOps.Accrue(accounts[found.value], rate)];
      }
    }

    /** `UPDATE accounts SET balance = balance * (1 + ? / 100)` over the whole table. */
    method AccrueAll(rate: real) returns (rowsUpdated: nat)
      modifies this`accounts
      ensures rowsUpdated == |old(accounts)|
      ensures accounts == EngineOps.Accrued(old(accounts), rate)
    {
      rowsUpdated := |accounts|;
      accounts := EngineOps.Accrued(accounts, rate);
    }

    /** `DELETE FROM accounts WHERE account_number = ?`. */
    method DeleteAccountRow(id: AccountId) returns (rowsDeleted: nat)
      modifies this`accounts
      ensures rowsDeleted == if id in Ids(old(accounts)) then 1 else 0
      ensures accounts == AccountsWithout(old(accounts), id)
    {
      rowsDeleted := if id in Ids(accounts) then 1 else 0;
      accounts := AccountsWithout(accounts, id);
    }

    /** `DELETE FROM loans WHERE account_number = ?`. */
    method DeleteLoansOf(id: AccountId)
      modifies this`loans
      ensures loans == LoansWithout(old(loans), id)
    {
      loans := LoansWithout(loans, id);
    }

    /** `DELETE FROM transactions WHERE account_number = ?`. */
    method DeleteRecordsOf(id: AccountId)
      modifies this`log
      ensures log == RecordsWithout(old(log), id)
    {
      log := RecordsWithout(log, id);
    }

    /** An `UPDATE accounts SET name = ?, ..., password = ? WHERE account_number = ?`
        that rewrites the name, the password digest and the profile columns. */
    method UpdateProfileRow(id: AccountId, name: string, passwordHash: Digest, profile: Profile)
      returns (rowsUpdated: nat)
      modifies this`accounts
      ensures rowsUpdated == if id in Ids(old(accounts)) then 1 else 0
      ensures accounts == if id in Ids(old(accounts))
                          then old(accounts)[Find(old(accounts), id).value
                                 := old(accounts)[Find(old(accounts), id).value]
                                      .(name := name, passwordHash := passwordHash, profile := profile)]
                          else old(accounts)
    {
      var found := Find(accounts, id);
      if found.Some? {
        accounts := accounts[found.value := accounts[found.value]
                               .(name := name, passwordHash := passwordHash, profile := profile)];
        rowsUpdated := 1;
      } else {
        rowsUpdated := 0;
      }
    }

    /** `UPDATE accounts SET name = ?, password = ? WHERE account_number = ?`. */
    method UpdateCredentialsRow(id: AccountId, name: string, passwordHash: Digest) returns (rowsUpdated: nat)
      modifies this`accounts
      ensures rowsUpdated == if id in Ids(old(accounts)) then 1 else 0
      ensures accounts == if id in Ids(old(accounts))
                          then old(accounts)[Find(old(accounts), id).value
                                 := old(accounts)[Find(old(accounts), id).value].(name := name, passwordHash := passwordHash)]
                          else old(accounts)
    {
      var found := Find(accounts, id);
      if found.Some? {
        accounts := accounts[found.value := accounts[found.value].(name := name, passwordHash := passwordHash)];
        rowsUpdated := 1;
      } else {
        rowsUpdated := 0;
      }
    }

    /** `INSERT INTO accounts ...`: refused by the primary key when the id exists. */
    method InsertAccount(a: Account) returns (inserted: bool)
      modifies this`accounts
      ensures inserted == (a.id !in Ids(old(accounts)))
      ensures accounts == if inserted then old(accounts) + [a] else old(accounts)
    {
      inserted := a.id !in Ids(accounts);
      if inserted {
        accounts := accounts + [a];
      }
    }

    /** `INSERT INTO admins (account_number, password) VALUES (?, ?)`. */
    method InsertAdmin(id: string, digest: Digest)
      modifies this`admins
      ensures admins == old(admins)[id := digest]
    {
      admins := admins[id := digest];
    }

    /** `UPDATE admins SET account_number = ?, password = ? WHERE account_number = ?`. */
    method RenameAdminRow(cur: string, newId: string, digest: Digest) returns (rowsUpdated: nat)
      modifies this`admins
      ensures rowsUpdated == if cur in old(admins) then 1 else 0
      ensures admins == if cur in old(admins) then (old(admins) - {cur})[newId := digest] else old(admins)
    {
      if cur in admins {
        admins := (admins - {cur})[newId := digest];
        rowsUpdated := 1;
      } else {
        rowsUpdated := 0;
      }
    }

    // ------------------------------------------------------------ handlers

    /** depositMoney for the logged-in account `id`. */
    method DepositMoney(id: AccountId, amount: real) returns (r: Result<()>)
      modifies this
      ensures (r, Snapshot()) == EngineOps.DepositMoney(old(Snapshot()), id, amount)
    {
      if amount <= 0.0 {
        return Err(InvalidAmount);
      }
      var rowsUpdated := CreditRow(id, amount);
      if rowsUpdated > 0 {
        LogTransaction(id, Kind.Deposit, amount);
        r := Ok(());
      } else {
        r := Err(AccountNotFound);
      }
    }

    /** withdrawMoney for the logged-in account `id`. */
    method WithdrawMoney(id: AccountId, amount: real) returns (r: Result<()>)
      modifies this
      ensures (r, Snapshot()) == EngineOps.WithdrawMoney(old(Snapshot()), id, amount)
    {
      if amount <= 0.0 {
        return Err(InvalidAmount);
      }
      var rowsUpdated := DebitRowIfCovered(id, amount);
      if rowsUpdated > 0 {
        LogTransaction(id, Withdrawal, amount);
        r := Ok(());
      } else {
        r := Err(InsufficientBalance);
      }
    }

    /** transferFunds from the logged-in account `source`. */
    method TransferFunds(source: AccountId, target: AccountId, amount: real) returns (r: Result<()>)
      modifies this
      ensures (r, Snapshot()) == EngineOps.TransferFunds(old(Snapshot()), source, target, amount)
    {
      if target == "" {
        return Err(MissingField);
      }
      if amount <= 0.0 {
        return Err(InvalidAmount);
      }
      if Find(accounts, target).None? {
        return Err(TargetNotFound);
      }
      ghost var before := accounts;
      var debited := DebitRowIfCovered(source, amount);
      if debited == 0 {
        return Err(InsufficientBalance);
      }
      ghost var i, j := EngineOps.Covered(before, source, amount).value, Find(before, target).value;
      EngineLemmas.AdjustKeepsLookup(before, i, -amount, target);
      var credited := CreditRow(target, amount);
      LogTransaction(source, TransferOut, amount);
      LogTransaction(target, TransferIn, amount);
      assert log == old(log) + [Tx(source, TransferOut, amount), Tx(target, TransferIn, amount)];
      r := Ok(());
    }

    /** applyForLoan for the logged-in account `id`. */
    method ApplyForLoan(id: AccountId, amount: real) returns (r: Result<()>)
      modifies this
      ensures (r, Snapshot()) == EngineOps.ApplyForLoan(old(Snapshot()), id, amount)
    {
      if amount <= 0.0 {
        return Err(InvalidAmount);
      }
      if amount > MaxLoanAmount {
        return Err(LoanLimitExceeded);
      }
      var rowsUpdated := CreditRow(id, amount);
      if rowsUpdated == 0 {
        return Err(AccountNotFound);
      }
      InsertLoan(id, amount);
      LogTransaction(id, LoanIssued, amount);
      r := Ok(());
    }

    /** repayLoan for the logged-in account `id`; the value is the "fully repaid" signal. */
    method RepayLoan(id: AccountId, amount: real) returns (r: Result<bool>)
      modifies this
      ensures (r, Snapshot()) == EngineOps.RepayLoan(old(Snapshot()), id, amount)
    {
      if amount <= 0.0 {
        return Err(InvalidAmount);
      }
      var active := FirstActive(loans, id);
      if active.None? {
        return Err(NoActiveLoan);
      }
      var k := active.value;
      var remaining := loans[k].remaining;
      if amount > remaining {
        return Err(OverRepayment);
      }
      var debited := DebitRowIfCovered(id, amount);
      if debited == 0 {
        return Err(InsufficientBalance);
      }
      DecrementLoan(k, amount);
      LogTransaction(id, LoanRepayment, amount);
      r := Ok(remaining - amount <= 0.0);
    }

    /** login of a customer account; reads the tables only. */
    method Login(id: AccountId, password: string) returns (r: Result<()>)
      ensures r == EngineOps.Login(Snapshot(), hash, id, password)
      ensures r.Ok? ==> id in Ids(accounts) && !RowOf(accounts, id).blocked
    {
      var found := Find(accounts, id);
      if found.None? {
        return Err(AccountNotFound);
      }
      var row := accounts[found.value];
      if row.blocked {
        r := Err(AccountBlocked);
      } else if row.passwordHash != hash(password) {
        r := Err(WrongPassword);
      } else {
        r := Ok(());
      }
    }

    /** setupAdminAccount at start-up; the bootstrap password is a parameter. */
    method SetupAdminAccount(bootstrapPassword: string)
      modifies this`admins
      ensures Snapshot() == EngineOps.SetupAdmin(old(Snapshot()), hash(bootstrapPassword))
    {
      if BootstrapAdminId !in admins {
        InsertAdmin(BootstrapAdminId, hash(bootstrapPassword));
      }
    }

    /** updateDashboard for the logged-in account: its balance (when its row
        exists), its outstanding loan sum and its five latest records. */
    method UserDashboard(id: AccountId) returns (balance: Option<real>, outstanding: real, activity: seq<Tx>)
      ensures balance.Some? <==> id in Ids(accounts)
      ensures balance.Some? ==> balance.value == BalanceOf(accounts, id)
      ensures outstanding == OutstandingOf(loans, id)
      ensures activity == Recent(log, id, 5)
    {
      var found := Find(accounts, id);
      balance := if found.Some? then Some(accounts[found.value].balance) else None;
      outstanding := OutstandingOf(loans, id);
      activity := Recent(log, id, 5);
    }

    /** updateAdminDashboard: the money held by all accounts and the loans outstanding. */
    method AdminDashboard() returns (totalMoney: real, totalLoans: real)
      ensures totalMoney == TotalMoney(accounts) && totalLoans == TotalOutstanding(loans)
    {
      totalMoney := TotalMoney(accounts);
      totalLoans := TotalOutstanding(loans);
    }
  }
}
