/** The first copy's own handlers as methods on the database object: each
    issues the checks and statements of its source action in order and is
    proved to commit exactly the outcome its step function in VariantOne
    describes. */
module VariantOneHandlers {
  import opened Ledger
  import opened EngineOps
  import VariantOne
  import opened Engine
  import EngineLemmas

  /** The apply action of the interest dialog: the range check, then the walk
      over the accounts, committed together. */
  method SetInterestRate(bank: Bank, rate: real) returns (r: Result<()>)
    requires UniqueIds(bank.accounts)
    modifies bank
    ensures (r, bank.Snapshot()) == VariantOne.SetInterestRate(old(bank.Snapshot()), rate)
  {
    if rate < 0.0 || rate > 100.0 {
      return Err(RateOutOfRange);
    }
    ApplyInterest(bank, rate);
    r := Ok(());
  }

  /** The walk over `SELECT account_number, balance FROM accounts`: each row is
      updated by its id and its INTEREST record written.  The rows are found by
      their primary key, so the table's ids are distinct. */
  method ApplyInterest(bank: Bank, rate: real)
    requires UniqueIds(bank.accounts)
    modifies bank
    ensures bank.accounts == Accrued(old(bank.accounts), rate)
    ensures bank.log == old(bank.log) + VariantOne.InterestRecords(old(bank.accounts), rate)
    ensures bank.loans == old(bank.loans) && bank.admins == old(bank.admins)
    ensures bank.nextLoanId == old(bank.nextLoanId)
  {
    var rows := bank.accounts;
    var k := 0;
    assert rows[..0] == [];
    while k < |rows|
      invariant 0 <= k <= |rows|
      invariant PartlyAccrued(bank.accounts, rows, rate, k)
      invariant bank.log == old(bank.log) + VariantOne.InterestRecords(rows[..k], rate)
      invariant bank.loans == old(bank.loans) && bank.admins == old(bank.admins)
      invariant bank.nextLoanId == old(bank.nextLoanId)
    {
      InterestForRow(bank, rows, rate, k);
      RecordsStep(rows, rate, k);
      k := k + 1;
    }
    assert rows[..|rows|] == rows;
    EngineLemmas.AccruedPointwise(rows, rate);
    assert bank.accounts == Accrued(rows, rate);
  }

  /** The table part way through the walk: the first k rows have had the
      interest update, the rest are as the SELECT returned them. */
  ghost predicate PartlyAccrued(cur: seq<Account>, rows: seq<Account>, rate: real, k: nat) {
    |cur| == |rows| && forall j :: 0 <= j < |rows| ==> cur[j] == if j < k then Accrue(rows[j], rate) else rows[j]
  }

  /** One turn of the walk: row k, which the SELECT returned with its old
      balance, gets the interest update and its INTEREST record. */
  method InterestForRow(bank: Bank, rows: seq<Account>, rate: real, k: nat)
    requires UniqueIds(rows) && k < |rows|
    requires PartlyAccrued(bank.accounts, rows, rate, k)
    modifies bank
    ensures PartlyAccrued(bank.accounts, rows, rate, k + 1)
    ensures bank.log == old(bank.log) + [Tx(rows[k].id, Interest, InterestOn(rows[k].balance, rate))]
    ensures bank.loans == old(bank.loans) && bank.admins == old(bank.admins)
    ensures bank.nextLoanId == old(bank.nextLoanId)
  {
    var id := rows[k].id;
    var oldBalance := rows[k].balance;
    IdStaysAt(bank.accounts, rows, rate, k);
    bank.AccrueRow(id, rate);
    bank.LogTransaction(id, Interest, InterestOn(oldBalance, rate));
  }

  /** Part way through the walk, the next row still sits where the SELECT saw it. */
  lemma IdStaysAt(cur: seq<Account>, rows: seq<Account>, rate: real, k: nat)
    requires UniqueIds(rows) && k < |rows| && PartlyAccrued(cur, rows, rate, k)
    ensures rows[k].id in Ids(cur) && Find(cur, rows[k].id) == Some(k)
  {
    forall j | 0 <= j < |cur| ensures cur[j].id == rows[j].id {
    }
    FindSameIds(cur, rows, rows[k].id);
    FindUnique(rows, k);
  }

  /** The record written for row k extends the INTEREST records of the prefix by one. */
  lemma RecordsStep(rows: seq<Account>, rate: real, k: nat)
    requires k < |rows|
    ensures VariantOne.InterestRecords(rows[..k + 1], rate)
            == VariantOne.InterestRecords(rows[..k], rate) + [Tx(rows[k].id, Interest, InterestOn(rows[k].balance, rate))]
  {
    var p := rows[..k + 1];
    assert p[..k] == rows[..k];
    var rec := VariantOne.InterestRecords(p, rate);
    assert rec[..k] == VariantOne.InterestRecords(rows[..k], rate);
    VariantOne.InterestRecordsAt(p, rate, k);
    assert rec == rec[..k] + [rec[k]];
  }

  /** The block action, with the confirmation answered yes. */
  method BlockAccount(bank: Bank, id: AccountId, reason: string) returns (r: Result<()>)
    modifies bank
    ensures (r, bank.Snapshot()) == VariantOne.BlockAccount(old(bank.Snapshot()), id, reason)
  {
    if id == "" || Blank(reason) {
      return Err(MissingField);
    }
    var found := Find(bank.accounts, id);
    if found.None? {
      return Err(AccountNotFound);
    }
    if bank.accounts[found.value].blocked {
      return Err(AlreadyBlocked);
    }
    var rowsUpdated := bank.SetBlocked(id, true);
    r := Ok(());
  }

  /** The unblock action, with the confirmation answered yes. */
  method UnblockAccount(bank: Bank, id: AccountId) returns (r: Result<()>)
    modifies bank
    ensures (r, bank.Snapshot()) == VariantOne.UnblockAccount(old(bank.Snapshot()), id)
  {
    if id == "" {
      return Err(MissingField);
    }
    var found := Find(bank.accounts, id);
    if found.None? {
      return Err(AccountNotFound);
    }
    if !bank.accounts[found.value].blocked {
      return Err(NotBlocked);
    }
    var rowsUpdated := bank.SetBlocked(id, false);
    r := Ok(());
  }

  /** The delete action, with the confirmation answered yes: the account's
      records, then its loans, then its row. */
  method DeleteAccount(bank: Bank, id: AccountId, reason: string) returns (r: Result<()>)
    modifies bank
    ensures (r, bank.Snapshot()) == VariantOne.DeleteAccount(old(bank.Snapshot()), id, reason)
  {
    if id == "" || Blank(reason) {
      return Err(MissingField);
    }
    if Find(bank.accounts, id).None? {
      return Err(AccountNotFound);
    }
    bank.DeleteRecordsOf(id);
    bank.DeleteLoansOf(id);
    var rowsDeleted := bank.DeleteAccountRow(id);
    r := Ok(());
  }

  /** editProfile for the logged-in account, with the dialog answered OK. */
  method EditProfile(bank: Bank, id: AccountId, name: string, profile: Profile, password: string)
    returns (r: Result<()>)
    modifies bank
    ensures (r, bank.Snapshot()) == VariantOne.EditProfile(old(bank.Snapshot()), bank.hash, id, name, profile, password)
  {
    if Find(bank.accounts, id).None? {
      return Err(AccountNotFound);
    }
    var rowsUpdated := bank.UpdateProfileRow(id, name, bank.hash(password), profile);
    r := Ok(());
  }

  /** The register action and createAccount; `freshId` is the generated account number. */
  method Register(bank: Bank, freshId: AccountId, name: string, password: string, profile: Profile)
    returns (r: Result<()>)
    modifies bank
    ensures (r, bank.Snapshot()) == VariantOne.Register(old(bank.Snapshot()), bank.hash, freshId, name, password, profile)
  {
    if name == "" || profile.address == "" || profile.nationality == "" || profile.nidNumber == ""
       || profile.phoneNumber == "" || password == "" {
      return Err(MissingField);
    }
    var inserted := bank.InsertAccount(NewAccount(freshId, name, bank.hash(password), profile));
    r := if inserted then Ok(()) else Err(DuplicateId);
  }

  /** The update action of changeAdminCredentials. */
  method ChangeAdminCredentials(bank: Bank, cur: string, curPassword: string, newId: string, newPassword: string)
    returns (r: Result<()>)
    modifies bank
    ensures (r, bank.Snapshot())
            == VariantOne.ChangeAdminCredentials(old(bank.Snapshot()), bank.hash, cur, curPassword, newId, newPassword)
  {
    if cur == "" || curPassword == "" || newId == "" || newPassword == "" {
      return Err(MissingField);
    }
    if !(cur in bank.admins && bank.admins[cur] == bank.hash(curPassword)) {
      return Err(InvalidCredentials);
    }
    if newId in bank.admins {
      return Err(DuplicateId);
    }
    var rowsUpdated := bank.RenameAdminRow(cur, newId, bank.hash(newPassword));
    r := if rowsUpdated > 0 then Ok(()) else Err(NothingUpdated);
  }
}
