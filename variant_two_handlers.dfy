/** The second copy's own handlers as methods on the database object, each
    proved to commit exactly the outcome its step function in VariantTwo
    describes. */
module VariantTwoHandlers {
  import opened Ledger
  import opened EngineOps
  import VariantTwo
  import opened Engine

  /** blockUnblockAccount: read the flag, write its opposite. */
  method ToggleBlock(bank: Bank, id: AccountId) returns (r: Result<bool>)
    modifies bank
    ensures (r, bank.Snapshot()) == VariantTwo.ToggleBlock(old(bank.Snapshot()), id)
  {
    if id == "" {
      return Err(MissingField);
    }
    var found := Find(bank.accounts, id);
    if found.None? {
      return Err(AccountNotFound);
    }
    var isBlocked := bank.accounts[found.value].blocked;
    var rowsUpdated := bank.SetBlocked(id, !isBlocked);
    r := if rowsUpdated > 0 then Ok(!isBlocked) else Err(NothingUpdated);
  }

  /** setInterestRate: the bulk UPDATE, then the updated-row count decides the message. */
  method SetInterestRate(bank: Bank, rate: real) returns (r: Result<()>)
    modifies bank
    ensures (r, bank.Snapshot()) == VariantTwo.BulkInterest(old(bank.Snapshot()), rate)
  {
    var rowsUpdated := bank.AccrueAll(rate);
    r := if rowsUpdated > 0 then Ok(()) else Err(NothingUpdated);
  }

  /** deleteAccount, with the confirmation answered yes. */
  method DeleteAccount(bank: Bank, id: AccountId) returns (r: Result<()>)
    modifies bank
    ensures (r, bank.Snapshot()) == VariantTwo.DeleteAccount(old(bank.Snapshot()), id)
  {
    if id == "" {
      return Err(MissingField);
    }
    ghost var before := bank.accounts;
    var rowsDeleted := bank.DeleteAccountRow(id);
    if rowsDeleted > 0 {
      r := Ok(());
    } else {
      AbsentDeleteKeeps(before, id);
      r := Err(AccountNotFound);
    }
  }

  /** Deleting an id the table does not hold leaves the table as it was. */
  lemma {:induction false} AbsentDeleteKeeps(rows: seq<Account>, id: AccountId)
    requires id !in Ids(rows)
    ensures AccountsWithout(rows, id) == rows
  {
    if |rows| > 0 {
      assert rows[0].id != id && id !in Ids(rows[1..]);
      AbsentDeleteKeeps(rows[1..], id);
      calc {
        AccountsWithout(rows, id);
        [rows[0]] + AccountsWithout(rows[1..], id);
        [rows[0]] + rows[1..];
        rows;
      }
    }
  }

  /** editProfile for the logged-in account. */
  method EditProfile(bank: Bank, id: AccountId, name: string, password: string) returns (r: Result<()>)
    modifies bank
    ensures (r, bank.Snapshot()) == VariantTwo.EditProfile(old(bank.Snapshot()), bank.hash, id, name, password)
  {
    if name == "" || password == "" {
      return Err(MissingField);
    }
    var rowsUpdated := bank.UpdateCredentialsRow(id, name, bank.hash(password));
    r := if rowsUpdated > 0 then Ok(()) else Err(NothingUpdated);
  }

  /** The register action and createAccount; `freshId` is the generated account number. */
  method Register(bank: Bank, freshId: AccountId, name: string, password: string) returns (r: Result<()>)
    modifies bank
    ensures (r, bank.Snapshot()) == VariantTwo.Register(old(bank.Snapshot()), bank.hash, freshId, name, password)
  {
    if name == "" || password == "" {
      return Err(MissingField);
    }
    var inserted := bank.InsertAccount(NewAccount(freshId, name, bank.hash(password), NoProfile));
    r := if inserted then Ok(()) else Err(DuplicateId);
  }
}
