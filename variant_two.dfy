/** The operations that only the second copy of the engine
    (BankManagementSystem) has, or has in its own form: one action that
    toggles the blocked flag, interest as a single bulk UPDATE with no range
    check and no records, a delete of the account row alone, a name and
    password edit, and registration with name and password only. */
module VariantTwo {
  import opened Ledger
  import opened EngineOps
  import EngineLemmas
  import VariantOne

  // ------------------------------------------------------------ block toggle

  /** blockUnblockAccount: account number, then the lookup, then the flag is
      set to the opposite of what was read.  The value is the new flag. */
  function ToggleBlock(s: State, id: AccountId): (r: (Result<bool>, State))
    ensures r.0.Err? ==> r.1 == s
    ensures r.0.Ok? <==> id != "" && id in Ids(s.accounts)
    ensures r.0.Ok? ==> r.0.value == !RowOf(s.accounts, id).blocked
  {
    if id == "" then (Err(MissingField), s)
    else match Find(s.accounts, id)
      case None => (Err(AccountNotFound), s)
      case Some(i) => (Ok(!s.accounts[i].blocked), s.(accounts := SetFlag(s.accounts, i, !s.accounts[i].blocked)))
  }

  /** A toggle flips only `is_blocked` of that account. */
  lemma ToggleBlockFlips(s: State, id: AccountId)
    requires ToggleBlock(s, id).0.Ok?
    ensures var t := ToggleBlock(s, id).1;
      && id in Ids(t.accounts)
      && RowOf(t.accounts, id) == RowOf(s.accounts, id).(blocked := !RowOf(s.accounts, id).blocked)
      && OthersUnchanged(s.accounts, t.accounts, {id})
      && TotalMoney(t.accounts) == TotalMoney(s.accounts)
      && t.loans == s.loans && t.log == s.log && t.admins == s.admins
  {
    var i := Find(s.accounts, id).value;
    SetFlagOnlyFlag(s.accounts, i, !s.accounts[i].blocked);
  }

  /** Toggling twice gives back the database it started from, whatever the input. */
  lemma ToggleTwiceRestores(s: State, id: AccountId)
    ensures ToggleBlock(ToggleBlock(s, id).1, id).1 == s
  {
    if ToggleBlock(s, id).0.Ok? {
      var i := Find(s.accounts, id).value;
      var b := s.accounts[i].blocked;
      SetFlagOnlyFlag(s.accounts, i, !b);
      assert SetFlag(SetFlag(s.accounts, i, !b), i, b) == s.accounts;
    }
  }

  /** A toggle that blocks locks the account out; one that unblocks lets the
      stored password in again. */
  lemma ToggleBlockLogin(s: State, id: AccountId, hash: string -> Digest, password: string)
    requires ToggleBlock(s, id).0.Ok?
    ensures ToggleBlock(s, id).0.value ==> Login(ToggleBlock(s, id).1, hash, id, password) == Err(AccountBlocked)
    ensures !ToggleBlock(s, id).0.value ==>
              (Login(ToggleBlock(s, id).1, hash, id, password).Ok?
               <==> RowOf(s.accounts, id).passwordHash == hash(password))
  {
    ToggleBlockFlips(s, id);
  }

  /** On an unblocked account the toggle does what the first copy's block action does. */
  lemma ToggleBlockAgreesWithBlock(s: State, id: AccountId, reason: string)
    requires id != "" && !Blank(reason) && id in Ids(s.accounts) && !RowOf(s.accounts, id).blocked
    ensures ToggleBlock(s, id) == (Ok(true), VariantOne.BlockAccount(s, id, reason).1)
  {
  }

  /** On a blocked account the toggle does what the first copy's unblock action does. */
  lemma ToggleBlockAgreesWithUnblock(s: State, id: AccountId)
    requires id != "" && id in Ids(s.accounts) && RowOf(s.accounts, id).blocked
    ensures ToggleBlock(s, id) == (Ok(false), VariantOne.UnblockAccount(s, id).1)
  {
  }

  lemma ToggleBlockKeepsInvariants(s: State, id: AccountId)
    requires Inv(s) && Referential(s)
    ensures Inv(ToggleBlock(s, id).1) && Referential(ToggleBlock(s, id).1)
  {
    if ToggleBlock(s, id).0.Ok? {
      var i := Find(s.accounts, id).value;
      SetFlagKeeps(s, i, !s.accounts[i].blocked);
    }
  }

  // ---------------------------------------------------------------- interest

  /** setInterestRate: `UPDATE accounts SET balance = balance * (1 + ? / 100)` over
      the whole table with any rate; it reports an error when no row was updated. */
  function BulkInterest(s: State, rate: real): (r: (Result<()>, State))
    ensures r.0.Err? ==> r.1 == s
    ensures r.0.Ok? <==> |s.accounts| > 0
  {
    (if |s.accounts| > 0 then Ok(()) else Err(NothingUpdated), s.(accounts := Accrued(s.accounts, rate)))
  }

  /** The bulk update scales the bank's total money by `1 + rate/100`, moves
      no account and writes no record. */
  lemma BulkInterestScales(s: State, rate: real)
    ensures var t := BulkInterest(s, rate).1;
      && Ids(t.accounts) == Ids(s.accounts)
      && TotalMoney(t.accounts) == TotalMoney(s.accounts) * (1.0 + rate / 100.0)
      && t.log == s.log && t.loans == s.loans && t.admins == s.admins
  {
    EngineLemmas.AccruedTotal(s.accounts, rate);
    EngineLemmas.AccruedKeepsLookup(s.accounts, rate, "");
  }

  /** Every account gets the interest update on its own row and nothing else changes in it. */
  lemma BulkInterestRow(s: State, rate: real, x: AccountId)
    requires x in Ids(s.accounts)
    ensures var t := BulkInterest(s, rate).1;
      x in Ids(t.accounts) && RowOf(t.accounts, x) == Accrue(RowOf(s.accounts, x), rate)
  {
    EngineLemmas.AccruedRowOf(s.accounts, rate, x);
  }

  /** Within the first copy's accepted range both copies leave the same balances. */
  lemma BulkInterestAgreesWithSetInterestRate(s: State, rate: real)
    requires 0.0 <= rate <= 100.0
    ensures BulkInterest(s, rate).1.accounts == VariantOne.SetInterestRate(s, rate).1.accounts
    ensures VariantOne.SetInterestRate(s, rate).1 == BulkInterest(s, rate).1.(log := VariantOne.SetInterestRate(s, rate).1.log)
  {
  }

  /** A rate of at least -100 keeps both invariants. */
  lemma BulkInterestKeepsInvariants(s: State, rate: real)
    requires Inv(s) && Referential(s) && rate >= -100.0
    ensures Inv(BulkInterest(s, rate).1) && Referential(BulkInterest(s, rate).1)
  {
    EngineLemmas.AccruedPointwise(s.accounts, rate);
    EngineLemmas.AccruedNonNegative(s.accounts, rate);
    EngineLemmas.AccruedKeepsLookup(s.accounts, rate, "");
  }

  /** With no range check, a rate below -100 drives any funded account negative. */
  lemma BulkInterestBelowMinusHundred(s: State, rate: real, id: AccountId)
    requires rate < -100.0 && id in Ids(s.accounts) && BalanceOf(s.accounts, id) > 0.0
    ensures BulkInterest(s, rate).0.Ok?
    ensures !NonNegative(BulkInterest(s, rate).1.accounts)
  {
    EngineLemmas.AccruedGoesNegative(s.accounts, rate, Find(s.accounts, id).value);
  }

  // ------------------------------------------------------------------ delete

  /** deleteAccount: account number, then `DELETE FROM accounts WHERE account_number = ?`
      alone; no row deleted reports the account as not found. */
  function DeleteAccount(s: State, id: AccountId): (r: (Result<()>, State))
    ensures r.0.Err? ==> r.1 == s
    ensures r.0.Ok? <==> id != "" && id in Ids(s.accounts)
  {
    if id == "" then (Err(MissingField), s)
    else if id !in Ids(s.accounts) then (Err(AccountNotFound), s)
    else (Ok(()), s.(accounts := AccountsWithout(s.accounts, id)))
  }

  /** The delete removes the row and nothing else: the loans and the records
      stay, so does the outstanding total, and every other account is as it was. */
  lemma DeleteRemovesOnlyRow(s: State, id: AccountId, x: AccountId)
    requires DeleteAccount(s, id).0.Ok?
    ensures var t := DeleteAccount(s, id).1;
      && Ids(t.accounts) == Ids(s.accounts) - {id}
      && t.loans == s.loans && t.log == s.log && t.admins == s.admins
      && TotalOutstanding(t.loans) == TotalOutstanding(s.loans)
      && (x != id && x in Ids(s.accounts) ==> x in Ids(t.accounts) && RowOf(t.accounts, x) == RowOf(s.accounts, x))
  {
    AccountsWithoutIds(s.accounts, id);
    if x != id && x in Ids(s.accounts) {
      AccountsWithoutRowOf(s.accounts, id, x);
    }
  }

  /** The same delete in the first copy also drops the loans and the records. */
  lemma DeleteAgreesOnAccounts(s: State, id: AccountId, reason: string)
    requires !Blank(reason)
    ensures VariantOne.DeleteAccount(s, id, reason).0 == DeleteAccount(s, id).0
    ensures VariantOne.DeleteAccount(s, id, reason).1.accounts == DeleteAccount(s, id).1.accounts
  {
  }

  lemma DeleteKeepsInv(s: State, id: AccountId)
    requires Inv(s)
    ensures Inv(DeleteAccount(s, id).1)
  {
    AccountsWithoutKeeps(s.accounts, id);
  }

  /** Deleting an account that still has a loan leaves the loan pointing at no
      account: the rows that referred to it are not removed. */
  lemma DeleteOrphansLoan(s: State, id: AccountId, k: nat)
    requires DeleteAccount(s, id).0.Ok? && k < |s.loans| && s.loans[k].owner == id
    ensures !Referential(DeleteAccount(s, id).1)
  {
    AccountsWithoutIds(s.accounts, id);
    var t := DeleteAccount(s, id).1;
    assert t.loans[k].owner !in Ids(t.accounts);
  }

  /** Deleting an account with records leaves those records pointing at no account. */
  lemma DeleteOrphansRecord(s: State, id: AccountId, k: nat)
    requires DeleteAccount(s, id).0.Ok? && k < |s.log| && s.log[k].owner == id
    ensures !Referential(DeleteAccount(s, id).1)
  {
    AccountsWithoutIds(s.accounts, id);
    var t := DeleteAccount(s, id).1;
    assert t.log[k].owner !in Ids(t.accounts);
  }

  // ------------------------------------------------------------ edit profile

  /** editProfile: both fields non-empty, then `UPDATE accounts SET name = ?,
      password = ?` on the logged-in row; no row updated is an error. */
  function EditProfile(s: State, hash: string -> Digest, id: AccountId, name: string, password: string)
    : (r: (Result<()>, State))
    ensures r.0.Err? ==> r.1 == s
    ensures r.0.Ok? <==> name != "" && password != "" && id in Ids(s.accounts)
  {
    if name == "" || password == "" then (Err(MissingField), s)
    else match Find(s.accounts, id)
      case None => (Err(NothingUpdated), s)
      case Some(i) => (Ok(()), s.(accounts := s.accounts[i := s.accounts[i].(name := name, passwordHash := hash(password))]))
  }

  /** An edit changes only the name and the password digest of that account,
      after which the new password is the one that logs in. */
  lemma EditProfileChangesCredentials(s: State, hash: string -> Digest, id: AccountId, name: string, password: string)
    requires EditProfile(s, hash, id, name, password).0.Ok?
    ensures var t := EditProfile(s, hash, id, name, password).1;
      && id in Ids(t.accounts)
      && RowOf(t.accounts, id) == RowOf(s.accounts, id).(name := name, passwordHash := hash(password))
      && OthersUnchanged(s.accounts, t.accounts, {id})
      && TotalMoney(t.accounts) == TotalMoney(s.accounts)
      && t.loans == s.loans && t.log == s.log
      && Login(t, hash, id, password) == if RowOf(s.accounts, id).blocked then Err(AccountBlocked) else Ok(())
  {
    var i := Find(s.accounts, id).value;
    var a := s.accounts[i].(name := name, passwordHash := hash(password));
    RowUpdateKeepsLookup(s.accounts, i, a, id);
    RowUpdateOthersUnchanged(s.accounts, i, a);
    TotalMoneyUpdate(s.accounts, i, a);
  }

  lemma EditProfileKeepsInvariants(s: State, hash: string -> Digest, id: AccountId, name: string, password: string)
    requires Inv(s) && Referential(s)
    ensures Inv(EditProfile(s, hash, id, name, password).1) && Referential(EditProfile(s, hash, id, name, password).1)
  {
    if EditProfile(s, hash, id, name, password).0.Ok? {
      var i := Find(s.accounts, id).value;
      RowUpdateKeepsLookup(s.accounts, i, s.accounts[i].(name := name, passwordHash := hash(password)), id);
    }
  }

  /** Against the first copy's edit: this one also refuses an empty name or
      password, and where both copies succeed they leave the same state, the
      first copy keeping the row's own profile columns. */
  lemma EditProfileAgreesWithFirstCopy(s: State, hash: string -> Digest, id: AccountId, name: string,
                                       password: string, profile: Profile)
    ensures EditProfile(s, hash, id, name, password).0.Ok?
            <==> name != "" && password != "" && VariantOne.EditProfile(s, hash, id, name, profile, password).0.Ok?
    ensures EditProfile(s, hash, id, name, password).0.Ok? ==>
              EditProfile(s, hash, id, name, password).1
              == VariantOne.EditProfile(s, hash, id, name, RowOf(s.accounts, id).profile, password).1
  {
  }

  // ------------------------------------------------------------ registration

  /** The register action and createAccount: name and password non-empty, then
      an INSERT of the three columns that the primary key refuses for an
      existing id.  This copy's table has no profile columns. */
  function Register(s: State, hash: string -> Digest, freshId: AccountId, name: string, password: string)
    : (r: (Result<()>, State))
    ensures r.0.Err? ==> r.1 == s
    ensures r.0.Ok? <==> name != "" && password != "" && freshId !in Ids(s.accounts)
  {
    if name == "" || password == "" then (Err(MissingField), s)
    else if freshId in Ids(s.accounts) then (Err(DuplicateId), s)
    else (Ok(()), s.(accounts := s.accounts + [NewAccount(freshId, name, hash(password), NoProfile)]))
  }

  /** A new account starts empty and unblocked, logs in with its password and
      changes no existing account. */
  lemma RegisterOpensAccount(s: State, hash: string -> Digest, freshId: AccountId, name: string, password: string)
    requires Register(s, hash, freshId, name, password).0.Ok?
    ensures var t := Register(s, hash, freshId, name, password).1;
      && Ids(t.accounts) == Ids(s.accounts) + {freshId}
      && BalanceOf(t.accounts, freshId) == 0.0
      && Login(t, hash, freshId, password) == Ok(())
      && TotalMoney(t.accounts) == TotalMoney(s.accounts)
      && t.loans == s.loans && t.log == s.log
  {
    var a := NewAccount(freshId, name, hash(password), NoProfile);
    FindAppend(s.accounts, a, freshId);
    TotalMoneyAppend(s.accounts, a);
  }

  lemma RegisterKeepsInvariants(s: State, hash: string -> Digest, freshId: AccountId, name: string, password: string)
    requires Inv(s) && Referential(s)
    ensures Inv(Register(s, hash, freshId, name, password).1) && Referential(Register(s, hash, freshId, name, password).1)
  {
    if Register(s, hash, freshId, name, password).0.Ok? {
      var a := NewAccount(freshId, name, hash(password), NoProfile);
      FindAppend(s.accounts, a, freshId);
      var r := s.accounts + [a];
      forall i, j | 0 <= i < j < |r| ensures r[i].id != r[j].id {
        if j == |s.accounts| {
          IdsIndex(s.accounts, freshId);
        }
      }
    }
  }

  /** Against the first copy's registration with any filled-in profile: the
      same outcome, the duplicate-id refusal included, and on success the same
      state except that the new row has no profile columns. */
  lemma RegisterAgreesWithFirstCopy(s: State, hash: string -> Digest, freshId: AccountId, name: string,
                                    password: string, profile: Profile)
    requires profile.address != "" && profile.nationality != "" && profile.nidNumber != ""
             && profile.phoneNumber != ""
    ensures Register(s, hash, freshId, name, password).0
            == VariantOne.Register(s, hash, freshId, name, password, profile).0
    ensures var first := VariantOne.Register(s, hash, freshId, name, password, profile).1;
      Register(s, hash, freshId, name, password).0.Ok? ==>
        && |first.accounts| == |s.accounts| + 1
        && Register(s, hash, freshId, name, password).1
           == first.(accounts := first.accounts[|s.accounts| := first.accounts[|s.accounts|].(profile := NoProfile)])
  {
  }
}
