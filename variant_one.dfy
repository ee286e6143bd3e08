/** The operations that only the first copy of the engine
    (Bank-Management-System) has, or has in its own form: interest applied
    row by row with a range check and INTEREST records, separate block and
    unblock actions, a delete that cascades to loans and records, the
    full-profile edit, registration with every profile column, and the admin
    credential change. */
module VariantOne {
  import opened Ledger
  import opened EngineOps
  import EngineLemmas

  // ---------------------------------------------------------------- interest

  /** The INTEREST records the apply action writes: one per account, in table
      order, each of `old balance * rate / 100`. */
  function InterestRecords(rows: seq<Account>, rate: real): (r: seq<Tx>)
    ensures |r| == |rows|
  {
    if |rows| == 0 then []
    else
      var last := rows[|rows| - 1];
      InterestRecords(rows[..|rows| - 1], rate) + [Tx(last.id, Interest, InterestOn(last.balance, rate))]
  }

  /** Record k is account k's interest. */
  lemma {:induction false} InterestRecordsAt(rows: seq<Account>, rate: real, k: nat)
    requires k < |rows|
    ensures InterestRecords(rows, rate)[k] == Tx(rows[k].id, Interest, InterestOn(rows[k].balance, rate))
  {
    var n := |rows|;
    if k < n - 1 {
      InterestRecordsAt(rows[..n - 1], rate, k);
      assert InterestRecords(rows, rate)[k] == InterestRecords(rows[..n - 1], rate)[k];
    }
  }

  /** The apply action of the interest dialog: the range check, then every
      account's balance updated and its INTEREST record written, committed together. */
  function SetInterestRate(s: State, rate: real): (r: (Result<()>, State))
    ensures r.0.Err? ==> r.1 == s
    ensures r.0.Ok? <==> 0.0 <= rate <= 100.0
  {
    if rate < 0.0 || rate > 100.0 then (Err(RateOutOfRange), s)
    else (Ok(()), s.(accounts := Accrued(s.accounts, rate), log := s.log + InterestRecords(s.accounts, rate)))
  }

  /** The INTEREST records add up to the money interest created. */
  lemma {:induction false} InterestRecordsTotal(rows: seq<Account>, rate: real)
    ensures TotalAmount(InterestRecords(rows, rate)) == TotalMoney(Accrued(rows, rate)) - TotalMoney(rows)
  {
    if |rows| > 0 {
      var front, a := rows[..|rows| - 1], rows[|rows| - 1];
      InterestRecordsTotal(front, rate);
      var records := InterestRecords(rows, rate);
      assert records[..|rows| - 1] == InterestRecords(front, rate);
      assert records == records[..|rows| - 1] + [records[|rows| - 1]];
      TotalAmountAppend(InterestRecords(front, rate), records[|rows| - 1]);
      EngineLemmas.AccrueGain(a, rate);
      assert Accrued(rows, rate) == Accrued(front, rate) + [Accrue(a, rate)];
      TotalMoneyAppend(Accrued(front, rate), Accrue(a, rate));
    }
  }

  lemma TotalAmountAppend(log: seq<Tx>, t: Tx)
    ensures TotalAmount(log + [t]) == TotalAmount(log) + t.amount
  {
    assert (log + [t])[..|log|] == log;
  }

  /** A successful application scales the bank's total money by `1 + rate/100`;
      the growth equals the sum of the INTEREST records just written; loans are untouched. */
  lemma InterestIsLogged(s: State, rate: real)
    requires SetInterestRate(s, rate).0.Ok?
    ensures var t := SetInterestRate(s, rate).1;
      && TotalMoney(t.accounts) == TotalMoney(s.accounts) * (1.0 + rate / 100.0)
      && t.log[..|s.log|] == s.log
      && TotalMoney(t.accounts) == TotalMoney(s.accounts) + TotalAmount(t.log[|s.log|..])
      && TotalAmount(t.log[|s.log|..]) == TotalMoney(s.accounts) * (rate / 100.0)
      && t.loans == s.loans && t.admins == s.admins
  {
    var t := SetInterestRate(s, rate).1;
    EngineLemmas.AccruedTotal(s.accounts, rate);
    InterestRecordsTotal(s.accounts, rate);
    assert t.log[|s.log|..] == InterestRecords(s.accounts, rate);
    EngineLemmas.Distribute(1.0, rate / 100.0, TotalMoney(s.accounts));
  }

  lemma SetInterestRateKeepsInv(s: State, rate: real)
    requires Inv(s)
    ensures Inv(SetInterestRate(s, rate).1)
  {
    if SetInterestRate(s, rate).0.Ok? {
      EngineLemmas.AccruedPointwise(s.accounts, rate);
      EngineLemmas.AccruedNonNegative(s.accounts, rate);
    }
  }

  lemma SetInterestRateKeepsReferential(s: State, rate: real)
    requires Referential(s)
    ensures Referential(SetInterestRate(s, rate).1)
  {
    if SetInterestRate(s, rate).0.Ok? {
      var t := SetInterestRate(s, rate).1;
      EngineLemmas.AccruedKeepsLookup(s.accounts, rate, "");
      forall k | |s.log| <= k < |t.log| ensures t.log[k].owner in Ids(t.accounts) {
        var m := k - |s.log|;
        assert t.log[k] == InterestRecords(s.accounts, rate)[m];
        InterestRecordsAt(s.accounts, rate, m);
        IdsIndex(s.accounts, s.accounts[m].id);
      }
    }
  }

  // ------------------------------------------------------- block / unblock

  /** The block action: account number, then a non-blank reason, then the
      lookup, then the already-blocked check. */
  function BlockAccount(s: State, id: AccountId, reason: string): (r: (Result<()>, State))
    ensures r.0.Err? ==> r.1 == s
    ensures r.0.Ok? <==> id != "" && !Blank(reason) && id in Ids(s.accounts) && !RowOf(s.accounts, id).blocked
    ensures id != "" && !Blank(reason) && id in Ids(s.accounts) && RowOf(s.accounts, id).blocked
            ==> r.0 == Err(AlreadyBlocked)
  {
    if id == "" || Blank(reason) then (Err(MissingField), s)
    else match Find(s.accounts, id)
      case None => (Err(AccountNotFound), s)
      case Some(i) =>
        if s.accounts[i].blocked then (Err(AlreadyBlocked), s)
        else (Ok(()), s.(accounts := SetFlag(s.accounts, i, true)))
  }

  /** The unblock action: account number, then the lookup, then the not-blocked check. */
  function UnblockAccount(s: State, id: AccountId): (r: (Result<()>, State))
    ensures r.0.Err? ==> r.1 == s
    ensures r.0.Ok? <==> id != "" && id in Ids(s.accounts) && RowOf(s.accounts, id).blocked
    ensures id != "" && id in Ids(s.accounts) && !RowOf(s.accounts, id).blocked ==> r.0 == Err(NotBlocked)
  {
    if id == "" then (Err(MissingField), s)
    else match Find(s.accounts, id)
      case None => (Err(AccountNotFound), s)
      case Some(i) =>
        if !s.accounts[i].blocked then (Err(NotBlocked), s)
        else (Ok(()), s.(accounts := SetFlag(s.accounts, i, false)))
  }

  /** A block sets only `is_blocked` of that account. */
  lemma BlockSetsOnlyFlag(s: State, id: AccountId, reason: string)
    requires BlockAccount(s, id, reason).0.Ok?
    ensures var t := BlockAccount(s, id, reason).1;
      && id in Ids(t.accounts)
      && RowOf(t.accounts, id) == RowOf(s.accounts, id).(blocked := true)
      && OthersUnchanged(s.accounts, t.accounts, {id})
      && TotalMoney(t.accounts) == TotalMoney(s.accounts)
      && t.loans == s.loans && t.log == s.log && t.admins == s.admins
  {
    SetFlagOnlyFlag(s.accounts, Find(s.accounts, id).value, true);
  }

  /** After a block, no password lets the account log in. */
  lemma BlockedAccountCannotLogIn(s: State, id: AccountId, reason: string, hash: string -> Digest, password: string)
    requires BlockAccount(s, id, reason).0.Ok?
    ensures Login(BlockAccount(s, id, reason).1, hash, id, password) == Err(AccountBlocked)
  {
    BlockSetsOnlyFlag(s, id, reason);
  }

  /** Unblocking a just-blocked account restores the database exactly. */
  lemma UnblockUndoesBlock(s: State, id: AccountId, reason: string)
    requires BlockAccount(s, id, reason).0.Ok?
    ensures UnblockAccount(BlockAccount(s, id, reason).1, id) == (Ok(()), s)
  {
    var i := Find(s.accounts, id).value;
    SetFlagOnlyFlag(s.accounts, i, true);
    assert SetFlag(SetFlag(s.accounts, i, true), i, false) == s.accounts;
  }

  /** An unblock sets only `is_blocked`, after which the stored password logs in again. */
  lemma UnblockRestoresLogin(s: State, id: AccountId, hash: string -> Digest, password: string)
    requires UnblockAccount(s, id).0.Ok?
    ensures var t := UnblockAccount(s, id).1;
      && id in Ids(t.accounts)
      && RowOf(t.accounts, id) == RowOf(s.accounts, id).(blocked := false)
      && OthersUnchanged(s.accounts, t.accounts, {id})
      && t.loans == s.loans && t.log == s.log
      && (Login(t, hash, id, password).Ok? <==> RowOf(s.accounts, id).passwordHash == hash(password))
  {
    SetFlagOnlyFlag(s.accounts, Find(s.accounts, id).value, false);
  }

  lemma BlockKeepsInvariants(s: State, id: AccountId, reason: string)
    requires Inv(s) && Referential(s)
    ensures Inv(BlockAccount(s, id, reason).1) && Referential(BlockAccount(s, id, reason).1)
    ensures Inv(UnblockAccount(s, id).1) && Referential(UnblockAccount(s, id).1)
  {
    if id in Ids(s.accounts) {
      SetFlagKeeps(s, Find(s.accounts, id).value, true);
      SetFlagKeeps(s, Find(s.accounts, id).value, false);
    }
  }

  // ------------------------------------------------------------------ delete

  /** The delete action: account number, then a non-blank reason, then the lookup;
      the records, the loans and the account row are removed in one transaction. */
  function DeleteAccount(s: State, id: AccountId, reason: string): (r: (Result<()>, State))
    ensures r.0.Err? ==> r.1 == s
    ensures r.0.Ok? <==> id != "" && !Blank(reason) && id in Ids(s.accounts)
  {
    if id == "" || Blank(reason) then (Err(MissingField), s)
    else if Find(s.accounts, id).None? then (Err(AccountNotFound), s)
    else (Ok(()), s.(accounts := AccountsWithout(s.accounts, id),
                     loans := LoansWithout(s.loans, id),
                     log := RecordsWithout(s.log, id)))
  }

  /** A delete leaves no trace of the account: no row, no loan, no record; the
      bank's outstanding total drops by what the account owed. */
  lemma DeleteRemovesAccount(s: State, id: AccountId, reason: string)
    requires DeleteAccount(s, id, reason).0.Ok?
    ensures var t := DeleteAccount(s, id, reason).1;
      && Ids(t.accounts) == Ids(s.accounts) - {id}
      && LoansOf(t.loans, id) == []
      && RecordsOf(t.log, id) == []
      && TotalOutstanding(t.loans) == TotalOutstanding(s.loans) - OutstandingOf(s.loans, id)
      && t.admins == s.admins
  {
    AccountsWithoutIds(s.accounts, id);
    LoansWithoutLoansOf(s.loans, id, id);
    RecordsWithoutRecordsOf(s.log, id, id);
    LoansWithoutOutstanding(s.loans, id);
  }

  /** A delete leaves every other account, its loans and its records as they were. */
  lemma DeleteKeepsOthers(s: State, id: AccountId, reason: string, x: AccountId)
    requires DeleteAccount(s, id, reason).0.Ok? && x != id
    ensures var t := DeleteAccount(s, id, reason).1;
      && (x in Ids(s.accounts) ==> x in Ids(t.accounts) && RowOf(t.accounts, x) == RowOf(s.accounts, x))
      && LoansOf(t.loans, x) == LoansOf(s.loans, x)
      && OutstandingOf(t.loans, x) == OutstandingOf(s.loans, x)
      && RecordsOf(t.log, x) == RecordsOf(s.log, x)
  {
    if x in Ids(s.accounts) {
      AccountsWithoutRowOf(s.accounts, id, x);
    }
    LoansWithoutLoansOf(s.loans, id, x);
    LoansWithoutOutstandingOf(s.loans, id, x);
    RecordsWithoutRecordsOf(s.log, id, x);
  }

  /** The cascade keeps both invariants: nothing is left pointing at the deleted account. */
  lemma DeleteKeepsInvariants(s: State, id: AccountId, reason: string)
    requires Inv(s) && Referential(s)
    ensures Inv(DeleteAccount(s, id, reason).1) && Referential(DeleteAccount(s, id, reason).1)
  {
    if DeleteAccount(s, id, reason).0.Ok? {
      var t := DeleteAccount(s, id, reason).1;
      AccountsWithoutKeeps(s.accounts, id);
      LoansWithoutKeeps(s.loans, id, s.nextLoanId);
      AccountsWithoutIds(s.accounts, id);
      forall k | 0 <= k < |t.loans| ensures t.loans[k].owner in Ids(t.accounts) {
        var m :| 0 <= m < |s.loans| && s.loans[m] == t.loans[k];
      }
      forall k | 0 <= k < |t.log| ensures t.log[k].owner in Ids(t.accounts) {
        var m :| 0 <= m < |s.log| && s.log[m] == t.log[k];
      }
    }
  }

  // ------------------------------------------------------------ edit profile

  /** editProfile: the row of the logged-in account gets the new name, profile
      columns and the digest of the new password text, whatever it is. */
  function EditProfile(s: State, hash: string -> Digest, id: AccountId, name: string,
                       profile: Profile, password: string): (r: (Result<()>, State))
    ensures r.0.Err? ==> r.1 == s
    ensures r.0.Ok? <==> id in Ids(s.accounts)
  {
    match Find(s.accounts, id)
    case None => (Err(AccountNotFound), s)
    case Some(i) =>
      (Ok(()), s.(accounts := s.accounts[i := s.accounts[i].(name := name, passwordHash := hash(password),
                                                             profile := profile)]))
  }

  /** A profile edit keeps the balance and the blocked flag, touches no other
      account, and leaves the new password as the one that logs in. */
  lemma EditProfileKeepsMoney(s: State, hash: string -> Digest, id: AccountId, name: string,
                              profile: Profile, password: string)
    requires EditProfile(s, hash, id, name, profile, password).0.Ok?
    ensures var t := EditProfile(s, hash, id, name, profile, password).1;
      && id in Ids(t.accounts)
      && RowOf(t.accounts, id) == RowOf(s.accounts, id).(name := name, passwordHash := hash(password), profile := profile)
      && OthersUnchanged(s.accounts, t.accounts, {id})
      && TotalMoney(t.accounts) == TotalMoney(s.accounts)
      && t.loans == s.loans && t.log == s.log
      && Login(t, hash, id, password) == if RowOf(s.accounts, id).blocked then Err(AccountBlocked) else Ok(())
  {
    var i := Find(s.accounts, id).value;
    var a := s.accounts[i].(name := name, passwordHash := hash(password), profile := profile);
    RowUpdateKeepsLookup(s.accounts, i, a, id);
    RowUpdateOthersUnchanged(s.accounts, i, a);
    TotalMoneyUpdate(s.accounts, i, a);
  }

  lemma EditProfileKeepsInvariants(s: State, hash: string -> Digest, id: AccountId, name: string,
                                   profile: Profile, password: string)
    requires Inv(s) && Referential(s)
    ensures Inv(EditProfile(s, hash, id, name, profile, password).1)
    ensures Referential(EditProfile(s, hash, id, name, profile, password).1)
  {
    if id in Ids(s.accounts) {
      var i := Find(s.accounts, id).value;
      RowUpdateKeepsLookup(s.accounts, i, s.accounts[i].(name := name, passwordHash := hash(password),
                                                         profile := profile), id);
    }
  }

  // ------------------------------------------------------------ registration

  /** The register action and createAccount: every text field non-empty (the
      date of birth comes from spinners and is never empty), then an INSERT that
      the primary key refuses for an existing id. */
  function Register(s: State, hash: string -> Digest, freshId: AccountId, name: string,
                    password: string, profile: Profile): (r: (Result<()>, State))
    ensures r.0.Err? ==> r.1 == s
    ensures r.0.Ok? <==> name != "" && profile.address != "" && profile.nationality != ""
                         && profile.nidNumber != "" && profile.phoneNumber != "" && password != ""
                         && freshId !in Ids(s.accounts)
  {
    if name == "" || profile.address == "" || profile.nationality == "" || profile.nidNumber == ""
       || profile.phoneNumber == "" || password == "" then (Err(MissingField), s)
    else if freshId in Ids(s.accounts) then (Err(DuplicateId), s)
    else (Ok(()), s.(accounts := s.accounts + [NewAccount(freshId, name, hash(password), profile)]))
  }

  /** A new account starts empty and unblocked and logs in with its password. */
  lemma RegisterOpensAccount(s: State, hash: string -> Digest, freshId: AccountId, name: string,
                             password: string, profile: Profile)
    requires Register(s, hash, freshId, name, password, profile).0.Ok?
    ensures var t := Register(s, hash, freshId, name, password, profile).1;
      && Ids(t.accounts) == Ids(s.accounts) + {freshId}
      && BalanceOf(t.accounts, freshId) == 0.0
      && Login(t, hash, freshId, password) == Ok(())
      && t.loans == s.loans && t.log == s.log
  {
    FindAppend(s.accounts, NewAccount(freshId, name, hash(password), profile), freshId);
  }

  /** Registration changes no existing account and adds no money. */
  lemma RegisterKeepsOthers(s: State, hash: string -> Digest, freshId: AccountId, name: string,
                            password: string, profile: Profile)
    requires Register(s, hash, freshId, name, password, profile).0.Ok?
    ensures var t := Register(s, hash, freshId, name, password, profile).1;
      && OthersUnchanged(s.accounts, t.accounts, {})
      && TotalMoney(t.accounts) == TotalMoney(s.accounts)
  {
    var a := NewAccount(freshId, name, hash(password), profile);
    forall x | x in Ids(s.accounts)
      ensures x in Ids(s.accounts + [a]) && RowOf(s.accounts + [a], x) == RowOf(s.accounts, x)
    {
      FindAppend(s.accounts, a, x);
    }
    TotalMoneyAppend(s.accounts, a);
  }

  lemma RegisterKeepsInvariants(s: State, hash: string -> Digest, freshId: AccountId, name: string,
                                password: string, profile: Profile)
    requires Inv(s) && Referential(s)
    ensures Inv(Register(s, hash, freshId, name, password, profile).1)
    ensures Referential(Register(s, hash, freshId, name, password, profile).1)
  {
    if Register(s, hash, freshId, name, password, profile).0.Ok? {
      var a := NewAccount(freshId, name, hash(password), profile);
      FindAppend(s.accounts, a, freshId);
      var r := s.accounts + [a];
      forall i, j | 0 <= i < j < |r| ensures r[i].id != r[j].id {
        if j == |s.accounts| {
          IdsIndex(s.accounts, freshId);
        }
      }
    }
  }

  // ------------------------------------------------------- admin credentials

  /** `SELECT * FROM admins WHERE account_number = ? AND password = ?` finds a row. */
  predicate AdminAuth(admins: map<string, Digest>, hash: string -> Digest, id: string, password: string) {
    id in admins && admins[id] == hash(password)
  }

  /** On first start-up the bootstrap admin can sign in with the bootstrap password,
      and every admin who could sign in before still can. */
  lemma SetupAdminLetsAdminIn(s: State, hash: string -> Digest, password: string)
    requires BootstrapAdminId !in s.admins
    ensures AdminAuth(SetupAdmin(s, hash(password)).admins, hash, BootstrapAdminId, password)
    ensures forall a, p :: AdminAuth(s.admins, hash, a, p) ==> AdminAuth(SetupAdmin(s, hash(password)).admins, hash, a, p)
  {
  }

  /** The update action of changeAdminCredentials: all four fields, then the
      current credentials, then the new id must be free; the admin row then
      takes the new id and the digest of the new password. */
  function ChangeAdminCredentials(s: State, hash: string -> Digest, cur: string, curPassword: string,
                                  newId: string, newPassword: string): (r: (Result<()>, State))
    ensures r.0.Err? ==> r.1 == s
    ensures r.0.Ok? <==> cur != "" && curPassword != "" && newId != "" && newPassword != ""
                         && AdminAuth(s.admins, hash, cur, curPassword) && newId !in s.admins
  {
    if cur == "" || curPassword == "" || newId == "" || newPassword == "" then (Err(MissingField), s)
    else if !AdminAuth(s.admins, hash, cur, curPassword) then (Err(InvalidCredentials), s)
    else if newId in s.admins then (Err(DuplicateId), s)
    else (Ok(()), s.(admins := (s.admins - {cur})[newId := hash(newPassword)]))
  }

  /** After a change, only the new credentials open the renamed admin row; every
      other admin and the customer tables are untouched. */
  lemma ChangeAdminCredentialsMovesLogin(s: State, hash: string -> Digest, cur: string, curPassword: string,
                                         newId: string, newPassword: string)
    requires ChangeAdminCredentials(s, hash, cur, curPassword, newId, newPassword).0.Ok?
    ensures var t := ChangeAdminCredentials(s, hash, cur, curPassword, newId, newPassword).1;
      && AdminAuth(t.admins, hash, newId, newPassword)
      && cur !in t.admins
      && (forall a :: a != cur && a != newId ==> (a in t.admins <==> a in s.admins))
      && (forall a :: a in s.admins && a != cur ==> a in t.admins && t.admins[a] == s.admins[a])
      && t.accounts == s.accounts && t.loans == s.loans && t.log == s.log
  {
  }

  /** Renaming an admin to its own id is always refused: the id is taken by the row itself. */
  lemma ChangeAdminCredentialsSameIdRefused(s: State, hash: string -> Digest, cur: string,
                                            curPassword: string, newPassword: string)
    requires cur != "" && curPassword != "" && newPassword != ""
    ensures ChangeAdminCredentials(s, hash, cur, curPassword, cur, newPassword).1 == s
    ensures AdminAuth(s.admins, hash, cur, curPassword)
            ==> ChangeAdminCredentials(s, hash, cur, curPassword, cur, newPassword).0 == Err(DuplicateId)
  {
  }

  // ---------------------------------------------------------- account search

  /** SQLite's LIKE compares ASCII letters without regard to case. */
  function FoldCase(s: string): (r: string)
    ensures |r| == |s|
    ensures forall k :: 0 <= k < |s| ==> r[k] == if 'A' <= s[k] <= 'Z' then (s[k] as int + 32) as char else s[k]
  {
    if |s| == 0 then "" else
      var c := s[0];
      [if 'A' <= c <= 'Z' then (c as int + 32) as char else c] + FoldCase(s[1..])
  }

  /** `value LIKE '%' || part || '%'`: `part` occurs somewhere in `value`. */
  function Contains(value: string, part: string): bool
    decreases |value|
  {
    if |part| > |value| then false
    else if value[..|part|] == part then true
    else Contains(value[1..], part)
  }

  /** `part` occurs in `value` starting at position i. */
  predicate OccursAt(value: string, part: string, i: nat) {
    i + |part| <= |value| && value[i..i + |part|] == part
  }

  /** Contains holds exactly when `part` occurs at some position. */
  lemma {:induction false} ContainsExactly(value: string, part: string)
    ensures Contains(value, part) <==> exists i: nat :: OccursAt(value, part, i)
    decreases |value|
  {
    if |part| <= |value| && value[..|part|] == part {
      assert OccursAt(value, part, 0);
    } else if |part| <= |value| {
      ContainsExactly(value[1..], part);
      if Contains(value, part) {
        var i: nat :| OccursAt(value[1..], part, i);
        assert value[i + 1..i + 1 + |part|] == value[1..][i..i + |part|];
        assert OccursAt(value, part, i + 1);
      }
      if exists i: nat :: OccursAt(value, part, i) {
        var i: nat :| OccursAt(value, part, i);
        assert i != 0;
        assert value[1..][i - 1..i - 1 + |part|] == value[i..i + |part|];
        assert OccursAt(value[1..], part, i - 1);
      }
    }
  }

  /** The filter the search button builds: each non-empty field adds its LIKE condition. */
  predicate Matches(a: Account, idPart: string, namePart: string) {
    (idPart == "" || Contains(FoldCase(a.id), FoldCase(idPart)))
    && (namePart == "" || Contains(FoldCase(a.name), FoldCase(namePart)))
  }

  /** The search of the account viewer: the rows that match, in table order. */
  function SearchAccounts(rows: seq<Account>, idPart: string, namePart: string): (r: seq<Account>)
    ensures |r| <= |rows|
    ensures forall k :: 0 <= k < |r| ==> r[k] in rows && Matches(r[k], idPart, namePart)
  {
    if |rows| == 0 then []
    else (if Matches(rows[0], idPart, namePart) then [rows[0]] else []) + SearchAccounts(rows[1..], idPart, namePart)
  }

  /** No matching row is missed. */
  lemma {:induction false} SearchFindsAll(rows: seq<Account>, idPart: string, namePart: string, k: nat)
    requires k < |rows| && Matches(rows[k], idPart, namePart)
    ensures rows[k] in SearchAccounts(rows, idPart, namePart)
  {
    if k > 0 {
      SearchFindsAll(rows[1..], idPart, namePart, k - 1);
    }
  }

  /** With both fields empty the search lists the whole table. */
  lemma {:induction false} SearchBlankListsAll(rows: seq<Account>)
    ensures SearchAccounts(rows, "", "") == rows
  {
    if |rows| > 0 {
      SearchBlankListsAll(rows[1..]);
      assert rows == [rows[0]] + rows[1..];
    }
  }
}
