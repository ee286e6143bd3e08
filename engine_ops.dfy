/** The operations both copies of the engine share, as functions from the
    database state to an outcome and the committed state.  A failed
    operation returns the state it was given. */
module EngineOps {
  import opened Ledger

  /** depositMoney: amount check, `UPDATE accounts SET balance = balance + ?`, DEPOSIT record. */
  function DepositMoney(s: State, id: AccountId, amount: real): (r: (Result<()>, State))
    ensures r.0.Err? ==> r.1 == s
    ensures r.0.Ok? <==> amount > 0.0 && id in Ids(s.accounts)
    ensures amount <= 0.0 ==> r.0 == Err(InvalidAmount)
  {
    if amount <= 0.0 then (Err(InvalidAmount), s)
    else match Find(s.accounts, id)
      case None => (Err(AccountNotFound), s)
      case Some(i) =>
        (Ok(()), s.(accounts := Adjust(s.accounts, i, amount),
                    log := s.log + [Tx(id, Kind.Deposit, amount)]))
  }

  /** The guarded debit `UPDATE accounts SET balance = balance - ? WHERE account_number = ?
      AND balance >= ?`: the index of the row it changes, if any. */
  function Covered(rows: seq<Account>, id: AccountId, amount: real): (r: Option<nat>)
    ensures r.Some? ==> r.value < |rows| && rows[r.value].id == id && rows[r.value].balance >= amount
    ensures r.None? ==> id !in Ids(rows) || rows[Find(rows, id).value].balance < amount
  {
    match Find(rows, id)
    case Some(i) => if rows[i].balance >= amount then Some(i) else None
    case None => None
  }

  /** withdrawMoney: amount check, guarded debit, WITHDRAWAL record. */
  function WithdrawMoney(s: State, id: AccountId, amount: real): (r: (Result<()>, State))
    ensures r.0.Err? ==> r.1 == s
    ensures r.0.Ok? <==> amount > 0.0 && Covered(s.accounts, id, amount).Some?
    ensures amount <= 0.0 ==> r.0 == Err(InvalidAmount)
  {
    if amount <= 0.0 then (Err(InvalidAmount), s)
    else match Covered(s.accounts, id, amount)
      case None => (Err(InsufficientBalance), s)
      case Some(i) =>
        (Ok(()), s.(accounts := Adjust(s.accounts, i, -amount),
                    log := s.log + [Tx(id, Withdrawal, amount)]))
  }

  /** transferFunds: empty-target check, amount check, target lookup, guarded debit
      of the source, credit of the target, TRANSFER_OUT then TRANSFER_IN. */
  function TransferFunds(s: State, source: AccountId, target: AccountId, amount: real): (r: (Result<()>, State))
    ensures r.0.Err? ==> r.1 == s
    ensures r.0.Ok? <==> target != "" && amount > 0.0 && target in Ids(s.accounts)
                         && Covered(s.accounts, source, amount).Some?
  {
    if target == "" then (Err(MissingField), s)
    else if amount <= 0.0 then (Err(InvalidAmount), s)
    else match Find(s.accounts, target)
      case None => (Err(TargetNotFound), s)
      case Some(j) =>
        match Covered(s.accounts, source, amount)
        case None => (Err(InsufficientBalance), s)
        case Some(i) =>
          (Ok(()), s.(accounts := Adjust(Adjust(s.accounts, i, -amount), j, amount),
                      log := s.log + [Tx(source, TransferOut, amount), Tx(target, TransferIn, amount)]))
  }

  /** applyForLoan: amount check, limit check, credit, new loan row with
      loan_amount = remaining_amount = amount, LOAN record. */
  function ApplyForLoan(s: State, id: AccountId, amount: real): (r: (Result<()>, State))
    ensures r.0.Err? ==> r.1 == s
    ensures r.0.Ok? <==> 0.0 < amount <= MaxLoanAmount && id in Ids(s.accounts)
    ensures amount > MaxLoanAmount ==> r.0 == Err(LoanLimitExceeded)
  {
    if amount <= 0.0 then (Err(InvalidAmount), s)
    else if amount > MaxLoanAmount then (Err(LoanLimitExceeded), s)
    else match Find(s.accounts, id)
      case None => (Err(AccountNotFound), s)
      case Some(i) =>
        (Ok(()), s.(accounts := Adjust(s.accounts, i, amount),
                    loans := s.loans + [Loan(s.nextLoanId, id, amount, amount)],
                    nextLoanId := s.nextLoanId + 1,
                    log := s.log + [Tx(id, LoanIssued, amount)]))
  }

  /** repayLoan: amount check, earliest active loan, over-repayment check, guarded
      debit, decrement of that loan, LOAN_REPAYMENT record.  The value is the
      "fully repaid" signal, `remaining - amount <= 0`. */
  function RepayLoan(s: State, id: AccountId, amount: real): (r: (Result<bool>, State))
    ensures r.0.Err? ==> r.1 == s
    ensures r.0.Ok? <==> amount > 0.0 && FirstActive(s.loans, id).Some?
                         && amount <= s.loans[FirstActive(s.loans, id).value].remaining
                         && Covered(s.accounts, id, amount).Some?
  {
    if amount <= 0.0 then (Err(InvalidAmount), s)
    else match FirstActive(s.loans, id)
      case None => (Err(NoActiveLoan), s)
      case Some(k) =>
        var remaining := s.loans[k].remaining;
        if amount > remaining then (Err(OverRepayment), s)
        else match Covered(s.accounts, id, amount)
          case None => (Err(InsufficientBalance), s)
          case Some(i) =>
            (Ok(remaining - amount <= 0.0),
             s.(accounts := Adjust(s.accounts, i, -amount),
                loans := s.loans[k := s.loans[k].(remaining := remaining - amount)],
                log := s.log + [Tx(id, LoanRepayment, amount)]))
  }

  /** The interest the source computes for a balance, `balance * (rate / 100)`. */
  function InterestOn(balance: real, rate: real): real {
    balance * (rate / 100.0)
  }

  /** The interest update `balance = balance * (1 + rate / 100)` of one row. */
  function Accrue(a: Account, rate: real): (r: Account)
    ensures r == a.(balance := r.balance)
  {
    a.(balance := a.balance * (1.0 + rate / 100.0))
  }

  /** The interest update applied to every row of the table, in table order. */
  function Accrued(rows: seq<Account>, rate: real): (r: seq<Account>)
    ensures |r| == |rows|
  {
    if |rows| == 0 then []
    else Accrued(rows[..|rows| - 1], rate) + [Accrue(rows[|rows| - 1], rate)]
  }

  /** login: unknown account, then blocked account, then password comparison. */
  function Login(s: State, hash: string -> Digest, id: AccountId, password: string): (r: Result<()>)
    ensures r.Ok? <==> id in Ids(s.accounts)
                       && !s.accounts[Find(s.accounts, id).value].blocked
                       && s.accounts[Find(s.accounts, id).value].passwordHash == hash(password)
  {
    match Find(s.accounts, id)
    case None => Err(AccountNotFound)
    case Some(i) =>
      if s.accounts[i].blocked then Err(AccountBlocked)
      else if s.accounts[i].passwordHash != hash(password) then Err(WrongPassword)
      else Ok(())
  }

  /** setupAdminAccount: insert the bootstrap admin unless a row with its id exists. */
  function SetupAdmin(s: State, bootstrapHash: Digest): (r: State)
    ensures BootstrapAdminId in r.admins
    ensures BootstrapAdminId in s.admins ==> r == s
    ensures BootstrapAdminId !in s.admins ==> r.admins == s.admins[BootstrapAdminId := bootstrapHash]
    ensures forall a :: a in s.admins ==> a in r.admins && r.admins[a] == s.admins[a]
    ensures r.accounts == s.accounts && r.loans == s.loans && r.log == s.log && r.nextLoanId == s.nextLoanId
  {
    if BootstrapAdminId in s.admins then s
    else s.(admins := s.admins[BootstrapAdminId := bootstrapHash])
  }
}
