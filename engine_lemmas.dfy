/** What the shared operations promise: each success changes exactly the rows
    and records it should, each rejection changes nothing, money is conserved
    where it only moves, and the invariant survives every operation. */
module EngineLemmas {
  import opened Ledger
  import opened EngineOps

  /** A balance update moves no account: lookups and the id set are unchanged. */
  lemma AdjustKeepsLookup(rows: seq<Account>, i: nat, delta: real, id: AccountId)
    requires i < |rows|
    ensures Find(Adjust(rows, i, delta), id) == Find(rows, id)
    ensures Ids(Adjust(rows, i, delta)) == Ids(rows)
  {
    FindSameIds(Adjust(rows, i, delta), rows, id);
  }

  /** Changing only row i leaves every other account's row in place. */
  lemma AdjustOthersUnchanged(rows: seq<Account>, i: nat, delta: real)
    requires i < |rows|
    ensures OthersUnchanged(rows, Adjust(rows, i, delta), {rows[i].id})
  {
    forall x | x in Ids(rows) && x != rows[i].id
      ensures x in Ids(Adjust(rows, i, delta)) && RowOf(Adjust(rows, i, delta), x) == RowOf(rows, x)
    {
      AdjustKeepsLookup(rows, i, delta, x);
    }
  }

  /** The balance update of the row `id` is found at: what every credit and debit relies on. */
  lemma AdjustFacts(rows: seq<Account>, id: AccountId, delta: real)
    requires id in Ids(rows)
    ensures var r := Adjust(rows, Find(rows, id).value, delta);
      && id in Ids(r) && Find(r, id) == Find(rows, id)
      && BalanceOf(r, id) == BalanceOf(rows, id) + delta
      && OthersUnchanged(rows, r, {id})
      && TotalMoney(r) == TotalMoney(rows) + delta
  {
    var i := Find(rows, id).value;
    AdjustKeepsLookup(rows, i, delta, id);
    AdjustOthersUnchanged(rows, i, delta);
    TotalMoneyAdjust(rows, i, delta);
  }

  /** Two updates in a row leave alone what neither of them changed. */
  lemma OthersUnchangedTrans(a: seq<Account>, b: seq<Account>, c: seq<Account>, x: set<AccountId>, y: set<AccountId>)
    requires OthersUnchanged(a, b, x) && OthersUnchanged(b, c, y)
    ensures OthersUnchanged(a, c, x + y)
  {
  }

  // ----------------------------------------------------------------- deposit

  lemma DepositCredits(s: State, id: AccountId, amount: real)
    requires amount > 0.0 && id in Ids(s.accounts)
    ensures var (r, t) := DepositMoney(s, id, amount);
      && r == Ok(())
      && id in Ids(t.accounts)
      && BalanceOf(t.accounts, id) == BalanceOf(s.accounts, id) + amount
      && OthersUnchanged(s.accounts, t.accounts, {id})
      && TotalMoney(t.accounts) == TotalMoney(s.accounts) + amount
      && t.log == s.log + [Tx(id, Kind.Deposit, amount)]
      && t.loans == s.loans && t.admins == s.admins
  {
    AdjustFacts(s.accounts, id, amount);
  }

  lemma DepositRejects(s: State, id: AccountId, amount: real)
    ensures amount <= 0.0 ==> DepositMoney(s, id, amount) == (Err(InvalidAmount), s)
    ensures amount > 0.0 && id !in Ids(s.accounts) ==> DepositMoney(s, id, amount) == (Err(AccountNotFound), s)
  {
  }

  // ---------------------------------------------------------------- withdraw

  lemma WithdrawDebits(s: State, id: AccountId, amount: real)
    requires amount > 0.0 && id in Ids(s.accounts) && BalanceOf(s.accounts, id) >= amount
    ensures var (r, t) := WithdrawMoney(s, id, amount);
      && r == Ok(())
      && id in Ids(t.accounts)
      && BalanceOf(t.accounts, id) == BalanceOf(s.accounts, id) - amount >= 0.0
      && OthersUnchanged(s.accounts, t.accounts, {id})
      && TotalMoney(t.accounts) == TotalMoney(s.accounts) - amount
      && t.log == s.log + [Tx(id, Withdrawal, amount)]
      && t.loans == s.loans && t.admins == s.admins
  {
    assert Covered(s.accounts, id, amount) == Find(s.accounts, id);
    AdjustFacts(s.accounts, id, -amount);
  }

  /** An overdraft (or an unknown account) is refused: no balance change, no record. */
  lemma WithdrawOverdraftRejected(s: State, id: AccountId, amount: real)
    requires amount > 0.0
    requires id !in Ids(s.accounts) || BalanceOf(s.accounts, id) < amount
    ensures WithdrawMoney(s, id, amount) == (Err(InsufficientBalance), s)
  {
  }

  // ---------------------------------------------------------------- transfer

  /** The committed state of a successful transfer, in terms of the two rows it touches. */
  lemma TransferShape(s: State, source: AccountId, target: AccountId, amount: real)
    requires TransferFunds(s, source, target, amount).0.Ok?
    ensures target in Ids(s.accounts) && source in Ids(s.accounts)
    ensures Covered(s.accounts, source, amount) == Find(s.accounts, source)
    ensures var i, j := Find(s.accounts, source).value, Find(s.accounts, target).value;
      TransferFunds(s, source, target, amount).1
        == s.(accounts := Adjust(Adjust(s.accounts, i, -amount), j, amount),
              log := s.log + [Tx(source, TransferOut, amount), Tx(target, TransferIn, amount)])
  {
  }

  /** A transfer moves money between accounts: the bank's total is unchanged. */
  lemma TransferConservesMoney(s: State, source: AccountId, target: AccountId, amount: real)
    requires TransferFunds(s, source, target, amount).0.Ok?
    ensures TotalMoney(TransferFunds(s, source, target, amount).1.accounts) == TotalMoney(s.accounts)
  {
    TransferShape(s, source, target, amount);
    MoveConserves(s.accounts, Find(s.accounts, source).value, Find(s.accounts, target).value, amount);
  }

  /** Debiting row i and crediting row j by the same amount keeps the sum of the balances. */
  lemma MoveConserves(rows: seq<Account>, i: nat, j: nat, x: real)
    requires i < |rows| && j < |rows|
    ensures TotalMoney(Adjust(Adjust(rows, i, -x), j, x)) == TotalMoney(rows)
  {
    TotalMoneyAdjust(rows, i, -x);
    TotalMoneyAdjust(Adjust(rows, i, -x), j, x);
  }

  /** Two balance updates change no id. */
  lemma AdjustPairKeepsIds(rows: seq<Account>, i: nat, j: nat, d1: real, d2: real)
    requires i < |rows| && j < |rows|
    ensures Ids(Adjust(Adjust(rows, i, d1), j, d2)) == Ids(rows)
  {
    AdjustKeepsLookup(rows, i, d1, "");
    AdjustKeepsLookup(Adjust(rows, i, d1), j, d2, "");
  }

  /** Two balance updates on different rows, seen through the lookups of those rows. */
  lemma AdjustPair(rows: seq<Account>, i: nat, j: nat, d1: real, d2: real, x: AccountId, y: AccountId)
    requires i < |rows| && j < |rows| && x != y
    requires Find(rows, x) == Some(i) && Find(rows, y) == Some(j)
    ensures var r := Adjust(Adjust(rows, i, d1), j, d2);
      && Ids(r) == Ids(rows)
      && x in Ids(r) && BalanceOf(r, x) == rows[i].balance + d1
      && y in Ids(r) && BalanceOf(r, y) == rows[j].balance + d2
  {
    var a1 := Adjust(rows, i, d1);
    AdjustKeepsLookup(rows, i, d1, x);
    AdjustKeepsLookup(rows, i, d1, y);
    AdjustKeepsLookup(a1, j, d2, x);
    AdjustKeepsLookup(a1, j, d2, y);
  }

  /** Between two different accounts, the source loses and the target gains the amount. */
  lemma TransferMovesMoney(s: State, source: AccountId, target: AccountId, amount: real)
    requires TransferFunds(s, source, target, amount).0.Ok? && source != target
    ensures var t := TransferFunds(s, source, target, amount).1;
      && Ids(t.accounts) == Ids(s.accounts)
      && BalanceOf(t.accounts, source) == BalanceOf(s.accounts, source) - amount
      && BalanceOf(t.accounts, target) == BalanceOf(s.accounts, target) + amount
  {
    TransferShape(s, source, target, amount);
    var i, j := Find(s.accounts, source).value, Find(s.accounts, target).value;
    var t := TransferFunds(s, source, target, amount).1;
    assert t.accounts == Adjust(Adjust(s.accounts, i, -amount), j, amount);
    AdjustPair(s.accounts, i, j, -amount, amount, source, target);
  }

  /** A transfer to oneself leaves every balance as it was, yet writes both records. */
  lemma TransferToSelf(s: State, id: AccountId, amount: real)
    requires TransferFunds(s, id, id, amount).0.Ok?
    ensures TransferFunds(s, id, id, amount).1
            == s.(log := s.log + [Tx(id, TransferOut, amount), Tx(id, TransferIn, amount)])
  {
    TransferShape(s, id, id, amount);
    var i := Find(s.accounts, id).value;
    assert Adjust(Adjust(s.accounts, i, -amount), i, amount) == s.accounts;
  }

  /** A transfer leaves every account other than its two parties as it was. */
  lemma TransferLeavesOthers(s: State, source: AccountId, target: AccountId, amount: real)
    requires TransferFunds(s, source, target, amount).0.Ok?
    ensures OthersUnchanged(s.accounts, TransferFunds(s, source, target, amount).1.accounts, {source, target})
  {
    TransferShape(s, source, target, amount);
    MoveLeavesOthers(s.accounts, Find(s.accounts, source).value, Find(s.accounts, target).value, amount);
  }

  /** Debiting row i and crediting row j leaves every other account's row as it was. */
  lemma MoveLeavesOthers(rows: seq<Account>, i: nat, j: nat, x: real)
    requires i < |rows| && j < |rows|
    ensures OthersUnchanged(rows, Adjust(Adjust(rows, i, -x), j, x), {rows[i].id, rows[j].id})
  {
    var a1 := Adjust(rows, i, -x);
    AdjustOthersUnchanged(rows, i, -x);
    AdjustOthersUnchanged(a1, j, x);
    OthersUnchangedTrans(rows, a1, Adjust(a1, j, x), {rows[i].id}, {rows[j].id});
  }

  lemma TransferRejects(s: State, source: AccountId, target: AccountId, amount: real)
    requires target != "" && amount > 0.0
    ensures target !in Ids(s.accounts) ==> TransferFunds(s, source, target, amount) == (Err(TargetNotFound), s)
    ensures target in Ids(s.accounts) && (source !in Ids(s.accounts) || BalanceOf(s.accounts, source) < amount)
            ==> TransferFunds(s, source, target, amount) == (Err(InsufficientBalance), s)
  {
  }

  /** Debiting row i and crediting row j moves no account. */
  lemma MoveLookups(rows: seq<Account>, i: nat, j: nat, x: real, a: AccountId, b: AccountId)
    requires i < |rows| && j < |rows|
    ensures var r := Adjust(Adjust(rows, i, -x), j, x);
      Find(r, a) == Find(rows, a) && Find(r, b) == Find(rows, b)
  {
    MoveLookup(rows, i, j, x, a);
    MoveLookup(rows, i, j, x, b);
  }

  lemma MoveLookup(rows: seq<Account>, i: nat, j: nat, x: real, a: AccountId)
    requires i < |rows| && j < |rows|
    ensures Find(Adjust(Adjust(rows, i, -x), j, x), a) == Find(rows, a)
  {
    var a1 := Adjust(rows, i, -x);
    AdjustKeepsLookup(rows, i, -x, a);
    AdjustKeepsLookup(a1, j, x, a);
  }

  /** After the move, row j holds at least the amount when row i covered it. */
  lemma MoveCovers(rows: seq<Account>, i: nat, j: nat, x: real)
    requires i < |rows| && j < |rows|
    requires rows[i].balance >= x && (i != j ==> rows[j].balance >= 0.0)
    ensures Adjust(Adjust(rows, i, -x), j, x)[j].balance >= x
  {
  }

  /** The reverse move undoes the move. */
  lemma MoveUndone(rows: seq<Account>, i: nat, j: nat, x: real)
    requires i < |rows| && j < |rows|
    ensures Adjust(Adjust(Adjust(Adjust(rows, i, -x), j, x), j, -x), i, x) == rows
  {
  }

  /** A transfer back of the same amount restores every balance; the log holds
      the four records of the two transfers. */
  lemma TransferRoundTrip(s: State, a: AccountId, b: AccountId, x: real)
    requires NonNegative(s.accounts) && a != ""
    requires TransferFunds(s, a, b, x).0.Ok?
    ensures var s1 := TransferFunds(s, a, b, x).1;
      var (r2, s2) := TransferFunds(s1, b, a, x);
      && r2.Ok?
      && s2.accounts == s.accounts
      && s2.log == s.log + [Tx(a, TransferOut, x), Tx(b, TransferIn, x), Tx(b, TransferOut, x), Tx(a, TransferIn, x)]
  {
    TransferShape(s, a, b, x);
    var i, j := Find(s.accounts, a).value, Find(s.accounts, b).value;
    MoveLookups(s.accounts, i, j, x, a, b);
    MoveCovers(s.accounts, i, j, x);
    var s1 := TransferFunds(s, a, b, x).1;
    assert TransferFunds(s1, b, a, x).0.Ok?;
    TransferShape(s1, b, a, x);
    MoveUndone(s.accounts, i, j, x);
  }

  // ------------------------------------------------------------------- loans

  lemma IssueLoanCredits(s: State, id: AccountId, amount: real)
    requires 0.0 < amount <= MaxLoanAmount && id in Ids(s.accounts)
    ensures var (r, t) := ApplyForLoan(s, id, amount);
      && r == Ok(())
      && id in Ids(t.accounts)
      && BalanceOf(t.accounts, id) == BalanceOf(s.accounts, id) + amount
      && OthersUnchanged(s.accounts, t.accounts, {id})
      && t.loans == s.loans + [Loan(s.nextLoanId, id, amount, amount)]
      && t.log == s.log + [Tx(id, LoanIssued, amount)]
      && TotalMoney(t.accounts) == TotalMoney(s.accounts) + amount
      && TotalOutstanding(t.loans) == TotalOutstanding(s.loans) + amount
      && OutstandingOf(t.loans, id) == OutstandingOf(s.loans, id) + amount
  {
    var l := Loan(s.nextLoanId, id, amount, amount);
    AdjustFacts(s.accounts, id, amount);
    assert (s.loans + [l])[..|s.loans|] == s.loans;
  }

  /** The committed state of a successful repayment: the guarded debit of the
      payer's row and the decrement of the earliest active loan. */
  lemma RepayLoanShape(s: State, id: AccountId, amount: real)
    requires RepayLoan(s, id, amount).0.Ok?
    ensures id in Ids(s.accounts) && FirstActive(s.loans, id).Some?
    ensures var i, k := Find(s.accounts, id).value, FirstActive(s.loans, id).value;
      var remaining := s.loans[k].remaining;
      && 0.0 < amount <= remaining && s.accounts[i].balance >= amount
      && RepayLoan(s, id, amount)
         == (Ok(remaining - amount <= 0.0),
             s.(accounts := Adjust(s.accounts, i, -amount),
                loans := s.loans[k := s.loans[k].(remaining := remaining - amount)],
                log := s.log + [Tx(id, LoanRepayment, amount)]))
  {
  }

  /** A repayment debits the payer by the amount and touches no other account. */
  lemma RepayLoanDebits(s: State, id: AccountId, amount: real)
    requires RepayLoan(s, id, amount).0.Ok?
    ensures var t := RepayLoan(s, id, amount).1;
      && id in Ids(t.accounts)
      && BalanceOf(t.accounts, id) == BalanceOf(s.accounts, id) - amount >= 0.0
      && OthersUnchanged(s.accounts, t.accounts, {id})
      && TotalMoney(t.accounts) == TotalMoney(s.accounts) - amount
      && t.log == s.log + [Tx(id, LoanRepayment, amount)]
  {
    RepayLoanShape(s, id, amount);
    AdjustFacts(s.accounts, id, -amount);
  }

  /** A repayment lowers the earliest active loan of the payer, and only that
      loan, by the amount; it reports full repayment exactly when that loan reaches 0. */
  lemma RepayLoanDecrements(s: State, id: AccountId, amount: real)
    requires RepayLoan(s, id, amount).0.Ok?
    ensures var k := FirstActive(s.loans, id).value;
      var (r, t) := RepayLoan(s, id, amount);
      && |t.loans| == |s.loans|
      && t.loans[k] == s.loans[k].(remaining := s.loans[k].remaining - amount)
      && (forall j :: 0 <= j < |s.loans| && j != k ==> t.loans[j] == s.loans[j])
      && (r.value <==> t.loans[k].remaining == 0.0)
      && TotalOutstanding(t.loans) == TotalOutstanding(s.loans) - amount
      && OutstandingOf(t.loans, id) == OutstandingOf(s.loans, id) - amount
  {
    RepayLoanShape(s, id, amount);
    DecrementFacts(s.loans, FirstActive(s.loans, id).value, amount, id);
  }

  /** Lowering loan k of `id` by the amount lowers both sums by the amount. */
  lemma DecrementFacts(loans: seq<Loan>, k: nat, amount: real, id: AccountId)
    requires k < |loans| && loans[k].owner == id
    ensures var t := loans[k := loans[k].(remaining := loans[k].remaining - amount)];
      && TotalOutstanding(t) == TotalOutstanding(loans) - amount
      && OutstandingOf(t, id) == OutstandingOf(loans, id) - amount
  {
    var l := loans[k].(remaining := loans[k].remaining - amount);
    TotalOutstandingUpdate(loans, k, l);
    OutstandingOfUpdate(loans, k, l, id);
  }

  lemma RepayLoanRejects(s: State, id: AccountId, amount: real)
    requires amount > 0.0
    ensures FirstActive(s.loans, id).None? ==> RepayLoan(s, id, amount) == (Err(NoActiveLoan), s)
    ensures FirstActive(s.loans, id).Some? && amount > s.loans[FirstActive(s.loans, id).value].remaining
            ==> RepayLoan(s, id, amount) == (Err(OverRepayment), s)
    ensures FirstActive(s.loans, id).Some? && amount <= s.loans[FirstActive(s.loans, id).value].remaining
            && (id !in Ids(s.accounts) || BalanceOf(s.accounts, id) < amount)
            ==> RepayLoan(s, id, amount) == (Err(InsufficientBalance), s)
  {
  }

  /** Two instalments that add up to the selected loan's remaining amount: the
      first is not reported as the final one, the second is, and the loan ends at 0. */
  lemma TwoInstalmentsRepayLoan(s: State, id: AccountId, a: real, b: real)
    requires FirstActive(s.loans, id).Some?
    requires a > 0.0 && b > 0.0 && a + b == s.loans[FirstActive(s.loans, id).value].remaining
    requires id in Ids(s.accounts) && BalanceOf(s.accounts, id) >= a + b
    ensures var k := FirstActive(s.loans, id).value;
      var (r1, s1) := RepayLoan(s, id, a);
      var (r2, s2) := RepayLoan(s1, id, b);
      && r1 == Ok(false) && r2 == Ok(true)
      && s2.loans[k].remaining == 0.0
      && id in Ids(s2.accounts)
      && BalanceOf(s2.accounts, id) == BalanceOf(s.accounts, id) - (a + b)
      && OutstandingOf(s2.loans, id) == OutstandingOf(s.loans, id) - (a + b)
  {
    var k := FirstActive(s.loans, id).value;
    RepayLoanDebits(s, id, a);
    RepayLoanDecrements(s, id, a);
    var s1 := RepayLoan(s, id, a).1;
    assert ActiveOf(s1.loans[k], id);
    assert FirstActive(s1.loans, id) == Some(k);
    RepayLoanDebits(s1, id, b);
    RepayLoanDecrements(s1, id, b);
  }

  // -------------------------------------------------------------- invariants

  lemma AdjustKeepsInv(s: State, i: nat, delta: real)
    requires Inv(s) && i < |s.accounts| && s.accounts[i].balance + delta >= 0.0
    ensures UniqueIds(Adjust(s.accounts, i, delta)) && NonNegative(Adjust(s.accounts, i, delta))
  {
  }

  lemma DepositKeepsInv(s: State, id: AccountId, amount: real)
    requires Inv(s)
    ensures Inv(DepositMoney(s, id, amount).1)
  {
  }

  lemma WithdrawKeepsInv(s: State, id: AccountId, amount: real)
    requires Inv(s)
    ensures Inv(WithdrawMoney(s, id, amount).1)
  {
  }

  lemma TransferKeepsInv(s: State, source: AccountId, target: AccountId, amount: real)
    requires Inv(s)
    ensures Inv(TransferFunds(s, source, target, amount).1)
  {
    if TransferFunds(s, source, target, amount).0.Ok? {
      var j := Find(s.accounts, target).value;
      var i := Find(s.accounts, source).value;
      var a1 := Adjust(s.accounts, i, -amount);
      assert NonNegative(a1);
      assert NonNegative(Adjust(a1, j, amount));
    }
  }

  lemma IssueLoanKeepsInv(s: State, id: AccountId, amount: real)
    requires Inv(s)
    ensures Inv(ApplyForLoan(s, id, amount).1)
  {
  }

  lemma RepayLoanKeepsInv(s: State, id: AccountId, amount: real)
    requires Inv(s)
    ensures Inv(RepayLoan(s, id, amount).1)
  {
  }

  lemma SetupAdminKeepsInv(s: State, bootstrapHash: Digest)
    requires Inv(s)
    ensures Inv(SetupAdmin(s, bootstrapHash))
  {
  }

  /** A deposit credits an existing account, so its record belongs to one. */
  lemma DepositKeepsReferential(s: State, id: AccountId, amount: real)
    requires Referential(s)
    ensures Referential(DepositMoney(s, id, amount).1)
  {
    if DepositMoney(s, id, amount).0.Ok? {
      AdjustKeepsLookup(s.accounts, Find(s.accounts, id).value, amount, id);
    }
  }

  lemma WithdrawKeepsReferential(s: State, id: AccountId, amount: real)
    requires Referential(s)
    ensures Referential(WithdrawMoney(s, id, amount).1)
  {
    if WithdrawMoney(s, id, amount).0.Ok? {
      AdjustKeepsLookup(s.accounts, Find(s.accounts, id).value, -amount, id);
    }
  }

  lemma TransferKeepsReferential(s: State, source: AccountId, target: AccountId, amount: real)
    requires Referential(s)
    ensures Referential(TransferFunds(s, source, target, amount).1)
  {
    if TransferFunds(s, source, target, amount).0.Ok? {
      TransferShape(s, source, target, amount);
      var i, j := Find(s.accounts, source).value, Find(s.accounts, target).value;
      AdjustPairKeepsIds(s.accounts, i, j, -amount, amount);
    }
  }

  lemma IssueLoanKeepsReferential(s: State, id: AccountId, amount: real)
    requires Referential(s)
    ensures Referential(ApplyForLoan(s, id, amount).1)
  {
    if ApplyForLoan(s, id, amount).0.Ok? {
      AdjustKeepsLookup(s.accounts, Find(s.accounts, id).value, amount, id);
    }
  }

  lemma RepayLoanKeepsReferential(s: State, id: AccountId, amount: real)
    requires Referential(s)
    ensures Referential(RepayLoan(s, id, amount).1)
  {
    if RepayLoan(s, id, amount).0.Ok? {
      RepayLoanShape(s, id, amount);
      AdjustKeepsLookup(s.accounts, Find(s.accounts, id).value, -amount, id);
    }
  }

  // ---------------------------------------------------------------- interest

  /** Row k after the interest update is row k with the update applied. */
  lemma {:induction false} AccruedPointwise(rows: seq<Account>, rate: real)
    ensures forall k :: 0 <= k < |rows| ==> Accrued(rows, rate)[k] == Accrue(rows[k], rate)
  {
    if |rows| > 0 {
      var n := |rows|;
      AccruedPointwise(rows[..n - 1], rate);
      assert Accrued(rows, rate) == Accrued(rows[..n - 1], rate) + [Accrue(rows[n - 1], rate)];
    }
  }

  /** The interest update moves no account. */
  lemma AccruedKeepsLookup(rows: seq<Account>, rate: real, id: AccountId)
    ensures Find(Accrued(rows, rate), id) == Find(rows, id) && Ids(Accrued(rows, rate)) == Ids(rows)
  {
    AccruedPointwise(rows, rate);
    FindSameIds(Accrued(rows, rate), rows, id);
  }

  /** Multiplication distributes over the sum of two balances. */
  lemma Distribute(x: real, y: real, f: real)
    ensures (x + y) * f == x * f + y * f
  {
  }

  /** The sign of a scaled balance. */
  lemma ScaleSign(b: real, f: real)
    ensures b >= 0.0 && f >= 0.0 ==> b * f >= 0.0
    ensures b > 0.0 && f < 0.0 ==> b * f < 0.0
  {
  }

  /** After the interest update an account's row is its old row with the update applied. */
  lemma AccruedRowOf(rows: seq<Account>, rate: real, x: AccountId)
    requires x in Ids(rows)
    ensures x in Ids(Accrued(rows, rate))
    ensures RowOf(Accrued(rows, rate), x) == Accrue(RowOf(rows, x), rate)
  {
    AccruedPointwise(rows, rate);
    AccruedKeepsLookup(rows, rate, x);
  }

  /** The balance grows by exactly the interest on it. */
  lemma AccrueGain(a: Account, rate: real)
    ensures Accrue(a, rate).balance - a.balance == InterestOn(a.balance, rate)
  {
  }

  /** Every balance passed through m. */
  ghost function MapBalances(rows: seq<Account>, m: real -> real): seq<Account> {
    if |rows| == 0 then []
    else
      var last := rows[|rows| - 1];
      MapBalances(rows[..|rows| - 1], m) + [last.(balance := m(last.balance))]
  }

  /** An additive map of the balances maps their sum the same way. */
  lemma {:induction false} MapBalancesTotal(rows: seq<Account>, m: real -> real)
    requires m(0.0) == 0.0
    requires forall x: real, y: real :: m(x + y) == m(x) + m(y)
    ensures TotalMoney(MapBalances(rows, m)) == m(TotalMoney(rows))
  {
    if |rows| > 0 {
      var init, last := rows[..|rows| - 1], rows[|rows| - 1];
      var moved := last.(balance := m(last.balance));
      MapBalancesTotal(init, m);
      assert MapBalances(rows, m) == MapBalances(init, m) + [moved];
      TotalMoneyAppend(MapBalances(init, m), moved);
      assert TotalMoney(rows) == TotalMoney(init) + last.balance;
      assert m(TotalMoney(init) + last.balance) == m(TotalMoney(init)) + m(last.balance);
    }
  }

  /** A balance multiplied by f. */
  ghost function Times(f: real, x: real): real {
    x * f
  }

  /** Multiplication by f, as a map of balances. */
  ghost function ScaleBy(f: real): real -> real {
    x => Times(f, x)
  }

  /** Multiplication by f maps 0 to 0 and sums to sums. */
  lemma ScaleByAdditive(f: real)
    ensures ScaleBy(f)(0.0) == 0.0
    ensures forall x: real, y: real :: ScaleBy(f)(x + y) == ScaleBy(f)(x) + ScaleBy(f)(y)
  {
    forall x: real, y: real ensures Times(f, x + y) == Times(f, x) + Times(f, y) {
      Distribute(x, y, f);
    }
  }

  /** Every balance multiplied by f, written without the rate. */
  ghost function ScaleAll(rows: seq<Account>, f: real): seq<Account> {
    MapBalances(rows, ScaleBy(f))
  }

  /** The interest update is the scaling by 1 + rate / 100. */
  lemma {:induction false} AccruedIsScaleAll(rows: seq<Account>, rate: real)
    ensures Accrued(rows, rate) == ScaleAll(rows, 1.0 + rate / 100.0)
  {
    if |rows| > 0 {
      AccruedIsScaleAll(rows[..|rows| - 1], rate);
    }
  }

  /** Scaling every balance by f scales their sum by f. */
  lemma ScaleAllTotal(rows: seq<Account>, f: real)
    ensures TotalMoney(ScaleAll(rows, f)) == TotalMoney(rows) * f
  {
    ScaleAllMapsTotal(rows, f);
  }

  /** `ScaleAllTotal` with the product still wrapped in `ScaleBy`. */
  lemma ScaleAllMapsTotal(rows: seq<Account>, f: real)
    ensures TotalMoney(ScaleAll(rows, f)) == ScaleBy(f)(TotalMoney(rows))
  {
    ScaleByAdditive(f);
    MapBalancesTotal(rows, ScaleBy(f));
  }

  /** Interest scales the bank's total money by the same factor as every balance. */
  lemma AccruedTotal(rows: seq<Account>, rate: real)
    ensures TotalMoney(Accrued(rows, rate)) == TotalMoney(rows) * (1.0 + rate / 100.0)
  {
    AccruedIsScaleAll(rows, rate);
    ScaleAllTotal(rows, 1.0 + rate / 100.0);
  }

  /** A rate of at least -100 keeps every balance non-negative. */
  lemma AccruedNonNegative(rows: seq<Account>, rate: real)
    requires NonNegative(rows) && rate >= -100.0
    ensures NonNegative(Accrued(rows, rate))
  {
    AccruedPointwise(rows, rate);
    forall k | 0 <= k < |rows| ensures Accrued(rows, rate)[k].balance >= 0.0 {
      ScaleSign(rows[k].balance, 1.0 + rate / 100.0);
    }
  }

  /** Below -100, any account with money ends with a negative balance. */
  lemma AccruedGoesNegative(rows: seq<Account>, rate: real, k: nat)
    requires rate < -100.0 && k < |rows| && rows[k].balance > 0.0
    ensures !NonNegative(Accrued(rows, rate))
  {
    AccruedPointwise(rows, rate);
    ScaleSign(rows[k].balance, 1.0 + rate / 100.0);
    assert Accrued(rows, rate)[k].balance < 0.0;
  }

  // ------------------------------------------------------------------- login

  /** A blocked account is refused whatever password is given. */
  lemma BlockedCannotLogIn(s: State, hash: string -> Digest, id: AccountId, password: string)
    requires id in Ids(s.accounts) && RowOf(s.accounts, id).blocked
    ensures Login(s, hash, id, password) == Err(AccountBlocked)
  {
  }

  // --------------------------------------------------------------- dashboard

  /** The admin dashboard's total money is never negative while balances are not. */
  lemma {:induction false} TotalMoneyNonNegative(rows: seq<Account>)
    requires NonNegative(rows)
    ensures TotalMoney(rows) >= 0.0
  {
    if |rows| > 0 {
      TotalMoneyNonNegative(rows[..|rows| - 1]);
    }
  }

  /** An account's outstanding loan sum lies between 0 and the bank-wide sum. */
  lemma {:induction false} OutstandingBounded(loans: seq<Loan>, id: AccountId)
    requires LoanBounds(loans)
    ensures 0.0 <= OutstandingOf(loans, id) <= TotalOutstanding(loans)
  {
    if |loans| > 0 {
      OutstandingBounded(loans[..|loans| - 1], id);
    }
  }

  /** A record just written is the first line of its owner's activity list. */
  lemma RecentShowsNewest(log: seq<Tx>, t: Tx, count: nat)
    ensures Recent(log + [t], t.owner, count + 1) == [t] + Recent(log, t.owner, count)
  {
    assert (log + [t])[..|log|] == log;
  }
}
