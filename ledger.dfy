/**
 * The ledger seen across many requests: any sequence of the handlers that
 * change the database, run one after another, keeps the invariant (so no
 * balance ever goes negative), only ever appends to `transactions`, and keeps
 * every balance reconciled with the records appended for its account.
 */
module Ledger {

  import opened Wrappers
  import opened Crypto
  import opened Schema
  import CashierController
  import UserController

  /** One state-changing request, with the values its handler is given. */
  datatype Request =
    | DepositRequest(account: Option<int>, amount: AmountInput)
    | WithdrawalRequest(account: Option<int>, amount: AmountInput)
    | ChangePasswordRequest(cashierId: CashierId, newPassword: Option<string>, oldPassword: Option<string>)
    | LoginRequest(email: Option<string>, password: Option<string>, code: OtpCode, now: int)
    | SendOtpRequest(email: Option<string>, code: OtpCode, now: int)
    | ResetPasswordRequest(email: Option<string>, otp: Option<string>, newPassword: Option<string>)
    | UpdateProfileRequest(userId: UserId, phoneNumber: Option<string>, fullName: Option<string>)
    | TransferRequest(userId: UserId, reference: Option<int>, amount: AmountInput)

  function Apply(b: Bank, req: Request): Outcome
  {
    match req
    case DepositRequest(account, amount) => CashierController.DepositOutcome(b, account, amount)
    case WithdrawalRequest(account, amount) => CashierController.WithdrawalOutcome(b, account, amount)
    case ChangePasswordRequest(id, np, op) => CashierController.ChangePasswordOutcome(b, id, np, op)
    case LoginRequest(email, password, code, now) => UserController.LoginOutcome(b, email, password, code, now)
    case SendOtpRequest(email, code, now) => UserController.SendOtpOutcome(b, email, code, now)
    case ResetPasswordRequest(email, otp, np) => UserController.ResetPasswordOutcome(b, email, otp, np)
    case UpdateProfileRequest(id, phone, name) => UserController.UpdateProfileOutcome(b, id, phone, name)
    case TransferRequest(id, reference, amount) => UserController.TransferOutcome(b, id, reference, amount)
  }

  /** The database after the requests, in order. */
  function Run(b: Bank, reqs: seq<Request>): Bank
    decreases |reqs|
  {
    if reqs == [] then b else Run(Apply(b, reqs[0]).bank, reqs[1..])
  }

  /** What a record does to its account's balance. */
  function Signed(t: Transaction): int
  {
    match t.kind
    case Deposit => t.amount
    case TransferIn => t.amount
    case Withdrawal => -t.amount
    case TransferOut => -t.amount
  }

  /** The sum of what the records do to balances. */
  function NetFlow(txs: seq<Transaction>): int
  {
    if txs == [] then 0 else Signed(txs[0]) + NetFlow(txs[1..])
  }

  lemma {:induction false} NetFlowAppend(xs: seq<Transaction>, ys: seq<Transaction>)
    ensures NetFlow(xs + ys) == NetFlow(xs) + NetFlow(ys)
  {
    if xs != [] {
      assert (xs + ys)[1..] == xs[1..] + ys;
      NetFlowAppend(xs[1..], ys);
    } else {
      assert xs + ys == ys;
    }
  }

  /** The balance of account `a`, or 0 when no user holds it. */
  function BalanceOf(users: seq<User>, a: AccountNumber): int
  {
    match IndexOfAccount(users, a)
    case None => 0
    case Some(k) => users[k].balance
  }

  /** `after` extends `before`; `Appended` is what was added. */
  ghost predicate Extends(before: seq<Transaction>, after: seq<Transaction>)
  {
    |before| <= |after| && after[..|before|] == before
  }

  function Appended(before: seq<Transaction>, after: seq<Transaction>): seq<Transaction>
    requires |before| <= |after|
  {
    after[|before|..]
  }

  // ---------------------------------------------------------- one request

  lemma ApplyKeepsValid(b: Bank, req: Request)
    requires Valid(b)
    ensures Valid(Apply(b, req).bank)
  {
    match req
    case DepositRequest(account, amount) => CashierController.DepositKeepsValid(b, account, amount);
    case WithdrawalRequest(account, amount) => CashierController.WithdrawalKeepsValid(b, account, amount);
    case ChangePasswordRequest(id, np, op) => CashierController.ChangePasswordKeepsValid(b, id, np, op);
    case LoginRequest(email, password, code, now) => UserController.LoginKeepsValid(b, email, password, code, now);
    case SendOtpRequest(email, code, now) => UserController.SendOtpKeepsValid(b, email, code, now);
    case ResetPasswordRequest(email, otp, np) => UserController.ResetPasswordKeepsValid(b, email, otp, np);
    case UpdateProfileRequest(id, phone, name) => UserController.UpdateProfileKeepsValid(b, id, phone, name);
    case TransferRequest(id, reference, amount) => UserController.TransferKeepsValid(b, id, reference, amount);
  }

  /** Two user tables with the same account numbers and balances row by row. */
  ghost predicate SameBalances(before: seq<User>, after: seq<User>)
  {
    |before| == |after| &&
    forall k :: 0 <= k < |before| ==> after[k].balance == before[k].balance && after[k].accountNumber == before[k].accountNumber
  }

  lemma {:induction false} SameBalancesTotal(before: seq<User>, after: seq<User>)
    requires SameBalances(before, after)
    ensures TotalBalance(after) == TotalBalance(before)
  {
    if before != [] {
      assert SameBalances(before[1..], after[1..]) by {
        forall k | 0 <= k < |before[1..]|
          ensures after[1..][k].balance == before[1..][k].balance && after[1..][k].accountNumber == before[1..][k].accountNumber
        {
          assert after[1..][k] == after[k + 1] && before[1..][k] == before[k + 1];
        }
      }
      SameBalancesTotal(before[1..], after[1..]);
    }
  }

  lemma SameBalancesAccount(before: seq<User>, after: seq<User>, a: AccountNumber)
    requires SameBalances(before, after)
    ensures BalanceOf(after, a) == BalanceOf(before, a)
  {
    UniqueIndex(before, after, i => 0 <= i < |before| && before[i].accountNumber == a, IndexOfAccount(before, a), IndexOfAccount(after, a));
  }

  /** Changing the non-key columns of row `k` moves only account `users[k].accountNumber`. */
  lemma PointUpdateBalance(users: seq<User>, k: nat, u: User, a: AccountNumber)
    requires UniqueUsers(users) && k < |users|
    requires u.userId == users[k].userId && u.accountNumber == users[k].accountNumber && u.email == users[k].email
    ensures UniqueUsers(users[k := u])
    ensures BalanceOf(users[k := u], a) == if a == users[k].accountNumber then u.balance else BalanceOf(users, a)
  {
    SameKeysLookups(users, users[k := u]);
    if a == users[k].accountNumber {
      assert IndexOfAccount(users, a) == Some(k);
    }
  }

  /** The log only grew, and the sum of all balances moved by exactly the net
      flow of what was appended. */
  ghost predicate ReconciledTotal(before: Bank, after: Bank)
  {
    Extends(before.transactions, after.transactions) &&
    TotalBalance(after.users) == TotalBalance(before.users) + NetFlow(Appended(before.transactions, after.transactions))
  }

  /** The log only grew, and account `a` moved by exactly the net flow of the
      records appended for it. */
  ghost predicate ReconciledAt(before: Bank, after: Bank, a: AccountNumber)
  {
    Extends(before.transactions, after.transactions) &&
    BalanceOf(after.users, a) == BalanceOf(before.users, a) + NetFlow(RecordsOf(Appended(before.transactions, after.transactions), a))
  }

  /** A handler that writes no record and no balance is trivially reconciled. */
  lemma NoMoneyMoved(before: Bank, after: Bank, a: AccountNumber)
    requires after.transactions == before.transactions && SameBalances(before.users, after.users)
    ensures ReconciledTotal(before, after) && ReconciledAt(before, after, a)
  {
    assert Appended(before.transactions, after.transactions) == [];
    SameBalancesTotal(before.users, after.users);
    SameBalancesAccount(before.users, after.users, a);
  }

  /** One record `t` on row `k`'s account, and that row's balance moved by `Signed(t)`. */
  lemma OneRecordMoved(before: Bank, after: Bank, k: nat, t: Transaction, a: AccountNumber)
    requires UniqueUsers(before.users) && k < |before.users| && t.accountNumber == before.users[k].accountNumber
    requires after.users == before.users[k := before.users[k].(balance := before.users[k].balance + Signed(t))]
    requires after.transactions == before.transactions + [t]
    ensures ReconciledTotal(before, after) && ReconciledAt(before, after, a)
    ensures UniqueUsers(after.users)
  {
    TotalBalanceUpdate(before.users, k, after.users[k]);
    PointUpdateBalance(before.users, k, after.users[k], a);
    assert Appended(before.transactions, after.transactions) == [t];
    assert [t][1..] == [];
  }

  lemma DepositReconciles(b: Bank, account: Option<int>, amount: AmountInput, a: AccountNumber)
    requires Valid(b)
    ensures var after := CashierController.DepositOutcome(b, account, amount).bank;
      ReconciledTotal(b, after) && ReconciledAt(b, after, a)
  {
    var r := CashierController.DepositOutcome(b, account, amount);
    if r.status == Ok {
      var k :| IsAccount(b.users, account.value, k) && r.bank == b.(users := b.users[k := b.users[k].(balance := b.users[k].balance + amount.value)],
                                                                   transactions := b.transactions + [Transaction(account.value, None, amount.value, Deposit)]);
      OneRecordMoved(b, r.bank, k, Transaction(account.value, None, amount.value, Deposit), a);
    } else {
      NoMoneyMoved(b, r.bank, a);
    }
  }

  lemma WithdrawalReconciles(b: Bank, account: Option<int>, amount: AmountInput, a: AccountNumber)
    requires Valid(b)
    ensures var after := CashierController.WithdrawalOutcome(b, account, amount).bank;
      ReconciledTotal(b, after) && ReconciledAt(b, after, a)
  {
    var r := CashierController.WithdrawalOutcome(b, account, amount);
    if r.status == Ok {
      var k :| IsAccount(b.users, account.value, k) && r.bank == b.(users := b.users[k := b.users[k].(balance := b.users[k].balance - amount.value)],
                                                                   transactions := b.transactions + [Transaction(account.value, None, amount.value, Withdrawal)]);
      OneRecordMoved(b, r.bank, k, Transaction(account.value, None, amount.value, Withdrawal), a);
    } else {
      NoMoneyMoved(b, r.bank, a);
    }
  }

  /** The rows a successful transfer touches: the sender's and the receiver's. */
  lemma TransferRows(b: Bank, userId: UserId, reference: Option<int>, amount: AmountInput) returns (s: nat, j: nat)
    requires UserController.TransferOutcome(b, userId, reference, amount).status == Ok
    ensures reference.Some? && amount.Num? && s < |b.users| && j < |b.users| && s != j
    ensures b.users[j].accountNumber == reference.value
    ensures UserController.TransferOutcome(b, userId, reference, amount).bank ==
      b.(users := b.users[s := b.users[s].(balance := b.users[s].balance - amount.value)]
                         [j := b.users[j].(balance := b.users[j].balance + amount.value)],
         transactions := b.transactions + [
           Transaction(b.users[s].accountNumber, Some(b.users[j].accountNumber), amount.value, TransferOut),
           Transaction(b.users[j].accountNumber, Some(b.users[s].accountNumber), amount.value, TransferIn)])
  {
    s := IndexOfUser(b.users, userId).value;
    j := IndexOfAccount(b.users, reference.value).value;
  }

  /** Row `s` sends `amount` to row `j`, with one record on each side. */
  lemma TwoRecordsMoved(before: Bank, after: Bank, s: nat, j: nat, amount: int, out: Transaction, into: Transaction, a: AccountNumber)
    requires UniqueUsers(before.users) && s < |before.users| && j < |before.users| && s != j
    requires out.accountNumber == before.users[s].accountNumber && into.accountNumber == before.users[j].accountNumber
    requires Signed(out) == -amount && Signed(into) == amount
    requires after.users == before.users[s := before.users[s].(balance := before.users[s].balance - amount)]
                                        [j := before.users[j].(balance := before.users[j].balance + amount)]
    requires after.transactions == before.transactions + [out, into]
    ensures ReconciledTotal(before, after) && ReconciledAt(before, after, a)
  {
    var mid := before.(users := before.users[s := before.users[s].(balance := before.users[s].balance + Signed(out))],
                       transactions := before.transactions + [out]);
    OneRecordMoved(before, mid, s, out, a);
    assert mid.users[j] == before.users[j];
    assert after.transactions == mid.transactions + [into];
    OneRecordMoved(mid, after, j, into, a);
    ReconciledChain(before, mid, after, a);
  }

  lemma TransferReconciles(b: Bank, userId: UserId, reference: Option<int>, amount: AmountInput, a: AccountNumber)
    requires Valid(b)
    ensures var after := UserController.TransferOutcome(b, userId, reference, amount).bank;
      ReconciledTotal(b, after) && ReconciledAt(b, after, a)
  {
    var r := UserController.TransferOutcome(b, userId, reference, amount);
    if r.status == Ok {
      var s, j := TransferRows(b, userId, reference, amount);
      TwoRecordsMoved(b, r.bank, s, j, amount.value,
        Transaction(b.users[s].accountNumber, Some(b.users[j].accountNumber), amount.value, TransferOut),
        Transaction(b.users[j].accountNumber, Some(b.users[s].accountNumber), amount.value, TransferIn), a);
    } else {
      NoMoneyMoved(b, r.bank, a);
    }
  }

  lemma AppendedChain(xs: seq<Transaction>, ys: seq<Transaction>, zs: seq<Transaction>)
    requires Extends(xs, ys) && Extends(ys, zs)
    ensures Extends(xs, zs) && Appended(xs, zs) == Appended(xs, ys) + Appended(ys, zs)
  {
    assert zs == ys + Appended(ys, zs);
    assert ys == xs + Appended(xs, ys);
    assert zs[..|xs|] == ys[..|xs|];
  }

  /** Reconciliation composes: two reconciled steps make a reconciled step. */
  lemma ReconciledChain(x: Bank, y: Bank, z: Bank, a: AccountNumber)
    requires ReconciledTotal(x, y) && ReconciledAt(x, y, a)
    requires ReconciledTotal(y, z) && ReconciledAt(y, z, a)
    ensures ReconciledTotal(x, z) && ReconciledAt(x, z, a)
  {
    var first, rest := Appended(x.transactions, y.transactions), Appended(y.transactions, z.transactions);
    AppendedChain(x.transactions, y.transactions, z.transactions);
    NetFlowAppend(first, rest);
    RecordsOfAppend(first, rest, a);
    NetFlowAppend(RecordsOf(first, a), RecordsOf(rest, a));
  }

  /** Every request is reconciled, in total and, under the invariant, per account. */
  lemma ApplyReconciles(b: Bank, req: Request, a: AccountNumber)
    requires Valid(b)
    ensures ReconciledTotal(b, Apply(b, req).bank) && ReconciledAt(b, Apply(b, req).bank, a)
  {
    match req
    case DepositRequest(account, amount) => DepositReconciles(b, account, amount, a);
    case WithdrawalRequest(account, amount) => WithdrawalReconciles(b, account, amount, a);
    case TransferRequest(id, reference, amount) => TransferReconciles(b, id, reference, amount, a);
    case ChangePasswordRequest(id, np, op) =>
      NoMoneyMoved(b, Apply(b, req).bank, a);
    case LoginRequest(email, password, code, now) =>
      NoMoneyMoved(b, Apply(b, req).bank, a);
    case SendOtpRequest(email, code, now) =>
      NoMoneyMoved(b, Apply(b, req).bank, a);
    case ResetPasswordRequest(email, otp, np) =>
      var after := Apply(b, req).bank;
      assert SameBalances(b.users, after.users);
      NoMoneyMoved(b, after, a);
    case UpdateProfileRequest(id, phone, name) =>
      var after := Apply(b, req).bank;
      assert SameBalances(b.users, after.users);
      NoMoneyMoved(b, after, a);
  }

  // ---------------------------------------------------------- many requests

  /** Every sequence of requests keeps the invariant; in particular no balance
      ever becomes negative. */
  lemma {:induction false} RunKeepsValid(b: Bank, reqs: seq<Request>)
    requires Valid(b)
    ensures Valid(Run(b, reqs)) && BalancesNonNegative(Run(b, reqs).users)
    decreases |reqs|
  {
    if reqs != [] {
      ApplyKeepsValid(b, reqs[0]);
      RunKeepsValid(Apply(b, reqs[0]).bank, reqs[1..]);
    }
  }

  /** After any sequence of requests from a valid database the transaction log
      has only grown, the sum of all balances has moved by exactly the net flow
      of what was appended, and so has each account's balance by the net flow of
      the records appended for it. */
  lemma {:induction false} RunReconciles(b: Bank, reqs: seq<Request>, a: AccountNumber)
    requires Valid(b)
    ensures ReconciledTotal(b, Run(b, reqs)) && ReconciledAt(b, Run(b, reqs), a)
    decreases |reqs|
  {
    if reqs == [] {
      NoMoneyMoved(b, b, a);
    } else {
      var mid := Apply(b, reqs[0]).bank;
      ApplyReconciles(b, reqs[0], a);
      ApplyKeepsValid(b, reqs[0]);
      RunReconciles(mid, reqs[1..], a);
      ReconciledChain(b, mid, Run(b, reqs), a);
    }
  }
}
