/**
 * controller/cashierController.js: the handlers behind `/api/cashier/...`.
 * Login and the account lookup only read the tables and are functions of the
 * database; deposit, withdrawal and password change update it in place and are
 * methods on `Db`, each proved equal to a specification function `...Outcome`
 * on database values, about which the ledger properties are proved.
 */
module CashierController {

  import opened Wrappers
  import opened Crypto
  import opened Schema
  import opened Database

  // ------------------------------------------------------ POST /cashier/login

  /** Some cashier has email `e` and a password digest that accepts `p`. */
  ghost predicate IsCashierCredential(cashiers: seq<Cashier>, e: Email, p: string)
  {
    exists k :: 0 <= k < |cashiers| && cashiers[k].email == e && Matches(p, cashiers[k].password)
  }

  /** `cashierLogin`: a token `{ cashierId, role: "cashier" }` for the cashier whose
      email and password were given; one and the same 401 for an unknown email and
      for a wrong password. */
  function CashierLogin(b: Bank, email: Option<string>, password: Option<string>): (r: Answer<Payload>)
    ensures r.status in {Ok, BadRequest, Unauthorized}
    ensures r.status == BadRequest <==> !Given(email) || !Given(password)
    ensures r.status != Ok ==> r.body == None
    ensures r.status == Ok ==> (
      && Given(email) && Given(password)
      && exists k :: 0 <= k < |b.cashiers| && b.cashiers[k].email == email.value &&
           Matches(password.value, b.cashiers[k].password) &&
           r.body == Some(Payload(b.cashiers[k].cashierId, CashierRole)))
    ensures UniqueCashiers(b.cashiers) && Given(email) && Given(password) ==>
      (r.status == Ok <==> IsCashierCredential(b.cashiers, email.value, password.value))
  {
    if !Given(email) || !Given(password) then Answer(BadRequest, None)
    else match IndexOfCashierEmail(b.cashiers, email.value)
      case Some(k) =>
        if Matches(password.value, b.cashiers[k].password) then Answer(Ok, Some(Payload(b.cashiers[k].cashierId, CashierRole)))
        else Answer(Unauthorized, None)
      case None => Answer(Unauthorized, None)
  }

  /** Account enumeration is impossible: whether the email is unknown or the
      password wrong, the answer is the same. */
  lemma CashierLoginUniformRejection(b: Bank, e: Email, p: string)
    requires e != "" && p != ""
    requires UniqueCashiers(b.cashiers)
    requires !IsCashierCredential(b.cashiers, e, p)
    ensures CashierLogin(b, Some(e), Some(p)) == Answer(Unauthorized, None)
  {
  }

  // --------------------------------------------- POST /cashier/userAccountInfo

  /** The `200` body of `cashierUserAccountInfo`. */
  datatype AccountSummary = AccountSummary(accountNumber: AccountNumber, fullName: string, balance: int)

  /** `cashierUserAccountInfo`: 404 and 423 as for a deposit; otherwise the number,
      name and balance of the account. */
  function CashierUserAccountInfo(b: Bank, account: Option<int>): (r: Answer<AccountSummary>)
    ensures r.status in {Ok, BadRequest, NotFound, Locked}
    ensures r.status == BadRequest <==> account.None?
    ensures r.status == NotFound <==> account.Some? && forall k :: 0 <= k < |b.users| ==> !IsAccount(b.users, account.value, k)
    ensures r.status != Ok ==> r.body == None
    ensures r.status == Ok ==> (
      && account.Some?
      && exists k :: IsAccount(b.users, account.value, k) && b.users[k].status != Blocked &&
           r.body == Some(AccountSummary(account.value, b.users[k].fullName, b.users[k].balance)))
  {
    if account.None? then Answer(BadRequest, None)
    else match IndexOfAccount(b.users, account.value)
      case None => Answer(NotFound, None)
      case Some(k) =>
        assert IsAccount(b.users, account.value, k);
        var u := b.users[k];
        if u.status == Blocked then Answer(Locked, None)
        else Answer(Ok, Some(AccountSummary(u.accountNumber, u.fullName, u.balance)))
  }

  /** The lookup answers 423 exactly for a blocked account and never changes anything. */
  lemma AccountInfoOfAccount(b: Bank, a: AccountNumber, k: nat)
    requires UniqueUsers(b.users) && IsAccount(b.users, a, k)
    ensures CashierUserAccountInfo(b, Some(a)) ==
      if b.users[k].status == Blocked then Answer(Locked, None)
      else Answer(Ok, Some(AccountSummary(a, b.users[k].fullName, b.users[k].balance)))
  {
    assert IndexOfAccount(b.users, a) == Some(k);
  }

  // ---------------------------------------------------- POST /cashier/deposit

  /** What `cashierDeposit` answers and leaves behind. */
  function DepositOutcome(b: Bank, account: Option<int>, amount: AmountInput): (r: Outcome)
    ensures r.status in {Ok, BadRequest, NotFound, Locked}
    // the amount checks come before any lookup
    ensures account.None? || !PositiveAmount(amount) ==> r == Outcome(BadRequest, b)
    ensures r.status == NotFound <==>
      account.Some? && PositiveAmount(amount) && forall k :: 0 <= k < |b.users| ==> !IsAccount(b.users, account.value, k)
    ensures r.status != Ok ==> r.bank == b
    ensures r.status == Ok ==> (
      && account.Some? && PositiveAmount(amount)
      && exists k :: IsAccount(b.users, account.value, k) && b.users[k].status != Blocked &&
           r.bank == b.(users := b.users[k := b.users[k].(balance := b.users[k].balance + amount.value)],
                        transactions := b.transactions + [Transaction(account.value, None, amount.value, Deposit)]))
  {
    if account.None? || !PositiveAmount(amount) then Outcome(BadRequest, b)
    else match IndexOfAccount(b.users, account.value)
      case None => Outcome(NotFound, b)
      case Some(k) =>
        assert IsAccount(b.users, account.value, k);
        if b.users[k].status == Blocked then Outcome(Locked, b)
        else Outcome(Ok, b.(users := b.users[k := b.users[k].(balance := b.users[k].balance + amount.value)],
                            transactions := b.transactions + [Transaction(account.value, None, amount.value, Deposit)]))
  }

  /** `cashierDeposit`, run against the shared database. */
  method CashierDeposit(db: Db, account: Option<int>, amount: AmountInput) returns (status: Status)
    requires db.Valid()
    modifies db
    ensures db.Valid()
    ensures Outcome(status, db.State()) == DepositOutcome(old(db.State()), account, amount)
  {
    ghost var before := db.State();
    if account.None? || !PositiveAmount(amount) {
      return BadRequest;
    }
    var row := IndexOfAccount(db.users, account.value);
    if row.None? {
      return NotFound;
    }
    var k := row.value;
    if db.users[k].status == Blocked {
      return Locked;
    }
    db.users := db.users[k := db.users[k].(balance := db.users[k].balance + amount.value)];
    db.transactions := db.transactions + [Transaction(account.value, None, amount.value, Deposit)];
    status := Ok;
    assert db.State() == DepositOutcome(before, account, amount).bank;
    DepositKeepsValid(before, account, amount);
  }

  lemma DepositKeepsValid(b: Bank, account: Option<int>, amount: AmountInput)
    requires Valid(b)
    ensures Valid(DepositOutcome(b, account, amount).bank)
  {
    var r := DepositOutcome(b, account, amount);
    if r.status == Ok {
      SameKeysLookups(b.users, r.bank.users);
    }
  }

  /** Only a blocked account is refused: a pending or active account with a
      valid amount is credited. */
  lemma DepositStatusOfAccount(b: Bank, a: AccountNumber, amount: AmountInput, k: nat)
    requires UniqueUsers(b.users) && IsAccount(b.users, a, k) && PositiveAmount(amount)
    ensures DepositOutcome(b, Some(a), amount).status == if b.users[k].status == Blocked then Locked else Ok
  {
    assert IndexOfAccount(b.users, a) == Some(k);
  }

  // ------------------------------------------------- POST /cashier/withdrawal

  /** What `cashierWithdrawal` answers and leaves behind. */
  function WithdrawalOutcome(b: Bank, account: Option<int>, amount: AmountInput): (r: Outcome)
    ensures r.status in {Ok, BadRequest, NotFound, Locked}
    ensures account.None? || !PositiveAmount(amount) ==> r == Outcome(BadRequest, b)
    // 404, then 423, then the balance check
    ensures r.status == NotFound <==>
      account.Some? && PositiveAmount(amount) && forall k :: 0 <= k < |b.users| ==> !IsAccount(b.users, account.value, k)
    ensures r.status != Ok ==> r.bank == b
    ensures r.status == Ok ==> (
      && account.Some? && PositiveAmount(amount)
      && exists k :: IsAccount(b.users, account.value, k) && b.users[k].status != Blocked &&
           amount.value <= b.users[k].balance &&
           r.bank == b.(users := b.users[k := b.users[k].(balance := b.users[k].balance - amount.value)],
                        transactions := b.transactions + [Transaction(account.value, None, amount.value, Withdrawal)]))
  {
    if account.None? || !PositiveAmount(amount) then Outcome(BadRequest, b)
    else match IndexOfAccount(b.users, account.value)
      case None => Outcome(NotFound, b)
      case Some(k) =>
        assert IsAccount(b.users, account.value, k);
        if b.users[k].status == Blocked then Outcome(Locked, b)
        else if b.users[k].balance < amount.value then Outcome(BadRequest, b)
        else Outcome(Ok, b.(users := b.users[k := b.users[k].(balance := b.users[k].balance - amount.value)],
                            transactions := b.transactions + [Transaction(account.value, None, amount.value, Withdrawal)]))
  }

  /** `cashierWithdrawal`, run against the shared database. */
  method CashierWithdrawal(db: Db, account: Option<int>, amount: AmountInput) returns (status: Status)
    requires db.Valid()
    modifies db
    ensures db.Valid()
    ensures Outcome(status, db.State()) == WithdrawalOutcome(old(db.State()), account, amount)
  {
    ghost var before := db.State();
    if account.None? || !PositiveAmount(amount) {
      return BadRequest;
    }
    var row := IndexOfAccount(db.users, account.value);
    if row.None? {
      return NotFound;
    }
    var k := row.value;
    if db.users[k].status == Blocked {
      return Locked;
    }
    if db.users[k].balance < amount.value {
      return BadRequest;
    }
    db.users := db.users[k := db.users[k].(balance := db.users[k].balance - amount.value)];
    db.transactions := db.transactions + [Transaction(account.value, None, amount.value, Withdrawal)];
    status := Ok;
    assert db.State() == WithdrawalOutcome(before, account, amount).bank;
    WithdrawalKeepsValid(before, account, amount);
  }

  /** The balance check keeps every balance non-negative (one request at a time). */
  lemma WithdrawalKeepsValid(b: Bank, account: Option<int>, amount: AmountInput)
    requires Valid(b)
    ensures Valid(WithdrawalOutcome(b, account, amount).bank)
  {
    var r := WithdrawalOutcome(b, account, amount);
    if r.status == Ok {
      SameKeysLookups(b.users, r.bank.users);
    }
  }

  /** Given a valid amount and an existing account, a withdrawal answers 423 for a
      blocked account whatever its balance, then 400 when the balance is short,
      and succeeds otherwise. */
  lemma WithdrawalStatusOfAccount(b: Bank, a: AccountNumber, amount: AmountInput, k: nat)
    requires UniqueUsers(b.users) && IsAccount(b.users, a, k) && PositiveAmount(amount)
    ensures WithdrawalOutcome(b, Some(a), amount).status ==
      if b.users[k].status == Blocked then Locked
      else if b.users[k].balance < amount.value then BadRequest
      else Ok
  {
    assert IndexOfAccount(b.users, a) == Some(k);
  }

  /** A request account number no stored row can hold (a negative one, or the
      string `"0"`, which is truthy) passes the field checks and matches no row,
      so each of the three cashier account handlers answers 404. */
  lemma UnstoredAccountNumber(b: Bank, a: int, amount: AmountInput)
    requires a <= 0 && PositiveAmount(amount)
    ensures CashierUserAccountInfo(b, Some(a)).status == NotFound
    ensures DepositOutcome(b, Some(a), amount) == Outcome(NotFound, b)
    ensures WithdrawalOutcome(b, Some(a), amount) == Outcome(NotFound, b)
  {
  }

  // --------------------------------------------- POST /cashier/changePassword

  /** What `cashierChangePassword` answers and leaves behind, for the cashier
      `cashierId` of the session. */
  function ChangePasswordOutcome(b: Bank, cashierId: CashierId, newPassword: Option<string>, oldPassword: Option<string>): (r: Outcome)
    ensures r.status in {Ok, BadRequest, NotFound, Unauthorized}
    ensures r.status == BadRequest <==> !Given(newPassword) || !Given(oldPassword)
    ensures r.status == NotFound <==>
      Given(newPassword) && Given(oldPassword) && forall k :: 0 <= k < |b.cashiers| ==> b.cashiers[k].cashierId != cashierId
    ensures UniqueCashiers(b.cashiers) ==>
      (r.status == Unauthorized <==>
        Given(newPassword) && Given(oldPassword) &&
        exists k :: 0 <= k < |b.cashiers| && b.cashiers[k].cashierId == cashierId && !Matches(oldPassword.value, b.cashiers[k].password))
    ensures r.status != Ok ==> r.bank == b
    ensures r.status == Ok ==> (
      && Given(newPassword) && Given(oldPassword)
      && exists k :: 0 <= k < |b.cashiers| && b.cashiers[k].cashierId == cashierId &&
           Matches(oldPassword.value, b.cashiers[k].password) &&
           r.bank == b.(cashiers := b.cashiers[k := b.cashiers[k].(password := Hash(newPassword.value))]))
  {
    if !Given(newPassword) || !Given(oldPassword) then Outcome(BadRequest, b)
    else match IndexOfCashier(b.cashiers, cashierId)
      case None => Outcome(NotFound, b)
      case Some(k) =>
        if !Matches(oldPassword.value, b.cashiers[k].password) then Outcome(Unauthorized, b)
        else Outcome(Ok, b.(cashiers := b.cashiers[k := b.cashiers[k].(password := Hash(newPassword.value))]))
  }

  /** Only a digest changes, so the cashier keys stay unique. */
  lemma ChangePasswordKeepsValid(b: Bank, cashierId: CashierId, newPassword: Option<string>, oldPassword: Option<string>)
    requires Valid(b)
    ensures Valid(ChangePasswordOutcome(b, cashierId, newPassword, oldPassword).bank)
  {
  }

  /** `cashierChangePassword`, run against the shared database. */
  method CashierChangePassword(db: Db, cashierId: CashierId, newPassword: Option<string>, oldPassword: Option<string>)
    returns (status: Status)
    requires db.Valid()
    modifies db
    ensures db.Valid()
    ensures Outcome(status, db.State()) == ChangePasswordOutcome(old(db.State()), cashierId, newPassword, oldPassword)
  {
    if !Given(newPassword) || !Given(oldPassword) {
      return BadRequest;
    }
    var row := IndexOfCashier(db.cashiers, cashierId);
    if row.None? {
      return NotFound;
    }
    var k := row.value;
    if !Matches(oldPassword.value, db.cashiers[k].password) {
      return Unauthorized;
    }
    db.cashiers := db.cashiers[k := db.cashiers[k].(password := Hash(newPassword.value))];
    status := Ok;
  }

  /** A cashier who gives the right old password gets the change; afterwards the
      new password logs them in and the old one, if different, no longer does. */
  lemma ChangePasswordThenLogin(b: Bank, k: nat, newPassword: string, oldPassword: string)
    requires Valid(b) && k < |b.cashiers| && b.cashiers[k].email != ""
    requires newPassword != "" && oldPassword != "" && Matches(oldPassword, b.cashiers[k].password)
    ensures var c := b.cashiers[k];
      var r := ChangePasswordOutcome(b, c.cashierId, Some(newPassword), Some(oldPassword));
      && r.status == Ok
      && CashierLogin(r.bank, Some(c.email), Some(newPassword)) == Answer(Ok, Some(Payload(c.cashierId, CashierRole)))
      && (oldPassword != newPassword ==> CashierLogin(r.bank, Some(c.email), Some(oldPassword)) == Answer(Unauthorized, None))
  {
    var c := b.cashiers[k];
    assert IndexOfCashier(b.cashiers, c.cashierId) == Some(k);
    var r := ChangePasswordOutcome(b, c.cashierId, Some(newPassword), Some(oldPassword));
    var cs := r.bank.cashiers;
    assert cs == b.cashiers[k := c.(password := Hash(newPassword))];
    assert cs[k].email == c.email;
    var found := IndexOfCashierEmail(cs, c.email);
    assert found.Some?;
    assert b.cashiers[found.value].email == c.email;
    assert found == Some(k);
  }
}
