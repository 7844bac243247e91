/**
 * controller/userController.js: the handlers behind `/api/user/...`.
 * OTP verification, the transaction history and the profile only read the
 * tables and are functions of the database; registration, login, OTP issue,
 * password reset, profile update and fund transfer update it in place and are
 * methods on `Db`, each proved equal to a specification function `...Outcome`.
 */
module UserController {

  import opened Wrappers
  import opened Crypto
  import opened Schema
  import opened Database

  /** `expiryTime.setMinutes(expiryTime.getMinutes() + 5)`, with `now` in seconds. */
  const OtpLifetime: int := 5 * 60

  /** The row `otps` holds after an OTP for `code` is issued at time `now`. */
  function IssuedOtp(code: OtpCode, now: int): (rec: OtpRecord)
    ensures Matches(OtpText(code), rec.code) && rec.expiry == now + OtpLifetime
  {
    OtpRecord(Hash(OtpText(code)), now + OtpLifetime)
  }

  // ------------------------------------------------------ POST /user/register

  /** The row `userRegister` inserts: the request's fields, the hashed password,
      and what the database fills in. */
  function NewUser(row: NewRow, email: Email, password: string, fullName: string, phoneNumber: string): (u: User)
    ensures u.email == email && Matches(password, u.password)
    ensures u.fullName == fullName && u.phoneNumber == phoneNumber
    ensures u.userId == row.userId && u.accountNumber == row.accountNumber
    ensures u.status == row.status && u.balance == row.balance
  {
    User(row.userId, row.accountNumber, email, fullName, phoneNumber, Hash(password), row.balance, row.status)
  }

  /** What `userRegister` answers and leaves behind. */
  function RegisterOutcome(b: Bank, email: Option<string>, password: Option<string>,
                           fullName: Option<string>, phoneNumber: Option<string>, row: NewRow): (r: Outcome)
    ensures r.status in {Created, BadRequest, Conflict}
    ensures r.status == BadRequest <==> !Given(email) || !Given(password) || !Given(fullName) || !Given(phoneNumber)
    ensures r.status == Conflict <==>
      Given(email) && Given(password) && Given(fullName) && Given(phoneNumber) &&
      exists k :: IsEmail(b.users, email.value, k)
    ensures r.status != Created ==> r.bank == b
    ensures r.status == Created ==> (
      && Given(email) && Given(password) && Given(fullName) && Given(phoneNumber)
      && r.bank == b.(users := b.users + [NewUser(row, email.value, password.value, fullName.value, phoneNumber.value)]))
  {
    if !Given(email) || !Given(password) || !Given(fullName) || !Given(phoneNumber) then Outcome(BadRequest, b)
    else match IndexOfEmail(b.users, email.value)
      case Some(k) =>
        assert IsEmail(b.users, email.value, k);
        Outcome(Conflict, b)
      case None => Outcome(Created, b.(users := b.users + [NewUser(row, email.value, password.value, fullName.value, phoneNumber.value)]))
  }

  /** The generated `user_id` and `account_number` are new, and the default balance is not negative. */
  ghost predicate FreshRow(b: Bank, row: NewRow)
  {
    row.balance >= 0 &&
    forall k :: 0 <= k < |b.users| ==> b.users[k].userId != row.userId && b.users[k].accountNumber != row.accountNumber
  }

  /** Registration keeps the invariant, and afterwards exactly one user has the email. */
  lemma RegisterKeepsValid(b: Bank, email: Option<string>, password: Option<string>,
                           fullName: Option<string>, phoneNumber: Option<string>, row: NewRow)
    requires Valid(b) && FreshRow(b, row)
    ensures var r := RegisterOutcome(b, email, password, fullName, phoneNumber, row);
      && Valid(r.bank)
      && (r.status == Created ==>
            && |r.bank.users| == |b.users| + 1
            && IndexOfEmail(r.bank.users, email.value) == Some(|b.users|)
            && forall k :: IsEmail(r.bank.users, email.value, k) ==> k == |b.users|)
  {
    var r := RegisterOutcome(b, email, password, fullName, phoneNumber, row);
    if r.status == Created {
      var users := r.bank.users;
      assert forall k :: 0 <= k < |b.users| ==> users[k] == b.users[k];
      assert IsEmail(users, email.value, |b.users|);
      forall e | e in r.bank.otps ensures IndexOfEmail(users, e).Some? {
        var k := IndexOfEmail(b.users, e).value;
        assert IsEmail(users, e, k);
      }
    }
  }

  /** `userRegister`, run against the shared database; `row` is what MySQL generates. */
  method UserRegister(db: Db, email: Option<string>, password: Option<string>,
                      fullName: Option<string>, phoneNumber: Option<string>, row: NewRow) returns (status: Status)
    requires db.Valid() && FreshRow(db.State(), row)
    modifies db
    ensures db.Valid()
    ensures Outcome(status, db.State()) == RegisterOutcome(old(db.State()), email, password, fullName, phoneNumber, row)
  {
    ghost var before := db.State();
    if !Given(email) || !Given(password) || !Given(fullName) || !Given(phoneNumber) {
      return BadRequest;
    }
    var existing := IndexOfEmail(db.users, email.value);
    if existing.Some? {
      return Conflict;
    }
    db.users := db.users + [NewUser(row, email.value, password.value, fullName.value, phoneNumber.value)];
    status := Created;
    assert db.State() == RegisterOutcome(before, email, password, fullName, phoneNumber, row).bank;
    RegisterKeepsValid(before, email, password, fullName, phoneNumber, row);
  }

  // --------------------------------------------------------- POST /user/login

  /** Some user has email `e` and a password digest that accepts `p`. */
  ghost predicate IsUserCredential(users: seq<User>, e: Email, p: string)
  {
    exists k :: IsEmail(users, e, k) && Matches(p, users[k].password)
  }

  /** What `userLogin` answers and leaves behind; `code` is the random OTP it draws. */
  function LoginOutcome(b: Bank, email: Option<string>, password: Option<string>, code: OtpCode, now: int): (r: Outcome)
    ensures r.status in {Ok, BadRequest, Unauthorized}
    ensures r.status == BadRequest <==> !Given(email) || !Given(password)
    // a rejected login leaves the otps table alone
    ensures r.status != Ok ==> r.bank == b
    ensures r.status == Ok ==> (
      && Given(email) && Given(password)
      && (exists k :: IsEmail(b.users, email.value, k) && Matches(password.value, b.users[k].password))
      && r.bank == b.(otps := b.otps[email.value := IssuedOtp(code, now)]))
    ensures UniqueUsers(b.users) && Given(email) && Given(password) ==>
      (r.status == Ok <==> IsUserCredential(b.users, email.value, password.value))
  {
    if !Given(email) || !Given(password) then Outcome(BadRequest, b)
    else match IndexOfEmail(b.users, email.value)
      case Some(k) =>
        assert IsEmail(b.users, email.value, k);
        if Matches(password.value, b.users[k].password) then Outcome(Ok, b.(otps := b.otps[email.value := IssuedOtp(code, now)]))
        else Outcome(Unauthorized, b)
      case None => Outcome(Unauthorized, b)
  }

  /** An OTP is stored only for an email that has a user, so the invariant holds. */
  lemma LoginKeepsValid(b: Bank, email: Option<string>, password: Option<string>, code: OtpCode, now: int)
    requires Valid(b)
    ensures Valid(LoginOutcome(b, email, password, code, now).bank)
  {
    var r := LoginOutcome(b, email, password, code, now);
    if r.status == Ok {
      var k :| IsEmail(b.users, email.value, k);
      assert IndexOfEmail(b.users, email.value).Some?;
    }
  }

  /** `userLogin`, run against the shared database. */
  method UserLogin(db: Db, email: Option<string>, password: Option<string>, code: OtpCode, now: int) returns (status: Status)
    requires db.Valid()
    modifies db
    ensures db.Valid()
    ensures Outcome(status, db.State()) == LoginOutcome(old(db.State()), email, password, code, now)
  {
    ghost var before := db.State();
    if !Given(email) || !Given(password) {
      return BadRequest;
    }
    var row := IndexOfEmail(db.users, email.value);
    if row.None? || !Matches(password.value, db.users[row.value].password) {
      return Unauthorized;
    }
    db.otps := db.otps[email.value := IssuedOtp(code, now)];
    status := Ok;
    assert db.State() == LoginOutcome(before, email, password, code, now).bank;
    LoginKeepsValid(before, email, password, code, now);
  }

  // ------------------------------------------------------- POST /user/sendOtp

  /** What `sendOtp` answers and leaves behind. */
  function SendOtpOutcome(b: Bank, email: Option<string>, code: OtpCode, now: int): (r: Outcome)
    ensures r.status in {Ok, BadRequest, NotFound}
    ensures r.status == BadRequest <==> !Given(email)
    ensures r.status == NotFound <==> Given(email) && forall k :: 0 <= k < |b.users| ==> !IsEmail(b.users, email.value, k)
    ensures r.status != Ok ==> r.bank == b
    ensures r.status == Ok ==> Given(email) && r.bank == b.(otps := b.otps[email.value := IssuedOtp(code, now)])
  {
    if !Given(email) then Outcome(BadRequest, b)
    else match IndexOfEmail(b.users, email.value)
      case None => Outcome(NotFound, b)
      case Some(k) =>
        assert IsEmail(b.users, email.value, k);
        Outcome(Ok, b.(otps := b.otps[email.value := IssuedOtp(code, now)]))
  }

  lemma SendOtpKeepsValid(b: Bank, email: Option<string>, code: OtpCode, now: int)
    requires Valid(b)
    ensures Valid(SendOtpOutcome(b, email, code, now).bank)
  {
  }

  /** `sendOtp`, run against the shared database. */
  method SendOtp(db: Db, email: Option<string>, code: OtpCode, now: int) returns (status: Status)
    requires db.Valid()
    modifies db
    ensures db.Valid()
    ensures Outcome(status, db.State()) == SendOtpOutcome(old(db.State()), email, code, now)
  {
    ghost var before := db.State();
    if !Given(email) {
      return BadRequest;
    }
    var row := IndexOfEmail(db.users, email.value);
    if row.None? {
      return NotFound;
    }
    db.otps := db.otps[email.value := IssuedOtp(code, now)];
    status := Ok;
    assert db.State() == SendOtpOutcome(before, email, code, now).bank;
    SendOtpKeepsValid(before, email, code, now);
  }

  /** Issuing an OTP is an upsert keyed by email: afterwards the email has exactly
      the new record, and every other email keeps the record it had, or none. */
  lemma OtpUpsert(b: Bank, e: Email, code: OtpCode, now: int, other: Email)
    requires e != ""
    ensures var r := SendOtpOutcome(b, Some(e), code, now);
      r.status == Ok ==>
        && r.bank.otps[e] == IssuedOtp(code, now)
        && r.bank.otps.Keys == b.otps.Keys + {e}
        && (other != e ==> (other in r.bank.otps <==> other in b.otps))
        && (other != e && other in b.otps ==> r.bank.otps[other] == b.otps[other])
  {
  }

  // ----------------------------------------------------- POST /user/verifyOtp

  /** `verifyOtp`: a token `{ userId, role: "user" }` when the email has an OTP
      record whose digest accepts the code. The record's expiry is not consulted
      and the record is not removed. If no user has that email, the source's
      `userDetails[0].user_id` throws and the handler answers 500. */
  function VerifyOtp(b: Bank, email: Option<string>, otp: Option<string>): (r: Answer<Payload>)
    ensures r.status in {Ok, BadRequest, Gone, Unauthorized, InternalError}
    ensures r.status == BadRequest <==> !Given(email) || !Given(otp)
    ensures r.status == Gone <==> Given(email) && Given(otp) && email.value !in b.otps
    ensures r.status == Unauthorized <==>
      Given(email) && Given(otp) && email.value in b.otps && !Matches(otp.value, b.otps[email.value].code)
    ensures r.status == InternalError <==>
      Given(email) && Given(otp) && email.value in b.otps && Matches(otp.value, b.otps[email.value].code) &&
      forall k :: 0 <= k < |b.users| ==> !IsEmail(b.users, email.value, k)
    ensures r.status != Ok ==> r.body == None
    ensures r.status == Ok ==>
      exists k :: IsEmail(b.users, email.value, k) && r.body == Some(Payload(b.users[k].userId, UserRole))
  {
    if !Given(email) || !Given(otp) then Answer(BadRequest, None)
    else if email.value !in b.otps then Answer(Gone, None)
    else if !Matches(otp.value, b.otps[email.value].code) then Answer(Unauthorized, None)
    else match IndexOfEmail(b.users, email.value)
      case None => Answer(InternalError, None)
      case Some(k) =>
        assert IsEmail(b.users, email.value, k);
        Answer(Ok, Some(Payload(b.users[k].userId, UserRole)))
  }

  /** Under the invariant an OTP record always has its user, so the 500 never happens. */
  lemma VerifyOtpNeverFailsInternally(b: Bank, email: Option<string>, otp: Option<string>)
    requires Valid(b)
    ensures VerifyOtp(b, email, otp).status != InternalError
  {
    if Given(email) && email.value in b.otps {
      assert IndexOfEmail(b.users, email.value).Some?;
      assert IsEmail(b.users, email.value, IndexOfEmail(b.users, email.value).value);
    }
  }

  /** The stored expiry time plays no part in the answer. */
  lemma VerifyOtpIgnoresExpiry(b: Bank, e: Email, otp: Option<string>, expiry: int)
    requires e in b.otps
    ensures VerifyOtp(b.(otps := b.otps[e := b.otps[e].(expiry := expiry)]), Some(e), otp) == VerifyOtp(b, Some(e), otp)
  {
  }

  /** The two login steps: after a successful password check issued `code`, the
      OTP step admits that user exactly for the text of `code`; any other 4-digit
      code gets 401. */
  lemma LoginThenVerifyOtp(b: Bank, k: nat, password: string, code: OtpCode, now: int, guess: OtpCode)
    requires Valid(b) && k < |b.users| && b.users[k].email != "" && password != ""
    requires Matches(password, b.users[k].password)
    ensures var e := b.users[k].email;
      var r := LoginOutcome(b, Some(e), Some(password), code, now);
      && r.status == Ok
      && VerifyOtp(r.bank, Some(e), Some(OtpText(guess))) ==
           if guess == code then Answer(Ok, Some(Payload(b.users[k].userId, UserRole))) else Answer(Unauthorized, None)
  {
    var e := b.users[k].email;
    assert IndexOfEmail(b.users, e) == Some(k);
    OtpTextInjective(guess, code);
  }

  // ------------------------------------------------- POST /user/resetPassword

  /** `UPDATE users SET password = ? WHERE email = ?`: under unique emails, the
      one row holding `e` gets the new digest and every other row stays; with no
      such row the table is unchanged. */
  function SetPasswordWhereEmail(users: seq<User>, e: Email, d: Digest): (r: seq<User>)
    ensures SameKeys(users, r)
    ensures UniqueUsers(users) ==> forall k :: IsEmail(users, e, k) ==> r == users[k := users[k].(password := d)]
    ensures (forall k :: 0 <= k < |users| ==> !IsEmail(users, e, k)) ==> r == users
  {
    var r := seq(|users|, k requires 0 <= k < |users| => if users[k].email == e then users[k].(password := d) else users[k]);
    assert forall k :: 0 <= k < |users| ==> IsEmail(users, e, k) || r[k] == users[k];
    r
  }

  /** What `resetPassword` answers and leaves behind. */
  function ResetPasswordOutcome(b: Bank, email: Option<string>, otp: Option<string>, newPassword: Option<string>): (r: Outcome)
    ensures r.status in {Ok, BadRequest, Gone, Unauthorized}
    ensures r.status == BadRequest <==> !Given(email) || !Given(otp) || !Given(newPassword)
    ensures r.status == Gone <==> Given(email) && Given(otp) && Given(newPassword) && email.value !in b.otps
    ensures r.status == Unauthorized <==>
      Given(email) && Given(otp) && Given(newPassword) && email.value in b.otps && !Matches(otp.value, b.otps[email.value].code)
    ensures r.status != Ok ==> r.bank == b
    // only the password digests of the rows with that email change; the OTP stays
    ensures r.status == Ok ==>
      && Given(email) && Given(otp) && Given(newPassword)
      && r.bank.cashiers == b.cashiers && r.bank.otps == b.otps && r.bank.transactions == b.transactions
      && |r.bank.users| == |b.users|
      && forall k :: 0 <= k < |b.users| ==>
           var u, v := b.users[k], r.bank.users[k];
           && v.userId == u.userId && v.accountNumber == u.accountNumber && v.email == u.email
           && v.fullName == u.fullName && v.phoneNumber == u.phoneNumber
           && v.balance == u.balance && v.status == u.status
           && (if u.email == email.value then Matches(newPassword.value, v.password) else v.password == u.password)
  {
    if !Given(email) || !Given(otp) || !Given(newPassword) then Outcome(BadRequest, b)
    else if email.value !in b.otps then Outcome(Gone, b)
    else if !Matches(otp.value, b.otps[email.value].code) then Outcome(Unauthorized, b)
    else Outcome(Ok, b.(users := SetPasswordWhereEmail(b.users, email.value, Hash(newPassword.value))))
  }

  lemma ResetPasswordKeepsValid(b: Bank, email: Option<string>, otp: Option<string>, newPassword: Option<string>)
    requires Valid(b)
    ensures Valid(ResetPasswordOutcome(b, email, otp, newPassword).bank)
  {
    var r := ResetPasswordOutcome(b, email, otp, newPassword);
    if r.status == Ok {
      SameKeysLookups(b.users, r.bank.users);
    }
  }

  /** `resetPassword`, run against the shared database. */
  method ResetPassword(db: Db, email: Option<string>, otp: Option<string>, newPassword: Option<string>) returns (status: Status)
    requires db.Valid()
    modifies db
    ensures db.Valid()
    ensures Outcome(status, db.State()) == ResetPasswordOutcome(old(db.State()), email, otp, newPassword)
  {
    ghost var before := db.State();
    if !Given(email) || !Given(otp) || !Given(newPassword) {
      return BadRequest;
    }
    if email.value !in db.otps {
      return Gone;
    }
    if !Matches(otp.value, db.otps[email.value].code) {
      return Unauthorized;
    }
    db.users := SetPasswordWhereEmail(db.users, email.value, Hash(newPassword.value));
    status := Ok;
    assert db.State() == ResetPasswordOutcome(before, email, otp, newPassword).bank;
    ResetPasswordKeepsValid(before, email, otp, newPassword);
  }

  /** The OTP is not single-use: a reset that succeeded succeeds again when
      replayed with the same code. */
  lemma ResetPasswordReplay(b: Bank, email: Option<string>, otp: Option<string>, newPassword: Option<string>)
    requires ResetPasswordOutcome(b, email, otp, newPassword).status == Ok
    ensures var again := ResetPasswordOutcome(ResetPasswordOutcome(b, email, otp, newPassword).bank, email, otp, newPassword);
      again.status == Ok
  {
  }

  /** After a reset the new password passes the login check. */
  lemma ResetThenLogin(b: Bank, k: nat, otp: string, newPassword: string, code: OtpCode, now: int)
    requires Valid(b) && k < |b.users| && b.users[k].email != "" && otp != "" && newPassword != ""
    requires ResetPasswordOutcome(b, Some(b.users[k].email), Some(otp), Some(newPassword)).status == Ok
    ensures var r := ResetPasswordOutcome(b, Some(b.users[k].email), Some(otp), Some(newPassword));
      LoginOutcome(r.bank, Some(b.users[k].email), Some(newPassword), code, now).status == Ok
  {
    var e := b.users[k].email;
    var r := ResetPasswordOutcome(b, Some(e), Some(otp), Some(newPassword));
    SameKeysLookups(b.users, r.bank.users);
    assert IndexOfEmail(b.users, e) == Some(k);
  }

  // ------------------------------------------------------ POST /user/fundTransfer

  /** What `fundTransfer` answers and leaves behind, for the user `userId` of the
      session. If that user's row is missing, `senderDetail[0]` throws and the
      handler answers 500 before changing anything. */
  function TransferOutcome(b: Bank, userId: UserId, reference: Option<int>, amount: AmountInput): (r: Outcome)
    ensures r.status in {Ok, BadRequest, InternalError, Locked, NotFound}
    // the amount checks come before any lookup
    ensures reference.None? || !PositiveAmount(amount) ==> r == Outcome(BadRequest, b)
    ensures r.status == InternalError <==>
      reference.Some? && PositiveAmount(amount) && forall k :: 0 <= k < |b.users| ==> !IsUser(b.users, userId, k)
    ensures r.status != Ok ==> r.bank == b
    ensures r.status == Ok ==> (
      && reference.Some? && PositiveAmount(amount)
      && exists s, j ::
           && IsUser(b.users, userId, s) && IsAccount(b.users, reference.value, j) && s != j
           && b.users[s].status == Active && b.users[s].balance >= amount.value && b.users[j].status != Blocked
           && r.bank == b.(users := b.users[s := b.users[s].(balance := b.users[s].balance - amount.value)]
                                           [j := b.users[j].(balance := b.users[j].balance + amount.value)],
                           transactions := b.transactions + [
                             Transaction(b.users[s].accountNumber, Some(b.users[j].accountNumber), amount.value, TransferOut),
                             Transaction(b.users[j].accountNumber, Some(b.users[s].accountNumber), amount.value, TransferIn)]))
  {
    if reference.None? || !PositiveAmount(amount) then Outcome(BadRequest, b)
    else match IndexOfUser(b.users, userId)
      case None => Outcome(InternalError, b)
      case Some(s) =>
        assert IsUser(b.users, userId, s);
        var sender := b.users[s];
        var a := amount.value;
        if sender.status != Active then Outcome(Locked, b)
        else if sender.balance < a then Outcome(BadRequest, b)
        else if sender.accountNumber == reference.value then Outcome(BadRequest, b)
        else match IndexOfAccount(b.users, reference.value)
          case None => Outcome(NotFound, b)
          case Some(j) =>
            if b.users[j].status == Blocked then Outcome(Locked, b)
            else
              assert IsUser(b.users, userId, s) && IsAccount(b.users, reference.value, j);
              Outcome(Ok, b.(users := b.users[s := sender.(balance := sender.balance - a)]
                                             [j := b.users[j].(balance := b.users[j].balance + a)],
                             transactions := b.transactions + [
                               Transaction(sender.accountNumber, Some(b.users[j].accountNumber), a, TransferOut),
                               Transaction(b.users[j].accountNumber, Some(sender.accountNumber), a, TransferIn)]))
  }

  /** A transfer that passes every check debits row `s`, credits row `j` and
      writes the two records. */
  lemma TransferAccepted(b: Bank, userId: UserId, reference: Option<int>, amount: AmountInput, s: nat, j: nat)
    requires reference.Some? && PositiveAmount(amount)
    requires IndexOfUser(b.users, userId) == Some(s) && IndexOfAccount(b.users, reference.value) == Some(j)
    requires b.users[s].status == Active && b.users[s].balance >= amount.value
    requires b.users[s].accountNumber != reference.value && b.users[j].status != Blocked
    ensures TransferOutcome(b, userId, reference, amount) ==
      Outcome(Ok, b.(users := b.users[s := b.users[s].(balance := b.users[s].balance - amount.value)]
                                     [j := b.users[j].(balance := b.users[j].balance + amount.value)],
                     transactions := b.transactions + [
                       Transaction(b.users[s].accountNumber, Some(b.users[j].accountNumber), amount.value, TransferOut),
                       Transaction(b.users[j].accountNumber, Some(b.users[s].accountNumber), amount.value, TransferIn)]))
  {
  }

  /** The rejection checks in their fixed order, for a valid amount and the
      session user's row `s` (under unique keys): not exactly active is 423; a
      short balance is 400; sending to oneself is 400; no receiver is 404; a
      blocked receiver is 423; a pending or active receiver is accepted. */
  lemma TransferCheckOrder(b: Bank, userId: UserId, ref: int, amount: AmountInput, s: nat)
    requires UniqueUsers(b.users) && IsUser(b.users, userId, s) && PositiveAmount(amount)
    ensures var r := TransferOutcome(b, userId, Some(ref), amount);
      var sender := b.users[s];
      && (sender.status != Active ==> r.status == Locked)
      && (sender.status == Active && sender.balance < amount.value ==> r.status == BadRequest)
      && (sender.status == Active && sender.balance >= amount.value && sender.accountNumber == ref ==> r.status == BadRequest)
      && (sender.status == Active && sender.balance >= amount.value && sender.accountNumber != ref ==>
            && ((forall j :: 0 <= j < |b.users| ==> !IsAccount(b.users, ref, j)) ==> r.status == NotFound)
            && (forall j :: IsAccount(b.users, ref, j) ==>
                  r.status == if b.users[j].status == Blocked then Locked else Ok))
  {
    assert IndexOfUser(b.users, userId) == Some(s);
    forall j | IsAccount(b.users, ref, j)
      ensures IndexOfAccount(b.users, ref) == Some(j)
    {
    }
  }

  /** A transfer moves money and creates none: the sender loses exactly what the
      receiver gains, so the sum of all balances is unchanged. */
  lemma TransferConservesTotal(b: Bank, userId: UserId, reference: Option<int>, amount: AmountInput)
    ensures TotalBalance(TransferOutcome(b, userId, reference, amount).bank.users) == TotalBalance(b.users)
  {
    var r := TransferOutcome(b, userId, reference, amount);
    if r.status == Ok {
      var s, j :| && IsUser(b.users, userId, s) && IsAccount(b.users, reference.value, j) && s != j
                  && r.bank.users == b.users[s := b.users[s].(balance := b.users[s].balance - amount.value)]
                                            [j := b.users[j].(balance := b.users[j].balance + amount.value)];
      var mid := b.users[s := b.users[s].(balance := b.users[s].balance - amount.value)];
      TotalBalanceUpdate(b.users, s, mid[s]);
      TotalBalanceUpdate(mid, j, b.users[j].(balance := b.users[j].balance + amount.value));
    }
  }

  lemma TransferKeepsValid(b: Bank, userId: UserId, reference: Option<int>, amount: AmountInput)
    requires Valid(b)
    ensures Valid(TransferOutcome(b, userId, reference, amount).bank)
  {
    var r := TransferOutcome(b, userId, reference, amount);
    if r.status == Ok {
      SameKeysLookups(b.users, r.bank.users);
    }
  }

  /** The four writes of an accepted transfer, in the source's order: debit row
      `s` and log `transfer_out`, then credit row `j` and log `transfer_in`. */
  method MoveFunds(db: Db, s: nat, j: nat, a: int, receiverAccount: AccountNumber)
    requires s < |db.users| && j < |db.users| && s != j
    modifies db
    ensures db.users == old(db.users)[s := old(db.users)[s].(balance := old(db.users)[s].balance - a)]
                                     [j := old(db.users)[j].(balance := old(db.users)[j].balance + a)]
    ensures db.transactions == old(db.transactions) + [
      Transaction(old(db.users)[s].accountNumber, Some(receiverAccount), a, TransferOut),
      Transaction(receiverAccount, Some(old(db.users)[s].accountNumber), a, TransferIn)]
    ensures db.cashiers == old(db.cashiers) && db.otps == old(db.otps)
  {
    var senderAccount := db.users[s].accountNumber;
    db.users := db.users[s := db.users[s].(balance := db.users[s].balance - a)];
    db.transactions := db.transactions + [Transaction(senderAccount, Some(receiverAccount), a, TransferOut)];
    db.users := db.users[j := db.users[j].(balance := db.users[j].balance + a)];
    db.transactions := db.transactions + [Transaction(receiverAccount, Some(senderAccount), a, TransferIn)];
  }

  /** `fundTransfer`, run against the shared database: the sender is debited and
      a `transfer_out` row written, then the receiver credited and a `transfer_in`
      row written. */
  method FundTransfer(db: Db, userId: UserId, reference: Option<int>, amount: AmountInput) returns (status: Status)
    requires db.Valid()
    modifies db
    ensures db.Valid()
    ensures Outcome(status, db.State()) == TransferOutcome(old(db.State()), userId, reference, amount)
  {
    ghost var before := db.State();
    if reference.None? || !PositiveAmount(amount) {
      return BadRequest;
    }
    var senderRow := IndexOfUser(db.users, userId);
    if senderRow.None? {
      return InternalError;
    }
    var s := senderRow.value;
    var senderAccount := db.users[s].accountNumber;
    var a := amount.value;
    if db.users[s].status != Active {
      return Locked;
    }
    if db.users[s].balance < a {
      return BadRequest;
    }
    if senderAccount == reference.value {
      return BadRequest;
    }
    var receiverRow := IndexOfAccount(db.users, reference.value);
    if receiverRow.None? {
      return NotFound;
    }
    var j := receiverRow.value;
    if db.users[j].status == Blocked {
      return Locked;
    }
    TransferAccepted(before, userId, reference, amount, s, j);
    MoveFunds(db, s, j, a, db.users[j].accountNumber);
    status := Ok;
    assert db.State() == TransferOutcome(before, userId, reference, amount).bank;
    TransferKeepsValid(before, userId, reference, amount);
  }

  // ------------------------------------------------ GET /user/transactionHistory

  /** `transactionHistory`: every row of `transactions` on the caller's account
      number, in table order. If the caller's row is missing,
      `userDetails[0].account_number` throws and the handler answers 500. */
  function TransactionHistory(b: Bank, userId: UserId): (r: Answer<seq<Transaction>>)
    ensures r.status in {Ok, InternalError}
    ensures r.status == InternalError <==> forall k :: 0 <= k < |b.users| ==> !IsUser(b.users, userId, k)
    ensures r.status != Ok ==> r.body == None
    ensures r.status == Ok ==>
      exists k :: IsUser(b.users, userId, k) && r.body.Some? &&
        (forall t :: t in r.body.value <==> t in b.transactions && t.accountNumber == b.users[k].accountNumber)
  {
    match IndexOfUser(b.users, userId)
    case None => Answer(InternalError, None)
    case Some(k) =>
      assert IsUser(b.users, userId, k);
      Answer(Ok, Some(RecordsOf(b.transactions, b.users[k].accountNumber)))
  }

  /** The history holds each of the caller's records exactly as many times as the
      table does, and nothing on any other account. */
  lemma TransactionHistoryCounts(b: Bank, k: nat, t: Transaction)
    requires UniqueUsers(b.users) && k < |b.users|
    ensures var h := TransactionHistory(b, b.users[k].userId);
      && h.status == Ok && h.body.Some?
      && multiset(h.body.value)[t] == if t.accountNumber == b.users[k].accountNumber then multiset(b.transactions)[t] else 0
  {
    assert IndexOfUser(b.users, b.users[k].userId) == Some(k);
    RecordsOfCounts(b.transactions, b.users[k].accountNumber, t);
  }

  // ---------------------------------------------------- GET /user/accountProfile

  /** A row of the `200` body of `accountProfile`. */
  datatype Profile = Profile(
    accountNumber: AccountNumber,
    email: Email,
    fullName: string,
    balance: int,
    status: AccountStatus,
    phoneNumber: string)

  function ProfileOf(u: User): Profile
  {
    Profile(u.accountNumber, u.email, u.fullName, u.balance, u.status, u.phoneNumber)
  }

  /** `SELECT account_number, email, full_name, balance, status, phone_number FROM users WHERE user_id = ?` */
  function ProfilesOf(users: seq<User>, id: UserId): (r: seq<Profile>)
    ensures forall p :: p in r ==> exists k :: IsUser(users, id, k) && p == ProfileOf(users[k])
    ensures forall k :: IsUser(users, id, k) ==> ProfileOf(users[k]) in r
    ensures (forall k :: 0 <= k < |users| ==> !IsUser(users, id, k)) ==> r == []
  {
    if users == [] then []
    else
      var rest := ProfilesOf(users[1..], id);
      assert forall k :: IsUser(users[1..], id, k) ==> IsUser(users, id, k + 1);
      if users[0].userId == id then [ProfileOf(users[0])] + rest else rest
  }

  /** `accountProfile`: always 200, with the selected rows. */
  function AccountProfile(b: Bank, userId: UserId): (r: Answer<seq<Profile>>)
    ensures r.status == Ok && r.body.Some?
    ensures forall p :: p in r.body.value ==> exists k :: IsUser(b.users, userId, k) && p == ProfileOf(b.users[k])
    ensures forall k :: IsUser(b.users, userId, k) ==> ProfileOf(b.users[k]) in r.body.value
  {
    Answer(Ok, Some(ProfilesOf(b.users, userId)))
  }

  /** Under unique keys the profile is exactly the caller's row. */
  lemma AccountProfileOfUser(b: Bank, k: nat)
    requires UniqueUsers(b.users) && k < |b.users|
    ensures AccountProfile(b, b.users[k].userId) == Answer(Ok, Some([ProfileOf(b.users[k])]))
  {
    ProfilesOfUnique(b.users, b.users[k].userId, k);
  }

  lemma {:induction false} ProfilesOfUnique(users: seq<User>, id: UserId, k: nat)
    requires UniqueUsers(users) && IsUser(users, id, k)
    ensures ProfilesOf(users, id) == [ProfileOf(users[k])]
  {
    if k == 0 {
      assert forall i :: 0 <= i < |users[1..]| ==> !IsUser(users[1..], id, i) by {
        forall i | 0 <= i < |users[1..]| ensures !IsUser(users[1..], id, i) {
          assert users[1..][i] == users[i + 1];
        }
      }
    } else {
      assert UniqueUsers(users[1..]) by {
        forall i, j | 0 <= i < j < |users[1..]|
          ensures users[1..][i].userId != users[1..][j].userId
        {
          assert users[1..][i] == users[i + 1] && users[1..][j] == users[j + 1];
        }
      }
      assert IsUser(users[1..], id, k - 1);
      ProfilesOfUnique(users[1..], id, k - 1);
    }
  }

  // ------------------------------------------------------ POST /user/updateProfile

  /** SQL `COALESCE(?, column)`: an absent field keeps the column. */
  function Coalesce(field: Option<string>, column: string): string
  {
    if field.Some? then field.value else column
  }

  /** `UPDATE users SET phone_number = COALESCE(?, phone_number), full_name = COALESCE(?, full_name) WHERE user_id = ?` */
  /** Under unique user ids, the one row holding `id` gets the coalesced
      profile fields and every other row stays; with no such row the table is
      unchanged. */
  function SetProfileWhereUser(users: seq<User>, id: UserId, phoneNumber: Option<string>, fullName: Option<string>): (r: seq<User>)
    ensures SameKeys(users, r)
    ensures UniqueUsers(users) ==> forall k :: IsUser(users, id, k) ==>
      r == users[k := users[k].(phoneNumber := Coalesce(phoneNumber, users[k].phoneNumber),
                                fullName := Coalesce(fullName, users[k].fullName))]
    ensures (forall k :: 0 <= k < |users| ==> !IsUser(users, id, k)) ==> r == users
  {
    var r := seq(|users|, k requires 0 <= k < |users| =>
      if users[k].userId == id
      then users[k].(phoneNumber := Coalesce(phoneNumber, users[k].phoneNumber), fullName := Coalesce(fullName, users[k].fullName))
      else users[k]);
    assert forall k :: 0 <= k < |users| ==> IsUser(users, id, k) || r[k] == users[k];
    r
  }

  /** What `updateProfile` answers and leaves behind, for the user `userId` of the session. */
  function UpdateProfileOutcome(b: Bank, userId: UserId, phoneNumber: Option<string>, fullName: Option<string>): (r: Outcome)
    ensures r.status in {Ok, BadRequest}
    ensures r.status == BadRequest <==> !Given(phoneNumber) && !Given(fullName)
    ensures r.status == BadRequest ==> r.bank == b
    ensures r.status == Ok ==>
      && r.bank.cashiers == b.cashiers && r.bank.otps == b.otps && r.bank.transactions == b.transactions
      && |r.bank.users| == |b.users|
      && forall k :: 0 <= k < |b.users| ==>
           var u, v := b.users[k], r.bank.users[k];
           && v.userId == u.userId && v.accountNumber == u.accountNumber && v.email == u.email
           && v.balance == u.balance && v.status == u.status && v.password == u.password
           && v.phoneNumber == (if u.userId == userId && phoneNumber.Some? then phoneNumber.value else u.phoneNumber)
           && v.fullName == (if u.userId == userId && fullName.Some? then fullName.value else u.fullName)
  {
    if !Given(phoneNumber) && !Given(fullName) then Outcome(BadRequest, b)
    else Outcome(Ok, b.(users := SetProfileWhereUser(b.users, userId, phoneNumber, fullName)))
  }

  lemma UpdateProfileKeepsValid(b: Bank, userId: UserId, phoneNumber: Option<string>, fullName: Option<string>)
    requires Valid(b)
    ensures Valid(UpdateProfileOutcome(b, userId, phoneNumber, fullName).bank)
  {
    var r := UpdateProfileOutcome(b, userId, phoneNumber, fullName);
    if r.status == Ok {
      SameKeysLookups(b.users, r.bank.users);
    }
  }

  /** `updateProfile`, run against the shared database. */
  method UpdateProfile(db: Db, userId: UserId, phoneNumber: Option<string>, fullName: Option<string>) returns (status: Status)
    requires db.Valid()
    modifies db
    ensures db.Valid()
    ensures Outcome(status, db.State()) == UpdateProfileOutcome(old(db.State()), userId, phoneNumber, fullName)
  {
    ghost var before := db.State();
    if !Given(phoneNumber) && !Given(fullName) {
      return BadRequest;
    }
    db.users := SetProfileWhereUser(db.users, userId, phoneNumber, fullName);
    status := Ok;
    assert db.State() == UpdateProfileOutcome(before, userId, phoneNumber, fullName).bank;
    UpdateProfileKeepsValid(before, userId, phoneNumber, fullName);
  }
}
