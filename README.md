# Bank-API ledger and access gate, in Dafny

This project models the two controllers of the Bank-API service: the cashier
controller (`controller/cashierController.js`) and the customer controller
(`controller/userController.js`). Together they run a small bank over four
MySQL tables:

- `users`: customer accounts, each with a balance and a status of pending,
  active or blocked;
- `cashiers`: staff logins;
- `otps`: one one-time-password digest per email, with an expiry time;
- `transactions`: an append-only money log with deposit, withdrawal,
  transfer_out and transfer_in rows.

The database is a value, `Schema.Bank`. The shared connection is the class
`Database.Db`, which holds the four tables as fields.

Handlers that write to the database are methods on `Db`:
- cashier deposit;
- cashier withdrawal;
- cashier password change;
- registration;
- login;
- OTP issue;
- password reset;
- profile update;
- fund transfer.

Each method's `ensures` says the status it returns and the state it leaves are
exactly those of a specification function `...Outcome` applied to the old
state. The properties the service promises are proved about those functions:
- the order and precedence of the guard checks;
- that a rejection leaves the database unchanged;
- the exact row update and the exact records appended on success;
- conservation of money on transfer;
- OTP upsert semantics;
- that an unknown email and a wrong password get the same answer.

The read-only handlers are functions of the database:
- cashier login;
- account info;
- OTP verification;
- transaction history;
- account profile.

The table invariant is `Schema.Valid`:
- `user_id`, `account_number` and `email` are each unique;
- cashier ids and emails are unique;
- OTP rows exist only for registered emails;
- no balance is negative.

Every handler preserves `Schema.Valid`. The module `Ledger` runs any sequence
of requests and proves three things about it:
- the invariant holds after it, so no balance ever goes negative;
- the transaction log only grows;
- every balance, and the total of all balances, moves by exactly the net flow
  of the records appended for it.

Modelling choices:
- Amounts are integers in minor units. A request's amount is `Missing`,
  `NotANumber` or `Num(n)`.
- A string field is `Option<string>`. JavaScript's `!field` is `!Given(field)`:
  the field is absent or `""`.
- Stored account numbers are positive. A request's account number is any
  integer, and a falsy one is `None`. A negative one, or the truthy string
  `"0"`, matches no row, so the handler answers 404.
- bcrypt is an ideal one-way function. `Hash(p)` is accepted by `Matches`
  exactly for `p`.
- The random OTP is a parameter `code` in 1000..9999. Its text is `OtpText(code)`,
  whose four digits read back as `code`.
- The clock is a parameter `now` in seconds. An issued OTP expires at `now + 300`.
- A token is its payload `{ id, role }`.
- The authenticated principal (`req.user.cashierId` / `req.user.userId`) is a
  parameter.
- The values MySQL generates on registration (user id, account number, default
  status and balance) are a `NewRow` parameter.

Three behaviours of the code are proved rather than hidden:
- The OTP expiry is stored but never consulted. `VerifyOtpIgnoresExpiry` proves it.
- An OTP is not consumed, so a reset can be replayed. `ResetPasswordReplay` proves it.
- `updateProfile` with `""` for one field and a value for the other overwrites
  the first with `""`, because only an absent field leaves its column as it is.

## Model

| member | source | states |
|---|---|---|
| `Crypto.Hash` | controller/userController.js:23 | a bcrypt digest accepts the plain text it was made from and no other |
| `Crypto.OtpText` | controller/userController.js:50 | the OTP's text is four decimal digits, the first not zero, whose decimal value is the code |
| `Crypto.OtpTextInjective` | controller/userController.js:50-51 | the digest of one code's text accepts another code's text exactly when the codes are equal |
| `Database.Db.constructor` | controller/cashierController.js:2 | a connection to a database holding the given four tables |
| `Schema.FirstIndex` | controller/cashierController.js:15-17 | the row a `SELECT ... WHERE` reads as `rows[0]`: the first matching row, or none when no row matches |
| `Schema.IndexOfAccount` | controller/cashierController.js:44 | the first user row with the account number, or none when no row has it |
| `Schema.IndexOfEmail` | controller/userController.js:17 | the first user row with the email, or none when no row has it |
| `Schema.IndexOfUser` | controller/userController.js:136 | the first user row with the user id, or none when no row has it |
| `Schema.IndexOfCashierEmail` | controller/cashierController.js:15 | the first cashier row with the email, or none when no row has it |
| `Schema.IndexOfCashier` | controller/cashierController.js:161 | the first cashier row with the cashier id, or none when no row has it |
| `Schema.RecordsOf` | controller/userController.js:191 | every selected record is in the log and on the account, and every log record on the account is selected |
| `Schema.RecordsOfCounts` | controller/userController.js:191 | the selection holds each record on the account as many times as the log does, and nothing else |
| `Schema.RecordsOfAppend` | controller/userController.js:191 | selecting an account's records distributes over appending to the log |
| `Schema.SameKeysLookups` | controller/cashierController.js:95 | updating non-key columns leaves every lookup by account number, email and user id where it was, and keeps the keys unique |
| `Schema.TotalBalanceUpdate` | controller/cashierController.js:95 | changing one row's balance changes the sum of balances by exactly that row's difference |
| `CashierController.CashierLogin` | controller/cashierController.js:7-27 | 400 exactly when a field is missing; 200 only with a token for a cashier whose email and password match; under unique cashiers 200 exactly for a valid credential; otherwise 401 and no token |
| `CashierController.CashierLoginUniformRejection` | controller/cashierController.js:15-26 | an unknown email and a wrong password get one and the same 401 answer |
| `CashierController.CashierUserAccountInfo` | controller/cashierController.js:36-58 | 400 without an account number; 404 exactly when no user has it; a 200 body with the number, name and balance of a non-blocked account; no body otherwise |
| `CashierController.AccountInfoOfAccount` | controller/cashierController.js:44-58 | for an existing account: 423 exactly when it is blocked, otherwise its summary; a pending account is shown |
| `CashierController.DepositOutcome` | controller/cashierController.js:71-99 | a missing, non-number or non-positive amount is 400 before any lookup; 404 exactly for an unknown account; a rejection changes nothing; success credits that account by the amount and appends one deposit record |
| `CashierController.CashierDeposit` | controller/cashierController.js:68-99 | the in-place handler answers and updates the database exactly as `DepositOutcome` says and keeps the invariant |
| `CashierController.DepositKeepsValid` | controller/cashierController.js:95-97 | a deposit keeps the table invariant |
| `CashierController.DepositStatusOfAccount` | controller/cashierController.js:85-95 | with a valid amount, an existing account is refused with 423 exactly when blocked; pending and active accounts are credited |
| `CashierController.WithdrawalOutcome` | controller/cashierController.js:111-143 | amount checks first (400); 404 exactly for an unknown account; a rejection changes nothing; success debits by the amount, only when the balance covers it, and appends one withdrawal record |
| `CashierController.CashierWithdrawal` | controller/cashierController.js:109-143 | the in-place handler matches `WithdrawalOutcome` and keeps the invariant |
| `CashierController.WithdrawalKeepsValid` | controller/cashierController.js:135-141 | a withdrawal keeps the invariant; in particular the balance stays non-negative |
| `CashierController.WithdrawalStatusOfAccount` | controller/cashierController.js:125-139 | for an existing account: blocked is 423, then a balance below the amount is 400, otherwise the withdrawal succeeds |
| `CashierController.UnstoredAccountNumber` | controller/cashierController.js:44-47 | a request account number that is not positive passes the field checks and gets 404 from the account-info, deposit and withdrawal handlers, changing nothing |
| `CashierController.ChangePasswordOutcome` | controller/cashierController.js:155-178 | 400 exactly when a field is missing; 404 exactly when the session cashier has no row; under unique cashiers 401 exactly when the old password does not match; a rejection changes nothing; success replaces only that cashier's digest with the new password's |
| `CashierController.ChangePasswordKeepsValid` | controller/cashierController.js:174-176 | a password change keeps the invariant |
| `CashierController.CashierChangePassword` | controller/cashierController.js:153-178 | the in-place handler matches `ChangePasswordOutcome` and keeps the invariant |
| `CashierController.ChangePasswordThenLogin` | controller/cashierController.js:167-176 | after a change with the right old password, the new password logs the cashier in with their id and the old one, if different, gets 401 |
| `UserController.IssuedOtp` | controller/userController.js:50-62 | the stored OTP record's digest accepts the code's text and expires five minutes after `now` |
| `UserController.NewUser` | controller/userController.js:23-28 | the inserted row has the request's email, full name and phone number, a digest accepting the password, and the generated id, account number, status and balance |
| `UserController.RegisterOutcome` | controller/userController.js:11-30 | 400 exactly when a field is missing; 409 exactly when the email exists; both insert nothing; 201 appends exactly the new row |
| `UserController.RegisterKeepsValid` | controller/userController.js:17-28 | with fresh generated keys, registration keeps the invariant, and afterwards exactly one user has the email |
| `UserController.UserRegister` | controller/userController.js:9-30 | the in-place handler matches `RegisterOutcome` and keeps the invariant |
| `UserController.LoginOutcome` | controller/userController.js:41-69 | 400 exactly when a field is missing; a rejection leaves the OTP table unchanged; success only for a matching credential, upserting the OTP record for that email; under unique users 200 exactly for a valid credential |
| `UserController.LoginKeepsValid` | controller/userController.js:47-62 | login stores an OTP only for a registered email, so the invariant holds |
| `UserController.UserLogin` | controller/userController.js:39-69 | the in-place handler matches `LoginOutcome` and keeps the invariant |
| `UserController.SendOtpOutcome` | controller/userController.js:243-269 | 400 exactly without an email; 404 exactly for an unknown email; otherwise the OTP record for the email is upserted and nothing else changes |
| `UserController.SendOtpKeepsValid` | controller/userController.js:247-264 | issuing an OTP keeps the invariant |
| `UserController.SendOtp` | controller/userController.js:241-269 | the in-place handler matches `SendOtpOutcome` and keeps the invariant |
| `UserController.OtpUpsert` | controller/userController.js:261-264 | after an issue the email has exactly the new record, the key set gains only that email, and every other email keeps its record or lack of one |
| `UserController.VerifyOtp` | controller/userController.js:81-108 | 400 when a field is missing, 410 exactly when the email has no OTP row, 401 exactly when the code does not match, 500 exactly when no user has the email, otherwise a token with that user's id and role user |
| `UserController.VerifyOtpNeverFailsInternally` | controller/userController.js:98-100 | under the invariant the user lookup after a matching OTP always succeeds |
| `UserController.VerifyOtpIgnoresExpiry` | controller/userController.js:87-96 | changing the stored expiry time does not change the answer |
| `UserController.LoginThenVerifyOtp` | controller/userController.js:49-62 | after a successful login issues a code, OTP verification admits that user for exactly that code's text and answers 401 for every other 4-digit code |
| `UserController.SetPasswordWhereEmail` | controller/userController.js:300 | no key column changes; under unique emails exactly the row holding the email gets the new digest and the table is otherwise unchanged; with no such row the table is unchanged |
| `UserController.ResetPasswordOutcome` | controller/userController.js:281-302 | 400 when a field is missing, 410 exactly without an OTP row, 401 exactly on a mismatch, each changing nothing; on success every row with that email accepts the new password, while every other column, every other row, the OTP and the other tables stay as they were |
| `UserController.ResetPasswordKeepsValid` | controller/userController.js:298-300 | a password reset keeps the invariant |
| `UserController.ResetPassword` | controller/userController.js:279-302 | the in-place handler matches `ResetPasswordOutcome` and keeps the invariant |
| `UserController.ResetPasswordReplay` | controller/userController.js:287-300 | a successful reset succeeds again when replayed with the same code |
| `UserController.ResetThenLogin` | controller/userController.js:298-300 | after a reset the new password passes the login check |
| `UserController.TransferOutcome` | controller/userController.js:120-173 | amount and reference checks first (400); 500 exactly when the session user has no row; a rejection changes nothing; success moves the amount from an active sender with enough money to a different, non-blocked receiver and appends the transfer_out and transfer_in records |
| `UserController.TransferAccepted` | controller/userController.js:159-171 | a transfer that passes every check debits the sender's row, credits the receiver's and writes the two records |
| `UserController.TransferCheckOrder` | controller/userController.js:140-157 | the checks in order, for any integer receiver number: sender not exactly active 423, short balance 400, self-transfer 400, a number no row holds (a non-positive one included) 404, blocked receiver 423, a pending or active receiver accepted |
| `UserController.TransferConservesTotal` | controller/userController.js:159-171 | a transfer never changes the sum of all balances |
| `UserController.TransferKeepsValid` | controller/userController.js:159-171 | a transfer keeps the invariant; in particular the sender's balance stays non-negative |
| `UserController.MoveFunds` | controller/userController.js:159-171 | the four writes: the sender debited, a transfer_out row referencing the receiver, the receiver credited, a transfer_in row referencing the sender |
| `UserController.FundTransfer` | controller/userController.js:118-173 | the in-place handler matches `TransferOutcome` and keeps the invariant |
| `UserController.TransactionHistory` | controller/userController.js:185-192 | 500 exactly when the session user has no row; otherwise a 200 body holding exactly the log records on that user's account number |
| `UserController.TransactionHistoryCounts` | controller/userController.js:187-192 | the history holds each of the caller's records as many times as the log does and none of another account |
| `UserController.ProfilesOf` | controller/userController.js:206 | the selected profiles are exactly those of the rows with the user id; none when no row has it |
| `UserController.AccountProfile` | controller/userController.js:204-208 | always 200, with the profile of every row with the user id and nothing else |
| `UserController.AccountProfileOfUser` | controller/userController.js:206-208 | under unique user ids the body is exactly the caller's own profile |
| `UserController.SetProfileWhereUser` | controller/userController.js:227-228 | no key column changes; under unique user ids exactly the row holding the id takes each given field and keeps an absent one (COALESCE), and the table is otherwise unchanged; with no such row the table is unchanged |
| `UserController.UpdateProfileOutcome` | controller/userController.js:220-230 | 400 exactly when neither field is given, changing nothing; on success only the phone number and name of the caller's row change, an absent field keeps its value, and balance, status, password, keys and every other row are untouched |
| `UserController.UpdateProfileKeepsValid` | controller/userController.js:227-228 | a profile update keeps the invariant |
| `UserController.UpdateProfile` | controller/userController.js:218-230 | the in-place handler matches `UpdateProfileOutcome` and keeps the invariant |
| `Ledger.ApplyKeepsValid` | controller/cashierController.js:139-141 | every state-changing request keeps the invariant |
| `Ledger.DepositReconciles` | controller/cashierController.js:95-97 | after a deposit the log has only grown, and the total and each account's balance moved by exactly the net flow of the appended records |
| `Ledger.WithdrawalReconciles` | controller/cashierController.js:139-141 | the same for a withdrawal |
| `Ledger.TransferReconciles` | controller/userController.js:159-171 | the same for a transfer: the sender's balance moves by minus the amount, the receiver's by plus, and the total by zero |
| `Ledger.ApplyReconciles` | controller/userController.js:159-171 | every state-changing request is reconciled in total and per account |
| `Ledger.RunKeepsValid` | controller/cashierController.js:135-141 | any sequence of requests from a valid database keeps the invariant, so no balance ever becomes negative |
| `Ledger.RunReconciles` | controller/cashierController.js:95-97 | after any sequence of requests the log has only been appended to, and each balance and the total equal their old values plus the net flow of the appended records |

## Left out

- The Express routers, `app.js`, cookies and JSON message texts are not modelled; a handler's answer is its status code and, where there is one, its token payload or body.
- The authentication middleware and the JWT library are not modelled: the session's cashier or user id is a parameter, and a token is its payload, without signature or 1-hour expiry.
- `sendMail` is not modelled: the mail module is not part of this model, and nothing is claimed about a message.
- bcrypt's salt and cost factor are not modelled. The hash is assumed ideal: a digest accepts exactly its own plain text.
- `Math.random` and `Date` are parameters: the OTP code, and `now` in seconds.
- The values MySQL generates on registration are a parameter. `RegisterKeepsValid` and `UserRegister` assume the generated user id and account number are new and the default balance is not negative, because the schema that guarantees this is not part of this model.
- Registration is not one of `Ledger.Request`, because its invariant depends on that generated row.
- Concurrency is not modelled: each handler runs as one atomic step. The lost updates possible between the separate SELECT and UPDATE statements are out of scope.
- The `catch` paths that answer 500 on a database error are not modelled. A missing session-user row where the code reads `rows[0]` is modelled: it answers 500 (`InternalError`) and changes nothing. This covers transfer, history and OTP verification.
- JavaScript's dynamic types are not modelled:
  - a non-string email or password;
  - the loose `==` comparing the sender's account number with the request's;
  - a string amount, which counts as `NotANumber`;
  - fractional or NaN amounts, because amounts are integers;
  - fractional account numbers in a request, because they are integers here. The code looks them up, finds no row and answers 404, as it does for the negative numbers that are modelled.
- `UPDATE ... WHERE account_number = ?` and `WHERE user_id = ?` update every matching row. Deposit, withdrawal, password change and transfer update the row the preceding SELECT read; the two agree under the unique-key invariant. Reset and profile update have no preceding SELECT and update every matching row.
- SQL collation is not modelled. Emails compare exactly, in the `WHERE email = ?` lookups and as keys of `otps`. MySQL's default collation compares them without regard to case or trailing spaces, so two emails that differ only in case are one user there and two here.
- A non-string `otp` in a request is not modelled. `bcrypt.compare` rejects it with an error, so verification and reset answer 500 (controller/userController.js:93 and 293).
- bcrypt's 72-byte limit is not modelled. bcrypt reads only the first 72 bytes of a password, so two passwords with the same first 72 bytes are accepted by the same digest. Every `Matches` fact holds for the ideal hash only, including the clause of `CashierController.ChangePasswordThenLogin` that rejects the old password.
- Transaction ids and timestamps are not part of `Schema.Transaction`, and the history returns only the modelled columns.
- UserController.TransactionHistory: its contract states which records are returned, and `TransactionHistoryCounts` states how often each appears. The fact that they come in table order is only in the definition of `Schema.RecordsOf`, not stated as a contract.
