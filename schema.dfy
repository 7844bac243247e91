/**
 * The four MySQL tables the controllers read and write (`users`, `cashiers`,
 * `otps`, `transactions`), as values; the request and response shapes shared
 * by both controllers; and the table invariant the schema keeps.
 */
module Schema {

  import opened Wrappers
  import opened Crypto

  type UserId = nat
  type CashierId = nat
  /** The account numbers MySQL stores are positive. A request's account number
      is any `int`: a `0` is falsy and takes the same 400 path as a missing field,
      so a request carries `None` for it, while any other value (a negative one
      included) is looked up and matches no row when it is not positive. */
  type AccountNumber = n: nat | n > 0 witness 1
  type Email = string

  datatype AccountStatus = Pending | Active | Blocked

  /** A row of `users`. */
  datatype User = User(
    userId: UserId,
    accountNumber: AccountNumber,
    email: Email,
    fullName: string,
    phoneNumber: string,
    password: Digest,
    balance: int,
    status: AccountStatus)

  /** A row of `cashiers`. */
  datatype Cashier = Cashier(cashierId: CashierId, email: Email, password: Digest)

  /** A row of `otps`; the table's primary key is the email. */
  datatype OtpRecord = OtpRecord(code: Digest, expiry: int)

  datatype Kind = Deposit | Withdrawal | TransferOut | TransferIn

  /** A row of `transactions`. The amount is positive; `kind` gives its direction. */
  datatype Transaction = Transaction(
    accountNumber: AccountNumber,
    referenceAccount: Option<AccountNumber>,
    amount: int,
    kind: Kind)

  /** The whole database. */
  datatype Bank = Bank(
    users: seq<User>,
    cashiers: seq<Cashier>,
    otps: map<Email, OtpRecord>,
    transactions: seq<Transaction>)

  /** The column values MySQL fills in when `userRegister` inserts a row:
      the generated ids and the column defaults. */
  datatype NewRow = NewRow(userId: UserId, accountNumber: AccountNumber, status: AccountStatus, balance: int)

  // ---------------------------------------------------------------- requests

  /** The `amount` of a request body, in minor units. */
  datatype AmountInput = Missing | NotANumber | Num(value: int)

  /** Passes the three amount checks: present, a number, and above zero. */
  predicate PositiveAmount(amount: AmountInput)
  {
    amount.Num? && amount.value > 0
  }

  /** JavaScript truthiness of a string body field: absent and "" both fail `!field`. */
  predicate Given(field: Option<string>)
  {
    field.Some? && field.value != ""
  }

  // --------------------------------------------------------------- responses

  /** The HTTP status codes the handlers answer with. */
  datatype Status = Ok | Created | BadRequest | Unauthorized | NotFound | Conflict | Gone | Locked | InternalError
  {
    function Code(): int
    {
      match this
      case Ok => 200
      case Created => 201
      case BadRequest => 400
      case Unauthorized => 401
      case NotFound => 404
      case Conflict => 409
      case Gone => 410
      case Locked => 423
      case InternalError => 500
    }
  }

  datatype Role = UserRole | CashierRole

  /** What a session token carries: `{ userId, role: "user" }` or `{ cashierId, role: "cashier" }`. */
  datatype Payload = Payload(id: nat, role: Role)

  /** A response: its status and, for read handlers, its JSON body. */
  datatype Answer<T> = Answer(status: Status, body: Option<T>)

  /** A mutating handler's status and the database it leaves behind. */
  datatype Outcome = Outcome(status: Status, bank: Bank)

  // ----------------------------------------------------------------- lookups

  /** The first row satisfying `p`: the row a `SELECT ... WHERE` reads as `rows[0]`. */
  function FirstIndex<T>(rows: seq<T>, p: T -> bool): (r: Option<nat>)
    ensures r.Some? ==> r.value < |rows| && p(rows[r.value])
    ensures r.Some? ==> forall k :: 0 <= k < r.value ==> !p(rows[k])
    ensures r.None? ==> forall k :: 0 <= k < |rows| ==> !p(rows[k])
  {
    if |rows| == 0 then None
    else if p(rows[0]) then Some(0)
    else match FirstIndex(rows[1..], p)
      case None => None
      case Some(k) => Some(k + 1)
  }

  /** `SELECT ... FROM users WHERE account_number = ?` */
  function IndexOfAccount(users: seq<User>, a: int): (r: Option<nat>)
    ensures r.Some? ==> r.value < |users| && users[r.value].accountNumber == a
    ensures r.Some? ==> forall k :: 0 <= k < r.value ==> users[k].accountNumber != a
    ensures r.None? ==> forall k :: 0 <= k < |users| ==> users[k].accountNumber != a
  {
    FirstIndex(users, (u: User) => u.accountNumber == a)
  }

  /** `SELECT ... FROM users WHERE email = ?` */
  function IndexOfEmail(users: seq<User>, e: Email): (r: Option<nat>)
    ensures r.Some? ==> r.value < |users| && users[r.value].email == e
    ensures r.Some? ==> forall k :: 0 <= k < r.value ==> users[k].email != e
    ensures r.None? ==> forall k :: 0 <= k < |users| ==> users[k].email != e
  {
    FirstIndex(users, (u: User) => u.email == e)
  }

  /** `SELECT ... FROM users WHERE user_id = ?` */
  function IndexOfUser(users: seq<User>, id: UserId): (r: Option<nat>)
    ensures r.Some? ==> r.value < |users| && users[r.value].userId == id
    ensures r.Some? ==> forall k :: 0 <= k < r.value ==> users[k].userId != id
    ensures r.None? ==> forall k :: 0 <= k < |users| ==> users[k].userId != id
  {
    FirstIndex(users, (u: User) => u.userId == id)
  }

  /** `SELECT ... FROM cashiers WHERE email = ?` */
  function IndexOfCashierEmail(cashiers: seq<Cashier>, e: Email): (r: Option<nat>)
    ensures r.Some? ==> r.value < |cashiers| && cashiers[r.value].email == e
    ensures r.Some? ==> forall k :: 0 <= k < r.value ==> cashiers[k].email != e
    ensures r.None? ==> forall k :: 0 <= k < |cashiers| ==> cashiers[k].email != e
  {
    FirstIndex(cashiers, (c: Cashier) => c.email == e)
  }

  /** `SELECT ... FROM cashiers WHERE cashier_id = ?` */
  function IndexOfCashier(cashiers: seq<Cashier>, id: CashierId): (r: Option<nat>)
    ensures r.Some? ==> r.value < |cashiers| && cashiers[r.value].cashierId == id
    ensures r.Some? ==> forall k :: 0 <= k < r.value ==> cashiers[k].cashierId != id
    ensures r.None? ==> forall k :: 0 <= k < |cashiers| ==> cashiers[k].cashierId != id
  {
    FirstIndex(cashiers, (c: Cashier) => c.cashierId == id)
  }

  /** `SELECT * FROM transactions WHERE account_number = ?`: the matching rows, in table order. */
  function RecordsOf(txs: seq<Transaction>, a: AccountNumber): (r: seq<Transaction>)
    ensures forall t :: t in r ==> t in txs && t.accountNumber == a
    ensures forall k :: 0 <= k < |txs| && txs[k].accountNumber == a ==> txs[k] in r
  {
    if txs == [] then []
    else (if txs[0].accountNumber == a then [txs[0]] else []) + RecordsOf(txs[1..], a)
  }

  /** The history holds every matching record as often as the table does, and no other. */
  lemma {:induction false} RecordsOfCounts(txs: seq<Transaction>, a: AccountNumber, t: Transaction)
    ensures multiset(RecordsOf(txs, a))[t] == if t.accountNumber == a then multiset(txs)[t] else 0
  {
    if txs != [] {
      assert txs == [txs[0]] + txs[1..];
      RecordsOfCounts(txs[1..], a, t);
    }
  }

  lemma {:induction false} RecordsOfAppend(txs: seq<Transaction>, more: seq<Transaction>, a: AccountNumber)
    ensures RecordsOf(txs + more, a) == RecordsOf(txs, a) + RecordsOf(more, a)
  {
    if txs == [] {
      assert txs + more == more;
    } else {
      var all := txs + more;
      var head := if txs[0].accountNumber == a then [txs[0]] else [];
      assert all[0] == txs[0];
      assert all[1..] == txs[1..] + more;
      var left, right := RecordsOf(txs[1..], a), RecordsOf(more, a);
      calc {
        RecordsOf(all, a);
        head + RecordsOf(txs[1..] + more, a);
        { RecordsOfAppend(txs[1..], more, a); }
        head + (left + right);
        { assert head + (left + right) == (head + left) + right; }
        (head + left) + right;
        RecordsOf(txs, a) + right;
      }
    }
  }

  /** Row `k` of `users` holds account number `a`. */
  ghost predicate IsAccount(users: seq<User>, a: int, k: int)
  {
    0 <= k < |users| && users[k].accountNumber == a
  }

  /** Row `k` of `users` has email `e`. */
  ghost predicate IsEmail(users: seq<User>, e: Email, k: int)
  {
    0 <= k < |users| && users[k].email == e
  }

  /** Row `k` of `users` has user id `id`. */
  ghost predicate IsUser(users: seq<User>, id: UserId, k: int)
  {
    0 <= k < |users| && users[k].userId == id
  }

  // ----------------------------------------------------------------- the invariant

  /** `user_id`, `account_number` and `email` each identify at most one user. */
  ghost predicate UniqueUsers(users: seq<User>)
  {
    forall i, j :: 0 <= i < j < |users| ==>
      && users[i].userId != users[j].userId
      && users[i].accountNumber != users[j].accountNumber
      && users[i].email != users[j].email
  }

  /** `cashier_id` and `email` each identify at most one cashier. */
  ghost predicate UniqueCashiers(cashiers: seq<Cashier>)
  {
    forall i, j :: 0 <= i < j < |cashiers| ==>
      cashiers[i].cashierId != cashiers[j].cashierId && cashiers[i].email != cashiers[j].email
  }

  /** An OTP is only ever stored for a registered email. */
  ghost predicate OtpsBelongToUsers(b: Bank)
  {
    forall e :: e in b.otps ==> IndexOfEmail(b.users, e).Some?
  }

  ghost predicate BalancesNonNegative(users: seq<User>)
  {
    forall k :: 0 <= k < |users| ==> users[k].balance >= 0
  }

  ghost predicate Valid(b: Bank)
  {
    UniqueUsers(b.users) && UniqueCashiers(b.cashiers) && OtpsBelongToUsers(b) && BalancesNonNegative(b.users)
  }

  /** Two user tables with the same keys, row by row (balances and profile fields may differ). */
  ghost predicate SameKeys(before: seq<User>, after: seq<User>)
  {
    && |before| == |after|
    && forall k :: 0 <= k < |before| ==>
         && after[k].userId == before[k].userId
         && after[k].accountNumber == before[k].accountNumber
         && after[k].email == before[k].email
  }

  /** Changing non-key columns keeps every lookup where it was. */
  lemma SameKeysLookups(before: seq<User>, after: seq<User>)
    requires SameKeys(before, after)
    ensures forall a :: IndexOfAccount(after, a) == IndexOfAccount(before, a)
    ensures forall e :: IndexOfEmail(after, e) == IndexOfEmail(before, e)
    ensures forall id :: IndexOfUser(after, id) == IndexOfUser(before, id)
    ensures UniqueUsers(before) ==> UniqueUsers(after)
  {
    forall a ensures IndexOfAccount(after, a) == IndexOfAccount(before, a) {
      UniqueIndex(before, after, i => 0 <= i < |before| && before[i].accountNumber == a, IndexOfAccount(before, a), IndexOfAccount(after, a));
    }
    forall e ensures IndexOfEmail(after, e) == IndexOfEmail(before, e) {
      UniqueIndex(before, after, i => 0 <= i < |before| && before[i].email == e, IndexOfEmail(before, e), IndexOfEmail(after, e));
    }
    forall id ensures IndexOfUser(after, id) == IndexOfUser(before, id) {
      UniqueIndex(before, after, i => 0 <= i < |before| && before[i].userId == id, IndexOfUser(before, id), IndexOfUser(after, id));
    }
  }

  /** Two "first index satisfying q" results over the same index range agree. */
  lemma UniqueIndex(before: seq<User>, after: seq<User>, q: int -> bool, x: Option<nat>, y: Option<nat>)
    requires |before| == |after|
    requires x.Some? ==> x.value < |before| && q(x.value) && forall k :: 0 <= k < x.value ==> !q(k)
    requires x.None? ==> forall k :: 0 <= k < |before| ==> !q(k)
    requires y.Some? ==> y.value < |after| && q(y.value) && forall k :: 0 <= k < y.value ==> !q(k)
    requires y.None? ==> forall k :: 0 <= k < |after| ==> !q(k)
    ensures x == y
  {
  }

  /** The sum of all balances. */
  function TotalBalance(users: seq<User>): int
  {
    if users == [] then 0 else users[0].balance + TotalBalance(users[1..])
  }

  lemma {:induction false} TotalBalanceUpdate(users: seq<User>, i: nat, u: User)
    requires i < |users|
    ensures TotalBalance(users[i := u]) == TotalBalance(users) - users[i].balance + u.balance
  {
    if i > 0 {
      assert users[i := u][1..] == users[1..][i - 1 := u];
      TotalBalanceUpdate(users[1..], i - 1, u);
    }
  }
}
