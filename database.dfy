/**
 * The shared MySQL handle `db` both controllers import: four tables that the
 * handlers update in place. `State()` is the value of all four at once.
 */
module Database {

  import opened Schema

  class Db {
    var users: seq<User>
    var cashiers: seq<Cashier>
    var otps: map<Email, OtpRecord>
    var transactions: seq<Transaction>

    function State(): (b: Bank)
      reads this
    {
      Bank(users, cashiers, otps, transactions)
    }

    /** The unique keys, OTPs only for registered emails, and no negative balance. */
    ghost predicate Valid()
      reads this
    {
      Schema.Valid(State())
    }

    /** A connection to a database that already holds `initial`. */
    constructor (initial: Bank)
      ensures State() == initial
    {
      users := initial.users;
      cashiers := initial.cashiers;
      otps := initial.otps;
      transactions := initial.transactions;
    }
  }
}
