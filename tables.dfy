/** The PostgreSQL database the controllers share, reached through knex: one
    object whose fields are the tables the core reads and writes. Serial ids
    are modelled by the next value of each table's sequence. The ledger
    tables are also seen as one `Ledger.State` value, which is what the
    transaction handlers are specified against. */
module Tables {
  import opened Common
  import opened Ledger

  /** A row of `users`; `passwordHash` is the bcrypt hash stored as `password`. */
  datatype UserRow = UserRow(name: string, document: string, passwordHash: string)

  /** A row of `token`: a refresh token issued to a user. */
  datatype TokenRow = TokenRow(id: nat, userId: nat, token: string)

  datatype CardKind = Physical | Virtual

  /** A row of `cards`. */
  datatype CardRow = CardRow(id: nat, kind: CardKind, number: string, cvv: string, accountId: nat)

  class Database {
    var users: map<nat, UserRow>
    var nextUserId: nat
    var tokens: seq<TokenRow>
    var nextTokenId: nat
    var cards: seq<CardRow>
    var nextCardId: nat
    var accounts: map<nat, nat>
    var balances: map<nat, BalanceRow>
    var nextBalanceId: nat
    var txns: seq<Txn>
    var nextTxnId: nat

    /** The `balance`, `transactions` and `accounts` tables as one value. */
    function LedgerState(): State
      reads this
    {
      State(balances, txns, accounts, nextBalanceId, nextTxnId)
    }

    /** The ledger invariant, and every user id the ledger mentions has been
        issued by the `users` sequence (the foreign keys of `balance.userId`
        and `accounts.userId`), so a new user never finds a balance row. */
    ghost predicate Valid()
      reads this
    {
      && Ledger.Valid(LedgerState())
      && nextUserId >= 1
      && (forall u :: u in users ==> 1 <= u < nextUserId)
      && (forall x :: x in balances ==> balances[x].userId < nextUserId)
      && (forall a :: a in accounts ==> accounts[a] < nextUserId)
    }

    /** An empty database with the given accounts, whose owners are users
        already issued. */
    constructor (accounts: map<nat, nat>, nextUserId: nat)
      requires nextUserId >= 1
      requires forall a :: a in accounts ==> accounts[a] < nextUserId
      ensures Valid()
      ensures this.accounts == accounts && this.nextUserId == nextUserId
      ensures users == map[] && tokens == [] && cards == [] && balances == map[] && txns == []
    {
      this.users := map[];
      this.nextUserId := nextUserId;
      this.tokens := [];
      this.nextTokenId := 1;
      this.cards := [];
      this.nextCardId := 1;
      this.accounts := accounts;
      this.balances := map[];
      this.nextBalanceId := 1;
      this.txns := [];
      this.nextTxnId := 1;
    }

    /** `knex('balance').where({ userId }).first()`: the id of the user's row. */
    method FindBalance(u: nat) returns (found: Option<nat>)
      requires Valid()
      ensures found.Some? <==> HasBalance(balances, u)
      ensures found.Some? ==> found.value in balances && balances[found.value].userId == u
      ensures found.Some? ==> found.value == BalanceIdOf(balances, u)
    {
      if x :| x in balances && balances[x].userId == u {
        BalanceIdUnique(balances, u, x);
        found := Some(x);
      } else {
        found := None;
      }
    }

    /** The user's balance row, inserted with value 0 when there is none. */
    method GetOrCreateBalance(u: nat) returns (id: nat)
      requires Valid() && u < nextUserId
      modifies this`balances, this`nextBalanceId
      ensures Valid()
      ensures (LedgerState(), id) == GetOrCreate(old(LedgerState()), u)
    {
      var found := FindBalance(u);
      if found.Some? {
        id := found.value;
      } else {
        id := nextBalanceId;
        balances := balances[id := BalanceRow(u, 0)];
        nextBalanceId := id + 1;
      }
    }

    /** `knex('transactions').insert(t)`, `t` taking the next id. */
    method InsertTxn(t: Txn)
      requires Valid()
      requires t.id == nextTxnId && t.source in balances && t.destination in balances
      requires t.reversedFrom.Some? ==> t.reversedFrom.value < nextTxnId && !IsReversed(txns, t.reversedFrom.value)
      modifies this`txns, this`nextTxnId
      ensures Valid()
      ensures LedgerState() == Append(old(LedgerState()), t)
    {
      AppendValid(LedgerState(), t);
      txns := txns + [t];
      nextTxnId := nextTxnId + 1;
    }

    /** `where({ userId }).increment('value', delta)` (a decrement is a negative delta). */
    method IncrementUser(u: nat, delta: int)
      requires Valid()
      modifies this`balances
      ensures Valid()
      ensures balances == AdjustUser(old(balances), u, delta)
    {
      SameOwnersValid(LedgerState(), AdjustUser(balances, u, delta));
      balances := AdjustUser(balances, u, delta);
    }
  }
}
