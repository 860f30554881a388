/** The ledger the transaction handlers work on, as a value: the `balance`
    table (one row per user, money in integer cents), the `transactions` table
    in insertion order, and the `accounts` table reduced to account id ↦ owner.
    Each handler's effect is stated here as a function of the state before it;
    the handlers in module Transactions are proved to have exactly that effect. */
module Ledger {
  import opened Common

  datatype Kind = Credit | Debit

  function KindName(k: Kind): string
  {
    match k
    case Credit => "credit"
    case Debit => "debit"
  }

  /** The type a handler records for a signed value: debit iff negative. */
  function KindOf(value: int): (k: Kind)
    ensures k == Debit <==> value < 0
  {
    if value < 0 then Debit else Credit
  }

  function Flip(k: Kind): (f: Kind)
    ensures f != k
  {
    if k == Credit then Debit else Credit
  }

  /** A row of `balance`. */
  datatype BalanceRow = BalanceRow(userId: nat, value: int)

  /** A row of `transactions`: `source` is `balanceIDTransfer`, `destination`
      is `balanceIDReceive`; `value` is stored signed, as the client sent it. */
  datatype Txn = Txn(id: nat, kind: Kind, value: int, description: string,
                     source: nat, destination: nat, reversedFrom: Option<nat>, accountId: nat)

  /** The fields a handler re-reads and sends back after an insert. */
  datatype Receipt = Receipt(id: nat, value: int, description: string)

  datatype State = State(balances: map<nat, BalanceRow>, txns: seq<Txn>,
                         accounts: map<nat, nat>, nextBalanceId: nat, nextTxnId: nat)

  /** A handler's answer together with the state it leaves behind. */
  datatype Outcome<T> = Outcome(result: Result<T>, post: State)

  // ---------------------------------------------------------------------------
  // Invariant

  ghost predicate OneRowPerUser(b: map<nat, BalanceRow>)
  {
    forall x, y :: x in b && y in b && b[x].userId == b[y].userId ==> x == y
  }

  /** Two rows can sit in one table: distinct ids, and not both reversals of
      the same transaction. */
  predicate Compatible(a: Txn, b: Txn)
  {
    a.id != b.id && (a.reversedFrom.Some? ==> a.reversedFrom != b.reversedFrom)
  }

  ghost predicate Pairwise(txns: seq<Txn>)
  {
    forall i, j :: 0 <= i < j < |txns| ==> Compatible(txns[i], txns[j])
  }

  ghost predicate RowOk(s: State, t: Txn)
  {
    && t.id < s.nextTxnId
    && t.source in s.balances && t.destination in s.balances
    && (t.reversedFrom.Some? ==> t.reversedFrom.value < s.nextTxnId)
  }

  ghost predicate Valid(s: State)
  {
    && (forall b :: b in s.balances ==> b < s.nextBalanceId)
    && OneRowPerUser(s.balances)
    && (forall i :: 0 <= i < |s.txns| ==> RowOk(s, s.txns[i]))
    && Pairwise(s.txns)
  }

  // ---------------------------------------------------------------------------
  // Lookups

  /** `knex('balance').where({ userId }).first()` finds a row. */
  predicate HasBalance(b: map<nat, BalanceRow>, u: nat)
  {
    exists x :: x in b && b[x].userId == u
  }

  ghost function BalanceIdOf(b: map<nat, BalanceRow>, u: nat): (x: nat)
    requires HasBalance(b, u)
    ensures x in b && b[x].userId == u
  {
    var x :| x in b && b[x].userId == u; x
  }

  lemma BalanceIdUnique(b: map<nat, BalanceRow>, u: nat, x: nat)
    requires OneRowPerUser(b) && x in b && b[x].userId == u
    ensures HasBalance(b, u) && BalanceIdOf(b, u) == x
  {
  }

  /** `balanceRow?.value ?? 0` */
  ghost function CurrentBalance(b: map<nat, BalanceRow>, u: nat): int
  {
    if HasBalance(b, u) then b[BalanceIdOf(b, u)].value else 0
  }

  predicate HasTxn(txns: seq<Txn>, id: nat)
  {
    exists i :: 0 <= i < |txns| && txns[i].id == id
  }

  ghost function TxnWithId(txns: seq<Txn>, id: nat): (t: Txn)
    requires HasTxn(txns, id)
    ensures t in txns && t.id == id
  {
    var i :| 0 <= i < |txns| && txns[i].id == id; txns[i]
  }

  /** Row ids are unique, so the row found by an id is the one at its position. */
  lemma TxnWithIdAt(txns: seq<Txn>, i: nat)
    requires Pairwise(txns) && i < |txns|
    ensures HasTxn(txns, txns[i].id) && TxnWithId(txns, txns[i].id) == txns[i]
  {
    forall j | 0 <= j < |txns| && j != i ensures txns[j].id != txns[i].id {
      if j < i { assert Compatible(txns[j], txns[i]); } else { assert Compatible(txns[i], txns[j]); }
    }
    var t := TxnWithId(txns, txns[i].id);
    var k :| 0 <= k < |txns| && txns[k] == t;
  }

  /** `where({ reversedFromId: id }).first()` finds a row. */
  predicate IsReversed(txns: seq<Txn>, id: nat)
  {
    exists i :: 0 <= i < |txns| && txns[i].reversedFrom == Some(id)
  }

  // ---------------------------------------------------------------------------
  // Steps the handlers are built from

  /** Relative update `where({ userId }).increment('value', delta)`: every row of the user. */
  function AdjustUser(b: map<nat, BalanceRow>, u: nat, delta: int): map<nat, BalanceRow>
  {
    map x | x in b :: if b[x].userId == u then b[x].(value := b[x].value + delta) else b[x]
  }

  /** Relative update `where({ id }).increment('value', delta)`. */
  function AdjustRow(b: map<nat, BalanceRow>, id: nat, delta: int): map<nat, BalanceRow>
  {
    if id in b then b[id := b[id].(value := b[id].value + delta)] else b
  }

  /** Look the user's balance row up, inserting one with value 0 if there is none. */
  ghost function GetOrCreate(s: State, u: nat): (r: (State, nat))
    requires Valid(s)
    ensures Valid(r.0)
    ensures r.1 in r.0.balances && r.0.balances[r.1].userId == u
    ensures r.0.txns == s.txns && r.0.accounts == s.accounts && r.0.nextTxnId == s.nextTxnId
    ensures HasBalance(s.balances, u) ==> r.0 == s && r.1 == BalanceIdOf(s.balances, u)
    ensures !HasBalance(s.balances, u) ==>
              && r.1 == s.nextBalanceId
              && r.0.nextBalanceId == s.nextBalanceId + 1
              && r.0.balances == s.balances[r.1 := BalanceRow(u, 0)]
  {
    if HasBalance(s.balances, u) then (s, BalanceIdOf(s.balances, u))
    else
      var id := s.nextBalanceId;
      var s' := s.(balances := s.balances[id := BalanceRow(u, 0)], nextBalanceId := id + 1);
      assert forall i :: 0 <= i < |s'.txns| ==> RowOk(s', s'.txns[i]) by {
        forall i | 0 <= i < |s'.txns| ensures RowOk(s', s'.txns[i]) {
          assert RowOk(s, s.txns[i]);
        }
      }
      (s', id)
  }

  function Append(s: State, t: Txn): State
  {
    s.(txns := s.txns + [t], nextTxnId := s.nextTxnId + 1)
  }

  lemma AppendValid(s: State, t: Txn)
    requires Valid(s)
    requires t.id == s.nextTxnId && t.source in s.balances && t.destination in s.balances
    requires t.reversedFrom.Some? ==> t.reversedFrom.value < s.nextTxnId && !IsReversed(s.txns, t.reversedFrom.value)
    ensures Valid(Append(s, t))
  {
    var s' := Append(s, t);
    forall i | 0 <= i < |s'.txns| ensures RowOk(s', s'.txns[i]) {
      if i < |s.txns| { assert RowOk(s, s.txns[i]); }
    }
    forall i, j | 0 <= i < j < |s'.txns| ensures Compatible(s'.txns[i], s'.txns[j]) {
      if j == |s.txns| {
        assert RowOk(s, s.txns[i]);
        if s.txns[i].reversedFrom.Some? && s.txns[i].reversedFrom == t.reversedFrom {
          assert IsReversed(s.txns, t.reversedFrom.value);
        }
      }
    }
  }

  lemma SameOwnersValid(s: State, b: map<nat, BalanceRow>)
    requires Valid(s)
    requires b.Keys == s.balances.Keys
    requires forall x :: x in b ==> b[x].userId == s.balances[x].userId
    ensures Valid(s.(balances := b))
  {
    var s' := s.(balances := b);
    forall i | 0 <= i < |s'.txns| ensures RowOk(s', s'.txns[i]) {
      assert RowOk(s, s.txns[i]);
    }
  }

  /** With one row per user, a relative update by user touches exactly that row. */
  lemma AdjustUserIsAdjustRow(b: map<nat, BalanceRow>, u: nat, x: nat, delta: int)
    requires OneRowPerUser(b) && x in b && b[x].userId == u
    ensures AdjustUser(b, u, delta) == AdjustRow(b, x, delta)
  {
  }

  // ---------------------------------------------------------------------------
  // Handlers

  /** `create`: a credit (value >= 0) or a debit (value < 0) of the acting user. */
  ghost function CreateSpec(s: State, actor: nat, accountId: nat, value: int, description: string): (o: Outcome<Receipt>)
    requires Valid(s)
    ensures Valid(o.post)
    ensures forall x :: x in o.post.balances ==> x in s.balances || o.post.balances[x].userId == actor
    ensures o.post.accounts == s.accounts
  {
    if value < 0 && CurrentBalance(s.balances, actor) < Abs(value) then
      Outcome(Err(400, "transactions.create.nok", "BALANCE_NEGATIVE"), s)
    else
      var (s1, bid) := GetOrCreate(s, actor);
      var t := Txn(s1.nextTxnId, KindOf(value), value, description, bid, bid, None, accountId);
      AppendValid(s1, t);
      var s2 := Append(s1, t);
      var delta := if value < 0 then -Abs(value) else Abs(value);
      var b := if actor != 0 then AdjustUser(s2.balances, actor, delta) else s2.balances;
      SameOwnersValid(s2, b);
      Outcome(Ok(Receipt(t.id, t.value, t.description)), s2.(balances := b))
  }

  /** `createTransfer`: the receiver is the owner of the account in the path. */
  ghost function TransferSpec(s: State, sender: nat, accountId: nat, value: int, description: string): (o: Outcome<Receipt>)
    requires Valid(s)
    ensures Valid(o.post)
    ensures forall x :: x in o.post.balances ==>
              x in s.balances || o.post.balances[x].userId == sender
              || (accountId in s.accounts && o.post.balances[x].userId == s.accounts[accountId])
    ensures o.post.accounts == s.accounts
  {
    if accountId !in s.accounts then
      Outcome(Err(404, "transactions.transfer.receiverAccount.notfound", ""), s)
    else
      var receiver := s.accounts[accountId];
      var senderCurrent := CurrentBalance(s.balances, sender);
      var (s1, sb) := GetOrCreate(s, sender);
      var (s2, rb) := GetOrCreate(s1, receiver);
      if value < 0 && senderCurrent < Abs(value) then
        Outcome(Err(400, "transactions.create.nok", "BALANCE_NEGATIVE"), s2)
      else
        TransferMove(s2, sender, receiver, sb, rb, accountId, value, description)
  }

  /** The write of a transfer that passed its checks: the row is logged, then
      the sender's balance drops and the receiver's rises by the absolute value. */
  ghost function TransferMove(s: State, sender: nat, receiver: nat, sb: nat, rb: nat,
                              accountId: nat, value: int, description: string): (o: Outcome<Receipt>)
    requires Valid(s)
    requires sb in s.balances && s.balances[sb].userId == sender
    requires rb in s.balances && s.balances[rb].userId == receiver
    ensures Valid(o.post)
    ensures o.post.balances.Keys == s.balances.Keys
    ensures forall x :: x in o.post.balances ==> o.post.balances[x].userId == s.balances[x].userId
    ensures o.post.accounts == s.accounts && o.post.nextBalanceId == s.nextBalanceId
  {
    var t := Txn(s.nextTxnId, KindOf(value), value, description, sb, rb, None, sender);
    AppendValid(s, t);
    var s3 := Append(s, t);
    var b1 := AdjustUser(s3.balances, sender, -Abs(value));
    var b2 := AdjustUser(b1, receiver, Abs(value));
    SameOwnersValid(s3, b2);
    Outcome(Ok(Receipt(t.id, t.value, t.description)), s3.(balances := b2))
  }

  /** The description of a reversal row. */
  function ReversalNote(id: nat): string
  {
    "Estorno de cobrança indevida. " + DecimalString(id)
  }

  /** `${transactionId}` for a canonical decimal id. */
  function DecimalString(n: nat): (r: string)
    ensures |r| >= 1
    ensures forall i :: 0 <= i < |r| ==> '0' <= r[i] <= '9'
    ensures |r| > 1 ==> r[0] != '0'
  {
    if n < 10 then [Digit(n)] else DecimalString(n / 10) + [Digit(n % 10)]
  }

  function Digit(d: nat): (c: char)
    requires d < 10
    ensures '0' <= c <= '9' && c as int - '0' as int == d
  {
    "0123456789"[d]
  }

  /** The number a string of decimal digits denotes. */
  function DecimalValue(s: string): nat
    requires forall i :: 0 <= i < |s| ==> '0' <= s[i] <= '9'
  {
    if s == [] then 0 else 10 * DecimalValue(s[..|s| - 1]) + (s[|s| - 1] as int - '0' as int)
  }

  /** The id in a reversal's description reads back as the reversed id. */
  lemma {:induction false} DecimalRoundTrip(n: nat)
    ensures DecimalValue(DecimalString(n)) == n
  {
    if n >= 10 {
      DecimalRoundTrip(n / 10);
      var r := DecimalString(n);
      assert r[..|r| - 1] == DecimalString(n / 10);
    }
  }

  /** Distinct reversed ids give distinct reversal descriptions. */
  lemma ReversalNoteInjective(a: nat, b: nat)
    requires ReversalNote(a) == ReversalNote(b)
    ensures a == b
  {
    var prefix := "Estorno de cobrança indevida. ";
    assert ReversalNote(a)[|prefix|..] == DecimalString(a);
    assert ReversalNote(b)[|prefix|..] == DecimalString(b);
    DecimalRoundTrip(a);
    DecimalRoundTrip(b);
  }

  /** May a transaction be reversed: a credit needs the destination to hold the
      amount, a debit the source. */
  ghost predicate CanReverse(s: State, orig: Txn)
    requires orig.source in s.balances && orig.destination in s.balances
  {
    if orig.kind == Credit then s.balances[orig.destination].value >= Abs(orig.value)
    else s.balances[orig.source].value >= Abs(orig.value)
  }

  /** `reverseTransaction` (an "estorno"). */
  ghost function ReverseSpec(s: State, accountId: nat, id: nat): (o: Outcome<Receipt>)
    requires Valid(s)
    ensures Valid(o.post)
    ensures o.post.balances.Keys == s.balances.Keys
    ensures forall x :: x in o.post.balances ==> o.post.balances[x].userId == s.balances[x].userId
    ensures o.post.accounts == s.accounts && o.post.nextBalanceId == s.nextBalanceId
  {
    if !HasTxn(s.txns, id) then
      Outcome(Err(404, "transactions.reverse.notfound", ""), s)
    else if IsReversed(s.txns, id) then
      Outcome(Err(400, "transactions.reverse.already", ""), s)
    else
      var orig := TxnWithId(s.txns, id);
      assert RowOk(s, orig);
      if !CanReverse(s, orig) then
        Outcome(Err(400, "transactions.reverse.nobalance", ""), s)
      else
        ReverseMove(s, accountId, id, orig)
  }

  /** The write of a reversal that passed its checks: the opposite row is
      logged, then the amount goes back from the destination to the source. */
  ghost function ReverseMove(s: State, accountId: nat, id: nat, orig: Txn): (o: Outcome<Receipt>)
    requires Valid(s)
    requires id < s.nextTxnId && !IsReversed(s.txns, id)
    requires orig.source in s.balances && orig.destination in s.balances
    ensures Valid(o.post)
    ensures o.post.balances.Keys == s.balances.Keys
    ensures forall x :: x in o.post.balances ==> o.post.balances[x].userId == s.balances[x].userId
    ensures o.post.accounts == s.accounts && o.post.nextBalanceId == s.nextBalanceId
  {
    var v := Abs(orig.value);
    var t := Txn(s.nextTxnId, Flip(orig.kind), orig.value, ReversalNote(id),
                 orig.source, orig.destination, Some(id), accountId);
    AppendValid(s, t);
    var s1 := Append(s, t);
    var b := AdjustRow(AdjustRow(s1.balances, orig.destination, -v), orig.source, v);
    SameOwnersValid(s1, b);
    Outcome(Ok(Receipt(t.id, t.value, t.description)), s1.(balances := b))
  }

  /** The coverage check as evidently intended: the reversal always takes the
      amount off the destination row, so that is the row that must hold it. */
  ghost predicate CanReverseCovered(s: State, orig: Txn)
    requires orig.destination in s.balances
  {
    s.balances[orig.destination].value >= Abs(orig.value)
  }

  /** `reverseTransaction` with the coverage check on the row it debits. */
  ghost function ReverseSpecCovered(s: State, accountId: nat, id: nat): (o: Outcome<Receipt>)
    requires Valid(s)
    ensures Valid(o.post)
    ensures o.post.balances.Keys == s.balances.Keys
  {
    if !HasTxn(s.txns, id) then
      Outcome(Err(404, "transactions.reverse.notfound", ""), s)
    else if IsReversed(s.txns, id) then
      Outcome(Err(400, "transactions.reverse.already", ""), s)
    else
      var orig := TxnWithId(s.txns, id);
      assert RowOk(s, orig);
      if !CanReverseCovered(s, orig) then
        Outcome(Err(400, "transactions.reverse.nobalance", ""), s)
      else
        ReverseMove(s, accountId, id, orig)
  }

  /** The state `ReverseMove` leaves, written out. */
  lemma ReverseMoveState(s: State, accountId: nat, id: nat, orig: Txn)
    requires Valid(s)
    requires id < s.nextTxnId && !IsReversed(s.txns, id)
    requires orig.source in s.balances && orig.destination in s.balances
    ensures var v := Abs(orig.value);
            var t := Txn(s.nextTxnId, Flip(orig.kind), orig.value, ReversalNote(id),
                         orig.source, orig.destination, Some(id), accountId);
            ReverseMove(s, accountId, id, orig)
            == Outcome(Ok(Receipt(s.nextTxnId, orig.value, ReversalNote(id))),
                       State(AdjustRow(AdjustRow(s.balances, orig.destination, -v), orig.source, v),
                             s.txns + [t], s.accounts, s.nextBalanceId, s.nextTxnId + 1))
  {
  }

  /** `update`: rewrites the value and the description supplied (knex drops
      undefined fields); answers with the id when a row was matched. */
  function PatchTxn(t: Txn, value: Option<int>, description: Option<string>): (r: Txn)
    ensures r.(value := t.value, description := t.description) == t
    ensures value.None? && description.None? ==> r == t
    ensures value.Some? ==> r.value == value.value
    ensures description.Some? ==> r.description == description.value
  {
    t.(value := if value.Some? then value.value else t.value,
       description := if description.Some? then description.value else t.description)
  }

  ghost function UpdateSpec(s: State, id: nat, value: Option<int>, description: Option<string>): (o: Outcome<Option<nat>>)
    requires Valid(s)
    ensures Valid(o.post)
    ensures o.post.balances == s.balances && o.post.accounts == s.accounts
    ensures o.post.nextBalanceId == s.nextBalanceId && o.post.nextTxnId == s.nextTxnId
    ensures |o.post.txns| == |s.txns|
    ensures forall i :: 0 <= i < |s.txns| ==>
              o.post.txns[i] == if s.txns[i].id == id then PatchTxn(s.txns[i], value, description) else s.txns[i]
    ensures o.result == Ok(if HasTxn(s.txns, id) then Some(id) else None)
  {
    var txns := seq(|s.txns|, i requires 0 <= i < |s.txns| =>
                      if s.txns[i].id == id then PatchTxn(s.txns[i], value, description) else s.txns[i]);
    var s' := s.(txns := txns);
    assert forall i :: 0 <= i < |txns| ==> RowOk(s', txns[i]) by {
      forall i | 0 <= i < |txns| ensures RowOk(s', txns[i]) { assert RowOk(s, s.txns[i]); }
    }
    assert Pairwise(txns) by {
      forall i, j | 0 <= i < j < |txns| ensures Compatible(txns[i], txns[j]) {
        assert Compatible(s.txns[i], s.txns[j]);
      }
    }
    Outcome(Ok(if HasTxn(s.txns, id) then Some(id) else None), s')
  }

  /** The rows other than those with the given id, in order. */
  function WithoutTxn(txns: seq<Txn>, id: nat): (r: seq<Txn>)
    ensures forall t :: t in r ==> t in txns && t.id != id
    ensures forall t :: t in txns && t.id != id ==> t in r
    ensures |r| <= |txns|
  {
    if txns == [] then []
    else if txns[0].id == id then WithoutTxn(txns[1..], id)
    else [txns[0]] + WithoutTxn(txns[1..], id)
  }

  lemma {:induction false} WithoutTxnPairwise(txns: seq<Txn>, id: nat)
    requires Pairwise(txns)
    ensures Pairwise(WithoutTxn(txns, id))
  {
    if txns != [] {
      assert Pairwise(txns[1..]) by {
        forall i, j | 0 <= i < j < |txns[1..]| ensures Compatible(txns[1..][i], txns[1..][j]) {
          assert Compatible(txns[i + 1], txns[j + 1]);
        }
      }
      WithoutTxnPairwise(txns[1..], id);
      var rest := WithoutTxn(txns[1..], id);
      if txns[0].id != id {
        var r := [txns[0]] + rest;
        forall i, j | 0 <= i < j < |r| ensures Compatible(r[i], r[j]) {
          if i == 0 {
            assert r[j] in txns[1..];
            var k :| 0 <= k < |txns[1..]| && txns[1..][k] == r[j];
            assert Compatible(txns[0], txns[k + 1]);
          } else {
            assert r[i] == rest[i - 1] && r[j] == rest[j - 1];
          }
        }
      }
    }
  }

  /** `delete`: removes the row with that id; balances are left as they are. */
  ghost function DeleteSpec(s: State, id: nat): (o: Outcome<()>)
    requires Valid(s)
    ensures Valid(o.post)
    ensures o.post.balances == s.balances && o.post.accounts == s.accounts
    ensures !HasTxn(o.post.txns, id)
  {
    var txns := WithoutTxn(s.txns, id);
    var s' := s.(txns := txns);
    WithoutTxnPairwise(s.txns, id);
    assert forall i :: 0 <= i < |txns| ==> RowOk(s', txns[i]) by {
      forall i | 0 <= i < |txns| ensures RowOk(s', txns[i]) {
        assert txns[i] in s.txns;
        var k :| 0 <= k < |s.txns| && s.txns[k] == txns[i];
        assert RowOk(s, s.txns[k]);
      }
    }
    assert !HasTxn(txns, id) by {
      forall i | 0 <= i < |txns| ensures txns[i].id != id { assert txns[i] in txns; }
    }
    Outcome(Ok(()), s')
  }
}
