/** What the ledger handlers guarantee, stated over the effect functions of
    module Ledger: which balances move and by how much, when nothing changes,
    the once-only reversal rule, and what a reversal undoes. */
module LedgerProperties {
  import opened Common
  import opened Ledger

  function Last(txns: seq<Txn>): Txn
    requires txns != []
  {
    txns[|txns| - 1]
  }

  /** The balances other than the listed rows are as before. */
  ghost predicate OthersUnchanged(before: map<nat, BalanceRow>, after: map<nat, BalanceRow>, touched: set<nat>)
  {
    forall x :: x in before && x !in touched ==> x in after && after[x] == before[x]
  }

  /** After a relative update of one row, the owner's current balance moved by delta. */
  lemma CurrentAfterAdjust(b: map<nat, BalanceRow>, x: nat, delta: int)
    requires OneRowPerUser(b) && x in b
    ensures OneRowPerUser(AdjustRow(b, x, delta))
    ensures CurrentBalance(AdjustRow(b, x, delta), b[x].userId) == b[x].value + delta
  {
    var b' := AdjustRow(b, x, delta);
    BalanceIdUnique(b', b[x].userId, x);
  }

  // ---------------------------------------------------------------------------
  // create

  /** A debit the user's balance (0 when there is no row) cannot cover is
      refused with BALANCE_NEGATIVE, and then nothing at all changes. */
  lemma CreateRefusesOverdraft(s: State, actor: nat, accountId: nat, value: int, description: string)
    requires Valid(s)
    ensures var o := CreateSpec(s, actor, accountId, value, description);
            && (o.result.Err? <==> value < 0 && CurrentBalance(s.balances, actor) < -value)
            && (o.result.Err? ==> o.result == Err(400, "transactions.create.nok", "BALANCE_NEGATIVE") && o.post == s)
  {
  }

  /** A successful `create` appends exactly one row, typed debit iff the value
      is negative whatever type the client sent, whose source and destination
      are both the user's balance row; that row is created with 0 if absent,
      moves by the signed value (when the user id is truthy) and is the only
      balance that changes. */
  lemma {:induction false} CreateEffects(s: State, actor: nat, accountId: nat, value: int, description: string)
    requires Valid(s)
    requires CreateSpec(s, actor, accountId, value, description).result.Ok?
    ensures var o := CreateSpec(s, actor, accountId, value, description);
            var t := Last(o.post.txns);
            && o.post.txns == s.txns + [t]
            && t == Txn(s.nextTxnId, t.kind, value, description, t.source, t.source, None, accountId)
            && (t.kind == Debit <==> value < 0)
            && o.result.value == Receipt(t.id, value, description)
            && t.source in o.post.balances && o.post.balances[t.source].userId == actor
            && (HasBalance(s.balances, actor) ==>
                  t.source == BalanceIdOf(s.balances, actor) && o.post.balances.Keys == s.balances.Keys)
            && (!HasBalance(s.balances, actor) ==>
                  t.source == s.nextBalanceId && o.post.balances.Keys == s.balances.Keys + {t.source})
            && CurrentBalance(o.post.balances, actor)
                 == CurrentBalance(s.balances, actor) + (if actor != 0 then value else 0)
            && OthersUnchanged(s.balances, o.post.balances, {t.source})
  {
    var o := CreateSpec(s, actor, accountId, value, description);
    var (s1, bid) := GetOrCreate(s, actor);
    var t := Last(o.post.txns);
    assert CurrentBalance(s1.balances, actor) == CurrentBalance(s.balances, actor) by {
      BalanceIdUnique(s1.balances, actor, bid);
    }
    if actor != 0 {
      AdjustUserIsAdjustRow(s1.balances, actor, bid, value);
      CurrentAfterAdjust(s1.balances, bid, value);
    } else {
      BalanceIdUnique(s1.balances, actor, bid);
    }
  }

  /** A successful debit through `create` never leaves the balance negative. */
  lemma CreateDebitStaysCovered(s: State, actor: nat, accountId: nat, value: int, description: string)
    requires Valid(s)
    requires value < 0
    requires CreateSpec(s, actor, accountId, value, description).result.Ok?
    ensures CurrentBalance(CreateSpec(s, actor, accountId, value, description).post.balances, actor) >= 0
  {
    CreateEffects(s, actor, accountId, value, description);
  }

  // ---------------------------------------------------------------------------
  // createTransfer

  /** An unknown path account is refused and changes nothing; a refused debit
      changes no balance value and logs nothing, though it may leave behind the
      zero rows it created for sender and receiver. */
  lemma {:induction false} TransferRefusals(s: State, sender: nat, accountId: nat, value: int, description: string)
    requires Valid(s)
    ensures var o := TransferSpec(s, sender, accountId, value, description);
            && (accountId !in s.accounts ==>
                  o == Outcome(Err(404, "transactions.transfer.receiverAccount.notfound", ""), s))
            && (accountId in s.accounts ==>
                  (o.result.Err? <==> value < 0 && CurrentBalance(s.balances, sender) < -value))
            && (o.result.Err? ==>
                  && o.post.txns == s.txns
                  && s.balances.Keys <= o.post.balances.Keys
                  && OthersUnchanged(s.balances, o.post.balances, {})
                  && (forall x :: x in o.post.balances && x !in s.balances ==> o.post.balances[x].value == 0))
  {
  }

  /** When a user's rows are kept and the only rows added hold 0, the user's
      current balance is unchanged. */
  lemma CurrentBalanceExtends(b: map<nat, BalanceRow>, b': map<nat, BalanceRow>, u: nat)
    requires OneRowPerUser(b')
    requires Extends(b, b')
    ensures CurrentBalance(b', u) == CurrentBalance(b, u)
  {
    if HasBalance(b, u) {
      BalanceIdUnique(b', u, BalanceIdOf(b, u));
    } else if HasBalance(b', u) {
      var y := BalanceIdOf(b', u);
      assert y !in b;
    }
  }

  /** The successful path of `createTransfer`, step by step: both rows are
      looked up or created (state s2), one row is appended, and the sender's
      and the receiver's rows are moved. */
  lemma TransferSteps(s: State, sender: nat, accountId: nat, value: int, description: string)
      returns (s2: State, sb: nat, rb: nat)
    requires Valid(s)
    requires TransferSpec(s, sender, accountId, value, description).result.Ok?
    ensures accountId in s.accounts
    ensures Valid(s2) && s2.txns == s.txns && s2.nextTxnId == s.nextTxnId
    ensures RowsReady(s.balances, s2.balances, sender, s.accounts[accountId], sb, rb)
    ensures var o := TransferSpec(s, sender, accountId, value, description);
            && o.post.txns == s.txns + [Txn(s.nextTxnId, KindOf(value), value, description, sb, rb, None, sender)]
            && o.post.balances == AdjustRow(AdjustRow(s2.balances, sb, -Abs(value)), rb, Abs(value))
            && o.result.value == Receipt(s.nextTxnId, value, description)
  {
    var receiver := s.accounts[accountId];
    var r1 := GetOrCreate(s, sender);
    var r2 := GetOrCreate(r1.0, receiver);
    s2, sb, rb := r2.0, r1.1, r2.1;
    GetOrCreateExtends(s, sender);
    GetOrCreateExtends(r1.0, receiver);
    TransferMoveRows(s2, sender, receiver, sb, rb, accountId, value, description);
  }

  /** Looking a row up or creating it keeps every existing row; a row it adds holds 0. */
  lemma GetOrCreateExtends(s: State, u: nat)
    requires Valid(s)
    ensures var s' := GetOrCreate(s, u).0;
            && s.balances.Keys <= s'.balances.Keys
            && s'.balances.Keys <= s.balances.Keys + {GetOrCreate(s, u).1}
            && (forall x :: x in s.balances ==> s'.balances[x] == s.balances[x])
            && (forall x :: x in s'.balances && x !in s.balances ==> s'.balances[x].value == 0)
  {
  }

  /** The write of a transfer, on rows: one logged row from sb to rb, sb moved
      down and rb moved up by the absolute value. */
  lemma TransferMoveRows(s: State, sender: nat, receiver: nat, sb: nat, rb: nat,
                         accountId: nat, value: int, description: string)
    requires Valid(s)
    requires sb in s.balances && s.balances[sb].userId == sender
    requires rb in s.balances && s.balances[rb].userId == receiver
    ensures var o := TransferMove(s, sender, receiver, sb, rb, accountId, value, description);
            && o.post.txns == s.txns + [Txn(s.nextTxnId, KindOf(value), value, description, sb, rb, None, sender)]
            && o.post.balances == AdjustRow(AdjustRow(s.balances, sb, -Abs(value)), rb, Abs(value))
            && o.result == Ok(Receipt(s.nextTxnId, value, description))
  {
    AdjustUserIsAdjustRow(s.balances, sender, sb, -Abs(value));
    AdjustUserIsAdjustRow(AdjustRow(s.balances, sb, -Abs(value)), receiver, rb, Abs(value));
  }

  /** A successful transfer appends one row, typed debit iff the value is
      negative, from the sender's balance row to the row of the path
      account's owner (the body's receiver id plays no part); apart from
      those two rows no balance changes. */
  lemma {:induction false} TransferLogsOneRow(s: State, sender: nat, accountId: nat, value: int, description: string)
    requires Valid(s)
    requires TransferSpec(s, sender, accountId, value, description).result.Ok?
    ensures accountId in s.accounts
    ensures var o := TransferSpec(s, sender, accountId, value, description);
            var t := Last(o.post.txns);
            && o.post.txns == s.txns + [t]
            && t == Txn(s.nextTxnId, t.kind, value, description, t.source, t.destination, None, sender)
            && (t.kind == Debit <==> value < 0)
            && o.result.value == Receipt(t.id, value, description)
            && t.source in o.post.balances && o.post.balances[t.source].userId == sender
            && t.destination in o.post.balances && o.post.balances[t.destination].userId == s.accounts[accountId]
            && s.balances.Keys <= o.post.balances.Keys
            && OthersUnchanged(s.balances, o.post.balances, {t.source, t.destination})
  {
    var s2, sb, rb := TransferSteps(s, sender, accountId, value, description);
  }

  /** A successful transfer takes the absolute value off the sender's balance
      and adds it to the receiver's (absent rows count as 0), so their sum is
      kept; a transfer to oneself changes nothing. */
  lemma {:induction false} TransferMovesBalances(s: State, sender: nat, accountId: nat, value: int, description: string)
    requires Valid(s)
    requires TransferSpec(s, sender, accountId, value, description).result.Ok?
    ensures accountId in s.accounts
    ensures var post := TransferSpec(s, sender, accountId, value, description).post.balances;
            Moved(s.balances, post, sender, s.accounts[accountId], Abs(value))
  {
    var s2, sb, rb := TransferSteps(s, sender, accountId, value, description);
    ExtendThenMove(s.balances, s2.balances, sender, s.accounts[accountId], sb, rb, Abs(value));
  }

  /** A transfer neither creates nor destroys money: the sender's and the
      receiver's current balances have the same sum before and after. */
  lemma TransferKeepsSum(s: State, sender: nat, accountId: nat, value: int, description: string)
    requires Valid(s)
    requires TransferSpec(s, sender, accountId, value, description).result.Ok?
    ensures accountId in s.accounts
    ensures var post := TransferSpec(s, sender, accountId, value, description).post.balances;
            var receiver := s.accounts[accountId];
            CurrentBalance(post, sender) + CurrentBalance(post, receiver)
              == CurrentBalance(s.balances, sender) + CurrentBalance(s.balances, receiver)
  {
    TransferMovesBalances(s, sender, accountId, value, description);
  }

  /** The balances b extend b0 with zero rows, keep one row per user, and sb
      and rb are the sender's and the receiver's rows in b. */
  ghost predicate RowsReady(b0: map<nat, BalanceRow>, b: map<nat, BalanceRow>, sender: nat, receiver: nat, sb: nat, rb: nat)
  {
    && OneRowPerUser(b) && Extends(b0, b) && b.Keys <= b0.Keys + {sb, rb}
    && sb in b && b[sb].userId == sender && rb in b && b[rb].userId == receiver
  }

  /** From b to b', the sender's current balance fell by `a` and the
      receiver's rose by `a`; when they are the same user it did not move. */
  ghost predicate Moved(b: map<nat, BalanceRow>, b': map<nat, BalanceRow>, sender: nat, receiver: nat, a: int)
  {
    && (sender != receiver ==>
          && CurrentBalance(b', sender) == CurrentBalance(b, sender) - a
          && CurrentBalance(b', receiver) == CurrentBalance(b, receiver) + a)
    && (sender == receiver ==> CurrentBalance(b', sender) == CurrentBalance(b, sender))
  }

  /** Rows added with 0, then `a` moved from the sender's row to the
      receiver's, in terms of the current balances before both. */
  lemma ExtendThenMove(b0: map<nat, BalanceRow>, b: map<nat, BalanceRow>, sender: nat, receiver: nat,
                       sb: nat, rb: nat, a: int)
    requires RowsReady(b0, b, sender, receiver, sb, rb)
    ensures Moved(b0, AdjustRow(AdjustRow(b, sb, -a), rb, a), sender, receiver, a)
  {
    CurrentBalanceExtends(b0, b, sender);
    CurrentBalanceExtends(b0, b, receiver);
    MoveCurrent(b, sender, receiver, sb, rb, a);
  }

  /** Moving `a` from the sender's row to the receiver's row, in terms of
      their current balances. */
  lemma MoveCurrent(b: map<nat, BalanceRow>, sender: nat, receiver: nat, sb: nat, rb: nat, a: int)
    requires OneRowPerUser(b)
    requires sb in b && b[sb].userId == sender && rb in b && b[rb].userId == receiver
    ensures Moved(b, AdjustRow(AdjustRow(b, sb, -a), rb, a), sender, receiver, a)
  {
    BalanceIdUnique(b, sender, sb);
    BalanceIdUnique(b, receiver, rb);
    var b1 := AdjustRow(b, sb, -a);
    CurrentAfterAdjust(b, sb, -a);
    CurrentAfterAdjust(b1, rb, a);
    if sender != receiver {
      BalanceIdUnique(AdjustRow(b1, rb, a), sender, sb);
    }
  }

  // ---------------------------------------------------------------------------
  // reverseTransaction

  /** The refusals of `reverseTransaction`, in the order the handler checks
      them; each leaves the ledger as it was. */
  lemma ReverseRefusals(s: State, accountId: nat, id: nat)
    requires Valid(s)
    ensures var o := ReverseSpec(s, accountId, id);
            && (!HasTxn(s.txns, id) ==> o == Outcome(Err(404, "transactions.reverse.notfound", ""), s))
            && (HasTxn(s.txns, id) && IsReversed(s.txns, id) ==>
                  o == Outcome(Err(400, "transactions.reverse.already", ""), s))
            && (HasTxn(s.txns, id) && !IsReversed(s.txns, id) ==>
                  (o.result.Err? <==> !CanReverse(s, TxnWithId(s.txns, id))))
            && (o.result.Err? ==> o.post == s)
  {
    if HasTxn(s.txns, id) {
      assert RowOk(s, TxnWithId(s.txns, id));
    }
  }

  /** A successful reversal appends one row of the opposite type, the same
      stored value and the same two balance rows, pointing back at the
      original; it takes the amount off the destination and puts it back on
      the source, and touches no other balance. */
  lemma {:induction false} ReverseEffects(s: State, accountId: nat, id: nat)
    requires Valid(s)
    requires ReverseSpec(s, accountId, id).result.Ok?
    ensures HasTxn(s.txns, id) && !IsReversed(s.txns, id)
    ensures var o := ReverseSpec(s, accountId, id);
            var orig := TxnWithId(s.txns, id);
            var v := Abs(orig.value);
            && orig.source in s.balances && orig.destination in s.balances
            && o.post.txns == s.txns + [Txn(s.nextTxnId, Flip(orig.kind), orig.value, ReversalNote(id),
                                            orig.source, orig.destination, Some(id), accountId)]
            && o.post.balances.Keys == s.balances.Keys
            && OthersUnchanged(s.balances, o.post.balances, {orig.source, orig.destination})
            && (orig.source != orig.destination ==>
                  && o.post.balances[orig.destination].value == s.balances[orig.destination].value - v
                  && o.post.balances[orig.source].value == s.balances[orig.source].value + v)
            && (orig.source == orig.destination ==> o.post.balances == s.balances)
  {
    var orig := TxnWithId(s.txns, id);
    assert RowOk(s, orig);
  }

  /** Once a reversal succeeded, reversing the same transaction again is
      refused with `transactions.reverse.already`. */
  lemma {:induction false} ReverseOnlyOnce(s: State, accountId: nat, id: nat, accountId': nat)
    requires Valid(s)
    requires ReverseSpec(s, accountId, id).result.Ok?
    ensures var post := ReverseSpec(s, accountId, id).post;
            ReverseSpec(post, accountId', id) == Outcome(Err(400, "transactions.reverse.already", ""), post)
  {
    ReverseEffects(s, accountId, id);
    var post := ReverseSpec(s, accountId, id).post;
    var orig := TxnWithId(s.txns, id);
    assert orig in s.txns;
    var k :| 0 <= k < |s.txns| && s.txns[k] == orig;
    assert post.txns[k].id == id;
    assert HasTxn(post.txns, id);
    assert post.txns[|s.txns|].reversedFrom == Some(id);
    assert IsReversed(post.txns, id);
  }

  /** The rows that are reversals of a given transaction. */
  ghost function ReversalsOf(txns: seq<Txn>, id: nat): set<nat>
  {
    set i | 0 <= i < |txns| && txns[i].reversedFrom == Some(id)
  }

  /** In every valid ledger a transaction has at most one reversal. */
  lemma AtMostOneReversal(s: State, id: nat)
    requires Valid(s)
    ensures |ReversalsOf(s.txns, id)| <= 1
  {
    var r := ReversalsOf(s.txns, id);
    if r != {} {
      var i :| i in r;
      forall j | j in r ensures j == i {
      }
      assert r == {i};
    }
  }

  /** A plain credit or debit has source = destination, so its reversal takes
      the amount off and puts it back on the same row: balances are left as
      they were after the original. */
  lemma {:induction false} CreateThenReverseKeepsBalances(s: State, actor: nat, accountId: nat, value: int,
                                                         description: string, accountId': nat)
    requires Valid(s)
    requires CreateSpec(s, actor, accountId, value, description).result.Ok?
    requires var o := CreateSpec(s, actor, accountId, value, description);
             ReverseSpec(o.post, accountId', o.result.value.id).result.Ok?
    ensures var o := CreateSpec(s, actor, accountId, value, description);
            ReverseSpec(o.post, accountId', o.result.value.id).post.balances == o.post.balances
  {
    var o := CreateSpec(s, actor, accountId, value, description);
    CreateEffects(s, actor, accountId, value, description);
    NewRowIsFound(s.txns, o.post.txns, s.nextTxnId);
    ReverseEffects(o.post, accountId', o.result.value.id);
  }

  /** The row a handler just appended is the one found by its id. */
  lemma NewRowIsFound(before: seq<Txn>, after: seq<Txn>, next: nat)
    requires after != [] && after == before + [Last(after)] && Last(after).id == next
    requires Pairwise(after)
    requires forall i :: 0 <= i < |before| ==>
               before[i].id < next && (before[i].reversedFrom.Some? ==> before[i].reversedFrom.value < next)
    requires Last(after).reversedFrom.None?
    ensures HasTxn(after, next) && TxnWithId(after, next) == Last(after)
    ensures !IsReversed(after, next)
  {
    assert after[|before|] == Last(after);
    forall i | 0 <= i < |before| ensures after[i].id != next {
      assert after[i] == before[i];
    }
    var t := TxnWithId(after, next);
    var k :| 0 <= k < |after| && after[k] == t;
  }

  /** Transfer followed by the reversal of that transfer puts every balance
      back where it was; rows the transfer created hold 0 again. */
  lemma {:induction false} TransferThenReverseRestores(s: State, sender: nat, accountId: nat, value: int,
                                                      description: string, accountId': nat)
    requires Valid(s)
    requires TransferSpec(s, sender, accountId, value, description).result.Ok?
    requires var o := TransferSpec(s, sender, accountId, value, description);
             ReverseSpec(o.post, accountId', o.result.value.id).result.Ok?
    ensures var o := TransferSpec(s, sender, accountId, value, description);
            var b := ReverseSpec(o.post, accountId', o.result.value.id).post.balances;
            && s.balances.Keys <= b.Keys
            && (forall x :: x in s.balances ==> b[x] == s.balances[x])
            && (forall x :: x in b && x !in s.balances ==> b[x].value == 0)
  {
    TransferReversedBalances(s, sender, accountId, value, description, accountId');
  }

  lemma TransferReversedBalances(s: State, sender: nat, accountId: nat, value: int,
                                 description: string, accountId': nat)
    requires Valid(s)
    requires TransferSpec(s, sender, accountId, value, description).result.Ok?
    requires var o := TransferSpec(s, sender, accountId, value, description);
             ReverseSpec(o.post, accountId', o.result.value.id).result.Ok?
    ensures var o := TransferSpec(s, sender, accountId, value, description);
            Extends(s.balances, ReverseSpec(o.post, accountId', o.result.value.id).post.balances)
  {
    var o := TransferSpec(s, sender, accountId, value, description);
    var s2, sb, rb := TransferRowFound(s, sender, accountId, value, description);
    ReverseUndoesMove(o.post, accountId', s.nextTxnId, s2.balances, sb, rb, Abs(value));
  }

  /** Reversing the row of a move from sb to rb restores the rows as they were before the move. */
  lemma ReverseUndoesMove(post: State, accountId: nat, id: nat, before: map<nat, BalanceRow>, sb: nat, rb: nat, a: int)
    requires Valid(post)
    requires ReverseSpec(post, accountId, id).result.Ok?
    requires MoveLogged(post, id, before, sb, rb, a)
    ensures ReverseSpec(post, accountId, id).post.balances == before
  {
    ReverseRows(post, accountId, id, sb, rb, a);
    AdjustRoundTrip(before, sb, rb, a);
  }

  /** After a successful transfer its row is found by its id and names the
      rows the transfer moved. */
  lemma TransferRowFound(s: State, sender: nat, accountId: nat, value: int, description: string)
      returns (s2: State, sb: nat, rb: nat)
    requires Valid(s)
    requires TransferSpec(s, sender, accountId, value, description).result.Ok?
    ensures Extends(s.balances, s2.balances)
    ensures var o := TransferSpec(s, sender, accountId, value, description);
            && o.result.value.id == s.nextTxnId
            && MoveLogged(o.post, s.nextTxnId, s2.balances, sb, rb, Abs(value))
  {
    var o := TransferSpec(s, sender, accountId, value, description);
    s2, sb, rb := TransferSteps(s, sender, accountId, value, description);
    assert forall i :: 0 <= i < |s.txns| ==> RowOk(s, s.txns[i]);
    NewRowIsFound(s.txns, o.post.txns, s.nextTxnId);
  }

  /** Every row of `before` is kept as it was; a row added holds 0. */
  ghost predicate Extends(before: map<nat, BalanceRow>, after: map<nat, BalanceRow>)
  {
    && before.Keys <= after.Keys
    && (forall x :: x in before ==> after[x] == before[x])
    && (forall x :: x in after && x !in before ==> after[x].value == 0)
  }

  /** The ledger `post` holds the row `id` of a move of `a` from row sb to row
      rb, applied to the balances `before`. */
  ghost predicate MoveLogged(post: State, id: nat, before: map<nat, BalanceRow>, sb: nat, rb: nat, a: int)
  {
    && sb in before && rb in before
    && post.balances == AdjustRow(AdjustRow(before, sb, -a), rb, a)
    && HasTxn(post.txns, id)
    && var orig := TxnWithId(post.txns, id);
       orig.source == sb && orig.destination == rb && Abs(orig.value) == a
  }

  /** A successful reversal, on rows: the destination row of the original
      moves down and its source row moves up by the absolute value. */
  lemma ReverseRows(s: State, accountId: nat, id: nat, src: nat, dst: nat, v: int)
    requires Valid(s)
    requires ReverseSpec(s, accountId, id).result.Ok?
    requires HasTxn(s.txns, id)
    requires var orig := TxnWithId(s.txns, id);
             orig.source == src && orig.destination == dst && Abs(orig.value) == v
    ensures ReverseSpec(s, accountId, id).post.balances == AdjustRow(AdjustRow(s.balances, dst, -v), src, v)
  {
  }

  /** Moving an amount from one row to another and back restores every row. */
  lemma AdjustRoundTrip(b: map<nat, BalanceRow>, x: nat, y: nat, a: int)
    requires x in b && y in b
    ensures AdjustRow(AdjustRow(AdjustRow(AdjustRow(b, x, -a), y, a), y, -a), x, a) == b
  {
  }

  // ---------------------------------------------------------------------------
  // The coverage check of a reversal

  ghost predicate NonNegative(b: map<nat, BalanceRow>)
  {
    forall x :: x in b ==> b[x].value >= 0
  }

  /** Row 1 of user 10 holds 100 and row 2 of user 20 holds 0; the one logged
      row is a debit transfer of 50 from row 1 to row 2. A ledger the handlers
      reach: user 10 transfers -50 to account 7 of user 20, user 20 spends
      the 50 through `create` and user 10 is credited 50 again (those rows
      are left out here). */
  function OverdraftLedger(): State
  {
    State(map[1 := BalanceRow(10, 100), 2 := BalanceRow(20, 0)],
          [Txn(1, Debit, -50, "transfer", 1, 2, None, 10)], map[7 := 20], 3, 2)
  }

  lemma OverdraftLedgerValid()
    ensures Valid(OverdraftLedger()) && NonNegative(OverdraftLedger().balances)
  {
    var s := OverdraftLedger();
    assert RowOk(s, s.txns[0]);
  }

  /** As written, a debit is checked against its source row while the
      reversal takes the amount off its destination row: reversing the debit
      transfer of `OverdraftLedger` succeeds and leaves row 2 at -50. */
  lemma ReverseDebitOverdrawsReceiver()
    ensures Valid(OverdraftLedger()) && NonNegative(OverdraftLedger().balances)
    ensures ReverseSpec(OverdraftLedger(), 7, 1).result.Ok?
    ensures 2 in ReverseSpec(OverdraftLedger(), 7, 1).post.balances
    ensures ReverseSpec(OverdraftLedger(), 7, 1).post.balances[2].value == -50
  {
    var s := OverdraftLedger();
    OverdraftLedgerValid();
    var orig := s.txns[0];
    TxnWithIdAt(s.txns, 0);
    assert !IsReversed(s.txns, 1);
    assert CanReverse(s, orig);
    assert ReverseSpec(s, 7, 1) == ReverseMove(s, 7, 1, orig);
    ReverseMoveState(s, 7, 1, orig);
  }

  /** With the check on the debited row, a successful reversal never takes a
      balance below zero. */
  lemma ReverseCoveredKeepsNonNegative(s: State, accountId: nat, id: nat)
    requires Valid(s) && NonNegative(s.balances)
    ensures NonNegative(ReverseSpecCovered(s, accountId, id).post.balances)
  {
    if HasTxn(s.txns, id) && !IsReversed(s.txns, id) {
      var orig := TxnWithId(s.txns, id);
      assert RowOk(s, orig);
      if CanReverseCovered(s, orig) {
        ReverseMoveState(s, accountId, id, orig);
      }
    }
  }

  /** The two checks agree on credits and on rows whose source is their
      destination (every `create`), so only debit transfers are judged
      differently. */
  lemma ReverseCoveredAgrees(s: State, accountId: nat, id: nat)
    requires Valid(s) && HasTxn(s.txns, id)
    requires var orig := TxnWithId(s.txns, id);
             orig.kind == Credit || orig.source == orig.destination
    ensures ReverseSpecCovered(s, accountId, id) == ReverseSpec(s, accountId, id)
  {
    assert RowOk(s, TxnWithId(s.txns, id));
  }
}
