/** The handlers of `transactionsController`, each a sequence of knex
    queries on the database, proved to have the effect that module Ledger
    states for it. Reads (`index`, `show`, `getBalance`) change nothing. */
module Transactions {
  import opened Common
  import opened Pagination
  import opened Ledger
  import opened Tables

  /** `accountId ?? bodyAccountId`: the path account, else the body's. */
  function AccountFor(pathAccountId: Option<nat>, bodyAccountId: nat): (a: nat)
    ensures pathAccountId.Some? ==> a == pathAccountId.value
    ensures pathAccountId.None? ==> a == bodyAccountId
  {
    if pathAccountId.Some? then pathAccountId.value else bodyAccountId
  }

  /** `create`: a credit or a debit of the authenticated user. */
  method Create(db: Database, actor: nat, pathAccountId: Option<nat>, bodyAccountId: nat,
                value: int, description: string) returns (r: Result<Receipt>)
    requires db.Valid() && actor < db.nextUserId
    modifies db`balances, db`nextBalanceId, db`txns, db`nextTxnId
    ensures db.Valid()
    ensures Outcome(r, db.LedgerState())
            == CreateSpec(old(db.LedgerState()), actor, AccountFor(pathAccountId, bodyAccountId), value, description)
  {
    ghost var s := db.LedgerState();
    var accountId := AccountFor(pathAccountId, bodyAccountId);
    var isDebit := value < 0;
    if isDebit {
      var row := db.FindBalance(actor);
      var current := if row.Some? then db.balances[row.value].value else 0;
      if current < Abs(value) {
        return Err(400, "transactions.create.nok", "BALANCE_NEGATIVE");
      }
    }
    var bid := db.GetOrCreateBalance(actor);
    ghost var s1 := db.LedgerState();
    var id := db.nextTxnId;
    var t := Txn(id, if isDebit then Debit else Credit, value, description, bid, bid, None, accountId);
    db.InsertTxn(t);
    ghost var s2 := db.LedgerState();
    if actor != 0 {
      if isDebit {
        db.IncrementUser(actor, -Abs(value));
      } else {
        db.IncrementUser(actor, Abs(value));
      }
    }
    r := Ok(Receipt(id, value, description));
    assert (s1, bid) == GetOrCreate(s, actor);
    assert s2 == Append(s1, t);
  }

  /** `createTransfer`: from the authenticated user to the owner of the path account. */
  method Transfer(db: Database, sender: nat, accountId: nat, value: int, description: string)
      returns (r: Result<Receipt>)
    requires db.Valid() && sender < db.nextUserId
    modifies db`balances, db`nextBalanceId, db`txns, db`nextTxnId
    ensures db.Valid()
    ensures Outcome(r, db.LedgerState()) == TransferSpec(old(db.LedgerState()), sender, accountId, value, description)
  {
    ghost var s := db.LedgerState();
    if accountId !in db.accounts {
      return Err(404, "transactions.transfer.receiverAccount.notfound", "");
    }
    var receiver := db.accounts[accountId];
    var sb := db.GetOrCreateBalance(sender);
    ghost var s1 := db.LedgerState();
    var senderCurrent := db.balances[sb].value;
    var rb := db.GetOrCreateBalance(receiver);
    ghost var s2 := db.LedgerState();
    assert (s1, sb) == GetOrCreate(s, sender);
    assert (s2, rb) == GetOrCreate(s1, receiver);
    assert senderCurrent == CurrentBalance(s.balances, sender) by {
      BalanceIdUnique(s1.balances, sender, sb);
    }
    if value < 0 && senderCurrent < Abs(value) {
      return Err(400, "transactions.create.nok", "BALANCE_NEGATIVE");
    }
    r := TransferWrite(db, sender, receiver, sb, rb, accountId, value, description);
  }

  /** The insert and the two increments of `createTransfer`. */
  method TransferWrite(db: Database, sender: nat, receiver: nat, sb: nat, rb: nat,
                       accountId: nat, value: int, description: string) returns (r: Result<Receipt>)
    requires db.Valid()
    requires sb in db.balances && db.balances[sb].userId == sender
    requires rb in db.balances && db.balances[rb].userId == receiver
    modifies db`balances, db`txns, db`nextTxnId
    ensures db.Valid()
    ensures Outcome(r, db.LedgerState())
            == TransferMove(old(db.LedgerState()), sender, receiver, sb, rb, accountId, value, description)
  {
    ghost var o := TransferMove(db.LedgerState(), sender, receiver, sb, rb, accountId, value, description);
    var id := db.nextTxnId;
    // insert into `transactions`
    db.txns := db.txns + [Txn(id, KindOf(value), value, description, sb, rb, None, sender)];
    db.nextTxnId := id + 1;
    // decrement the sender, increment the receiver
    db.balances := AdjustUser(db.balances, sender, -Abs(value));
    db.balances := AdjustUser(db.balances, receiver, Abs(value));
    r := Ok(Receipt(id, value, description));
    assert db.LedgerState() == o.post;
  }

  /** `where({ id }).first()` on `transactions`. */
  method FindTxn(db: Database, id: nat) returns (found: Option<Txn>)
    requires db.Valid()
    ensures found.Some? <==> HasTxn(db.txns, id)
    ensures found.Some? ==> found.value == TxnWithId(db.txns, id)
  {
    if i :| 0 <= i < |db.txns| && db.txns[i].id == id {
      TxnWithIdAt(db.txns, i);
      found := Some(db.txns[i]);
    } else {
      found := None;
    }
  }

  /** `reverseTransaction`: the "estorno" of transaction `id`. */
  method Reverse(db: Database, accountId: nat, id: nat) returns (r: Result<Receipt>)
    requires db.Valid()
    modifies db`balances, db`txns, db`nextTxnId
    ensures db.Valid()
    ensures Outcome(r, db.LedgerState()) == ReverseSpec(old(db.LedgerState()), accountId, id)
  {
    ghost var s := db.LedgerState();
    var original := FindTxn(db, id);
    if original.None? {
      return Err(404, "transactions.reverse.notfound", "");
    }
    var alreadyReversed := exists i :: 0 <= i < |db.txns| && db.txns[i].reversedFrom == Some(id);
    if alreadyReversed {
      return Err(400, "transactions.reverse.already", "");
    }
    var orig := original.value;
    assert RowOk(s, orig);
    var senderBalance := db.balances[orig.source].value;
    var receiverBalance := db.balances[orig.destination].value;
    var value := Abs(orig.value);
    var canReverse := if orig.kind == Credit then receiverBalance >= value else senderBalance >= value;
    if !canReverse {
      return Err(400, "transactions.reverse.nobalance", "");
    }
    r := ReverseWrite(db, accountId, id, orig);
  }

  /** The insert and the two increments of `reverseTransaction`. */
  method ReverseWrite(db: Database, accountId: nat, id: nat, orig: Txn) returns (r: Result<Receipt>)
    requires db.Valid()
    requires id < db.nextTxnId && !IsReversed(db.txns, id)
    requires orig.source in db.balances && orig.destination in db.balances
    modifies db`balances, db`txns, db`nextTxnId
    ensures db.Valid()
    ensures Outcome(r, db.LedgerState()) == ReverseMove(old(db.LedgerState()), accountId, id, orig)
  {
    var value := Abs(orig.value);
    var newId := db.nextTxnId;
    var reversedType := Flip(orig.kind);
    var note := ReversalNote(id);
    ghost var o := ReverseMove(db.LedgerState(), accountId, id, orig);
    ReverseMoveState(db.LedgerState(), accountId, id, orig);
    // insert into `transactions`
    db.txns := db.txns + [Txn(newId, reversedType, orig.value, note, orig.source, orig.destination, Some(id), accountId)];
    db.nextTxnId := newId + 1;
    // decrement the destination, increment the source
    db.balances := AdjustRow(db.balances, orig.destination, -value);
    db.balances := AdjustRow(db.balances, orig.source, value);
    r := Ok(Receipt(newId, orig.value, note));
    assert db.LedgerState() == o.post;
  }

  /** `update`: patches the rows with that id; answers with the id when one matched. */
  method Update(db: Database, id: nat, value: Option<int>, description: Option<string>)
      returns (r: Result<Option<nat>>)
    requires db.Valid()
    modifies db`txns
    ensures db.Valid()
    ensures Outcome(r, db.LedgerState()) == UpdateSpec(old(db.LedgerState()), id, value, description)
  {
    ghost var o := UpdateSpec(db.LedgerState(), id, value, description);
    var matched := exists i :: 0 <= i < |db.txns| && db.txns[i].id == id;
    var rows := db.txns;
    db.txns := seq(|rows|, i requires 0 <= i < |rows| =>
                     if rows[i].id == id then PatchTxn(rows[i], value, description) else rows[i]);
    r := Ok(if matched then Some(id) else None);
    assert db.LedgerState() == o.post;
  }

  /** `delete`: removes the rows with that id. */
  method Delete(db: Database, id: nat) returns (r: Result<()>)
    requires db.Valid()
    modifies db`txns
    ensures db.Valid()
    ensures Outcome(r, db.LedgerState()) == DeleteSpec(old(db.LedgerState()), id)
  {
    ghost var o := DeleteSpec(db.LedgerState(), id);
    db.txns := WithoutTxn(db.txns, id);
    r := Ok(());
    assert db.LedgerState() == o.post;
  }

  /** `getBalance`: the balance of the owner of the path account; it never
      creates a balance row. */
  method GetBalance(db: Database, accountId: nat) returns (r: Result<int>)
    requires db.Valid()
    ensures accountId !in db.accounts ==> r == Err(404, "transactions.balance.account.notfound", "")
    ensures accountId in db.accounts && !HasBalance(db.balances, db.accounts[accountId]) ==>
              r == Err(404, "transactions.balance.notfound", "")
    ensures accountId in db.accounts && HasBalance(db.balances, db.accounts[accountId]) ==>
              r == Ok(CurrentBalance(db.balances, db.accounts[accountId]))
  {
    if accountId !in db.accounts {
      return Err(404, "transactions.balance.account.notfound", "");
    }
    var found := db.FindBalance(db.accounts[accountId]);
    if found.None? {
      return Err(404, "transactions.balance.notfound", "");
    }
    r := Ok(db.balances[found.value].value);
  }

  /** `show`: one transaction by id. */
  method Show(db: Database, id: nat) returns (r: Result<Receipt>)
    requires db.Valid()
    ensures r.Err? <==> !HasTxn(db.txns, id)
    ensures r.Err? ==> r == Err(404, "transactions.show.notfound", "")
    ensures r.Ok? ==> var t := TxnWithId(db.txns, id);
                      r.value == Receipt(id, t.value, t.description)
  {
    var found := FindTxn(db, id);
    if found.None? {
      return Err(404, "transactions.show.notfound", "");
    }
    r := Ok(Receipt(found.value.id, found.value.value, found.value.description));
  }

  // ---------------------------------------------------------------------------
  // index

  /** The columns `index` selects (its `createdAt` is not modelled). */
  datatype Row = Row(id: nat, kind: Kind, value: int, description: string, accountId: nat)

  datatype Listing = Listing(data: seq<Row>, meta: Meta)

  function RowOf(t: Txn): Row
  {
    Row(t.id, t.kind, t.value, t.description, t.accountId)
  }

  /** `toLowerCase` on the ASCII letters. */
  function ToLower(s: string): (r: string)
    ensures |r| == |s|
    ensures forall i :: 0 <= i < |s| ==>
              r[i] == if 'A' <= s[i] <= 'Z' then (s[i] as int + 32) as char else s[i]
    ensures forall i :: 0 <= i < |r| ==> !('A' <= r[i] <= 'Z')
  {
    seq(|s|, i requires 0 <= i < |s| => if 'A' <= s[i] <= 'Z' then (s[i] as int + 32) as char else s[i])
  }

  /** Lower-casing a lower-cased string changes nothing. */
  lemma ToLowerIdempotent(s: string)
    ensures ToLower(ToLower(s)) == ToLower(s)
  {
  }

  /** `req.query.type ? String(req.query.type).toLowerCase() : undefined` */
  function TypeFilter(raw: Option<string>): (f: Option<string>)
    ensures f.Some? <==> raw.Some? && raw.value != ""
    ensures f.Some? ==> f.value == ToLower(raw.value)
  {
    if raw.Some? && raw.value != "" then Some(ToLower(raw.value)) else None
  }

  /** The two `whereRaw` filters. */
  predicate Matches(t: Txn, accountId: Option<nat>, kind: Option<string>)
  {
    && (accountId.Some? ==> t.accountId == accountId.value)
    && (kind.Some? ==> KindName(t.kind) == kind.value)
  }

  /** The type filter does not see case: two spellings that lower-case alike
      select the same rows, and a filter written in lower case already is
      the filter of any of its spellings. */
  lemma TypeFilterCaseInsensitive(t: Txn, accountId: Option<nat>, a: string, b: string)
    requires ToLower(a) == ToLower(b)
    ensures Matches(t, accountId, TypeFilter(Some(a))) == Matches(t, accountId, TypeFilter(Some(b)))
    ensures Matches(t, accountId, TypeFilter(Some(ToLower(a)))) == Matches(t, accountId, TypeFilter(Some(a)))
  {
    assert |a| == |ToLower(a)| == |b|;
    ToLowerIdempotent(a);
  }

  /** A type filter is matched whatever the case the client wrote it in. */
  lemma TypeFilterIgnoresCase()
    ensures TypeFilter(Some("DEBIT")) == Some("debit")
    ensures TypeFilter(Some("")) == None
  {
    var r := ToLower("DEBIT");
    assert r[0] == 'd' && r[1] == 'e' && r[2] == 'b' && r[3] == 'i' && r[4] == 't';
    assert r == "debit";
  }

  /** The rows that pass the filters, in table order. */
  function Matching(txns: seq<Txn>, accountId: Option<nat>, kind: Option<string>): (r: seq<Txn>)
    ensures |r| <= |txns|
    ensures forall t :: t in r ==> t in txns && Matches(t, accountId, kind)
    ensures forall t :: t in txns && Matches(t, accountId, kind) ==> t in r
  {
    if txns == [] then []
    else
      var rest := Matching(txns[1..], accountId, kind);
      if Matches(txns[0], accountId, kind) then [txns[0]] + rest else rest
  }

  /** Filtering keeps the table order and each row once: it distributes over
      concatenation, so a row inserted later is listed after one inserted
      earlier. */
  lemma {:induction false} MatchingAppend(a: seq<Txn>, b: seq<Txn>, accountId: Option<nat>, kind: Option<string>)
    ensures Matching(a + b, accountId, kind) == Matching(a, accountId, kind) + Matching(b, accountId, kind)
  {
    if a == [] {
      assert a + b == b;
    } else {
      assert (a + b)[0] == a[0];
      assert (a + b)[1..] == a[1..] + b;
      MatchingAppend(a[1..], b, accountId, kind);
    }
  }

  /** A newly logged row that passes the filters is the last matching row,
      so it heads the first page. */
  lemma NewRowListedLast(txns: seq<Txn>, t: Txn, accountId: Option<nat>, kind: Option<string>)
    requires Matches(t, accountId, kind)
    ensures Matching(txns + [t], accountId, kind) == Matching(txns, accountId, kind) + [t]
  {
    MatchingAppend(txns, [t], accountId, kind);
    assert [t][1..] == [];
  }

  /** `orderBy('t.createdAt', 'desc')`: the newest row first. */
  function NewestFirst(rows: seq<Txn>): (r: seq<Txn>)
    ensures |r| == |rows|
    ensures forall k :: 0 <= k < |rows| ==> r[k] == rows[|rows| - 1 - k]
  {
    seq(|rows|, k requires 0 <= k < |rows| => rows[|rows| - 1 - k])
  }

  /** Ordering newest first twice gives back table order. */
  lemma NewestFirstInvolution(rows: seq<Txn>)
    ensures NewestFirst(NewestFirst(rows)) == rows
  {
  }

  /** Ordering neither loses nor duplicates a row. */
  lemma {:induction false} NewestFirstPermutes(rows: seq<Txn>)
    ensures multiset(NewestFirst(rows)) == multiset(rows)
  {
    if rows != [] {
      var init := rows[..|rows| - 1];
      var last := rows[|rows| - 1];
      assert NewestFirst(rows) == [last] + NewestFirst(init);
      NewestFirstPermutes(init);
      assert rows == init + [last];
    }
  }

  /** `.limit(limit).offset(offset)` */
  function Slice<T>(rows: seq<T>, offset: nat, limit: nat): (r: seq<T>)
    ensures |r| <= limit
    ensures offset >= |rows| ==> r == []
    ensures offset < |rows| ==> |r| == Min(limit, |rows| - offset)
    ensures forall k :: 0 <= k < |r| ==> offset + k < |rows| && r[k] == rows[offset + k]
  {
    var lo := if offset < |rows| then offset else |rows|;
    var hi := if lo + limit < |rows| then lo + limit else |rows|;
    rows[lo..hi]
  }

  /** `l` is the page `w` of the matching `rows` listed newest first: the
      meta block counts all of them, and the data are the rows from the
      offset on, as many as the limit allows. */
  predicate Lists(l: Listing, rows: seq<Txn>, w: Window)
  {
    && l.meta.total == |rows| && l.meta.page == w.page && l.meta.perPage == w.limit
    && (w.limit > 0 ==> (l.meta.totalPages - 1) * w.limit < |rows| <= l.meta.totalPages * w.limit)
    && (w.limit <= 0 ==> l.meta.totalPages == 0 && l.data == [])
    && |l.data| <= w.limit
    && (0 <= w.offset < |rows| ==> |l.data| == Min(w.limit, |rows| - w.offset))
    && (forall k :: 0 <= k < |l.data| ==>
          0 <= w.offset + k < |rows| && l.data[k] == RowOf(rows[|rows| - 1 - (w.offset + k)]))
  }

  /** The data query and `makeMeta` for a window the database accepts. */
  function Page(rows: seq<Txn>, w: Window): (l: Listing)
    requires w.offset >= 0 && w.limit >= 0
    ensures Lists(l, rows, w)
  {
    var page := Slice(NewestFirst(rows), w.offset, w.limit);
    Listing(seq(|page|, k requires 0 <= k < |page| => RowOf(page[k])), MakeMeta(|rows|, w.page, w.limit))
  }

  /** `index` as written: the window is `parsePagination`'s. A negative
      offset (a page strictly between 0 and 1) makes the data query throw,
      answered by the catch with 400; a limit strictly between 0 and 1
      lists nothing. */
  function Index(txns: seq<Txn>, accountId: Option<nat>, typeRaw: Option<string>, q: Query): (r: Result<Listing>)
    ensures var w := ParsePagination(q);
            && (r.Err? <==> w.offset < 0)
            && (r.Err? ==> r == Err(400, "transactions.index.nok", ""))
            && (r.Ok? ==> Lists(r.value, Matching(txns, accountId, TypeFilter(typeRaw)), w))
  {
    var w := ParsePagination(q);
    if w.offset < 0 then Err(400, "transactions.index.nok", "")
    else Ok(Page(Matching(txns, accountId, TypeFilter(typeRaw)), w))
  }

  /** `index` over the corrected pagination: every query is answered, with
      at least one row per page. */
  function IndexClamped(txns: seq<Txn>, accountId: Option<nat>, typeRaw: Option<string>, q: Query): (l: Listing)
    ensures Lists(l, Matching(txns, accountId, TypeFilter(typeRaw)), ParsePaginationClamped(q))
    ensures l.meta.perPage >= 1
  {
    Page(Matching(txns, accountId, TypeFilter(typeRaw)), ParsePaginationClamped(q))
  }

  /** The listing for a page of 0.5 is the 400 answer. */
  lemma FractionalPageFailsIndex(txns: seq<Txn>)
    ensures Index(txns, None, None, Query(Some(Finite(0.5)), None, None, None)).Err?
  {
    FractionalPageGivesNegativeOffset();
  }

  /** Outside the unit interval the corrected listing is the listing as written. */
  lemma IndexAgreesOutsideUnitInterval(txns: seq<Txn>, accountId: Option<nat>, typeRaw: Option<string>, q: Query)
    requires !Positive(RequestedPage(q)) || RequestedPage(q).x >= 1.0
    requires !Positive(RequestedLimit(q)) || RequestedLimit(q).x >= 1.0
    ensures Index(txns, accountId, typeRaw, q) == Ok(IndexClamped(txns, accountId, typeRaw, q))
  {
    ClampedAgreesOutsideUnitInterval(q);
  }

  /** Every row of a listing passes both filters. */
  lemma IndexRowsMatch(txns: seq<Txn>, accountId: Option<nat>, typeRaw: Option<string>, q: Query, k: nat)
    requires Index(txns, accountId, typeRaw, q).Ok?
    requires k < |Index(txns, accountId, typeRaw, q).value.data|
    ensures exists t :: t in txns && Matches(t, accountId, TypeFilter(typeRaw))
                        && Index(txns, accountId, typeRaw, q).value.data[k] == RowOf(t)
  {
    var w := ParsePagination(q);
    var rows := Matching(txns, accountId, TypeFilter(typeRaw));
    var t := rows[|rows| - 1 - (w.offset + k)];
    assert t in rows;
  }

  /** Paging through: the k-th matching row, newest first, is shown on page
      k / limit + 1 at position k % limit. */
  lemma RowOnItsPage<T>(rows: seq<T>, k: nat, limit: nat)
    requires limit >= 1 && k < |rows|
    ensures var page := k / limit + 1;
            var offset := (page - 1) * limit;
            offset <= k < offset + limit && Slice(rows, offset, limit)[k - offset] == rows[k]
  {
    var page := k / limit + 1;
    var offset := (page - 1) * limit;
    assert offset == (k / limit) * limit;
    assert k == (k / limit) * limit + k % limit;
  }
}
