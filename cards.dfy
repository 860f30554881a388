/** `cardController`: the `cards` table, and the answers that show a card
    number only by its last four characters. */
module Cards {
  import opened Common
  import opened Tables

  /** `number.slice(-4)`: the last four characters, or all of a shorter string. */
  function Last4(s: string): (r: string)
    ensures |r| == if |s| < 4 then |s| else 4
    ensures r == s[|s| - |r|..]
  {
    if |s| <= 4 then s else s[|s| - 4..]
  }

  /** Masking a masked number changes nothing. */
  lemma Last4Idempotent(s: string)
    ensures Last4(Last4(s)) == Last4(s)
  {
  }

  /** Two numbers with the same last four characters look alike once masked. */
  lemma Last4SeesOnlyTheEnd(prefix1: string, prefix2: string, tail: string)
    requires |tail| == 4
    ensures Last4(prefix1 + tail) == tail && Last4(prefix2 + tail) == tail
  {
    assert (prefix1 + tail)[|prefix1|..] == tail;
    assert (prefix2 + tail)[|prefix2|..] == tail;
  }

  /** The columns `index` and `show` select (never the cvv). */
  datatype CardView = CardView(id: nat, kind: CardKind, number: string, accountId: nat)

  function View(c: CardRow): CardView
  {
    CardView(c.id, c.kind, c.number, c.accountId)
  }

  // ---------------------------------------------------------------------------
  // index

  /** `index`: every card in table order, its number masked. */
  function IndexCards(cards: seq<CardRow>): (r: seq<CardView>)
    ensures |r| == |cards|
    ensures forall i :: 0 <= i < |r| ==>
              && r[i].id == cards[i].id && r[i].kind == cards[i].kind && r[i].accountId == cards[i].accountId
              && r[i].number == Last4(cards[i].number)
  {
    seq(|cards|, i requires 0 <= i < |cards| => View(cards[i]).(number := Last4(cards[i].number)))
  }

  /** No number in a listing is longer than four characters, and each is the
      end of the stored number. */
  lemma IndexHidesNumbers(cards: seq<CardRow>, i: nat)
    requires i < |cards|
    ensures var n := IndexCards(cards)[i].number;
            |n| <= 4 && n == cards[i].number[|cards[i].number| - |n|..]
  {
  }

  // ---------------------------------------------------------------------------
  // show

  /** `where({ accountId })`: the account's cards, in table order. */
  function CardsOf(cards: seq<CardRow>, accountId: nat): (r: seq<CardRow>)
    ensures |r| <= |cards|
    ensures forall c :: c in r <==> c in cards && c.accountId == accountId
  {
    if cards == [] then []
    else if cards[0].accountId == accountId then [cards[0]] + CardsOf(cards[1..], accountId)
    else CardsOf(cards[1..], accountId)
  }

  /** Selecting by account keeps the table order and each card once: it
      distributes over concatenation, so a card created later is shown after
      the account's earlier ones. */
  lemma {:induction false} CardsOfAppend(a: seq<CardRow>, b: seq<CardRow>, accountId: nat)
    ensures CardsOf(a + b, accountId) == CardsOf(a, accountId) + CardsOf(b, accountId)
  {
    if a == [] {
      assert a + b == b;
    } else {
      assert (a + b)[0] == a[0];
      assert (a + b)[1..] == a[1..] + b;
      CardsOfAppend(a[1..], b, accountId);
    }
  }

  /** A created card is shown last among its account's cards. */
  lemma CreatedCardShownLast(cards: seq<CardRow>, c: CardRow)
    ensures CardsOf(cards + [c], c.accountId) == CardsOf(cards, c.accountId) + [c]
  {
    CardsOfAppend(cards, [c], c.accountId);
    assert [c][1..] == [];
  }

  datatype ShowReply = ShowReply(data: seq<CardView>, relatedIds: seq<nat>)

  /** `cards.map(card => card.id)` */
  function Ids(data: seq<CardView>): (ids: seq<nat>)
    ensures |ids| == |data|
    ensures forall i :: 0 <= i < |data| ==> ids[i] == data[i].id
  {
    seq(|data|, i requires 0 <= i < |data| => data[i].id)
  }

  /** `show` as written: the account's cards with their full numbers. */
  function ShowCards(cards: seq<CardRow>, accountId: nat): (r: Result<ShowReply>)
    ensures r.Err? <==> forall c :: c in cards ==> c.accountId != accountId
    ensures r.Err? ==> r == Err(404, "card.show.notfound", "")
    ensures r.Ok? ==>
              var rows := CardsOf(cards, accountId);
              && |r.value.data| == |rows| == |r.value.relatedIds|
              && (forall i :: 0 <= i < |rows| ==> r.value.data[i] == View(rows[i]) && r.value.relatedIds[i] == rows[i].id)
  {
    var rows := CardsOf(cards, accountId);
    if |rows| == 0 then
      assert forall c :: c in cards ==> c.accountId != accountId;
      Err(404, "card.show.notfound", "")
    else
      assert rows[0] in rows;
      var data := seq(|rows|, i requires 0 <= i < |rows| => View(rows[i]));
      Ok(ShowReply(data, Ids(data)))
  }

  /** `show` answers with whole card numbers, unlike every other answer. */
  lemma ShowRevealsFullNumber()
    ensures var cards := [CardRow(1, Virtual, "4111111111111111", "123", 7)];
            var r := ShowCards(cards, 7);
            r.Ok? && r.value.data[0].number == "4111111111111111"
  {
    var cards := [CardRow(1, Virtual, "4111111111111111", "123", 7)];
    assert cards[0] in cards;
  }

  /** `show` with the numbers masked as the other answers are. */
  function ShowCardsMasked(cards: seq<CardRow>, accountId: nat): (r: Result<ShowReply>)
    ensures r.Err? <==> forall c :: c in cards ==> c.accountId != accountId
    ensures r.Err? ==> r == Err(404, "card.show.notfound", "")
    ensures r.Ok? ==>
              var rows := CardsOf(cards, accountId);
              && |r.value.data| == |rows| == |r.value.relatedIds|
              && (forall i :: 0 <= i < |rows| ==>
                    && r.value.data[i] == View(rows[i]).(number := Last4(rows[i].number))
                    && r.value.relatedIds[i] == rows[i].id)
              && (forall i :: 0 <= i < |rows| ==> |r.value.data[i].number| <= 4)
  {
    var rows := CardsOf(cards, accountId);
    if |rows| == 0 then
      assert forall c :: c in cards ==> c.accountId != accountId;
      Err(404, "card.show.notfound", "")
    else
      assert rows[0] in rows;
      var data := IndexCards(rows);
      Ok(ShowReply(data, Ids(data)))
  }

  /** The corrected `show` lists the same cards, under the same ids, as the
      code as written. */
  lemma MaskedShowListsSameCards(cards: seq<CardRow>, accountId: nat)
    ensures ShowCardsMasked(cards, accountId).Err? == ShowCards(cards, accountId).Err?
    ensures ShowCardsMasked(cards, accountId).Ok? ==>
              ShowCardsMasked(cards, accountId).value.relatedIds == ShowCards(cards, accountId).value.relatedIds
  {
  }

  // ---------------------------------------------------------------------------
  // create, update, delete

  datatype CreatedCard = CreatedCard(id: nat, number: string)

  /** `create`: the full number is stored, only its last four characters are
      answered. */
  method Create(db: Database, kind: CardKind, number: string, cvv: string, accountId: nat)
      returns (r: Result<CreatedCard>)
    requires db.Valid()
    modifies db`cards, db`nextCardId
    ensures db.Valid()
    ensures r == Ok(CreatedCard(old(db.nextCardId), Last4(number)))
    ensures db.cards == old(db.cards) + [CardRow(old(db.nextCardId), kind, number, cvv, accountId)]
    ensures db.nextCardId == old(db.nextCardId) + 1
  {
    var id := db.nextCardId;
    db.cards := db.cards + [CardRow(id, kind, number, cvv, accountId)];
    db.nextCardId := id + 1;
    r := Ok(CreatedCard(id, Last4(number)));
  }

  /** The fields an `update` body supplies (knex leaves out undefined ones). */
  datatype CardPatch = CardPatch(kind: Option<CardKind>, number: Option<string>, cvv: Option<string>,
                                 accountId: Option<nat>)

  function PatchCard(c: CardRow, p: CardPatch): (r: CardRow)
    ensures r.id == c.id
    ensures r.kind == (if p.kind.Some? then p.kind.value else c.kind)
    ensures r.number == (if p.number.Some? then p.number.value else c.number)
    ensures r.cvv == (if p.cvv.Some? then p.cvv.value else c.cvv)
    ensures r.accountId == (if p.accountId.Some? then p.accountId.value else c.accountId)
  {
    CardRow(c.id,
            if p.kind.Some? then p.kind.value else c.kind,
            if p.number.Some? then p.number.value else c.number,
            if p.cvv.Some? then p.cvv.value else c.cvv,
            if p.accountId.Some? then p.accountId.value else c.accountId)
  }

  /** An empty body changes nothing, and of two updates the later one wins
      on every field it supplies. */
  lemma PatchCardLaterWins(c: CardRow, p: CardPatch, p2: CardPatch)
    ensures PatchCard(c, CardPatch(None, None, None, None)) == c
    ensures p2.kind.Some? && p2.number.Some? && p2.cvv.Some? && p2.accountId.Some? ==>
              PatchCard(PatchCard(c, p), p2) == PatchCard(c, p2)
    ensures PatchCard(PatchCard(c, p), p) == PatchCard(c, p)
  {
  }

  /** The answer of `update`: the id of the updated row, if any, and the
      number masked only when a non-empty number was supplied. */
  datatype UpdatedCard = UpdatedCard(id: Option<nat>, number: Option<string>)

  method Update(db: Database, id: nat, p: CardPatch) returns (r: Result<UpdatedCard>)
    requires db.Valid()
    modifies db`cards
    ensures db.Valid()
    ensures |db.cards| == |old(db.cards)|
    ensures forall i :: 0 <= i < |db.cards| ==>
              db.cards[i] == if old(db.cards)[i].id == id then PatchCard(old(db.cards)[i], p) else old(db.cards)[i]
    ensures r.Ok?
    ensures r.value.id.Some? <==> exists i :: 0 <= i < |old(db.cards)| && old(db.cards)[i].id == id
    ensures r.value.id.Some? ==> r.value.id.value == id
    ensures r.value.number == if p.number.Some? && p.number.value != "" then Some(Last4(p.number.value)) else None
  {
    var matched := exists i :: 0 <= i < |db.cards| && db.cards[i].id == id;
    var rows := db.cards;
    db.cards := seq(|rows|, i requires 0 <= i < |rows| => if rows[i].id == id then PatchCard(rows[i], p) else rows[i]);
    var masked := if p.number.Some? && p.number.value != "" then Some(Last4(p.number.value)) else None;
    r := Ok(UpdatedCard(if matched then Some(id) else None, masked));
  }

  /** `where({ id }).del()` */
  function WithoutCard(cards: seq<CardRow>, id: nat): (r: seq<CardRow>)
    ensures |r| <= |cards|
    ensures forall c :: c in r <==> c in cards && c.id != id
  {
    if cards == [] then []
    else if cards[0].id == id then WithoutCard(cards[1..], id)
    else [cards[0]] + WithoutCard(cards[1..], id)
  }

  method Delete(db: Database, id: nat) returns (r: Result<()>)
    requires db.Valid()
    modifies db`cards
    ensures db.Valid()
    ensures r == Ok(())
    ensures db.cards == WithoutCard(old(db.cards), id)
  {
    db.cards := WithoutCard(db.cards, id);
    r := Ok(());
  }

  /** A deleted card is no longer shown for its account; the account's other
      cards still are. */
  lemma {:induction false} DeleteHidesCard(cards: seq<CardRow>, id: nat, accountId: nat)
    ensures CardsOf(WithoutCard(cards, id), accountId) == WithoutCard(CardsOf(cards, accountId), id)
  {
    if cards != [] {
      DeleteHidesCard(cards[1..], id, accountId);
      if cards[0].id != id && cards[0].accountId == accountId {
        assert WithoutCard(cards, id)[1..] == WithoutCard(cards[1..], id);
      } else if cards[0].id != id {
        assert WithoutCard(cards, id)[0] == cards[0];
        assert WithoutCard(cards, id)[1..] == WithoutCard(cards[1..], id);
      }
    }
  }
}
