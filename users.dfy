/** The parts of `userController` with logic of their own: the document (CPF)
    normalisation, the verdict on the compliance service's answer, `create`,
    which inserts the user together with a zero balance, and `update`, which
    writes a patch of the supplied fields. The compliance service is network
    I/O: its answer is a parameter (`None` when the call throws), and bcrypt's
    hash is a function parameter. */
module Users {
  import opened Common
  import opened Ledger
  import opened Tables

  // ---------------------------------------------------------------------------
  // Documents

  predicate IsSeparator(c: char)
  {
    c == '.' || c == '-'
  }

  /** `document.replace(/[.\-]/g, '')` */
  function NormaliseDocument(s: string): (r: string)
    ensures |r| <= |s|
    ensures forall c :: c in r ==> c in s && !IsSeparator(c)
  {
    if s == [] then []
    else if IsSeparator(s[0]) then NormaliseDocument(s[1..])
    else [s[0]] + NormaliseDocument(s[1..])
  }

  /** Normalisation works character by character: it distributes over
      concatenation. */
  lemma {:induction false} NormaliseAppend(a: string, b: string)
    ensures NormaliseDocument(a + b) == NormaliseDocument(a) + NormaliseDocument(b)
  {
    if a == [] {
      assert a + b == b;
    } else {
      assert (a + b)[1..] == a[1..] + b;
      NormaliseAppend(a[1..], b);
    }
  }

  /** A document without separators is kept as it is: every other character
      survives normalisation, in order. */
  lemma {:induction false} NormaliseKeeps(s: string)
    requires forall i :: 0 <= i < |s| ==> !IsSeparator(s[i])
    ensures NormaliseDocument(s) == s
  {
    if s != [] {
      NormaliseKeeps(s[1..]);
    }
  }

  /** Normalising twice is normalising once. */
  lemma NormaliseIdempotent(s: string)
    ensures NormaliseDocument(NormaliseDocument(s)) == NormaliseDocument(s)
  {
    var r := NormaliseDocument(s);
    forall i | 0 <= i < |r| ensures !IsSeparator(r[i]) {
      assert r[i] in r;
    }
    NormaliseKeeps(r);
  }

  /** Punctuation does not matter: a document with a separator inserted
      anywhere is the same document. */
  lemma SeparatorIsIgnored(a: string, sep: char, b: string)
    requires IsSeparator(sep)
    ensures NormaliseDocument(a + [sep] + b) == NormaliseDocument(a + b)
  {
    assert a + [sep] + b == a + ([sep] + b);
    NormaliseAppend(a, [sep] + b);
    assert ([sep] + b)[1..] == b;
    NormaliseAppend(a, b);
  }

  // ---------------------------------------------------------------------------
  // The compliance service's verdict

  /** A JSON value of the service's answer. */
  datatype Json = JBool(b: bool) | JNumber(x: real) | JString(s: string) | JNull

  /** What the handler looks at: `response.ok`, `result.valid` (if present)
      and `Number(result.data.status)`. */
  datatype CpfAnswer = CpfAnswer(ok: bool, valid: Option<Json>, status: Num)

  /** `response.ok && (result?.valid === true || Number(result?.data?.status) === 1)` */
  predicate CpfValid(a: CpfAnswer)
    ensures CpfValid(a) ==> a.ok
  {
    a.ok && (a.valid == Some(JBool(true)) || a.status == Finite(1.0))
  }

  /** `valid === true` is strict: any `valid` other than the boolean `true`
      (the string "true", the number 1, null) counts as no flag at all, and
      then only a status of exactly 1 accepts. */
  lemma CpfValidIsStrict(a: CpfAnswer, v: Json)
    requires v != JBool(true)
    ensures CpfValid(a.(valid := Some(v))) == CpfValid(a.(valid := None))
    ensures CpfValid(a.(valid := None)) <==> a.ok && a.status == Finite(1.0)
  {
  }

  /** How the service's answers are read: only a boolean `true` is a valid
      flag, a status of 1 also accepts, and a failed response never does. */
  lemma CpfVerdicts(valid: Option<Json>, status: Num)
    ensures CpfValid(CpfAnswer(true, Some(JBool(true)), status))
    ensures CpfValid(CpfAnswer(true, valid, Finite(1.0)))
    ensures !CpfValid(CpfAnswer(false, valid, status))
    ensures !CpfValid(CpfAnswer(true, Some(JString("true")), Finite(0.0)))
    ensures !CpfValid(CpfAnswer(true, None, NonFinite))
  {
  }

  /** The outcome of the compliance check, when it runs: `None` if the call
      threw (the handler's catch), else whether the answer accepts the CPF. */
  function CpfCheck(answer: Option<CpfAnswer>, nokMessage: string, invalidMessage: string): (r: Result<()>)
    ensures r.Ok? <==> answer.Some? && CpfValid(answer.value)
    ensures answer.None? ==> r == Err(400, nokMessage, "")
    ensures answer.Some? && !CpfValid(answer.value) ==> r == Err(400, invalidMessage, "")
  {
    if answer.None? then Err(400, nokMessage, "")
    else if !CpfValid(answer.value) then Err(400, invalidMessage, "")
    else Ok(())
  }

  // ---------------------------------------------------------------------------
  // create

  /** The columns `create` answers with. */
  datatype UserView = UserView(id: nat, name: string, document: string)

  /** `create`: with `bypass` (`TEST_BYPASS_AUTH === '1'` or `NODE_ENV ===
      'test'`) no compliance check; otherwise the CPF must be accepted. The
      user row and its zero balance are inserted together. */
  method CreateUser(db: Database, hash: string -> string, bypass: bool, answer: Option<CpfAnswer>,
                    name: string, document: string, password: string) returns (r: Result<UserView>)
    requires db.Valid()
    modifies db`users, db`nextUserId, db`balances, db`nextBalanceId
    ensures db.Valid()
    ensures !bypass && answer.None? ==> r == Err(400, "user.create.nok", "")
    ensures !bypass && answer.Some? && !CpfValid(answer.value) ==> r == Err(400, "user.create.cpf.invalid", "")
    ensures r.Err? ==> db.users == old(db.users) && db.nextUserId == old(db.nextUserId)
                       && db.balances == old(db.balances) && db.nextBalanceId == old(db.nextBalanceId)
    ensures r.Ok? <==> bypass || (answer.Some? && CpfValid(answer.value))
    ensures r.Ok? ==>
              var id := old(db.nextUserId);
              var doc := NormaliseDocument(document);
              && r.value == UserView(id, name, doc)
              && db.users == old(db.users)[id := UserRow(name, doc, hash(password))]
              && db.nextUserId == id + 1
              && db.balances == old(db.balances)[old(db.nextBalanceId) := BalanceRow(id, 0)]
              && db.nextBalanceId == old(db.nextBalanceId) + 1
  {
    var doc := NormaliseDocument(document);
    if !bypass {
      var check := CpfCheck(answer, "user.create.nok", "user.create.cpf.invalid");
      if check.Err? {
        return Err(check.status, check.message, check.detail);
      }
    }
    var id := db.nextUserId;
    assert !HasBalance(db.balances, id);
    db.users := db.users[id := UserRow(name, doc, hash(password))];
    db.nextUserId := id + 1;
    var balanceId := db.GetOrCreateBalance(id);
    r := Ok(UserView(id, name, doc));
  }

  /** A new user starts with one balance row, of value 0. */
  lemma NewUserHasZeroBalance(b: map<nat, BalanceRow>, next: nat, id: nat)
    requires OneRowPerUser(b) && next !in b
    requires forall x :: x in b ==> b[x].userId < id
    ensures var b' := b[next := BalanceRow(id, 0)];
            OneRowPerUser(b') && HasBalance(b', id) && CurrentBalance(b', id) == 0
  {
    var b' := b[next := BalanceRow(id, 0)];
    BalanceIdUnique(b', id, next);
  }

  // ---------------------------------------------------------------------------
  // update

  /** The `updateData` object: the fields that will be written. */
  datatype Patch = Patch(name: Option<string>, document: Option<string>, passwordHash: Option<string>)

  /** A JavaScript string's truthiness: present and not empty. */
  predicate Given(s: Option<string>)
  {
    s.Some? && s.value != ""
  }

  /** `document?.replace(/[.\-]/g, '')` */
  function NormalisedDoc(document: Option<string>): (d: Option<string>)
    ensures d.Some? <==> document.Some?
    ensures d.Some? ==> d.value == NormaliseDocument(document.value)
  {
    if document.Some? then Some(NormaliseDocument(document.value)) else None
  }

  /** Only the supplied, non-empty fields are in the patch: the name as given,
      the normalised document, the hashed password. */
  function BuildPatch(hash: string -> string, name: Option<string>, document: Option<string>,
                      password: Option<string>): (p: Patch)
    ensures p.name.Some? <==> Given(name)
    ensures p.name.Some? ==> p.name == name
    ensures p.document.Some? <==> Given(NormalisedDoc(document))
    ensures p.document.Some? ==> p.document == Some(NormaliseDocument(document.value))
    ensures p.passwordHash.Some? <==> Given(password)
    ensures p.passwordHash.Some? ==> p.passwordHash == Some(hash(password.value))
  {
    var doc := NormalisedDoc(document);
    Patch(if Given(name) then name else None,
          if Given(doc) then doc else None,
          if Given(password) then Some(hash(password.value)) else None)
  }

  predicate EmptyPatch(p: Patch)
  {
    p.name.None? && p.document.None? && p.passwordHash.None?
  }

  function ApplyPatch(row: UserRow, p: Patch): (r: UserRow)
    ensures r.name == (if p.name.Some? then p.name.value else row.name)
    ensures r.document == (if p.document.Some? then p.document.value else row.document)
    ensures r.passwordHash == (if p.passwordHash.Some? then p.passwordHash.value else row.passwordHash)
  {
    UserRow(if p.name.Some? then p.name.value else row.name,
            if p.document.Some? then p.document.value else row.document,
            if p.passwordHash.Some? then p.passwordHash.value else row.passwordHash)
  }

  /** A patch writes only the fields it holds. */
  lemma PatchKeepsOmittedFields(hash: string -> string, row: UserRow, name: Option<string>, password: Option<string>)
    ensures var p := BuildPatch(hash, name, None, password);
            ApplyPatch(row, p).document == row.document
    ensures var p := BuildPatch(hash, None, None, password);
            ApplyPatch(row, p).name == row.name && ApplyPatch(row, p).document == row.document
  {
  }

  /** `update`: the compliance check runs only when a document is supplied
      (and not bypassed); an empty patch makes knex refuse the `.update()`. */
  method UpdateUser(db: Database, hash: string -> string, bypass: bool, answer: Option<CpfAnswer>,
                    id: nat, name: Option<string>, document: Option<string>, password: Option<string>)
      returns (r: Result<()>)
    requires db.Valid()
    modifies db`users
    ensures db.Valid()
    ensures var checked := Given(NormalisedDoc(document)) && !bypass;
            var p := BuildPatch(hash, name, document, password);
            && (checked && answer.None? ==> r == Err(400, "user.update.nok", ""))
            && (checked && answer.Some? && !CpfValid(answer.value) ==> r == Err(400, "user.update.cpf.invalid", ""))
            && (!checked || (answer.Some? && CpfValid(answer.value)) ==>
                  if EmptyPatch(p) then r == Err(400, "user.update.nok", "")
                  else r == Ok(()) && db.users == (if id in old(db.users) then old(db.users)[id := ApplyPatch(old(db.users)[id], p)]
                                                  else old(db.users)))
    ensures r.Err? ==> db.users == old(db.users)
  {
    var doc := NormalisedDoc(document);
    if Given(doc) && !bypass {
      var check := CpfCheck(answer, "user.update.nok", "user.update.cpf.invalid");
      if check.Err? {
        return Err(check.status, check.message, check.detail);
      }
    }
    var patch := BuildPatch(hash, name, document, password);
    if EmptyPatch(patch) {
      return Err(400, "user.update.nok", "");
    }
    if id in db.users {
      db.users := db.users[id := ApplyPatch(db.users[id], patch)];
    }
    r := Ok(());
  }
}
