/** The endpoints as sequences of store calls: whatever clients and workers do, the two stores answer
    alike. */
module Endpoints {
  import opened Catalog
  import opened Calls
  import opened Handlers
  import opened Postgres
  import Isbn

  /** What clients ask for, and what a worker writes for an ISBN in flight. */
  datatype Request =
    | Post(user: string, body: BookWrite, id: string, now: int)
    | Edit(user: string, id: string, patch: Patch, now: int)
    | Remove(user: string, id: string)
    | Renew(user: string, id: string)
    | Enrich(isbn: string, meta: Option<Metadata>, status: Status, now: int)
    | Illustrate(isbn: string, cover: Cover)

  /** A request of which only the first `calls` writes take effect, when some fail. */
  datatype Served = Served(request: Request, calls: nat)

  function MemRead(s: Store, r: Request): Option<Book> {
    if r.Edit? || r.Renew? then Catalog.Get(s, r.user, r.id) else None
  }

  function PgRead(d: Database, r: Request): Answer<Option<Book>> {
    if r.Edit? || r.Renew? then Postgres.Get(d, r.user, r.id) else Answered(None)
  }

  /** The writes of a request, in order, given the view it has read. */
  function Writes(up: char -> char, v: Option<Book>, r: Request): seq<Op> {
    match r
    case Post(user, body, id, now) =>
      var key := Isbn.Canonical(up, body.isbn);
      if user == "" || key.None? then []
      else [OpCreate(user, id, ToBook(body).(isbn := key.value), now), OpEnsure(key.value)]
    case Edit(user, id, patch, now) =>
      var p := CanonicalPatch(up, patch);
      if user == "" || v.None? || p.None? then []
      else if ChangesIsbn(p.value, v.value.isbn) && p.value.isbn.value != "" then
        [OpUpdate(user, Patched(p.value, v.value), now), OpEnsure(p.value.isbn.value)]
      else [OpUpdate(user, Patched(p.value, v.value), now)]
    case Remove(user, id) => if user == "" then [] else [OpDelete(user, id)]
    case Renew(user, id) =>
      if user == "" || v.None? || v.value.isbn == "" then [] else [OpMarkPending(v.value.isbn)]
    case Enrich(isbn, meta, status, now) => [OpSave(isbn, meta, status, now)]
    case Illustrate(isbn, cover) => [OpCover(isbn, cover)]
  }

  function Effects(up: char -> char, v: Option<Book>, e: Served): seq<Op> {
    var ops := Writes(up, v, e.request);
    if e.calls < |ops| then ops[..e.calls] else ops
  }

  /** The calls in turn, up to the first that fails. */
  function MemCalls(s: Store, ops: seq<Op>): Store
    decreases ops
  {
    if ops == [] then s
    else
      var (s', v) := MemStep(s, ops[0]);
      if v.Succeeded? then MemCalls(s', ops[1..]) else s'
  }

  function PgCalls(d: Database, ops: seq<Op>): Database
    decreases ops
  {
    if ops == [] then d
    else
      var (d', v) := PgStep(d, ops[0]);
      if v.Succeeded? then PgCalls(d', ops[1..]) else d'
  }

  function MemServe(up: char -> char, s: Store, e: Served): Store {
    MemCalls(s, Effects(up, MemRead(s, e.request), e))
  }

  /** A failed read ends the request. */
  function PgServe(up: char -> char, d: Database, e: Served): Database {
    var v := PgRead(d, e.request);
    if v.Error? then d else PgCalls(d, Effects(up, v.value, e))
  }

  lemma TwoWrites(s: Store, ops: seq<Op>)
    requires |ops| == 2
    ensures MemCalls(s, ops) == if MemStep(s, ops[0]).1.Succeeded? then MemStep(MemStep(s, ops[0]).0, ops[1]).0
                                else MemStep(s, ops[0]).0
  {
    assert ops[1..] == [ops[1]] && [ops[1]][1..] == [];
    if MemStep(s, ops[0]).1.Succeeded? { assert MemCalls(s, ops) == MemCalls(MemStep(s, ops[0]).0, [ops[1]]); }
  }

  /** The writes are those of the handler methods when all their store calls succeed. */
  lemma PostWrites(up: char -> char, s: Store, user: string, body: BookWrite, id: string, now: int)
    ensures var key := Isbn.Canonical(up, body.isbn);
            MemCalls(s, Writes(up, None, Post(user, body, id, now)))
              == if user == "" || key.None? then s
                 else Catalog.EnsureEdition(Catalog.Create(s, user, id, ToBook(body).(isbn := key.value), now), key.value)
  {
    var ops := Writes(up, None, Post(user, body, id, now));
    if |ops| == 2 { TwoWrites(s, ops); }
  }

  lemma EditWrites(up: char -> char, s: Store, user: string, id: string, patch: Patch, now: int)
    requires KeysAreIds(s)
    ensures var v, p := Catalog.Get(s, user, id), CanonicalPatch(up, patch);
            MemCalls(s, Writes(up, v, Edit(user, id, patch, now)))
              == if user == "" || v.None? || p.None? then s else AfterPatch(s, user, v.value, p.value, now)
  {
    var ops := Writes(up, Catalog.Get(s, user, id), Edit(user, id, patch, now));
    if |ops| == 2 { TwoWrites(s, ops); }
  }

  lemma RenewWrites(up: char -> char, s: Store, user: string, id: string)
    ensures var v := Catalog.Get(s, user, id);
            MemCalls(s, Writes(up, v, Renew(user, id)))
              == if user == "" || v.None? || v.value.isbn == "" then s else Catalog.MarkEditionPending(s, v.value.isbn)
  {
  }

  // ---- what endpoints leave behind ----

  predicate StoredBook(b: Book) {
    CleanBook(b) && BookFits(b) && Text(b.id) && Text(b.userID)
  }

  /** Every stored book sits under its ID, with an acceptable ISBN, no cover URL and fields that SQL can
      hold; so do the names of every edition, which a PATCH writes back. */
  ghost predicate Tidy(s: Store) {
    && KeysAreIds(s)
    && (forall id :: id in s.books ==> StoredBook(s.books[id]))
    && (forall x :: x in s.editions ==> Text(s.editions[x].title) && Text(s.editions[x].author))
  }

  predicate TextOr(o: Option<string>) { o.Some? ==> Text(o.value) }

  /** What a client sends or the source answers is free of U+0000 and fits; an ISBN is checked by the
      handlers themselves. */
  predicate Fits(r: Request) {
    match r
    case Post(user, body, id, _) =>
      && Text(user) && Text(id) && Text(body.title) && Text(body.author) && Text(body.status)
      && Int32(body.rating) && Text(body.opinion) && Texts(body.tags)
    case Edit(user, id, p, _) =>
      && Text(user) && Text(id) && TextOr(p.title) && TextOr(p.author) && TextOr(p.status)
      && (p.rating.Some? ==> Int32(p.rating.value)) && TextOr(p.opinion) && (p.tags.Some? ==> Texts(p.tags.value))
    case Remove(user, id) => Text(user) && Text(id)
    case Renew(user, id) => Text(user) && Text(id)
    case Enrich(isbn, meta, _, _) => Text(isbn) && (meta.Some? ==> MetadataFits(meta.value))
    case Illustrate(isbn, cover) => Text(isbn) && CoverFits(cover)
  }

  /** Texts and numbers fit, IDs are minted fresh, and a worker saves covers for known editions only. */
  predicate Admissible(s: Store, r: Request) {
    Fits(r) && (r.Post? ==> r.id !in s.books) && (r.Illustrate? ==> r.isbn in s.editions)
  }

  /** A call that leaves tidy stores tidy. */
  predicate CleanOp(op: Op) {
    Sendable(op) && (op.OpCreate? || op.OpUpdate? ==> CleanBook(op.book))
  }

  lemma ShapedFits(up: char -> char, raw: string)
    requires Isbn.UpperCasing(up) && Isbn.Canonical(up, raw).Some?
    ensures var key := Isbn.Canonical(up, raw).value;
            Text(key) && Isbn.PassesCheck(key) && key != ""
  {
    Isbn.CanonicalKeys(up, Isbn.Canonical(up, raw).value);
    Isbn.ShapeChars(Isbn.Canonical(up, raw).value);
  }

  lemma ViewFits(s: Store, user: string, id: string)
    requires Tidy(s) && Owns(s, user, id)
    ensures StoredBook(Catalog.Get(s, user, id).value) && Catalog.Get(s, user, id).value.id == id
  {
  }

  lemma PostIsClean(up: char -> char, r: Request)
    requires Isbn.UpperCasing(up) && r.Post? && Fits(r)
    ensures forall op :: op in Writes(up, None, r) ==> CleanOp(op)
  {
    if Isbn.Canonical(up, r.body.isbn).Some? { ShapedFits(up, r.body.isbn); }
  }

  /** The patched view of a stored book fits, with its ISBN in canonical form. */
  lemma PatchedFits(up: char -> char, v: Book, r: Request)
    requires Isbn.UpperCasing(up) && StoredBook(v) && r.Edit? && Fits(r) && CanonicalPatch(up, r.patch).Some?
    ensures StoredBook(Patched(CanonicalPatch(up, r.patch).value, v))
    ensures TextOr(CanonicalPatch(up, r.patch).value.isbn)
  {
    if r.patch.isbn.Some? { ShapedFits(up, r.patch.isbn.value); }
  }

  lemma EditIsClean(up: char -> char, s: Store, r: Request)
    requires Isbn.UpperCasing(up) && Tidy(s) && r.Edit? && Fits(r)
    ensures forall op :: op in Writes(up, MemRead(s, r), r) ==> CleanOp(op)
  {
    if Owns(s, r.user, r.id) && CanonicalPatch(up, r.patch).Some? {
      ViewFits(s, r.user, r.id);
      PatchedFits(up, Catalog.Get(s, r.user, r.id).value, r);
    }
  }

  lemma WritesAreClean(up: char -> char, s: Store, r: Request)
    requires Isbn.UpperCasing(up) && Tidy(s) && Fits(r)
    ensures forall op :: op in Writes(up, MemRead(s, r), r) ==> CleanOp(op)
  {
    if r.Post? { PostIsClean(up, r); }
    else if r.Edit? { EditIsClean(up, s, r); }
    else if r.Renew? && Owns(s, r.user, r.id) { ViewFits(s, r.user, r.id); }
  }

  lemma TidyBook(s: Store, id: string, b: Book)
    requires Tidy(s) && StoredBook(b) && b.id == id
    ensures Tidy(s.(books := s.books[id := b]))
  {
  }

  lemma TidyStep(s: Store, op: Op)
    requires Tidy(s) && CleanOp(op)
    ensures Tidy(MemStep(s, op).0)
  {
    if op.OpCreate? {
      TidyBook(s, op.id, Stamp(op.user, op.id, op.book, op.now));
    } else if op.OpUpdate? && Owns(s, op.user, op.book.id) {
      TidyBook(s, op.book.id, MemStep(s, op).0.books[op.book.id]);
    }
  }

  /** Only the first write can depend on an ID or a row. */
  lemma OneOrTwo(up: char -> char, v: Option<Book>, r: Request)
    ensures var ops := Writes(up, v, r);
            && |ops| <= 2
            && (|ops| == 2 ==> ops[1].OpEnsure?)
            && (|ops| > 0 && ops[0].OpCreate? ==> r.Post? && ops[0].id == r.id)
            && (|ops| > 0 && ops[0].OpCover? ==> r.Illustrate? && ops[0].isbn == r.isbn)
  {
  }

  lemma {:induction false} EffectsAgree(s: Store, d: Database, ops: seq<Op>)
    requires Same(s, d) && Tidy(s) && (forall op :: op in ops ==> CleanOp(op))
    requires |ops| <= 2 && (|ops| == 2 ==> ops[1].OpEnsure?)
    requires |ops| > 0 ==> Agreeable(s, ops[0])
    ensures Same(MemCalls(s, ops), PgCalls(d, ops)) && Tidy(MemCalls(s, ops))
    decreases ops
  {
    if ops != [] {
      assert ops[0] in ops;
      StepAgreesIff(s, d, ops[0]);
      TidyStep(s, ops[0]);
      if |ops| == 2 { assert ops[1] in ops; }
      EffectsAgree(MemStep(s, ops[0]).0, PgStep(d, ops[0]).0, ops[1..]);
    }
  }

  lemma EffectsAreGood(up: char -> char, s: Store, e: Served)
    requires Isbn.UpperCasing(up) && Tidy(s) && Admissible(s, e.request)
    ensures var ops := Effects(up, MemRead(s, e.request), e);
            && (forall op :: op in ops ==> CleanOp(op)) && |ops| <= 2 && (|ops| == 2 ==> ops[1].OpEnsure?)
            && (|ops| > 0 ==> Agreeable(s, ops[0]))
  {
    var all := Writes(up, MemRead(s, e.request), e.request);
    var ops := Effects(up, MemRead(s, e.request), e);
    WritesAreClean(up, s, e.request);
    OneOrTwo(up, MemRead(s, e.request), e.request);
    forall op | op in ops ensures CleanOp(op) { assert op in all; }
    if |ops| > 0 {
      assert ops[0] == all[0] && ops[0] in all;
      FirstAgreeable(s, ops[0], e.request);
    }
  }

  lemma FirstAgreeable(s: Store, op: Op, r: Request)
    requires Admissible(s, r) && CleanOp(op)
    requires op.OpCreate? ==> r.Post? && op.id == r.id
    requires op.OpCover? ==> r.Illustrate? && op.isbn == r.isbn
    ensures Agreeable(s, op)
  {
  }

  /** One request reads the same, does the same writes and leaves the stores in step. */
  lemma ServedAlike(up: char -> char, s: Store, d: Database, e: Served)
    requires Isbn.UpperCasing(up) && Same(s, d) && Tidy(s) && Admissible(s, e.request)
    ensures PgRead(d, e.request) == Answered(MemRead(s, e.request))
    ensures Same(MemServe(up, s, e), PgServe(up, d, e)) && Tidy(MemServe(up, s, e))
  {
    var r := e.request;
    if r.Edit? || r.Renew? { GetAgrees(s, d, r.user, r.id); }
    var v := MemRead(s, r);
    EffectsAreGood(up, s, e);
    EffectsAgree(s, d, Effects(up, v, e));
  }

  /** For a creation that the handler accepts the condition on its texts and numbers is exact. */
  lemma PostAlikeIff(up: char -> char, s: Store, d: Database, r: Request)
    requires Isbn.UpperCasing(up) && Same(s, d) && Tidy(s) && r.Post? && r.id !in s.books
    requires r.user != "" && Isbn.Canonical(up, r.body.isbn).Some?
    ensures Same(MemServe(up, s, Served(r, 2)), PgServe(up, d, Served(r, 2))) <==> Fits(r)
  {
    if Fits(r) {
      ServedAlike(up, s, d, Served(r, 2));
    } else {
      var ops := Writes(up, None, r);
      ShapedFits(up, r.body.isbn);
      TwoWrites(s, ops);
      assert !Sendable(ops[0]);
      assert r.id in MemServe(up, s, Served(r, 2)).books.Keys && r.id !in d.books.Keys;
    }
  }

  /** The book after an accepted PATCH. */
  lemma Edited(up: char -> char, s: Store, r: Request)
    requires Isbn.UpperCasing(up) && Tidy(s) && r.Edit? && r.user != "" && Owns(s, r.user, r.id)
    requires CanonicalPatch(up, r.patch).Some?
    ensures var p, v := CanonicalPatch(up, r.patch).value, Catalog.Get(s, r.user, r.id).value;
            var b := Patched(p, v);
            && r.id in MemServe(up, s, Served(r, 2)).books
            && RowOf(MemServe(up, s, Served(r, 2)).books[r.id]) ==
                 RowOf(b).(createdAt := s.books[r.id].createdAt, updatedAt := r.now)
  {
    EditWrites(up, s, r.user, r.id, r.patch, r.now);
  }

  /** Likewise for a PATCH of a book of one's own with a valid ISBN or none. */
  lemma EditAlikeIff(up: char -> char, s: Store, d: Database, r: Request)
    requires Isbn.UpperCasing(up) && Same(s, d) && Tidy(s) && r.Edit?
    requires r.user != "" && Owns(s, r.user, r.id) && CanonicalPatch(up, r.patch).Some?
    ensures Same(MemServe(up, s, Served(r, 2)), PgServe(up, d, Served(r, 2))) <==> Fits(r)
  {
    if Fits(r) {
      ServedAlike(up, s, d, Served(r, 2));
    } else {
      EditUnsent(up, s, d, r);
      Edited(up, s, r);
      BooksMatch(s, d, r.id);
      assert StoredBook(s.books[r.id]);
    }
  }

  /** A PATCH that does not fit is rejected by SQL as a whole. */
  lemma EditUnsent(up: char -> char, s: Store, d: Database, r: Request)
    requires Same(s, d) && Tidy(s) && r.Edit? && !Fits(r)
    requires r.user != "" && Owns(s, r.user, r.id) && CanonicalPatch(up, r.patch).Some?
    ensures PgServe(up, d, Served(r, 2)) == d
    ensures !BookFits(Patched(CanonicalPatch(up, r.patch).value, Catalog.Get(s, r.user, r.id).value))
  {
    GetAgrees(s, d, r.user, r.id);
    ViewFits(s, r.user, r.id);
    PatchMisfits(up, Catalog.Get(s, r.user, r.id).value, r);
    assert !Sendable(Writes(up, MemRead(s, r), r)[0]);
  }

  lemma PatchMisfits(up: char -> char, v: Book, r: Request)
    requires StoredBook(v) && r.Edit? && !Fits(r) && Text(r.user) && Text(r.id) && CanonicalPatch(up, r.patch).Some?
    ensures !BookFits(Patched(CanonicalPatch(up, r.patch).value, v))
  {
  }

  ghost predicate AllAdmissible(up: char -> char, s: Store, es: seq<Served>)
    decreases es
  {
    es != [] ==> Admissible(s, es[0].request) && AllAdmissible(up, MemServe(up, s, es[0]), es[1..])
  }

  function MemServeAll(up: char -> char, s: Store, es: seq<Served>): Store
    decreases es
  {
    if es == [] then s else MemServeAll(up, MemServe(up, s, es[0]), es[1..])
  }

  function PgServeAll(up: char -> char, d: Database, es: seq<Served>): Database
    decreases es
  {
    if es == [] then d else PgServeAll(up, PgServe(up, d, es[0]), es[1..])
  }

  lemma {:induction false} ServedAllAlike(up: char -> char, s: Store, d: Database, es: seq<Served>)
    requires Isbn.UpperCasing(up) && Same(s, d) && Tidy(s) && AllAdmissible(up, s, es)
    ensures Same(MemServeAll(up, s, es), PgServeAll(up, d, es)) && Tidy(MemServeAll(up, s, es))
    decreases es
  {
    if es != [] {
      ServedAlike(up, s, d, es[0]);
      ServedAllAlike(up, MemServe(up, s, es[0]), PgServe(up, d, es[0]), es[1..]);
    }
  }

  /** From empty stores, whatever clients ask and workers find in texts free of U+0000, and whichever
      writes fail, every such reader gets the same answers from either store. */
  lemma StoresAnswerAlike(up: char -> char, es: seq<Served>, user: string, id: string, isbn: string, limit: int)
    requires Isbn.UpperCasing(up) && AllAdmissible(up, EMPTY_STORE, es) && Text(user) && Text(id) && Text(isbn)
    ensures ReadsAlike(MemServeAll(up, EMPTY_STORE, es), PgServeAll(up, EMPTY_DATABASE, es), user, id, isbn, limit)
  {
    ServedAllAlike(up, EMPTY_STORE, EMPTY_DATABASE, es);
    ReadsAlikeIff(MemServeAll(up, EMPTY_STORE, es), PgServeAll(up, EMPTY_DATABASE, es), user, id, isbn, limit);
  }
}
