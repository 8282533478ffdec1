/** The relational repository as a specification of its SQL, and the agreement of the two stores. */
module Postgres {
  import opened Order
  import opened Catalog
  import opened Calls
  import Isbn

  datatype BookRow = BookRow(
    id: string, userID: string, isbn: string, title: string, author: string,
    status: string, rating: int, opinion: string, tags: seq<string>, createdAt: int, updatedAt: int)

  /** `None` is SQL NULL. */
  datatype EditionRow = EditionRow(
    title: Option<string>, author: Option<string>, description: Option<string>,
    publisher: Option<string>, publishedDate: Option<string>, pageCount: int,
    status: Status, enrichedAt: Option<int>, hasCover: bool)

  datatype CoverRow = CoverRow(contentType: string, bytes: seq<bv8>, etag: Option<string>, sourceURL: string)

  datatype Database = Database(
    books: map<string, BookRow>, editions: map<string, EditionRow>, covers: map<string, CoverRow>)

  const EMPTY_STORE := Store(map[], map[], map[])

  const EMPTY_DATABASE := Database(map[], map[], map[])

  /** What a query yields unless it fails. */
  datatype Answer<+T> = Answered(value: T) | Error

  function Deref(p: Option<string>): string { Or(p, "") }

  // ---- what a statement can carry ----

  const NUL: char := '\U{0000}'

  /** A text parameter cannot hold U+0000. */
  predicate Text(s: string) { NUL !in s }

  predicate Texts(q: seq<string>) { forall i :: 0 <= i < |q| ==> Text(q[i]) }

  /** INTEGER is 32 bits wide. */
  predicate Int32(n: int) { -0x8000_0000 <= n < 0x8000_0000 }

  /** The caller's own fields of a book. */
  predicate BookFits(b: Book) {
    && Text(b.isbn) && Text(b.title) && Text(b.author) && Text(b.status)
    && Int32(b.rating) && Text(b.opinion) && Texts(b.tags)
  }

  predicate MetadataFits(m: Metadata) {
    && Text(m.title) && Text(m.author) && Text(m.description) && Text(m.publisher) && Text(m.publishedDate)
    && Int32(m.pageCount)
  }

  predicate CoverFits(c: Cover) { Text(c.contentType) && Text(c.etag) && Text(c.sourceURL) }

  /** Every parameter of the statement that a call runs can be sent. */
  predicate Sendable(op: Op) {
    match op
    case OpCreate(user, id, b, _) => Text(user) && Text(id) && BookFits(b)
    case OpUpdate(user, b, _) => Text(user) && Text(b.id) && BookFits(b)
    case OpDelete(user, id) => Text(user) && Text(id)
    case OpEnsure(isbn) => Text(isbn)
    case OpMarkPending(isbn) => Text(isbn)
    case OpSave(isbn, m, _, _) => Text(isbn) && (m.Some? ==> MetadataFits(m.value))
    case OpCover(isbn, c) => Text(isbn) && CoverFits(c)
  }

  function RowOf(b: Book): BookRow {
    BookRow(b.id, b.userID, b.isbn, b.title, b.author, b.status, b.rating, b.opinion, b.tags, b.createdAt, b.updatedAt)
  }

  // ---- reads: LEFT JOIN and scan ----

  function Join(d: Database, r: BookRow): Option<EditionRow> {
    if r.isbn in d.editions then Some(d.editions[r.isbn]) else None
  }

  function ScanBook(r: BookRow, e: Option<EditionRow>): Book {
    var b := Book(r.id, r.userID, r.isbn, r.title, r.author, r.status, r.rating, r.opinion, r.tags,
                  r.createdAt, r.updatedAt, "", "", "", 0, "", None, false, "");
    if e.None? then
      CanonicalNames(b, "", "").(enrichmentStatus := EnrichmentStatusFor(r.isbn, None))
    else
      CanonicalNames(b, Deref(e.value.title), Deref(e.value.author)).(
        description := Deref(e.value.description), publisher := Deref(e.value.publisher),
        publishedDate := Deref(e.value.publishedDate), pageCount := e.value.pageCount,
        enrichedAt := e.value.enrichedAt, hasCover := e.value.hasCover,
        enrichmentStatus := EnrichmentStatusFor(r.isbn, Some(e.value.status)))
  }

  predicate Matches(d: Database, user: string, id: string) {
    id in d.books && d.books[id].userID == user
  }

  function Get(d: Database, user: string, id: string): Answer<Option<Book>> {
    if !Text(user) || !Text(id) then Error
    else Answered(if Matches(d, user, id) then Some(ScanBook(d.books[id], Join(d, d.books[id]))) else None)
  }

  function Shelf(d: Database, user: string): Answer<map<string, Book>> {
    if !Text(user) then Error
    else Answered(map id | id in d.books && d.books[id].userID == user :: ScanBook(d.books[id], Join(d, d.books[id])))
  }

  /** The query does not select the source URL. */
  function CoverForBook(d: Database, user: string, id: string): Answer<Option<Cover>> {
    if !Text(user) || !Text(id) then Error
    else if Matches(d, user, id) && d.books[id].isbn in d.covers then
      var c := d.covers[d.books[id].isbn];
      Answered(Some(Cover(c.contentType, c.bytes, Deref(c.etag), "")))
    else Answered(None)
  }

  function EditionStatus(d: Database, isbn: string): Answer<Option<Status>> {
    if !Text(isbn) then Error
    else Answered(if isbn in d.editions then Some(d.editions[isbn].status) else None)
  }

  /** A negative LIMIT is an error, LIMIT 0 yields no row. */
  ghost function PendingEnrichment(d: Database, limit: int): Answer<seq<string>> {
    var q := Listing(set x | x in d.editions && d.editions[x].status != Enriched);
    if limit < 0 then Error else Answered(if |q| <= limit then q else q[..limit])
  }

  // ---- writes whose parameters can be sent ----

  /** `None` is a taken ID or a violated constraint. */
  function Create(d: Database, user: string, id: string, b: Book, now: int): Option<Database> {
    if id in d.books || !Isbn.PassesCheck(b.isbn) then None
    else Some(d.(books := d.books[id := RowOf(Stamp(user, id, b, now))]))
  }

  /** The constraint is checked on a row that matches only. */
  function Update(d: Database, user: string, b: Book, now: int): (Database, Verdict) {
    if !Matches(d, user, b.id) then (d, Missing)
    else if !Isbn.PassesCheck(b.isbn) then (d, Rejected)
    else
      (d.(books := d.books[b.id :=
         RowOf(b).(userID := d.books[b.id].userID, createdAt := d.books[b.id].createdAt, updatedAt := now)]), Succeeded)
  }

  function Delete(d: Database, user: string, id: string): Option<Database> {
    if !Matches(d, user, id) then None else Some(d.(books := d.books - {id}))
  }

  const DEFAULT_EDITION := EditionRow(None, None, None, None, None, 0, Pending, None, false)

  function EnsureEdition(d: Database, isbn: string): Database {
    if isbn in d.editions then d else d.(editions := d.editions[isbn := DEFAULT_EDITION])
  }

  function MarkEditionPending(d: Database, isbn: string): Database {
    if isbn in d.editions then d.(editions := d.editions[isbn := d.editions[isbn].(status := Pending)])
    else d.(editions := d.editions[isbn := DEFAULT_EDITION])
  }

  function SaveEnrichment(d: Database, isbn: string, m: Option<Metadata>, status: Status, now: int): Database {
    if m.None? then
      if isbn in d.editions then d.(editions := d.editions[isbn := d.editions[isbn].(status := status)])
      else d.(editions := d.editions[isbn := DEFAULT_EDITION.(status := status)])
    else
      var v := m.value;
      var excluded := EditionRow(Some(v.title), Some(v.author), Some(v.description), Some(v.publisher),
                                 Some(v.publishedDate), v.pageCount, status, Some(now), false);
      if isbn in d.editions then
        d.(editions := d.editions[isbn := excluded.(hasCover := d.editions[isbn].hasCover)])
      else d.(editions := d.editions[isbn := excluded])
  }

  /** The foreign key rejects a cover without an edition, and the transaction rolls back. */
  function SaveCover(d: Database, isbn: string, c: Cover): Option<Database> {
    if isbn !in d.editions then None
    else Some(d.(covers := d.covers[isbn := CoverRow(c.contentType, c.bytes, Some(c.etag), c.sourceURL)],
                 editions := d.editions[isbn := d.editions[isbn].(hasCover := true)]))
  }

  // ---- the two stores side by side ----

  predicate SameEdition(e: Edition, r: EditionRow) {
    && e.title == Deref(r.title) && e.author == Deref(r.author) && e.description == Deref(r.description)
    && e.publisher == Deref(r.publisher) && e.publishedDate == Deref(r.publishedDate)
    && e.pageCount == r.pageCount && e.status == r.status && e.enrichedAt == r.enrichedAt
    && e.hasCover == r.hasCover
  }

  predicate SameCover(c: Cover, r: CoverRow) {
    c == Cover(r.contentType, r.bytes, Deref(r.etag), r.sourceURL)
  }

  ghost predicate SameBooks(s: Store, d: Database) {
    && s.books.Keys == d.books.Keys
    && (forall id :: id in s.books ==>
          RowOf(s.books[id]) == d.books[id] && s.books[id].coverURL == "" && s.books[id].isbn != "")
  }

  ghost predicate SameEditions(s: Store, d: Database) {
    && s.editions.Keys == d.editions.Keys
    && (forall x :: x in s.editions ==> SameEdition(s.editions[x], d.editions[x]))
  }

  ghost predicate SameCovers(s: Store, d: Database) {
    && s.covers.Keys == d.covers.Keys
    && (forall x :: x in s.covers ==> SameCover(s.covers[x], d.covers[x]))
  }

  ghost predicate Same(s: Store, d: Database) {
    SameBooks(s, d) && SameEditions(s, d) && SameCovers(s, d)
  }

  /** Success with the new value, or rejected. */
  function SucceededOrRejected(r: Option<Database>, d: Database): (Database, Verdict) {
    if r.Some? then (r.value, Succeeded) else (d, Rejected)
  }

  /** A statement whose parameters cannot be sent is rejected as a whole. */
  function PgStep(d: Database, op: Op): (Database, Verdict) {
    if !Sendable(op) then (d, Rejected)
    else
      match op
      case OpCreate(user, id, b, now) => SucceededOrRejected(Create(d, user, id, b, now), d)
      case OpUpdate(user, b, now) => Update(d, user, b, now)
      case OpDelete(user, id) => SucceededOr(Delete(d, user, id), d)
      case OpEnsure(isbn) => (EnsureEdition(d, isbn), Succeeded)
      case OpMarkPending(isbn) => (MarkEditionPending(d, isbn), Succeeded)
      case OpSave(isbn, m, status, now) => (SaveEnrichment(d, isbn, m, status, now), Succeeded)
      case OpCover(isbn, c) => SucceededOrRejected(SaveCover(d, isbn, c), d)
  }

  /** A written book has an acceptable ISBN and no cover URL of its own. */
  predicate CleanBook(b: Book) {
    Isbn.PassesCheck(b.isbn) && b.coverURL == ""
  }

  /** The calls on which the stores agree: parameters that can be sent, fresh IDs, clean books, and
      covers only for known editions. */
  predicate Agreeable(s: Store, op: Op) {
    && Sendable(op)
    && match op
       case OpCreate(_, id, b, _) => id !in s.books && CleanBook(b)
       case OpUpdate(user, b, _) => Owns(s, user, b.id) ==> CleanBook(b)
       case OpCover(isbn, _) => isbn in s.editions
       case _ => true
  }

  /** Matching books written under the same key keep the stores in step. */
  lemma BookWritten(s: Store, d: Database, id: string, b: Book, r: BookRow)
    requires Same(s, d) && RowOf(b) == r && b.coverURL == "" && b.isbn != ""
    ensures Same(s.(books := s.books[id := b]), d.(books := d.books[id := r]))
  {
  }

  lemma BooksMatch(s: Store, d: Database, id: string)
    requires Same(s, d)
    ensures id in s.books <==> id in d.books
    ensures id in s.books ==> RowOf(s.books[id]) == d.books[id]
  {
  }

  lemma UpdateStep(s: Store, d: Database, user: string, b: Book, now: int)
    requires Same(s, d) && Owns(s, user, b.id) && CleanBook(b)
    ensures Update(d, user, b, now).1.Succeeded?
    ensures Same(Catalog.Update(s, user, b, now).value, Update(d, user, b, now).0)
  {
  }

  /** Same rows, and the calls end alike. */
  ghost predicate StepAgrees(s: Store, d: Database, op: Op) {
    Same(MemStep(s, op).0, PgStep(d, op).0) && MemStep(s, op).1 == PgStep(d, op).1
  }

  lemma CreateStep(s: Store, d: Database, user: string, id: string, b: Book, now: int)
    requires Same(s, d) && id !in s.books && CleanBook(b)
    ensures Create(d, user, id, b, now).Some?
    ensures Same(Catalog.Create(s, user, id, b, now), Create(d, user, id, b, now).value)
  {
    BooksMatch(s, d, id);
    BookWritten(s, d, id, Stamp(user, id, b, now), RowOf(Stamp(user, id, b, now)));
  }

  lemma DeleteStep(s: Store, d: Database, user: string, id: string)
    requires Same(s, d) && Text(user) && Text(id)
    ensures StepAgrees(s, d, OpDelete(user, id))
  {
    BooksMatch(s, d, id);
    BookRemoved(s, d, id);
  }

  lemma BookRemoved(s: Store, d: Database, id: string)
    requires Same(s, d)
    ensures Same(s.(books := s.books - {id}), d.(books := d.books - {id}))
  {
  }

  lemma BookStep(s: Store, d: Database, op: Op)
    requires Same(s, d) && Agreeable(s, op) && (op.OpCreate? || op.OpUpdate? || op.OpDelete?)
    ensures StepAgrees(s, d, op)
  {
    match op
    case OpCreate(user, id, b, now) => CreateStep(s, d, user, id, b, now);
    case OpUpdate(user, b, now) =>
      BooksMatch(s, d, b.id);
      if Owns(s, user, b.id) { UpdateStep(s, d, user, b, now); }
    case OpDelete(user, id) => DeleteStep(s, d, user, id);
  }

  /** Matching rows written under the same key keep the stores in step. */
  lemma RowWritten(s: Store, d: Database, isbn: string, e: Edition, r: EditionRow)
    requires Same(s, d) && SameEdition(e, r)
    ensures Same(s.(editions := s.editions[isbn := e]), d.(editions := d.editions[isbn := r]))
  {
  }

  lemma RowsMatch(s: Store, d: Database, isbn: string)
    requires Same(s, d)
    ensures isbn in s.editions <==> isbn in d.editions
    ensures isbn in s.editions ==> SameEdition(s.editions[isbn], d.editions[isbn])
  {
  }

  lemma CoverStep(s: Store, d: Database, x: string, cover: Cover)
    requires Same(s, d) && x in s.editions
    ensures SaveCover(d, x, cover).Some? && Same(Catalog.SaveCover(s, x, cover), SaveCover(d, x, cover).value)
  {
  }

  lemma EnsureStep(s: Store, d: Database, x: string)
    requires Same(s, d)
    ensures Same(Catalog.EnsureEdition(s, x), EnsureEdition(d, x))
    ensures Same(Catalog.MarkEditionPending(s, x), MarkEditionPending(d, x))
  {
    RowsMatch(s, d, x);
    if x in s.editions {
      RowWritten(s, d, x, s.editions[x], d.editions[x]);
      assert d.editions[x := d.editions[x]] == d.editions;
      RowWritten(s, d, x, s.editions[x].(status := Pending), d.editions[x].(status := Pending));
    } else {
      RowWritten(s, d, x, BLANK_EDITION, DEFAULT_EDITION);
    }
  }

  lemma SaveStep(s: Store, d: Database, x: string, m: Option<Metadata>, status: Status, now: int)
    requires Same(s, d)
    ensures Same(Catalog.SaveEnrichment(s, x, m, status, now), SaveEnrichment(d, x, m, status, now))
  {
    RowsMatch(s, d, x);
    var s', d' := Catalog.SaveEnrichment(s, x, m, status, now), SaveEnrichment(d, x, m, status, now);
    RowWritten(s, d, x, s'.editions[x], d'.editions[x]);
  }

  lemma EditionStep(s: Store, d: Database, op: Op)
    requires Same(s, d) && Agreeable(s, op) && !(op.OpCreate? || op.OpUpdate? || op.OpDelete?)
    ensures StepAgrees(s, d, op)
  {
    match op
    case OpEnsure(x) => EnsureStep(s, d, x);
    case OpMarkPending(x) => EnsureStep(s, d, x);
    case OpSave(x, m, status, now) => SaveStep(s, d, x, m, status, now);
    case OpCover(x, c) => CoverStep(s, d, x, c);
  }

  lemma CreateDisagrees(s: Store, d: Database, op: Op)
    requires Same(s, d) && op.OpCreate? && Sendable(op) && !Agreeable(s, op)
    ensures !StepAgrees(s, d, op)
  {
    BooksMatch(s, d, op.id);
    if op.id !in s.books && Isbn.PassesCheck(op.book.isbn) {
      assert MemStep(s, op).0.books[op.id].coverURL != "";
    }
  }

  lemma UpdateDisagrees(s: Store, d: Database, op: Op)
    requires Same(s, d) && op.OpUpdate? && Sendable(op) && !Agreeable(s, op)
    ensures !StepAgrees(s, d, op)
  {
    BooksMatch(s, d, op.book.id);
    if Isbn.PassesCheck(op.book.isbn) {
      assert MemStep(s, op).0.books[op.book.id].coverURL != "";
    }
  }

  lemma CoverDisagrees(s: Store, d: Database, op: Op)
    requires Same(s, d) && op.OpCover? && !Agreeable(s, op)
    ensures !StepAgrees(s, d, op)
  {
    RowsMatch(s, d, op.isbn);
  }

  /** A call keeps the stores in step and ends alike exactly when its texts are free of U+0000 and its
      numbers fit 32 bits, and it does not create under a taken ID, write a book of the caller's
      whose ISBN the constraint rejects or which carries a cover URL, or save a cover for an unknown edition. */
  lemma StepAgreesIff(s: Store, d: Database, op: Op)
    requires Same(s, d)
    ensures StepAgrees(s, d, op) <==> Agreeable(s, op)
  {
    if Agreeable(s, op) {
      if op.OpCreate? || op.OpUpdate? || op.OpDelete? { BookStep(s, d, op); } else { EditionStep(s, d, op); }
    } else if Sendable(op) {
      if op.OpCreate? { CreateDisagrees(s, d, op); }
      else if op.OpUpdate? { UpdateDisagrees(s, d, op); }
      else { CoverDisagrees(s, d, op); }
    }
  }

  /** Text with U+0000 is valid UTF-8 and valid JSON; memory stores it and SQL cannot. */
  lemma NulSeparatesStores(s: Store, d: Database, user: string, id: string, isbn: string, now: int)
    requires Same(s, d) && id !in s.books && Isbn.Shape(isbn)
    ensures var b := BLANK_BOOK.(isbn := isbn, title := [NUL]);
            && MemStep(s, OpCreate(user, id, b, now)).1 == Succeeded
            && PgStep(d, OpCreate(user, id, b, now)) == (d, Rejected)
  {
    var b := BLANK_BOOK.(isbn := isbn, title := [NUL]);
    assert b.title[0] == NUL;
  }

  ghost predicate AgreeableRun(s: Store, ops: seq<Op>)
    decreases ops
  {
    ops != [] ==> Agreeable(s, ops[0]) && AgreeableRun(MemStep(s, ops[0]).0, ops[1..])
  }

  function PgRun(d: Database, ops: seq<Op>): Database
    decreases ops
  {
    if ops == [] then d else PgRun(PgStep(d, ops[0]).0, ops[1..])
  }

  lemma {:induction false} RunsAgree(s: Store, d: Database, ops: seq<Op>)
    requires Same(s, d) && AgreeableRun(s, ops)
    ensures Same(MemRun(s, ops), PgRun(d, ops))
    decreases ops
  {
    if ops != [] {
      StepAgreesIff(s, d, ops[0]);
      RunsAgree(MemStep(s, ops[0]).0, PgStep(d, ops[0]).0, ops[1..]);
    }
  }

  lemma ViewAgrees(s: Store, d: Database, id: string)
    requires Same(s, d) && id in s.books
    ensures id in d.books && s.books[id].userID == d.books[id].userID
    ensures Merge(s.editions, s.books[id]) == ScanBook(d.books[id], Join(d, d.books[id]))
  {
    assert RowOf(s.books[id]) == d.books[id];
    RowsMatch(s, d, s.books[id].isbn);
  }

  lemma GetAgrees(s: Store, d: Database, user: string, id: string)
    requires Same(s, d)
    ensures Get(d, user, id) == Answered(Catalog.Get(s, user, id)) <==> Text(user) && Text(id)
  {
    BooksMatch(s, d, id);
    if id in s.books { ViewAgrees(s, d, id); }
  }

  lemma ShelfAgrees(s: Store, d: Database, user: string)
    requires Same(s, d)
    ensures Shelf(d, user) == Answered(Catalog.Shelf(s, user)) <==> Text(user)
  {
    forall id
      ensures id in s.books <==> id in d.books
      ensures id in s.books ==> s.books[id].userID == d.books[id].userID
      ensures id in s.books ==> Merge(s.editions, s.books[id]) == ScanBook(d.books[id], Join(d, d.books[id]))
    {
      BooksMatch(s, d, id);
      if id in s.books { ViewAgrees(s, d, id); }
    }
    if Text(user) { assert Shelf(d, user).value == Catalog.Shelf(s, user); }
  }

  /** A cover as the query selects it. */
  function Selected(c: Option<Cover>): Option<Cover> {
    if c.Some? then Some(c.value.(sourceURL := "")) else None
  }

  /** Every view, the shelf, the served cover (but for its source URL), every status and every listing
      with a positive limit are the same. */
  ghost predicate ReadsAlike(s: Store, d: Database, user: string, id: string, isbn: string, limit: int) {
    && Get(d, user, id) == Answered(Catalog.Get(s, user, id))
    && Shelf(d, user) == Answered(Catalog.Shelf(s, user))
    && CoverForBook(d, user, id) == Answered(Selected(Catalog.CoverForBook(s, user, id)))
    && EditionStatus(d, isbn) == Answered(StatusOf(s, isbn))
    && (limit > 0 ==> PendingEnrichment(d, limit) == Answered(Catalog.PendingEnrichment(s, limit)))
  }

  /** Stores in step answer a reader alike exactly when what the reader asks for is free of U+0000:
      then SQL fails where memory answers that there is nothing. */
  lemma ReadsAlikeIff(s: Store, d: Database, user: string, id: string, isbn: string, limit: int)
    requires Same(s, d)
    ensures ReadsAlike(s, d, user, id, isbn, limit) <==> Text(user) && Text(id) && Text(isbn)
  {
    GetAgrees(s, d, user, id);
    ShelfAgrees(s, d, user);
    CoversAgree(s, d, user, id);
    RowsMatch(s, d, isbn);
    ListingsAgree(s, d, limit);
  }

  /** From empty stores, any sequence of agreeable calls leaves every reader with the same view
      whichever store is behind the handlers, and a sweep with a positive limit with the same list. */
  lemma MemoryViewIsJoinView(ops: seq<Op>, user: string, id: string, isbn: string, limit: int)
    requires AgreeableRun(EMPTY_STORE, ops) && Text(user) && Text(id) && Text(isbn)
    ensures ReadsAlike(MemRun(EMPTY_STORE, ops), PgRun(EMPTY_DATABASE, ops), user, id, isbn, limit)
  {
    RunsAgree(EMPTY_STORE, EMPTY_DATABASE, ops);
    ReadsAlikeIff(MemRun(EMPTY_STORE, ops), PgRun(EMPTY_DATABASE, ops), user, id, isbn, limit);
  }

  lemma CoversAgree(s: Store, d: Database, user: string, id: string)
    requires Same(s, d)
    ensures CoverForBook(d, user, id) == Answered(Selected(Catalog.CoverForBook(s, user, id))) <==> Text(user) && Text(id)
  {
  }

  /** The two listings are equal exactly for a positive limit, or for limit 0 when nothing is listed:
      otherwise memory lists everything where SQL lists nothing or fails. */
  lemma ListingsAgree(s: Store, d: Database, limit: int)
    requires Same(s, d)
    ensures PendingEnrichment(d, limit) == Answered(Catalog.PendingEnrichment(s, limit))
       <==> limit > 0 || (limit == 0 && NeedsWork(s) == {})
  {
    forall x | x in s.editions ensures s.editions[x].status == d.editions[x].status {
      assert SameEdition(s.editions[x], d.editions[x]);
    }
    assert NeedsWork(s) == set x | x in d.editions && d.editions[x].status != Enriched;
    var q := Listing(NeedsWork(s));
    if NeedsWork(s) == {} { assert q == []; } else { assert |q| > 0; }
  }

  /** Saving a cover keeps the stores in step exactly when it can be sent and the edition exists; one
      that can be sent leaves them apart, not only ending otherwise, when the edition is missing. */
  lemma SaveCoverAgreesIff(s: Store, d: Database, isbn: string, c: Cover)
    requires Same(s, d)
    ensures StepAgrees(s, d, OpCover(isbn, c)) <==> Sendable(OpCover(isbn, c)) && isbn in s.editions
    ensures Sendable(OpCover(isbn, c)) ==>
              (Same(MemStep(s, OpCover(isbn, c)).0, PgStep(d, OpCover(isbn, c)).0) <==> isbn in s.editions)
  {
    StepAgreesIff(s, d, OpCover(isbn, c));
    if isbn !in s.editions {
      assert isbn in MemStep(s, OpCover(isbn, c)).0.covers && isbn !in d.editions;
      assert isbn in MemStep(s, OpCover(isbn, c)).0.editions.Keys;
    }
  }
}
