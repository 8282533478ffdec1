/** Books, shared editions and covers, and what each operation of the in-memory
    repository does to them, as functions on values. */
module Catalog {
  import opened Order

  datatype Option<+T> = None | Some(value: T)

  function Or<T>(o: Option<T>, t: T): T { if o.Some? then o.value else t }

  datatype Status = Pending | Enriched | Failed

  datatype Metadata = Metadata(
    title: string, author: string, description: string,
    publisher: string, publishedDate: string, pageCount: int)

  datatype Cover = Cover(contentType: string, bytes: seq<bv8>, etag: string, sourceURL: string)

  /** The shared per-ISBN record. Instants are microseconds. */
  datatype Edition = Edition(
    title: string, author: string, description: string,
    publisher: string, publishedDate: string, pageCount: int,
    status: Status, enrichedAt: Option<int>, hasCover: bool)

  const BLANK_EDITION := Edition("", "", "", "", "", 0, Pending, None, false)

  /** A user's book; the fields from `description` on are derived when it is read. */
  datatype Book = Book(
    id: string, userID: string, isbn: string, title: string, author: string,
    status: string, rating: int, opinion: string, tags: seq<string>,
    createdAt: int, updatedAt: int,
    description: string, publisher: string, publishedDate: string, pageCount: int,
    enrichmentStatus: string, enrichedAt: Option<int>, hasCover: bool, coverURL: string)

  const BLANK_BOOK := Book("", "", "", "", "", "", 0, "", [], 0, 0, "", "", "", 0, "", None, false, "")

  const STATUS_TO_READ := "to_read"

  datatype Store = Store(
    books: map<string, Book>, editions: map<string, Edition>, covers: map<string, Cover>)

  function StatusText(s: Status): string {
    match s
    case Pending => "pending"
    case Enriched => "enriched"
    case Failed => "failed"
  }

  /** The status shown for a book: its edition's, "skipped" without an ISBN, else "pending". */
  function EnrichmentStatusFor(isbn: string, edition: Option<Status>): string {
    if edition.Some? then StatusText(edition.value)
    else if isbn == "" then "skipped"
    else StatusText(Pending)
  }

  /** An edition's names fill in only where the book has none of its own. */
  function CanonicalNames(b: Book, title: string, author: string): Book {
    b.(title := if b.title == "" then title else b.title,
       author := if b.author == "" then author else b.author)
  }

  /** The view of a book: its own fields merged with the shared edition. */
  function Merge(editions: map<string, Edition>, b: Book): Book {
    if b.isbn in editions && b.isbn != "" then
      var e := editions[b.isbn];
      CanonicalNames(b, e.title, e.author).(
        description := e.description, publisher := e.publisher, publishedDate := e.publishedDate,
        pageCount := e.pageCount, enrichmentStatus := StatusText(e.status),
        enrichedAt := e.enrichedAt, hasCover := e.hasCover)
    else
      b.(description := "", publisher := "", publishedDate := "", pageCount := 0,
         enrichedAt := None, hasCover := false,
         enrichmentStatus := EnrichmentStatusFor(b.isbn, None))
  }

  // ---- books, scoped to their owner ----

  predicate Owns(s: Store, user: string, id: string) {
    id in s.books && s.books[id].userID == user
  }

  function Stamp(user: string, id: string, b: Book, now: int): Book {
    b.(id := id, userID := user, status := if b.status == "" then STATUS_TO_READ else b.status,
       createdAt := now, updatedAt := now)
  }

  function Create(s: Store, user: string, id: string, b: Book, now: int): Store {
    s.(books := s.books[id := Stamp(user, id, b, now)])
  }

  function Get(s: Store, user: string, id: string): Option<Book> {
    if Owns(s, user, id) then Some(Merge(s.editions, s.books[id])) else None
  }

  /** `None` stands for ErrNotFound, here and in `Delete`. */
  function Update(s: Store, user: string, b: Book, now: int): Option<Store> {
    if !Owns(s, user, b.id) then None
    else Some(s.(books := s.books[b.id := b.(userID := user, createdAt := s.books[b.id].createdAt, updatedAt := now)]))
  }

  function Delete(s: Store, user: string, id: string): Option<Store> {
    if !Owns(s, user, id) then None else Some(s.(books := s.books - {id}))
  }

  /** The caller's books, merged. */
  function Shelf(s: Store, user: string): map<string, Book> {
    map id | id in s.books && s.books[id].userID == user :: Merge(s.editions, s.books[id])
  }

  function CoverForBook(s: Store, user: string, id: string): Option<Cover> {
    if Owns(s, user, id) && s.books[id].isbn in s.covers then Some(s.covers[s.books[id].isbn]) else None
  }

  // ---- editions and covers, shared by everyone ----

  function EditionOr(s: Store, isbn: string, fallback: Edition): Edition {
    if isbn in s.editions then s.editions[isbn] else fallback
  }

  function StatusOf(s: Store, isbn: string): Option<Status> {
    if isbn in s.editions then Some(s.editions[isbn].status) else None
  }

  function EnsureEdition(s: Store, isbn: string): Store {
    s.(editions := s.editions[isbn := EditionOr(s, isbn, BLANK_EDITION)])
  }

  function MarkEditionPending(s: Store, isbn: string): Store {
    s.(editions := s.editions[isbn := EditionOr(s, isbn, BLANK_EDITION).(status := Pending)])
  }

  function Filled(e: Edition, m: Metadata, now: int): Edition {
    e.(title := m.title, author := m.author, description := m.description, publisher := m.publisher,
       publishedDate := m.publishedDate, pageCount := m.pageCount, enrichedAt := Some(now))
  }

  /** Without metadata only the status changes. */
  function SaveEnrichment(s: Store, isbn: string, m: Option<Metadata>, status: Status, now: int): Store {
    var e := EditionOr(s, isbn, BLANK_EDITION).(status := status);
    s.(editions := s.editions[isbn := if m.Some? then Filled(e, m.value, now) else e])
  }

  function SaveCover(s: Store, isbn: string, c: Cover): Store {
    s.(covers := s.covers[isbn := c],
       editions := s.editions[isbn := EditionOr(s, isbn, BLANK_EDITION).(hasCover := true)])
  }

  /** The editions the sweep still has to deal with. */
  function NeedsWork(s: Store): set<string> {
    set x | x in s.editions && s.editions[x].status != Enriched
  }

  function Truncated(q: seq<string>, limit: int): seq<string> {
    if limit > 0 && |q| > limit then q[..limit] else q
  }

  ghost function PendingEnrichment(s: Store, limit: int): seq<string> {
    Truncated(Listing(NeedsWork(s)), limit)
  }

  /** Storing the bytes, finding the row and rewriting it amounts to one update. */
  lemma RowRewritten(s: Store, isbn: string, e: Edition)
    ensures var s' := EnsureEdition(s, isbn);
            s'.(editions := s'.editions[isbn := e]) == s.(editions := s.editions[isbn := e])
  {
  }

  // ---- what a reader sees, in plain terms ----

  /** The status text of a book in view of its edition. */
  predicate StatusShown(s: Store, isbn: string, text: string) {
    var row := isbn != "" && isbn in s.editions;
    && (text == "enriched" <==> row && s.editions[isbn].status == Enriched)
    && (text == "failed" <==> row && s.editions[isbn].status == Failed)
    && (text == "pending" <==> isbn != "" && (row ==> s.editions[isbn].status == Pending))
    && (text == "skipped" <==> isbn == "")
  }

  /** The names of the edition as far as a book with this ISBN can see them. */
  function EditionNames(s: Store, isbn: string): (string, string) {
    if isbn in s.editions && isbn != "" then (s.editions[isbn].title, s.editions[isbn].author) else ("", "")
  }

  /** What the edition contributes to a view besides names and status. */
  predicate EditionShown(s: Store, v: Book) {
    var e := if v.isbn != "" && v.isbn in s.editions then s.editions[v.isbn] else BLANK_EDITION;
    && v.description == e.description && v.publisher == e.publisher && v.publishedDate == e.publishedDate
    && v.pageCount == e.pageCount && v.enrichedAt == e.enrichedAt && v.hasCover == e.hasCover
  }

  /** A view consists of the stored own fields, each missing name filled in from the edition, the
      edition's data, and its status as one of four words. */
  lemma ViewExactly(s: Store, user: string, id: string)
    requires Owns(s, user, id)
    ensures Get(s, user, id).Some?
    ensures var v, b := Get(s, user, id).value, s.books[id];
            && v.id == b.id && v.userID == b.userID && v.isbn == b.isbn && v.status == b.status && v.rating == b.rating
            && v.opinion == b.opinion && v.tags == b.tags && v.createdAt == b.createdAt && v.updatedAt == b.updatedAt
            && v.title == (if b.title != "" then b.title else EditionNames(s, b.isbn).0)
            && v.author == (if b.author != "" then b.author else EditionNames(s, b.isbn).1)
            && EditionShown(s, v) && StatusShown(s, v.isbn, v.enrichmentStatus)
  {
  }

  /** A blank edition: everything empty. */
  lemma BlankEdition()
    ensures BLANK_EDITION.status == Pending && BLANK_EDITION.title == "" && BLANK_EDITION.author == ""
    ensures BLANK_EDITION.description == "" && BLANK_EDITION.publisher == "" && BLANK_EDITION.publishedDate == ""
    ensures BLANK_EDITION.pageCount == 0 && BLANK_EDITION.enrichedAt == None && !BLANK_EDITION.hasCover
  {
  }

  /** The shelf holds exactly what can be got one by one. */
  lemma ShelfIsViews(s: Store, user: string, id: string)
    ensures id in Shelf(s, user) <==> Get(s, user, id).Some?
    ensures id in Shelf(s, user) ==> Some(Shelf(s, user)[id]) == Get(s, user, id)
  {
  }

  /** Deleting succeeds for exactly the books one can get; then the book and its cover are gone for
      everybody, and nothing else is. */
  lemma DeletedIsGone(s: Store, user: string, id: string, anyone: string, other: string)
    ensures Delete(s, user, id).Some? <==> Get(s, user, id).Some?
    ensures Delete(s, user, id).Some? ==>
              var s' := Delete(s, user, id).value;
              && Get(s', anyone, id).None? && CoverForBook(s', anyone, id).None?
              && (other != id ==> Get(s', anyone, other) == Get(s, anyone, other)
                                  && CoverForBook(s', anyone, other) == CoverForBook(s, anyone, other))
  {
  }

  // ---- properties of the view ----

  /** Merging a merged book changes nothing, so writing a view back is absorbed. */
  lemma MergeIdempotent(editions: map<string, Edition>, b: Book)
    ensures Merge(editions, Merge(editions, b)) == Merge(editions, b)
  {
  }

  /** Of what a stored book carries in its derived fields, readers see the cover URL and nothing else. */
  lemma DerivedFieldsDoNotLeak(editions: map<string, Edition>, a: Book, b: Book)
    requires a.(description := b.description, publisher := b.publisher, publishedDate := b.publishedDate,
                pageCount := b.pageCount, enrichmentStatus := b.enrichmentStatus,
                enrichedAt := b.enrichedAt, hasCover := b.hasCover, coverURL := b.coverURL) == b
    ensures Merge(editions, a) == Merge(editions, b) <==> a.coverURL == b.coverURL
  {
  }

  /** Giving an ISBN its pending row changes what no reader sees. */
  lemma EnsureEditionIsInvisible(s: Store, isbn: string, user: string, id: string)
    ensures Get(EnsureEdition(s, isbn), user, id) == Get(s, user, id)
  {
  }

  /** A cover flag is set exactly for the ISBNs with a stored cover. */
  predicate CoversConsistent(s: Store) {
    && (forall x :: x in s.covers ==> x in s.editions && s.editions[x].hasCover)
    && (forall x :: x in s.editions && s.editions[x].hasCover ==> x in s.covers)
  }

  /** With consistent flags, a view shows a cover exactly when the cover endpoint serves one. */
  lemma CoverShownIffServed(s: Store, user: string, id: string)
    requires CoversConsistent(s)
    requires Owns(s, user, id) && s.books[id].isbn != ""
    ensures Get(s, user, id).value.hasCover <==> CoverForBook(s, user, id).Some?
  {
  }

  /** A sweep of `limit` entries offers an unfinished ISBN exactly when fewer than `limit`
      unfinished ISBNs sort below it. */
  lemma SweptIff(s: Store, x: string, limit: int)
    requires limit > 0 && x in NeedsWork(s)
    ensures x in PendingEnrichment(s, limit) <==> |Below(NeedsWork(s), x)| < limit
  {
    var k: nat := limit;
    ListedWithin(NeedsWork(s), x, k);
    var q := Listing(NeedsWork(s));
    assert PendingEnrichment(s, limit) == q[..if k <= |q| then k else |q|];
  }

  /** Every edition row is either enriched or in the untruncated listing, never both, and the
      listing is the sorted duplicate-free prefix. */
  lemma SweepListing(s: Store, limit: int)
    requires limit > 0
    ensures forall x :: x in s.editions ==> (s.editions[x].status == Enriched <==> x !in PendingEnrichment(s, 0))
    ensures forall x :: x in PendingEnrichment(s, 0) ==> x in s.editions
    ensures PendingEnrichment(s, limit) <= PendingEnrichment(s, 0)
    ensures Ascending(PendingEnrichment(s, limit))
    ensures |PendingEnrichment(s, limit)| == if |NeedsWork(s)| < limit then |NeedsWork(s)| else limit
  {
  }
}
