/** What PATCH means to a reader: alone, repeated, racing, and while the editions change underneath. */
module Patches {
  import opened Catalog
  import opened Handlers
  import Calls

  /** The patch blanks no name that the edition would fill in again. */
  predicate BlanksNothing(s: Store, isbn: string, p: Patch) {
    && (p.title == Some("") ==> EditionNames(s, isbn).0 == "")
    && (p.author == Some("") ==> EditionNames(s, isbn).1 == "")
  }

  /** What request validation guarantees of the names. */
  predicate NamesGiven(p: Patch) { p.title != Some("") && p.author != Some("") }

  /** What a PATCH stores, and what its reader then sees. */
  lemma PatchStores(s: Store, user: string, v: Book, p: Patch, now: int)
    requires Owns(s, user, v.id)
    ensures var s' := AfterPatch(s, user, v, p, now);
            var b := Patched(p, v).(userID := user, createdAt := s.books[v.id].createdAt, updatedAt := now);
            && s'.books == s.books[v.id := b] && Get(s', user, v.id) == Some(Merge(s'.editions, b))
            && (!ChangesIsbn(p, v.isbn) ==> s'.editions == s.editions)
  {
  }

  /** PATCH is partial on the view: after a PATCH that keeps the ISBN the reader sees the previous
      view with just the patched fields (and the time) replaced, although the merged view was
      written back, exactly when it blanks no name the edition knows; the request validation
      admits only non-empty names. */
  lemma PatchIsPartial(s: Store, user: string, id: string, p: Patch, now: int)
    requires Owns(s, user, id) && s.books[id].id == id
    requires !ChangesIsbn(p, s.books[id].isbn)
    ensures var v := Get(s, user, id).value;
            (Get(AfterPatch(s, user, v, p, now), user, id) == Some(Patched(p, v).(updatedAt := now))
             <==> BlanksNothing(s, v.isbn, p))
  {
  }

  /** With a new ISBN, patched names are used and unpatched names the reader saw are kept; only a
      name that was missing comes from the new edition. */
  lemma PatchToNewIsbn(s: Store, user: string, id: string, p: Patch, now: int)
    requires Owns(s, user, id) && s.books[id].id == id
    requires p.isbn.Some? && p.isbn.value != s.books[id].isbn && p.isbn.value != ""
    requires NamesGiven(p)
    ensures var v, isbn := Get(s, user, id).value, p.isbn.value;
            var w := Get(AfterPatch(s, user, v, p, now), user, id).value;
            && w.isbn == isbn
            && w.title == (if Or(p.title, v.title) != "" then Or(p.title, v.title) else EditionNames(s, isbn).0)
            && w.author == (if Or(p.author, v.author) != "" then Or(p.author, v.author) else EditionNames(s, isbn).1)
            && (w.status, w.rating, w.opinion, w.tags)
                 == (Or(p.status, v.status), Or(p.rating, v.rating), Or(p.opinion, v.opinion), Or(p.tags, v.tags))
  {
    var v := Get(s, user, id).value;
    var s' := AfterPatch(s, user, v, p, now);
    PatchStores(s, user, v, p, now);
    assert EditionNames(s', p.isbn.value) == EditionNames(s, p.isbn.value);
  }

  function EditionData(b: Book): (string, string, string, int, string, Option<int>, bool) {
    (b.description, b.publisher, b.publishedDate, b.pageCount, b.enrichmentStatus, b.enrichedAt, b.hasCover)
  }

  /** What an edition contributes to any book besides the names. */
  function EditionDataOf(editions: map<string, Edition>, isbn: string): (string, string, string, int, string, Option<int>, bool) {
    EditionData(Merge(editions, ToBook(BookWrite(isbn, "", "", "", 0, "", []))))
  }

  lemma MergeData(editions: map<string, Edition>, b: Book)
    ensures EditionData(Merge(editions, b)) == EditionDataOf(editions, b.isbn)
  {
  }

  /** With a new ISBN, everything the old edition contributed besides the names is replaced by what
      any book with the new ISBN shows. */
  lemma NewIsbnShowsNewEdition(s: Store, user: string, id: string, p: Patch, now: int)
    requires Owns(s, user, id) && s.books[id].id == id
    requires p.isbn.Some? && p.isbn.value != s.books[id].isbn && p.isbn.value != ""
    ensures var v := Get(s, user, id).value;
            EditionData(Get(AfterPatch(s, user, v, p, now), user, id).value) == EditionDataOf(s.editions, p.isbn.value)
  {
    var v, isbn := Get(s, user, id).value, p.isbn.value;
    var s' := AfterPatch(s, user, v, p, now);
    PatchStores(s, user, v, p, now);
    MergeData(s'.editions, s'.books[id]);
    assert s'.editions[isbn] == EditionOr(s, isbn, BLANK_EDITION);
  }

  /** A book without its names, its update time and what the edition contributes. */
  function Bare(b: Book): Book {
    b.(title := "", author := "", updatedAt := 0, description := "", publisher := "", publishedDate := "",
       pageCount := 0, enrichmentStatus := "", enrichedAt := None, hasCover := false)
  }

  lemma MergeKeepsOwn(editions: map<string, Edition>, b: Book)
    ensures Bare(Merge(editions, b)) == Bare(b)
    ensures b.title != "" ==> Merge(editions, b).title == b.title
    ensures b.author != "" ==> Merge(editions, b).author == b.author
  {
  }

  /** The price of writing the view back: a name shown when a PATCH arrives is frozen into the stored
      book, and no later state of the editions changes what the reader sees of it. */
  lemma PatchFreezesNames(s: Store, user: string, id: string, p: Patch, now: int, later: map<string, Edition>)
    requires Owns(s, user, id) && s.books[id].id == id
    ensures var v := Get(s, user, id).value;
            var b := AfterPatch(s, user, v, p, now).books[id];
            && (Or(p.title, v.title) != "" ==> Merge(later, b).title == Or(p.title, v.title))
            && (Or(p.author, v.author) != "" ==> Merge(later, b).author == Or(p.author, v.author))
  {
    var v := Get(s, user, id).value;
    assert AfterPatch(s, user, v, p, now).books[id].title == Or(p.title, v.title);
    assert AfterPatch(s, user, v, p, now).books[id].author == Or(p.author, v.author);
  }

  /** The handler reads a view from one store and writes it back to a later one. If meanwhile the
      worker or other users changed anything but the book itself, the reader still gets the edition's
      current data and the patched own fields: no stale edition field is resurrected by the write,
      only the names as read are frozen. */
  lemma PatchAcrossChanges(before: Store, s: Store, user: string, id: string, p: Patch, now: int)
    requires Owns(before, user, id) && before.books[id].id == id && id in s.books && s.books[id] == before.books[id]
    requires !ChangesIsbn(p, before.books[id].isbn) && NamesGiven(p)
    ensures var v := Get(before, user, id).value;
            var w := Get(AfterPatch(s, user, v, p, now), user, id).value;
            && EditionData(w) == EditionData(Get(s, user, id).value)
            && w.title == (if Or(p.title, v.title) != "" then Or(p.title, v.title) else EditionNames(s, v.isbn).0)
            && w.author == (if Or(p.author, v.author) != "" then Or(p.author, v.author) else EditionNames(s, v.isbn).1)
            && Bare(w) == Bare(Patched(p, v))
  {
    var v := Get(before, user, id).value;
    PatchStores(s, user, v, p, now);
    var b := AfterPatch(s, user, v, p, now).books[id];
    MergeData(s.editions, b);
    MergeData(s.editions, s.books[id]);
    MergeKeepsOwn(s.editions, b);
    MergeKeepsOwn(before.editions, before.books[id]);
  }

  function Covered<T(==)>(p: Option<T>, q: Option<T>, t: T): bool { p.None? || q.Some? || p.value == t }

  /** Every field that `p` would change is set by `q` as well. */
  predicate Overridden(p: Patch, q: Patch, v: Book) {
    && Covered(p.title, q.title, v.title) && Covered(p.author, q.author, v.author)
    && Covered(p.status, q.status, v.status) && Covered(p.rating, q.rating, v.rating)
    && Covered(p.opinion, q.opinion, v.opinion) && Covered(p.tags, q.tags, v.tags)
  }

  lemma PatchedOver(p: Patch, q: Patch, v: Book)
    requires !ChangesIsbn(p, v.isbn) && !ChangesIsbn(q, v.isbn)
    ensures Patched(q, Patched(p, v)) == Patched(q, v) <==> Overridden(p, q, v)
  {
  }

  lemma MergePatched(editions: map<string, Edition>, b: Book, q: Patch, now: int)
    requires NamesGiven(q) && !ChangesIsbn(q, b.isbn)
    ensures var w := Patched(q, Merge(editions, b)).(updatedAt := now);
            Merge(editions, w) == w
  {
  }

  /** Two PATCHes that read the same view: the later write wins as a whole, so the outcome is that of
      applying both in turn exactly when the second overrides every change of the first. */
  lemma RacingPatches(s: Store, user: string, id: string, p: Patch, q: Patch, first: int, second: int)
    requires Owns(s, user, id) && s.books[id].id == id
    requires !ChangesIsbn(p, s.books[id].isbn) && !ChangesIsbn(q, s.books[id].isbn) && NamesGiven(p) && NamesGiven(q)
    ensures var v := Get(s, user, id).value;
            var s' := AfterPatch(AfterPatch(s, user, v, p, first), user, v, q, second);
            && Get(s', user, id) == Some(Patched(q, v).(updatedAt := second))
            && (Get(s', user, id) == Some(Patched(q, Patched(p, v)).(updatedAt := second)) <==> Overridden(p, q, v))
  {
    var v := Get(s, user, id).value;
    PatchStores(s, user, v, p, first);
    PatchStores(AfterPatch(s, user, v, p, first), user, v, q, second);
    MergePatched(s.editions, s.books[id], q, second);
    PatchedOver(p, q, v);
    SameUntimed(Patched(q, Patched(p, v)), Patched(q, v), second);
  }

  lemma SameUntimed(a: Book, b: Book, now: int)
    requires a.updatedAt == b.updatedAt
    ensures a.(updatedAt := now) == b.(updatedAt := now) <==> a == b
  {
  }

  /** What may happen to a book between two reads: its owner's PATCHes, other people's calls, and
      whatever requests and workers do to the shared editions and covers. */
  datatype Event = Mine(patch: Patch, now: int) | Other(op: Calls.Op)

  predicate EventOk(s: Store, user: string, e: Event) {
    match e
    case Mine(p, _) => NamesGiven(p)
    case Other(op) => !Calls.CalledBy(op, user) && (op.OpCreate? ==> op.id !in s.books)
  }

  /** The event neither moves the book to another edition nor changes an edition's data. */
  predicate LeavesEdition(s: Store, id: string, e: Event) {
    match e
    case Mine(p, _) => id in s.books ==> !ChangesIsbn(p, s.books[id].isbn)
    case Other(op) => !op.OpMarkPending? && !op.OpSave? && !op.OpCover?
  }

  /** A PATCH of a book the caller does not own changes nothing. */
  function EventStep(s: Store, user: string, id: string, e: Event): Store {
    match e
    case Mine(p, now) =>
      var v := Get(s, user, id);
      if v.Some? && Owns(s, user, v.value.id) then AfterPatch(s, user, v.value, p, now) else s
    case Other(op) => Calls.MemStep(s, op).0
  }

  predicate EventsOk(s: Store, user: string, id: string, events: seq<Event>)
    decreases events
  {
    events != [] ==> EventOk(s, user, events[0]) && EventsOk(EventStep(s, user, id, events[0]), user, id, events[1..])
  }

  predicate EditionLeft(s: Store, user: string, id: string, events: seq<Event>)
    decreases events
  {
    events != [] ==>
      LeavesEdition(s, id, events[0]) && EditionLeft(EventStep(s, user, id, events[0]), user, id, events[1..])
  }

  function EventsRun(s: Store, user: string, id: string, events: seq<Event>): Store
    decreases events
  {
    if events == [] then s else EventsRun(EventStep(s, user, id, events[0]), user, id, events[1..])
  }

  function PatchedBy(v: Book, e: Event): Book { if e.Mine? then Patched(e.patch, v) else v }

  function PatchedAll(v: Book, events: seq<Event>): Book
    decreases events
  {
    if events == [] then v else PatchedAll(PatchedBy(v, events[0]), events[1..])
  }

  function Untimed(b: Book): Book { b.(updatedAt := 0) }

  lemma {:induction false} PatchedAllUntimed(v: Book, w: Book, events: seq<Event>)
    requires Untimed(v) == Untimed(w)
    ensures Untimed(PatchedAll(v, events)) == Untimed(PatchedAll(w, events))
    decreases events
  {
    if events != [] { PatchedAllUntimed(PatchedBy(v, events[0]), PatchedBy(w, events[0]), events[1..]); }
  }

  lemma EventView(s: Store, user: string, id: string, e: Event)
    requires Owns(s, user, id) && s.books[id].id == id && EventOk(s, user, e) && LeavesEdition(s, id, e)
    ensures var s' := EventStep(s, user, id, e);
            && Owns(s', user, id) && s'.books[id].id == id
            && Untimed(Get(s', user, id).value)
                 == Untimed(PatchedBy(Get(s, user, id).value, e))
  {
    match e
    case Mine(p, now) => PatchIsPartial(s, user, id, p, now);
    case Other(op) =>
      if op.OpEnsure? { EnsureEditionIsInvisible(s, op.isbn, user, id); }
  }

  /** Any number of PATCHes that keep the ISBN, interleaved with other people's calls and with
      editions being ensured, leave the owner with the original view with exactly those patches
      applied in order: no event is lost, repeated or leaks into another field. */
  lemma {:induction false} PatchesCompose(s: Store, user: string, id: string, events: seq<Event>)
    requires Owns(s, user, id) && s.books[id].id == id
    requires EventsOk(s, user, id, events) && EditionLeft(s, user, id, events)
    ensures var s' := EventsRun(s, user, id, events);
            Get(s', user, id).Some? && Untimed(Get(s', user, id).value) == Untimed(PatchedAll(Get(s, user, id).value, events))
    decreases events
  {
    if events != [] {
      var e, v := events[0], Get(s, user, id).value;
      var s' := EventStep(s, user, id, e);
      EventView(s, user, id, e);
      PatchesCompose(s', user, id, events[1..]);
      PatchedAllUntimed(Get(s', user, id).value, PatchedBy(v, e), events[1..]);
    }
  }

  /** What patches do to the own fields and to each name depends on nothing else. */
  lemma {:induction false} PatchedAllAlike(v: Book, w: Book, events: seq<Event>)
    requires Bare(v) == Bare(w)
    ensures Bare(PatchedAll(v, events)) == Bare(PatchedAll(w, events))
    ensures v.title == w.title ==> PatchedAll(v, events).title == PatchedAll(w, events).title
    ensures v.author == w.author ==> PatchedAll(v, events).author == PatchedAll(w, events).author
    decreases events
  {
    if events != [] { PatchedAllAlike(PatchedBy(v, events[0]), PatchedBy(w, events[0]), events[1..]); }
  }

  /** `w` is `v` as far as its own fields go, and in every name that `v` has. */
  predicate Carries(v: Book, w: Book) {
    && Bare(v) == Bare(w)
    && (v.title != "" ==> w.title == v.title) && (v.author != "" ==> w.author == v.author)
  }

  lemma StoredStep(s: Store, user: string, id: string, e: Event)
    requires Owns(s, user, id) && s.books[id].id == id && EventOk(s, user, e)
    ensures var s' := EventStep(s, user, id, e);
            && Owns(s', user, id) && s'.books[id].id == id
            && Carries(PatchedBy(s.books[id], e), s'.books[id])
  {
    match e
    case Mine(p, now) =>
      PatchStores(s, user, Get(s, user, id).value, p, now);
      MergeKeepsOwn(s.editions, s.books[id]);
    case Other(op) =>
  }

  /** No PATCH takes a name away. */
  lemma NamesStay(v: Book, e: Event, s: Store, user: string)
    requires EventOk(s, user, e)
    ensures v.title != "" ==> PatchedBy(v, e).title != ""
    ensures v.author != "" ==> PatchedBy(v, e).author != ""
  {
  }

  lemma {:induction false} StoredRun(s: Store, user: string, id: string, events: seq<Event>)
    requires Owns(s, user, id) && s.books[id].id == id && EventsOk(s, user, id, events)
    ensures Owns(EventsRun(s, user, id, events), user, id)
    ensures var b, b' := s.books[id], EventsRun(s, user, id, events).books[id];
            && Bare(b') == Bare(PatchedAll(b, events))
            && (b.title != "" ==> b'.title == PatchedAll(b, events).title && b'.title != "")
            && (b.author != "" ==> b'.author == PatchedAll(b, events).author && b'.author != "")
    decreases events
  {
    if events != [] {
      var s', b := EventStep(s, user, id, events[0]), PatchedBy(s.books[id], events[0]);
      StoredStep(s, user, id, events[0]);
      NamesStay(s.books[id], events[0], s, user);
      StoredRun(s', user, id, events[1..]);
      PatchedAllAlike(b, s'.books[id], events[1..]);
    }
  }

  /** Whatever workers, refreshes and other users do in between, and whichever ISBNs the PATCHes move
      the book to: the owner's own fields are those of the PATCHes applied in order, everything the
      edition contributes is that of the current edition, and a name the book has itself is changed
      by PATCHes only. */
  lemma PatchesUnderEnrichment(s: Store, user: string, id: string, events: seq<Event>)
    requires Owns(s, user, id) && s.books[id].id == id && EventsOk(s, user, id, events)
    ensures var b, s' := s.books[id], EventsRun(s, user, id, events);
            && Owns(s', user, id)
            && var w := Get(s', user, id).value;
            && Bare(w) == Bare(PatchedAll(b, events))
            && EditionData(w) == EditionDataOf(s'.editions, w.isbn)
            && (b.title != "" ==> w.title == PatchedAll(b, events).title)
            && (b.author != "" ==> w.author == PatchedAll(b, events).author)
  {
    var b, s' := s.books[id], EventsRun(s, user, id, events);
    StoredRun(s, user, id, events);
    MergeKeepsOwn(s'.editions, s'.books[id]);
    MergeData(s'.editions, s'.books[id]);
  }

  /** So from the first PATCH that shows or sets a name on, no edition has a say in it any more. */
  lemma NamesFixedByPatch(s: Store, user: string, id: string, p: Patch, now: int, later: seq<Event>)
    requires Owns(s, user, id) && s.books[id].id == id && EventsOk(s, user, id, [Mine(p, now)] + later)
    ensures var v := Get(s, user, id).value;
            var w := Get(EventsRun(s, user, id, [Mine(p, now)] + later), user, id);
            && w.Some?
            && (Or(p.title, v.title) != "" ==> w.value.title == PatchedAll(Patched(p, v), later).title)
            && (Or(p.author, v.author) != "" ==> w.value.author == PatchedAll(Patched(p, v), later).author)
  {
    var all, v := [Mine(p, now)] + later, Get(s, user, id).value;
    assert all[0] == Mine(p, now) && all[1..] == later;
    var s' := EventStep(s, user, id, Mine(p, now));
    PatchStores(s, user, v, p, now);
    PatchesUnderEnrichment(s', user, id, later);
    PatchedAllAlike(s'.books[id], Patched(p, v), later);
  }
}
