/** The in-memory repository: maps of pointers whose targets are updated in place. */
module MemoryStores {
  import opened Order
  import opened Catalog
  import Calls

  /** A pointer to a book: `*b` is `val`, and `cp := *b` is a new cell holding `val`. */
  class BookRef {
    var val: Book
    constructor (b: Book)
      ensures val == b
    { val := b; }
  }

  /** Editions are updated in place; `key` is the one map entry a cell belongs to. */
  class EditionRef {
    var val: Edition
    ghost const key: string
    constructor (e: Edition, ghost key: string)
      ensures val == e && this.key == key
    { val := e; this.key := key; }
  }

  class CoverRef {
    var val: Cover
    constructor (c: Cover)
      ensures val == c
    { val := c; }
  }

  class MemoryStore {
    var books: map<string, BookRef>
    var editions: map<string, EditionRef>
    var covers: map<string, CoverRef>

    /** The store and every cell reachable from its maps. */
    ghost var Repr: set<object>

    ghost predicate Valid()
      reads this, Repr
      ensures Valid() ==> this in Repr
    {
      && this in Repr
      && (forall k :: k in books ==> books[k] in Repr)
      && (forall k :: k in editions ==> editions[k] in Repr && editions[k].key == k)
      && (forall k :: k in covers ==> covers[k] in Repr)
    }

    ghost function Books(): map<string, Book>
      requires Valid()
      reads this, Repr
    { map k | k in books :: books[k].val }

    ghost function Editions(): map<string, Edition>
      requires Valid()
      reads this, Repr
    { map k | k in editions :: editions[k].val }

    ghost function Covers(): map<string, Cover>
      requires Valid()
      reads this, Repr
    { map k | k in covers :: covers[k].val }

    ghost function Model(): Store
      requires Valid()
      reads this, Repr
    { Store(Books(), Editions(), Covers()) }

    constructor ()
      ensures Valid() && fresh(Repr)
      ensures Model() == Store(map[], map[], map[])
    {
      books, editions, covers := map[], map[], map[];
      Repr := {this};
    }

    /** Files a book under its ID. */
    method PutBook(b: BookRef)
      requires Valid()
      modifies this
      ensures Valid() && Repr == old(Repr) + {b}
      ensures Model() == old(Model()).(books := old(Books())[b.val.id := b.val])
    {
      books := books[b.val.id := b];
      Repr := Repr + {b};
      assert Editions() == old(Editions()) && Covers() == old(Covers());
      assert Books() == old(Books())[b.val.id := b.val];
    }

    /** Assigns to a cell of a book, whoever holds it. */
    method SetBook(b: BookRef, v: Book)
      requires Valid()
      modifies b
      ensures Valid() && b.val == v
      ensures Model() == old(Model()).(books := Overwritten(books, b, v, old(Books())))
      ensures b !in Repr ==> Model() == old(Model())
    {
      b.val := v;
      assert Editions() == old(Editions()) && Covers() == old(Covers());
      assert Books() == Overwritten(books, b, v, old(Books()));
      if b !in Repr { assert Books() == old(Books()); }
    }

    /** `id` is the freshly minted UUID. The pointer is handed over to the store; handing over one that
        the store holds already changes what is found under its old keys, too. */
    method Create(user: string, b: BookRef, id: string, now: int)
      requires Valid()
      modifies this, b
      ensures Valid() && Repr == old(Repr) + {b}
      ensures b.val == Stamp(user, id, old(b.val), now)
      ensures Model() == old(Model()).(books := Overwritten(old(books), b, b.val, old(Books()))[id := b.val])
      ensures b !in old(Repr) ==> Model() == Catalog.Create(old(Model()), user, id, old(b.val), now)
    {
      SetBook(b, b.val.(id := id, userID := user,
                        status := if b.val.status == "" then STATUS_TO_READ else b.val.status,
                        createdAt := now, updatedAt := now));
      PutBook(b);
    }

    method OwnedBook(user: string, id: string) returns (b: BookRef?)
      requires Valid()
      ensures b != null <==> Owns(Model(), user, id)
      ensures b != null ==> b == books[id]
    {
      if id !in books || books[id].val.userID != user {
        return null;
      }
      return books[id];
    }

    /** Merges the shared edition into a copy of a book, field by field. */
    method ApplyEdition(b: BookRef)
      requires Valid() && b !in Repr
      modifies b
      ensures b.val == Merge(Model().editions, old(b.val))
    {
      if b.val.isbn in editions && b.val.isbn != "" {
        var e := editions[b.val.isbn];
        ApplyCanonicalNames(b, e.val.title, e.val.author);
        b.val := b.val.(description := e.val.description, publisher := e.val.publisher,
                        publishedDate := e.val.publishedDate, pageCount := e.val.pageCount);
        b.val := b.val.(enrichmentStatus := StatusText(e.val.status), enrichedAt := e.val.enrichedAt,
                        hasCover := e.val.hasCover);
        return;
      }
      b.val := b.val.(description := "", publisher := "", publishedDate := "", pageCount := 0,
                      enrichedAt := None, hasCover := false);
      b.val := b.val.(enrichmentStatus := EnrichmentStatusFor(b.val.isbn, None));
    }

    /** `cp := *b` followed by the merge. */
    method MergedCopy(b: BookRef) returns (cp: BookRef)
      requires Valid()
      ensures fresh(cp) && cp.val == Merge(Model().editions, b.val)
    {
      cp := new BookRef(b.val);
      ApplyEdition(cp);
    }

    /** The copy is in a fresh cell: assigning its fields does not change the store. */
    method Get(user: string, id: string) returns (r: BookRef?)
      requires Valid()
      ensures Valid() && Model() == old(Model())
      ensures r == null <==> Catalog.Get(Model(), user, id).None?
      ensures r != null ==> fresh(r) && Catalog.Get(Model(), user, id) == Some(r.val)
    {
      var b := OwnedBook(user, id);
      if b == null {
        return null;
      }
      r := MergedCopy(b);
    }

    method CollectOne(id: string, cells: seq<BookRef>, ghost shelf: map<string, Book>, ghost ids: seq<string>)
        returns (out: seq<BookRef>)
      requires Valid() && id in books && id in shelf && shelf[id] == Merge(Model().editions, books[id].val)
      requires Shows(cells, shelf, ids) && NoDuplicates(cells)
      ensures Shows(out, shelf, ids + [id]) && NoDuplicates(out)
      ensures |out| == |cells| + 1 && fresh(out[|cells|]) && forall i :: 0 <= i < |cells| ==> out[i] == cells[i]
    {
      var cp := MergedCopy(books[id]);
      ShowsAppend(cells, shelf, ids, cp, id);
      out := cells + [cp];
    }

    /** The caller's books in the map's iteration order, merged. */
    method Collect(user: string) returns (out: seq<BookRef>, ghost ids: seq<string>)
      requires Valid()
      ensures Valid() && Model() == old(Model())
      ensures NoDuplicates(out) && forall i :: 0 <= i < |out| ==> fresh(out[i])
      ensures Enumerates(ids, Shelf(Model(), user).Keys) && Shows(out, Shelf(Model(), user), ids)
    {
      out, ids := [], [];
      var todo := books.Keys;
      ghost var shelf := Shelf(Model(), user);
      while todo != {}
        invariant todo <= books.Keys
        invariant Enumerates(ids, shelf.Keys - todo) && Shows(out, shelf, ids)
        invariant NoDuplicates(out) && forall i :: 0 <= i < |out| ==> fresh(out[i])
        decreases |todo|
      {
        var id :| id in todo;
        Visited(ids, shelf.Keys, todo, id);
        if books[id].val.userID == user {
          out := CollectOne(id, out, shelf, ids);
          ids := ids + [id];
        }
        todo := todo - {id};
      }
      assert shelf.Keys - todo == shelf.Keys;
    }

    /** Every book of the caller exactly once, oldest first, each as a merged copy in a cell of its own:
        assigning a cell's fields changes neither the store nor another cell. */
    method List(user: string) returns (out: seq<BookRef>)
      requires Valid()
      ensures Valid() && Model() == old(Model())
      ensures NoDuplicates(out) && forall i :: 0 <= i < |out| ==> fresh(out[i])
      ensures forall i, j :: 0 <= i < j < |out| ==> out[i].val.createdAt <= out[j].val.createdAt
      ensures exists ids: seq<string> :: Enumerates(ids, Shelf(Model(), user).Keys) && Shows(out, Shelf(Model(), user), ids)
    {
      var cells, ids := Collect(user);
      var created := CreationTimes(cells);
      var order := SortedIndices(created);
      SortedIndicesOk(created);
      RearrangedDistinct(cells, order);
      RearrangedEnumerates(ids, order, Shelf(Model(), user).Keys);
      out := Rearranged(cells, order);
      assert Shows(out, Shelf(Model(), user), Rearranged(ids, order));
    }

    /** `ok` is false for ErrNotFound; then nothing changes. */
    method Update(user: string, b: BookRef, now: int) returns (ok: bool)
      requires Valid()
      modifies this, b
      ensures Valid() && Repr <= old(Repr) + {b}
      ensures ok <==> Owns(old(Model()), user, old(b.val.id))
      ensures ok ==>
                && b.val == old(b.val.(userID := user, createdAt := Books()[b.val.id].createdAt, updatedAt := now))
                && Model() == old(Model()).(books := Overwritten(old(books), b, b.val, old(Books()))[b.val.id := b.val])
      ensures ok && b !in old(Repr) ==> Catalog.Update(old(Model()), user, old(b.val), now) == Some(Model())
      ensures !ok ==> Model() == old(Model()) && b.val == old(b.val)
    {
      var existing := OwnedBook(user, b.val.id);
      if existing == null {
        return false;
      }
      SetBook(b, b.val.(userID := user, createdAt := existing.val.createdAt, updatedAt := now));
      PutBook(b);
      return true;
    }

    method Delete(user: string, id: string) returns (ok: bool)
      requires Valid()
      modifies this
      ensures Valid() && Repr == old(Repr)
      ensures var s := Catalog.Delete(old(Model()), user, id);
              ok == s.Some? && Model() == if ok then s.value else old(Model())
    {
      var b := OwnedBook(user, id);
      if b == null {
        return false;
      }
      books := books - {id};
      return true;
    }

    /** The row for `isbn`, created blank if there is none. */
    method EditionRow(isbn: string) returns (e: EditionRef)
      requires Valid()
      modifies this
      ensures Valid() && fresh(Repr - old(Repr))
      ensures isbn in editions && editions[isbn] == e
      ensures Model() == Catalog.EnsureEdition(old(Model()), isbn)
    {
      if isbn !in editions {
        e := new EditionRef(BLANK_EDITION, isbn);
        editions := editions[isbn := e];
        Repr := Repr + {e};
        assert Books() == old(Books()) && Covers() == old(Covers());
      }
      e := editions[isbn];
      assert Editions() == old(Editions())[isbn := EditionOr(old(Model()), isbn, BLANK_EDITION)];
    }

    method EnsureEdition(isbn: string)
      requires Valid()
      modifies this
      ensures Valid() && fresh(Repr - old(Repr))
      ensures Model() == Catalog.EnsureEdition(old(Model()), isbn)
    {
      var _ := EditionRow(isbn);
    }

    /** Overwrites one edition in place. */
    method Assign(isbn: string, e: Edition)
      requires Valid() && isbn in editions
      modifies editions[isbn]
      ensures Valid()
      ensures Model() == old(Model()).(editions := old(Editions())[isbn := e])
    {
      editions[isbn].val := e;
      assert Books() == old(Books()) && Covers() == old(Covers());
      assert Editions() == old(Editions())[isbn := e];
    }

    method MarkEditionPending(isbn: string)
      requires Valid()
      modifies Repr
      ensures Valid() && fresh(Repr - old(Repr))
      ensures Model() == Catalog.MarkEditionPending(old(Model()), isbn)
    {
      var e := EditionRow(isbn);
      Assign(isbn, e.val.(status := Pending));
    }

    method PendingEnrichment(limit: int) returns (out: seq<string>)
      requires Valid()
      ensures out == Catalog.PendingEnrichment(Model(), limit)
    {
      var keys := Unfinished();
      out := Finish(keys, Model(), limit);
    }

    /** The keys of the pending and failed editions, in the map's iteration order. */
    method Unfinished() returns (keys: seq<string>)
      requires Valid()
      ensures Enumerates(keys, NeedsWork(Model()))
    {
      keys := [];
      var todo := editions.Keys;
      ghost var work := NeedsWork(Model());
      while todo != {}
        invariant todo <= editions.Keys
        invariant Enumerates(keys, work - todo)
        decreases |todo|
      {
        var isbn :| isbn in todo;
        Visited(keys, work, todo, isbn);
        if editions[isbn].val.status == Pending || editions[isbn].val.status == Failed {
          keys := keys + [isbn];
        }
        todo := todo - {isbn};
      }
      assert work - todo == work;
    }

    static method Finish(keys: seq<string>, ghost s: Store, limit: int) returns (out: seq<string>)
      requires Enumerates(keys, NeedsWork(s))
      ensures out == Catalog.PendingEnrichment(s, limit)
    {
      SortedKeysAreListing(keys, NeedsWork(s));
      out := SortBy(Leq, keys);
      if limit > 0 && |out| > limit {
        out := out[..limit];
      }
    }

    method EditionStatus(isbn: string) returns (status: Option<Status>)
      requires Valid()
      ensures status == StatusOf(Model(), isbn)
    {
      if isbn !in editions {
        return None;
      }
      return Some(editions[isbn].val.status);
    }

    method SaveEnrichment(isbn: string, m: Option<Metadata>, status: Status, now: int)
      requires Valid()
      modifies Repr
      ensures Valid() && fresh(Repr - old(Repr))
      ensures Model() == Catalog.SaveEnrichment(old(Model()), isbn, m, status, now)
    {
      var e := EditionRow(isbn);
      var v := e.val.(status := status);
      if m.Some? {
        v := v.(title := m.value.title, author := m.value.author,
                description := m.value.description, publisher := m.value.publisher,
                publishedDate := m.value.publishedDate, pageCount := m.value.pageCount,
                enrichedAt := Some(now));
      }
      Assign(isbn, v);
      RowRewritten(old(Model()), isbn, v);
    }

    method PutCover(isbn: string, c: CoverRef)
      requires Valid()
      modifies this
      ensures Valid() && fresh(Repr - old(Repr)) && unchanged(`editions)
      ensures Model() == old(Model()).(covers := old(Covers())[isbn := old(c.val)])
    {
      var cp := new CoverRef(c.val);
      covers := covers[isbn := cp];
      Repr := Repr + {cp};
      assert Books() == old(Books()) && Editions() == old(Editions());
      assert Covers() == old(Covers())[isbn := old(c.val)];
    }

    method FlagCover(isbn: string)
      requires Valid()
      modifies Repr
      ensures Valid() && fresh(Repr - old(Repr))
      ensures Model() == old(Model()).(
                editions := old(Editions())[isbn := EditionOr(old(Model()), isbn, BLANK_EDITION).(hasCover := true)])
    {
      var e := EditionRow(isbn);
      var v := e.val.(hasCover := true);
      Assign(isbn, v);
      RowRewritten(old(Model()), isbn, v);
    }

    method SaveCover(isbn: string, c: CoverRef)
      requires Valid()
      modifies Repr
      ensures Valid() && fresh(Repr - old(Repr))
      ensures Model() == Catalog.SaveCover(old(Model()), isbn, old(c.val))
    {
      PutCover(isbn, c);
      FlagCover(isbn);
    }

    method CoverForBook(user: string, id: string) returns (r: CoverRef?)
      requires Valid()
      ensures Valid() && Model() == old(Model())
      ensures r == null <==> Catalog.CoverForBook(Model(), user, id).None?
      ensures r != null ==> fresh(r) && Catalog.CoverForBook(Model(), user, id) == Some(r.val)
    {
      var b := OwnedBook(user, id);
      if b == null || b.val.isbn !in covers {
        return null;
      }
      r := new CoverRef(covers[b.val.isbn].val);
    }
  }

  /** The stored books after `v` has been assigned to the cell `b`: every key under which the store has
      that very pointer shows the new value. */
  ghost function Overwritten(cells: map<string, BookRef>, b: BookRef, v: Book, was: map<string, Book>): map<string, Book>
    requires cells.Keys == was.Keys
  {
    map k | k in cells :: if cells[k] == b then v else was[k]
  }

  /** The map key of a book stays its ID through `Create` exactly when the pointer is not yet stored
      under another key, and through `Update` always, the pointer's ID being unchanged. */
  lemma SharedPointerKeys(cells: map<string, BookRef>, b: BookRef, v: Book, s: Store)
    requires cells.Keys == s.books.Keys && Calls.KeysAreIds(s)
    ensures var s' := s.(books := Overwritten(cells, b, v, s.books)[v.id := v]);
            Calls.KeysAreIds(s') <==> forall k :: k in cells && cells[k] == b ==> k == v.id
    ensures (forall k :: k in cells && cells[k] == b ==> s.books[k].id == v.id) ==>
              Calls.KeysAreIds(s.(books := Overwritten(cells, b, v, s.books)[v.id := v]))
  {
    var s' := s.(books := Overwritten(cells, b, v, s.books)[v.id := v]);
    forall k | k in cells && cells[k] == b && k != v.id ensures !Calls.KeysAreIds(s') {
      assert s'.books[k].id != k;
    }
  }

  /** Cell `i` holds the view of book `ids[i]`. */
  ghost predicate Shows(cells: seq<BookRef>, shelf: map<string, Book>, ids: seq<string>)
    reads cells
  {
    |cells| == |ids| && forall i :: 0 <= i < |cells| ==> ids[i] in shelf && cells[i].val == shelf[ids[i]]
  }

  lemma ShowsAppend(cells: seq<BookRef>, shelf: map<string, Book>, ids: seq<string>, cp: BookRef, id: string)
    requires Shows(cells, shelf, ids) && NoDuplicates(cells) && cp !in cells && id in shelf && cp.val == shelf[id]
    ensures Shows(cells + [cp], shelf, ids + [id]) && NoDuplicates(cells + [cp])
  {
  }

  method CreationTimes(cells: seq<BookRef>) returns (created: seq<int>)
    ensures |created| == |cells| && forall i :: 0 <= i < |cells| ==> created[i] == cells[i].val.createdAt
  {
    created := [];
    for i := 0 to |cells|
      invariant |created| == i && forall j :: 0 <= j < i ==> created[j] == cells[j].val.createdAt
    {
      created := created + [cells[i].val.createdAt];
    }
  }

  method ApplyCanonicalNames(b: BookRef, editionTitle: string, editionAuthor: string)
    modifies b
    ensures b.val == CanonicalNames(old(b.val), editionTitle, editionAuthor)
  {
    if b.val.title == "" {
      b.val := b.val.(title := editionTitle);
    }
    if b.val.author == "" {
      b.val := b.val.(author := editionAuthor);
    }
  }
}
