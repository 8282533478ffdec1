/** The book endpoints that drive the store and the worker. */
module Handlers {
  import opened Catalog
  import opened MemoryStores
  import Calls
  import Isbn
  import W = Workers

  datatype BookWrite = BookWrite(
    isbn: string, title: string, author: string, status: string, rating: int, opinion: string, tags: seq<string>)

  /** An absent field is left unchanged. */
  datatype Patch = Patch(
    isbn: Option<string>, title: Option<string>, author: Option<string>, status: Option<string>,
    rating: Option<int>, opinion: Option<string>, tags: Option<seq<string>>)

  datatype Response =
    | Found(book: Book) | Queued(isbn: string) | Unauthorized | NotFound | Invalid | ServerError

  /** How a writing store call ends: done, done but answered with an error, or failed without effect. */
  datatype Outcome = Done | Unheard | Refused

  /** What may go wrong around one request: a read fails, another request deletes the book between
      read and write, the writes end as given, the read for the answer fails. */
  datatype Faults = Faults(readFails: bool, deleted: bool, write: Outcome, ensured: Outcome, rereadFails: bool)

  function ToBook(w: BookWrite): Book {
    Book("", "", w.isbn, w.title, w.author, w.status, w.rating, w.opinion, w.tags, 0, 0,
         "", "", "", 0, "", None, false, "")
  }

  function Patched(p: Patch, b: Book): Book {
    b.(isbn := Or(p.isbn, b.isbn), title := Or(p.title, b.title), author := Or(p.author, b.author),
       status := Or(p.status, b.status), rating := Or(p.rating, b.rating),
       opinion := Or(p.opinion, b.opinion), tags := Or(p.tags, b.tags))
  }

  /** The view as it goes out: the cover URL is filled in when there is a cover. */
  function Presented(b: Book): Book {
    if b.hasCover then b.(coverURL := "/books/" + b.id + "/cover") else b
  }

  /** The patch with its ISBN in canonical form; `None` when that ISBN is invalid. */
  function CanonicalPatch(up: char -> char, p: Patch): Option<Patch> {
    if p.isbn.None? then Some(p)
    else if Isbn.Canonical(up, p.isbn.value).None? then None
    else Some(p.(isbn := Isbn.Canonical(up, p.isbn.value)))
  }

  /** The patched view `v` is written back. */
  function Written(s: Store, user: string, v: Book, p: Patch, now: int): Store
    requires Owns(s, user, v.id)
  {
    Update(s, user, Patched(p, v), now).value
  }

  predicate ChangesIsbn(p: Patch, isbn: string) { Or(p.isbn, isbn) != isbn }

  /** The store after a PATCH of the view `v`: the patched view is written back, and a changed ISBN
      gets its edition. */
  function AfterPatch(s: Store, user: string, v: Book, p: Patch, now: int): Store
    requires Owns(s, user, v.id)
  {
    var s' := Written(s, user, v, p, now);
    if !ChangesIsbn(p, v.isbn) || p.isbn.value == "" then s' else EnsureEdition(s', p.isbn.value)
  }

  method ApplyTo(p: Patch, b: BookRef)
    modifies b
    ensures b.val == Patched(p, old(b.val))
  {
    if p.isbn.Some? { b.val := b.val.(isbn := p.isbn.value); }
    if p.title.Some? { b.val := b.val.(title := p.title.value); }
    if p.author.Some? { b.val := b.val.(author := p.author.value); }
    if p.status.Some? { b.val := b.val.(status := p.status.value); }
    if p.rating.Some? { b.val := b.val.(rating := p.rating.value); }
    if p.opinion.Some? { b.val := b.val.(opinion := p.opinion.value); }
    if p.tags.Some? { b.val := b.val.(tags := p.tags.value); }
  }

  method SetCoverURL(b: BookRef)
    modifies b
    ensures b.val == Presented(old(b.val))
  {
    if b.val.hasCover {
      b.val := b.val.(coverURL := "/books/" + b.val.id + "/cover");
    }
  }

  // ---- what the answers say, in plain terms ----

  /** What every answered view shows of the edition, and where its cover is to be had. */
  predicate AnswerShown(s: Store, id: string, v: Book) {
    && EditionShown(s, v) && StatusShown(s, v.isbn, v.enrichmentStatus)
    && (v.hasCover ==> v.coverURL == "/books/" + id + "/cover")
  }

  /** The answer to a creation: what was asked for, an empty status being "to_read" and empty names
      those of the edition, under the canonical ISBN. */
  ghost predicate CreatedAsAsked(up: char -> char, body: BookWrite, user: string, id: string, now: int, s: Store, v: Book) {
    && v.id == id && v.userID == user && Isbn.Canonical(up, body.isbn) == Some(v.isbn)
    && v.title == (if body.title != "" then body.title else EditionNames(s, v.isbn).0)
    && v.author == (if body.author != "" then body.author else EditionNames(s, v.isbn).1)
    && v.status == (if body.status == "" then "to_read" else body.status)
    && v.rating == body.rating && v.opinion == body.opinion && v.tags == body.tags
    && v.createdAt == now && v.updatedAt == now
    && AnswerShown(s, id, v) && (!v.hasCover ==> v.coverURL == "")
  }

  /** An answered view: the stored book, its missing names filled in, and the edition's part. */
  lemma PresentedExactly(s: Store, user: string, id: string)
    requires Owns(s, user, id) && s.books[id].id == id
    ensures Get(s, user, id).Some?
    ensures var w, b := Presented(Get(s, user, id).value), s.books[id];
            && w.id == b.id && w.userID == b.userID && w.isbn == b.isbn && w.status == b.status && w.rating == b.rating
            && w.opinion == b.opinion && w.tags == b.tags && w.createdAt == b.createdAt && w.updatedAt == b.updatedAt
            && w.title == (if b.title != "" then b.title else EditionNames(s, b.isbn).0)
            && w.author == (if b.author != "" then b.author else EditionNames(s, b.isbn).1)
            && AnswerShown(s, id, w) && (!w.hasCover ==> w.coverURL == b.coverURL)
  {
    ViewExactly(s, user, id);
  }

  lemma CreationIsAsAsked(up: char -> char, s: Store, user: string, body: BookWrite, id: string, now: int, ensured: bool)
    requires Isbn.Canonical(up, body.isbn).Some?
    ensures var key := Isbn.Canonical(up, body.isbn).value;
            var m := Catalog.Create(s, user, id, ToBook(body).(isbn := key), now);
            var s' := if ensured then EnsureEdition(m, key) else m;
            && Owns(s', user, id) && CreatedAsAsked(up, body, user, id, now, s', Presented(Get(s', user, id).value))
            && (ensured ==> key in s'.editions) && s'.books[id].isbn == key
  {
    var key := Isbn.Canonical(up, body.isbn).value;
    var m := Catalog.Create(s, user, id, ToBook(body).(isbn := key), now);
    PresentedExactly(if ensured then EnsureEdition(m, key) else m, user, id);
  }

  /** The answer to a PATCH of the view `v`: each field as the body has it, or else as it was; a body
      with an ISBN gives the book its canonical form, and a missing name is that of the edition. */
  ghost predicate PatchedAsAsked(up: char -> char, body: Patch, v: Book, now: int, s: Store, w: Book) {
    && w.id == v.id && w.userID == v.userID && w.createdAt == v.createdAt && w.updatedAt == now
    && (if body.isbn.Some? then Isbn.Canonical(up, body.isbn.value) == Some(w.isbn) else w.isbn == v.isbn)
    && (var title := if body.title.Some? then body.title.value else v.title;
        w.title == if title != "" then title else EditionNames(s, w.isbn).0)
    && (var author := if body.author.Some? then body.author.value else v.author;
        w.author == if author != "" then author else EditionNames(s, w.isbn).1)
    && w.status == (if body.status.Some? then body.status.value else v.status)
    && w.rating == (if body.rating.Some? then body.rating.value else v.rating)
    && w.opinion == (if body.opinion.Some? then body.opinion.value else v.opinion)
    && w.tags == (if body.tags.Some? then body.tags.value else v.tags)
    && AnswerShown(s, v.id, w)
  }

  /** What a PATCH stores, whether or not the edition could be ensured. */
  lemma PatchStored(s: Store, user: string, v: Book, p: Patch, now: int, ensured: bool)
    requires Owns(s, user, v.id)
    ensures var s' := if ensured then AfterPatch(s, user, v, p, now) else Written(s, user, v, p, now);
            && Owns(s', user, v.id)
            && s'.books[v.id] == Patched(p, v).(userID := user, createdAt := s.books[v.id].createdAt, updatedAt := now)
            && (ensured && ChangesIsbn(p, v.isbn) && p.isbn.value != "" ==> p.isbn.value in s'.editions)
  {
  }

  lemma CanonicalPatchExactly(up: char -> char, body: Patch)
    requires body.isbn.Some? ==> Isbn.Canonical(up, body.isbn.value).Some?
    ensures CanonicalPatch(up, body).Some?
    ensures var p := CanonicalPatch(up, body).value;
            && p.title == body.title && p.author == body.author && p.status == body.status && p.rating == body.rating
            && p.opinion == body.opinion && p.tags == body.tags
            && (body.isbn.None? ==> p.isbn == None)
            && (body.isbn.Some? ==> p.isbn == Isbn.Canonical(up, body.isbn.value) && p.isbn != Some(""))
  {
    if body.isbn.Some? { Isbn.CanonicalIsNonEmpty(up, body.isbn.value); }
  }

  lemma PatchIsAsAsked(up: char -> char, s: Store, user: string, id: string, body: Patch, now: int, ensured: bool)
    requires Owns(s, user, id) && Calls.KeysAreIds(s)
    requires body.isbn.Some? ==> Isbn.Canonical(up, body.isbn.value).Some?
    ensures CanonicalPatch(up, body).Some?
    ensures var v, p := Get(s, user, id).value, CanonicalPatch(up, body).value;
            var s' := if ensured then AfterPatch(s, user, v, p, now) else Written(s, user, v, p, now);
            && Owns(s', user, id)
            && var w := Presented(Get(s', user, id).value);
            && PatchedAsAsked(up, body, v, now, s', w) && s'.books[id].isbn == w.isbn
            && (ensured && w.isbn != v.isbn ==> w.isbn in s'.editions)
            && (ChangesIsbn(p, v.isbn) <==> w.isbn != v.isbn) && (ChangesIsbn(p, v.isbn) ==> p.isbn.value == w.isbn)
  {
    CanonicalPatchExactly(up, body);
    ViewExactly(s, user, id);
    var v, p := Get(s, user, id).value, CanonicalPatch(up, body).value;
    PatchStored(s, user, v, p, now, ensured);
    PresentedExactly(if ensured then AfterPatch(s, user, v, p, now) else Written(s, user, v, p, now), user, id);
  }

  class Handler {
    const store: MemoryStore
    const enricher: W.Worker
    const up: char -> char

    ghost predicate Valid()
      reads enricher, enricher.store, enricher.store.Repr
    {
      enricher.Valid() && enricher.store == store && Calls.KeysAreIds(store.Model())
    }

    constructor (store: MemoryStore, enricher: W.Worker, up: char -> char)
      requires enricher.Valid() && enricher.store == store && Calls.KeysAreIds(store.Model())
      ensures Valid() && this.store == store && this.enricher == enricher && this.up == up
    {
      this.store, this.enricher, this.up := store, enricher, up;
    }

    /** Ensures the shared edition and queues it; without an ISBN nothing happens, and an edition that
        could not be ensured is not queued. */
    method EnqueueEnrichment(isbn: string, ensured: Outcome)
      requires Valid()
      modifies enricher, store.Repr
      ensures Valid() && fresh(store.Repr - old(store.Repr)) && store.Model().books == old(store.Model()).books
      ensures store.Model() ==
                if isbn == "" || ensured.Refused? then old(store.Model()) else EnsureEdition(old(store.Model()), isbn)
      ensures enricher.CurrentJobs() ==
                if ensured.Done? then W.EnqueueJobs(old(enricher.CurrentJobs()), enricher.capacity, isbn)
                else old(enricher.CurrentJobs())
    {
      if isbn == "" {
        return;
      }
      if !ensured.Refused? {
        store.EnsureEdition(isbn);
      }
      if !ensured.Done? {
        return;
      }
      enricher.Enqueue(isbn);
    }

    /** Reads a book for the response. */
    method Reread(user: string, id: string) returns (b: Book)
      requires Valid() && Owns(store.Model(), user, id)
      ensures Valid() && store.Model() == old(store.Model())
      ensures b == Presented(Get(store.Model(), user, id).value)
    {
      var r := store.Get(user, id);
      SetCoverURL(r);
      return r.val;
    }

    /** The answer after a successful write. */
    method Answer(user: string, id: string, rereadFails: bool) returns (r: Response)
      requires Valid() && Owns(store.Model(), user, id)
      ensures Valid() && store.Model() == old(store.Model())
      ensures r == if rereadFails then ServerError else Found(Presented(Get(store.Model(), user, id).value))
    {
      if rereadFails {
        return ServerError;
      }
      var b := Reread(user, id);
      return Found(b);
    }

    /** `user` is the authenticated subject, empty if there is none; `id` the freshly minted UUID. A
        book whose edition cannot be ensured is stored all the same, but not queued. */
    method Create(user: string, body: BookWrite, id: string, now: int, f: Faults) returns (r: Response)
      requires Valid()
      modifies enricher, store.Repr
      ensures Valid() && fresh(store.Repr - old(store.Repr))
      ensures user == "" || Isbn.Canonical(up, body.isbn).None? ==>
                && r == (if user == "" then Unauthorized else Invalid)
                && store.Model() == old(store.Model()) && enricher.CurrentJobs() == old(enricher.CurrentJobs())
      ensures user != "" && Isbn.Canonical(up, body.isbn).Some? ==>
                var key := Isbn.Canonical(up, body.isbn).value;
                var s := Catalog.Create(old(store.Model()), user, id, ToBook(body).(isbn := key), now);
                if !f.write.Done? then
                  && r == ServerError && store.Model() == (if f.write.Refused? then old(store.Model()) else s)
                  && enricher.CurrentJobs() == old(enricher.CurrentJobs())
                else
                  && store.Model() == (if f.ensured.Refused? then s else EnsureEdition(s, key))
                  && enricher.CurrentJobs() == (
                       if f.ensured.Done? then W.EnqueueJobs(old(enricher.CurrentJobs()), enricher.capacity, key)
                       else old(enricher.CurrentJobs()))
                  && Owns(store.Model(), user, id)
                  && r == (if f.rereadFails then ServerError else Found(Presented(Get(store.Model(), user, id).value)))
      ensures r.Found? ==>
                && CreatedAsAsked(up, body, user, id, now, store.Model(), r.book)
                && Owns(store.Model(), user, id) && store.Model().books[id].isbn == r.book.isbn
                && (!f.ensured.Refused? ==> r.book.isbn in store.Model().editions)
    {
      if user == "" {
        return Unauthorized;
      }
      ghost var s := store.Model();
      var key := Isbn.Canonical(up, body.isbn);
      if key.None? {
        return Invalid;
      }
      Isbn.CanonicalIsNonEmpty(up, body.isbn);
      CreationIsAsAsked(up, s, user, body, id, now, !f.ensured.Refused?);
      r := ServeCreation(user, ToBook(body).(isbn := key.value), id, now, f);
    }

    /** A creation after the checks; `b` is the book to store. */
    method ServeCreation(user: string, b: Book, id: string, now: int, f: Faults) returns (r: Response)
      requires Valid() && b.isbn != ""
      modifies enricher, store.Repr
      ensures Valid() && fresh(store.Repr - old(store.Repr))
      ensures var s := Catalog.Create(old(store.Model()), user, id, b, now);
              if !f.write.Done? then
                && r == ServerError && store.Model() == (if f.write.Refused? then old(store.Model()) else s)
                && enricher.CurrentJobs() == old(enricher.CurrentJobs())
              else
                && store.Model() == (if f.ensured.Refused? then s else EnsureEdition(s, b.isbn))
                && enricher.CurrentJobs() == (
                     if f.ensured.Done? then W.EnqueueJobs(old(enricher.CurrentJobs()), enricher.capacity, b.isbn)
                     else old(enricher.CurrentJobs()))
                && Owns(store.Model(), user, id)
                && r == (if f.rereadFails then ServerError else Found(Presented(Get(store.Model(), user, id).value)))
    {
      if !f.write.Refused? {
        var c := new BookRef(b);
        store.Create(user, c, id, now);
      }
      if !f.write.Done? {
        return ServerError;
      }
      EnqueueEnrichment(b.isbn, f.ensured);
      r := Answer(user, id, f.rereadFails);
    }

    /** Applies the patch to the view and stores the result; `ok` is false when the store answers that
        there is no such book. */
    method WriteBack(user: string, existing: BookRef, p: Patch, now: int) returns (ok: bool)
      requires Valid() && existing !in store.Repr && existing as object != enricher
      modifies store.Repr, existing
      ensures Valid() && fresh(store.Repr - old(store.Repr) - {existing})
      ensures ok == Owns(old(store.Model()), user, old(existing.val.id))
      ensures store.Model() == if ok then Written(old(store.Model()), user, old(existing.val), p, now) else old(store.Model())
      ensures existing.val.isbn == Or(p.isbn, old(existing.val.isbn))
    {
      ApplyTo(p, existing);
      assert store.Model() == old(store.Model());
      ok := store.Update(user, existing, now);
    }

    /** A PATCH of the view `v` that was read for it, after the checks that change nothing. */
    ghost predicate PatchServed(s: Store, j: W.Jobs, v: Book, p: Patch, user: string, now: int, f: Faults, r: Response)
      requires Valid() && Owns(s, user, v.id)
      reads enricher, store, store.Repr
    {
      var kept := if f.deleted then Delete(s, user, v.id).value else s;
      if !f.write.Done? then
        && r == ServerError && enricher.CurrentJobs() == j
        && store.Model() == if f.write.Refused? || f.deleted then kept else Written(s, user, v, p, now)
      else if f.deleted then
        r == NotFound && enricher.CurrentJobs() == j && store.Model() == kept
      else
        && store.Model() == (if f.ensured.Refused? then Written(s, user, v, p, now) else AfterPatch(s, user, v, p, now))
        && enricher.CurrentJobs() == (
             if ChangesIsbn(p, v.isbn) && f.ensured.Done? then W.EnqueueJobs(j, enricher.capacity, p.isbn.value) else j)
        && Owns(store.Model(), user, v.id)
        && r == if f.rereadFails then ServerError else Found(Presented(Get(store.Model(), user, v.id).value))
    }

    method ServePatch(user: string, existing: BookRef, p: Patch, now: int, f: Faults) returns (r: Response)
      requires Valid() && existing !in store.Repr && existing as object != enricher
      requires Owns(store.Model(), user, existing.val.id)
      modifies enricher, store.Repr, existing
      ensures Valid() && fresh(store.Repr - old(store.Repr) - {existing})
      ensures PatchServed(old(store.Model()), old(enricher.CurrentJobs()), old(existing.val), p, user, now, f, r)
    {
      var id, oldISBN := existing.val.id, existing.val.isbn;
      if f.deleted {
        var _ := store.Delete(user, id);
      }
      var ok := false;
      if !f.write.Refused? {
        ok := WriteBack(user, existing, p, now);
      }
      if !f.write.Done? {
        return ServerError;
      }
      if !ok {
        return NotFound;
      }
      if existing.val.isbn != oldISBN {
        EnqueueEnrichment(existing.val.isbn, f.ensured);
      }
      r := Answer(user, id, f.rereadFails);
    }

    method Update(user: string, id: string, body: Patch, now: int, f: Faults) returns (r: Response)
      requires Valid()
      modifies enricher, store.Repr
      ensures Valid() && fresh(store.Repr - old(store.Repr))
      ensures var v, p := Get(old(store.Model()), user, id), CanonicalPatch(up, body);
              if user == "" || f.readFails || v.None? || p.None? then
                && r == (if user == "" then Unauthorized else if f.readFails then ServerError
                         else if v.None? then NotFound else Invalid)
                && store.Model() == old(store.Model()) && enricher.CurrentJobs() == old(enricher.CurrentJobs())
              else
                && v.value.id == id && Owns(old(store.Model()), user, id)
                && PatchServed(old(store.Model()), old(enricher.CurrentJobs()), v.value, p.value, user, now, f, r)
      ensures user != "" && !f.readFails && Get(old(store.Model()), user, id).Some?
              && body.isbn.Some? && Isbn.Canonical(up, body.isbn.value).None? ==>
                r == Invalid && store.Model() == old(store.Model())
      ensures r.Found? ==>
                && Get(old(store.Model()), user, id).Some?
                && var v := Get(old(store.Model()), user, id).value;
                && PatchedAsAsked(up, body, v, now, store.Model(), r.book)
                && Owns(store.Model(), user, id) && store.Model().books[id].isbn == r.book.isbn
                && (r.book.isbn != v.isbn && !f.ensured.Refused? ==> r.book.isbn in store.Model().editions)
                && enricher.CurrentJobs() == (
                     if r.book.isbn != v.isbn && f.ensured.Done? then
                       W.EnqueueJobs(old(enricher.CurrentJobs()), enricher.capacity, r.book.isbn)
                     else old(enricher.CurrentJobs()))
    {
      if user == "" {
        return Unauthorized;
      }
      if f.readFails {
        return ServerError;
      }
      var existing := store.Get(user, id);
      if existing == null {
        return NotFound;
      }
      var p := CanonicalPatch(up, body);
      if p.None? {
        return Invalid;
      }
      PatchIsAsAsked(up, store.Model(), user, id, body, now, !f.ensured.Refused?);
      r := ServePatch(user, existing, p.value, now, f);
    }

    /** Sets the edition pending and queues it, unless the store answers with an error. */
    method Requeue(isbn: string, write: Outcome) returns (r: Response)
      requires Valid()
      modifies enricher, store.Repr
      ensures Valid() && fresh(store.Repr - old(store.Repr))
      ensures r == if write.Done? then Queued(isbn) else ServerError
      ensures store.Model() == if write.Refused? then old(store.Model()) else MarkEditionPending(old(store.Model()), isbn)
      ensures enricher.CurrentJobs() ==
                if write.Done? then W.EnqueueJobs(old(enricher.CurrentJobs()), enricher.capacity, isbn)
                else old(enricher.CurrentJobs())
    {
      if !write.Refused? {
        store.MarkEditionPending(isbn);
      }
      if !write.Done? {
        return ServerError;
      }
      enricher.Enqueue(isbn);
      return Queued(isbn);
    }

    /** `f.write` is the outcome of marking the edition pending. */
    method Refresh(user: string, id: string, f: Faults) returns (r: Response)
      requires Valid()
      modifies enricher, store.Repr
      ensures Valid() && fresh(store.Repr - old(store.Repr))
      ensures var v := Get(old(store.Model()), user, id);
              if user == "" || f.readFails || v.None? || v.value.isbn == "" then
                && r == (if user == "" then Unauthorized else if f.readFails then ServerError
                         else if v.None? then NotFound else Invalid)
                && store.Model() == old(store.Model()) && enricher.CurrentJobs() == old(enricher.CurrentJobs())
              else
                && r == (if f.write.Done? then Queued(v.value.isbn) else ServerError)
                && store.Model() == (if f.write.Refused? then old(store.Model())
                                     else MarkEditionPending(old(store.Model()), v.value.isbn))
                && enricher.CurrentJobs() == (
                     if f.write.Done? then W.EnqueueJobs(old(enricher.CurrentJobs()), enricher.capacity, v.value.isbn)
                     else old(enricher.CurrentJobs()))
    {
      if user == "" {
        return Unauthorized;
      }
      if f.readFails {
        return ServerError;
      }
      var b := store.Get(user, id);
      if b == null {
        return NotFound;
      }
      if b.val.isbn == "" {
        return Invalid;
      }
      r := Requeue(b.val.isbn, f.write);
    }
  }
}
