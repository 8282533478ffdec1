/** Sequences of repository calls, and what one user's calls can do to another's books. */
module Calls {
  import opened Catalog

  datatype Op =
    | OpCreate(user: string, id: string, book: Book, now: int)
    | OpUpdate(user: string, book: Book, now: int)
    | OpDelete(user: string, id: string)
    | OpEnsure(isbn: string)
    | OpMarkPending(isbn: string)
    | OpSave(isbn: string, meta: Option<Metadata>, status: Status, now: int)
    | OpCover(isbn: string, cover: Cover)

  /** How a writing call ends: done, ErrNotFound, or any other error. */
  datatype Verdict = Succeeded | Missing | Rejected

  /** Success with the new value, or missing. */
  function SucceededOr<T>(r: Option<T>, t: T): (T, Verdict) {
    if r.Some? then (r.value, Succeeded) else (t, Missing)
  }

  /** The next store and how the call ends. */
  function MemStep(s: Store, op: Op): (Store, Verdict) {
    match op
    case OpCreate(user, id, b, now) => (Catalog.Create(s, user, id, b, now), Succeeded)
    case OpUpdate(user, b, now) => SucceededOr(Catalog.Update(s, user, b, now), s)
    case OpDelete(user, id) => SucceededOr(Catalog.Delete(s, user, id), s)
    case OpEnsure(isbn) => (Catalog.EnsureEdition(s, isbn), Succeeded)
    case OpMarkPending(isbn) => (Catalog.MarkEditionPending(s, isbn), Succeeded)
    case OpSave(isbn, m, status, now) => (Catalog.SaveEnrichment(s, isbn, m, status, now), Succeeded)
    case OpCover(isbn, c) => (Catalog.SaveCover(s, isbn, c), Succeeded)
  }

  function MemRun(s: Store, ops: seq<Op>): Store
    decreases ops
  {
    if ops == [] then s else MemRun(MemStep(s, ops[0]).0, ops[1..])
  }

  /** IDs are minted fresh. */
  predicate FreshIds(s: Store, ops: seq<Op>)
    decreases ops
  {
    ops != [] ==> (ops[0].OpCreate? ==> ops[0].id !in s.books) && FreshIds(MemStep(s, ops[0]).0, ops[1..])
  }

  /** The key of a book is its ID. */
  predicate KeysAreIds(s: Store) {
    forall id :: id in s.books ==> s.books[id].id == id
  }

  lemma {:induction false} KeysStayIds(s: Store, ops: seq<Op>)
    requires KeysAreIds(s)
    ensures KeysAreIds(MemRun(s, ops))
    decreases ops
  {
    if ops != [] { KeysStayIds(MemStep(s, ops[0]).0, ops[1..]); }
  }

  /** Who is calling; calls on shared editions and covers are nobody's. */
  predicate CalledBy(op: Op, user: string) {
    (op.OpCreate? || op.OpUpdate? || op.OpDelete?) && op.user == user
  }

  predicate NoneBy(ops: seq<Op>, user: string) {
    forall i :: 0 <= i < |ops| ==> !CalledBy(ops[i], user)
  }

  /** The user's stored books. */
  function OwnBooks(s: Store, user: string): map<string, Book> {
    map id | id in s.books && s.books[id].userID == user :: s.books[id]
  }

  lemma OwnBooksStep(s: Store, op: Op, user: string)
    requires !CalledBy(op, user) && (op.OpCreate? ==> op.id !in s.books)
    ensures OwnBooks(MemStep(s, op).0, user) == OwnBooks(s, user)
  {
  }

  /** Whatever everybody else does, a user's stored books stay exactly as they are. */
  lemma {:induction false} UsersAreIsolated(s: Store, ops: seq<Op>, user: string)
    requires FreshIds(s, ops) && NoneBy(ops, user)
    ensures OwnBooks(MemRun(s, ops), user) == OwnBooks(s, user)
    decreases ops
  {
    if ops != [] {
      OwnBooksStep(s, ops[0], user);
      UsersAreIsolated(MemStep(s, ops[0]).0, ops[1..], user);
    }
  }

  /** Owner and creation time are settled at creation: no later sequence of calls changes them. */
  lemma {:induction false} OwnershipIsForEver(s: Store, ops: seq<Op>, id: string)
    requires forall i :: 0 <= i < |ops| ==> !(ops[i].OpCreate? && ops[i].id == id)
    requires id in MemRun(s, ops).books
    ensures id in s.books
    ensures MemRun(s, ops).books[id].userID == s.books[id].userID
    ensures MemRun(s, ops).books[id].createdAt == s.books[id].createdAt
    decreases ops
  {
    if ops != [] { OwnershipIsForEver(MemStep(s, ops[0]).0, ops[1..], id); }
  }
}
