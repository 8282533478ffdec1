# Ex-Libris: enrichment protocol, shared editions, search cache

This project models the parts of the Ex-Libris API whose correctness depends on how several
functions, goroutines or stores work together, and proves what they guarantee.

* **Enrichment protocol** (`Protocol.dfy`, `Enrichment.dfy`, `Progress.dfy`, `Refetch.dfy`,
  `Starvation.dfy`, `Delivery.dfy`). HTTP callers and one reconciler enqueue ISBNs in two steps (mark in flight, then a
  non-blocking send or a drop), any number of workers dequeue and run `process` one store or provider
  call at a time. Every interleaving of these steps is a run; provider answers and store errors are
  free choices of the run, and a store write that returns an error may or may not have taken effect.
  The step counter `clock` and the field `since` (when a worker's Lookup began) are history the program
  does not keep; no step depends on them. `Witnesses.dfy` holds runs behind the exact conditions.
* **The worker object** (`Workers.dfy`) with its queue and in-flight set updated in place, what its
  methods compute when nothing interleaves, how many sequential rounds of sweep and drain finish the
  catalogue, and which editions such rounds starve. `Schedule.dfy` shows that these calls are runs of
  the protocol.
* **The repository** (`Catalog.dfy`, `MemoryStore.dfy`, `Calls.dfy`, `Postgres.dfy`). `MemoryStore`
  is a class over maps of pointers; a pointer is a cell holding the struct. The relational store is
  a specification of its SQL statements over rows with NULLs, the join, the shape constraint, the
  foreign key, and the texts and numbers a parameter can carry.
* **The book endpoints** (`Handlers.dfy`) that drive store and worker, what they do to either store
  (`Endpoints.dfy`), and the meaning of PATCH (`Patches.dfy`).
* **The search cache** (`SearchCache.dfy`, `CacheKey.dfy`), **ISBN keys** (`Isbn.dfy`), **the retry
  loop** (`Retry.dfy`), the sorted listing of a set of keys (`Order.dfy`) and joining (`Text.dfy`).

Clocks, freshly minted IDs and the answers of other systems are parameters. Instants are integers.
Upper and lower case and white space come from the Unicode tables in the program; here they are
function parameters, and `Isbn.UpperCasing` and `CacheKeys.Folding` state the few facts used of them.

Where the code does less than its comments say, the code is modelled and the exact condition proved:

* "Nothing is permanently lost" (`internal/enrich/worker.go:55-57`), for an unfinished ISBN and from a
  state in which the accepted work is done, while no request arrives. As a guarantee: however the
  goroutines interleave, it is enriched after some number of rounds, each a sweep and any way of finishing
  what it started, exactly when the source finds it and fewer than min(100, queue size) unfinished ISBNs that
  the source never finds sort below it (`Delivery.DeliveredIff`; status reads answered, metadata saved).
  As a possibility: some interleaving enriches it exactly when there are fewer than 100 of those,
  whatever the queue size; otherwise none ever does (`Starvation.SweepsEnrichIff`,
  `Starvation.InterleavingHelps`, `Witnesses.StarvationExists`). Nothing is said of an ISBN whose edition
  row could not be created (`Enrichment.UnrequestedIsNeverListed`).
* "So the worker re-fetches" (`internal/books/handlers.go:431-437`): an acknowledged refresh need not be
  followed by a Lookup. Work accepted so far can still lead to a Lookup of an unfinished ISBN exactly when
  it is queued, with a worker that has not begun its Lookup, or being brought to the queue by a caller
  (`Refetch.LookupAheadIff`); a refresh that is coalesced with a worker past that point, or dropped, is
  lost (`Refetch.CoalescedRefreshIff`), and even the older failure may overwrite it
  (`Witnesses.RefreshLostToFinishedWorker`, `Witnesses.RefreshLostToOlderFailure`). Once queued, it is
  looked up in every interleaving whose status reads succeed (`Refetch.QueuedIsLookedUp`), so once nobody
  is bringing it any more, either every way of finishing looks it up or none does (`Refetch.RefetchIff`). Whether an
  answer older than the refresh may be saved after it is a separate question: exactly when a worker is
  between the start of its Lookup and its save (`Enrichment.RefreshFreshness`).
* PATCH is partial on the view, not on the stored book: it freezes the names the reader saw
  (`Patches.PatchIsPartial`, `Patches.PatchFreezesNames`), and of two PATCHes that read the same view
  the later one wins as a whole (`Patches.RacingPatches`).
* The two stores stay in step on a call, and it ends alike, exactly when no text in it contains U+0000 (valid
  UTF-8 and JSON, but no Postgres text), its rating or page count fits 32 bits, and it does not create a
  book under a taken ID, write a book of the caller's whose ISBN the shape constraint rejects or which carries
  a cover URL (memory would show it, SQL has no such column), or save a cover for an unknown edition
  (`Postgres.StepAgreesIff`). The endpoints and the worker make no such call, given fresh IDs and requests
  and source answers whose texts and numbers fit (`Endpoints.StoresAnswerAlike`); for a request the handler
  accepts that condition is exact (`Endpoints.PostAlikeIff`, `Endpoints.EditAlikeIff`). Stores in step
  answer a reader alike exactly when what is asked for contains no U+0000 (`Postgres.ReadsAlikeIff`), up to the
  source URL of a served cover, which the query does not select, and but for a listing with a limit
  that is not positive (`Postgres.ListingsAgree`).
* The ten-character fallback of the search is ten bytes and is not checked for shape
  (`Isbn.SuggestionKeepsItsKey`).

## Model

| member | source | states |
|---|---|---|
| Enrichment.MutualExclusion | internal/enrich/worker.go:58-88 | In every reachable state of every interleaving the in-flight set is exactly the disjoint, duplicate-free union of the ISBNs held by callers between mark and send or drop, those queued, and those held by workers from dequeue to unmark; so no ISBN is in two `process` calls, the queue stays within its capacity and the empty ISBN never enters. |
| Protocol.OwnershipStep | internal/enrich/worker.go:169-183 | Each step moves an ISBN from one place to exactly one other, or in and out of flight together with its mark. |
| Enrichment.InFlightHasRow | internal/books/handlers.go:279-288 | Every ISBN in flight has an edition row, so no worker ever saves a cover for a missing edition, on which the two stores would differ. |
| Enrichment.StatusMoves | internal/enrich/worker.go:113-154 | In any reachable state a step moves a status only from absent to pending, from pending or failed to enriched or failed, or by a refresh to pending; an enriching save always hits an edition that is not enriched, and a failure never overwrites an enriched one. |
| Enrichment.RefetchBound | internal/enrich/worker.go:119-147 | Over any run, enriching saves of an ISBN plus one if it started enriched equal the refreshes that found it enriched plus one if it ends enriched: each refresh buys at most one further fetch. |
| Enrichment.EnrichedIsStable | internal/enrich/worker.go:119-121 | Without a refresh an enriched edition stays enriched and is never saved again, whatever else interleaves. |
| Enrichment.RefreshFreshness | internal/books/handlers.go:431-437 | After a refresh no continuation enriches the ISBN from a Lookup begun before it if and only if no worker was between the start of its Lookup and its save. That a Lookup follows is not part of it. |
| Enrichment.RefreshThenEnriched | internal/enrich/worker.go:123-147 | When no worker was in that window, an edition found enriched later owes it to a save whose Lookup began after the refresh. |
| Refetch.LookupAheadIff | internal/books/handlers.go:431-437 | From any reachable state with a running worker, the work accepted so far can still lead to a Lookup of an unfinished ISBN if and only if it is queued, with a worker that has not begun its Lookup, or still being brought by a caller. |
| Refetch.UnreadIsGivenUp | internal/enrich/worker.go:113-121 | A worker whose status read fails changes nothing and gives its unfinished ISBN up: a Lookup of it can follow if and only if some caller is still bringing it. |
| Refetch.CoalescedRefreshIff | internal/enrich/worker.go:58-68 | A refresh whose caller reaches its mark while nobody else brings the ISBN can still lead to a Lookup if and only if the ISBN is not in flight, or is queued, or with a worker that has not begun its Lookup. |
| Refetch.QueuedIsLookedUp | internal/enrich/worker.go:79-86 | Once an unfinished ISBN is queued, in every interleaving whose status reads succeed a Lookup of it has begun by the time the accepted work is done, whichever writes fail. |
| Refetch.RefetchIff | internal/books/handlers.go:431-437 | Once nobody is bringing an unfinished ISBN to the queue, it is queued or with a worker before its Lookup if and only if the accepted work can still look it up, and if and only if every way of finishing that work with its status reads answered does. |
| Witnesses.RefreshLostToFinishedWorker | internal/enrich/worker.go:83-85 | For every ISBN: a reachable refresh of its enriched edition, with nobody looking it up, after which everything comes to rest with the edition pending and no Lookup in the run or ahead of it: the mark met a worker that had saved but not unmarked. |
| Witnesses.RefreshLostToOlderFailure | internal/enrich/worker.go:123-132 | Likewise for every ISBN with a worker about to record a failed Lookup: the edition ends failed and no Lookup follows. |
| Witnesses.RefreshDuringLookup | internal/enrich/worker.go:123-147 | For every ISBN: a reachable refresh that meets a worker between its Lookup and its save, so the condition of `RefreshFreshness` is not vacuous. |
| Enrichment.CoverVisibleForEver | internal/books/store_memory.go:225-237 | Once a worker's SaveCover has taken effect, every view of every book with that ISBN shows the cover and the cover is served, in every state of every continuation. |
| Enrichment.CoverBeforeEnriched | internal/enrich/worker.go:134-147 | When a `process` that saved its cover flips the edition to enriched, every view showed the cover already; the cover flag holds exactly for ISBNs with a stored cover. |
| Enrichment.CoverThenEnriched | internal/enrich/worker.go:134-147 | However much others do between a worker's saved cover and its next write, that write can be the enriching save, and the cover is visible before and after it. |
| Enrichment.SavedReadsEnriched | internal/enrich/worker.go:144-147 | Once a worker's save has taken effect every view of every book with that ISBN reads "enriched" and shows the saved metadata, under the names the book has itself. |
| Enrichment.FailureReadsFailed | internal/enrich/worker.go:150-154 | Once a recorded failure has taken effect every such view reads "failed" and is otherwise unchanged. |
| Enrichment.RefreshReadsPending | internal/books/handlers.go:431-437 | Once a refresh has taken effect every such view reads "pending" and is otherwise unchanged. |
| Enrichment.SavedCoverIsServed | internal/books/store_memory.go:225-252 | A cover a worker saved is served byte for byte, and the view changes in the cover flag only. |
| Enrichment.SweepOffers | internal/enrich/worker.go:156-165 | A sweep sets out to enqueue exactly the listing, and an unfinished ISBN is on it if and only if fewer than 100 unfinished ISBNs sort below it. |
| Enrichment.NothingForgotten | internal/books/store_memory.go:180-194 | Once a row exists it is, in every later state, either enriched or in the untruncated listing. |
| Enrichment.UnrequestedIsNeverListed | internal/books/handlers.go:283-286 | A row appears only through a committed ensure or refresh; while those fail no sweep lists the ISBN. |
| Progress.AcceptedWorkEnds | internal/enrich/worker.go:72-109 | However the goroutines interleave, work accepted so far takes a bounded number of further steps. |
| Progress.NothingLeftInFlight | internal/enrich/worker.go:83-85 | When no useful step is left and some worker is still running, queue and in-flight set are empty and all callers idle. |
| Workers.Worker.constructor | internal/enrich/worker.go:34-53 | A new worker is empty; options that are not positive become 2 workers, a queue of 128 and a sweep every 15 minutes. |
| Workers.Worker.MarkInFlight | internal/enrich/worker.go:169-177 | Marks the ISBN and reports whether it was free. |
| Workers.Worker.UnmarkInFlight | internal/enrich/worker.go:179-183 | Frees the ISBN. |
| Workers.Worker.Enqueue | internal/enrich/worker.go:58-68 | Appends and marks a non-empty ISBN that is not in flight if there is room; otherwise nothing is queued and nothing stays marked. |
| Workers.Worker.Process | internal/enrich/worker.go:113-148 | Skips an enriched edition; otherwise records failure, or the cover if there is one and then the metadata. |
| Workers.Worker.Reconcile | internal/enrich/worker.go:156-165 | Offers the listing of 100 entries to Enqueue in order. |
| Workers.Worker.Drain | internal/enrich/worker.go:79-86 | Processes the queue in order and frees exactly the ISBNs that were queued. |
| Workers.Worker.SweepAndDrain | internal/enrich/worker.go:79-105 | A sweep into an empty queue followed by a drain processes the first min(100, queue size) unfinished ISBNs and leaves nothing queued or in flight. |
| Workers.SweepFillsQueue | internal/enrich/worker.go:58-68 | A sweep into an empty queue enqueues exactly the first min(100, queue size) unfinished ISBNs; the rest is dropped and unmarked. |
| Workers.SweepWithRoom | internal/enrich/worker.go:156-165 | A sweep that finds as many free slots as it lists leaves every listed ISBN in flight, whatever was in flight before. |
| Workers.DrainRounds | internal/enrich/worker.go:156-165 | With a source that finds everything, n unfinished editions are all enriched after r sequential rounds if and only if r is at least n / min(100, queue size), rounded up. |
| Workers.EnrichedEventuallyIff | internal/enrich/worker.go:156-165 | Sequential rounds, each a whole sweep and then a whole drain, ever enrich an unfinished ISBN if and only if the source finds it and fewer than min(100, queue size) never-found unfinished ISBNs sort below it. |
| Starvation.SweepsEnrichIff | internal/enrich/worker.go:79-105 | From any reachable state at rest, some interleaving of sweeps and worker steps in which the source answers as given enriches an unfinished ISBN if and only if the source finds it and fewer than 100 never-found unfinished ISBNs sort below it; otherwise none does, whatever the queue size and whichever store calls fail. |
| Starvation.InterleavingHelps | internal/enrich/worker.go:79-105 | Interleaved runs enrich a findable ISBN that sequential rounds never enrich if and only if the never-found ISBNs below it number at least min(100, queue size) and fewer than 100. |
| Delivery.SweptIsLookedUp | internal/enrich/worker.go:156-165 | From rest, after a sweep each of the first min(100, queue size) unfinished ISBNs is looked up in every interleaving to rest whose status reads are answered, whichever writes fail. |
| Delivery.DeliveredIff | internal/enrich/worker.go:55-57 | From rest there is a number of rounds, each a sweep and any way of finishing what it started, after which an unfinished ISBN is enriched in every interleaving, if and only if the source finds it and fewer than min(100, queue size) never-found unfinished ISBNs sort below it; then one round more than the unfinished ISBNs below it suffices. |
| Delivery.RoundFinishes | internal/enrich/worker.go:79-105 | In every interleaving a round finishes at least what a sequential round finishes. |
| Delivery.DrainedIff | internal/enrich/worker.go:156-165 | With a source that finds everything, n unfinished editions are all enriched after r rounds in every interleaving if and only if r is at least n / min(100, queue size), rounded up. |
| Witnesses.StarvationExists | internal/enrich/worker.go:156-165 | For every queue size there is an initial state, of 101 well-shaped ISBNs, with one that the source knows and no interleaving of sweeps and workers ever enriches. |
| Schedule.RoundsAreRun | internal/enrich/worker.go:72-105 | Any number of sequential rounds is a run of the protocol, made of sweeps and worker steps only, in which every Lookup is answered by the given source. |
| Schedule.EnqueueIsRun | internal/enrich/worker.go:58-68 | One uninterleaved Enqueue is the mark, send or drop steps of the protocol. |
| Schedule.RequestIsRun | internal/books/handlers.go:279-288 | One uninterleaved ensure or refresh and its Enqueue, which happens only if the store reported success, is a run of the caller's steps. |
| Schedule.ProcessIsRun | internal/enrich/worker.go:83-148 | One uninterleaved dequeue, process and unmark is a run of worker steps. |
| Catalog.SweptIff | internal/books/store_memory.go:180-194 | The listing of a given positive limit contains an unfinished ISBN if and only if fewer unfinished ISBNs than the limit sort below it. |
| Catalog.SweepListing | internal/books/store_memory.go:180-194 | Enriched editions and listed ones partition the rows; a limited listing is the sorted, duplicate-free prefix of the full one. |
| Catalog.MergeIdempotent | internal/books/store_memory.go:90-110 | Merging a merged book again changes nothing. |
| Catalog.DerivedFieldsDoNotLeak | internal/books/store_memory.go:90-110 | Of two stored books with the same own fields the readers see the same view if and only if their cover URLs are equal: no other derived field of a stored book reaches a reader. |
| Catalog.EnsureEditionIsInvisible | internal/books/store_memory.go:159-166 | Creating the pending row for an ISBN changes no reader's view. |
| Catalog.ViewExactly | internal/books/store_memory.go:90-110 | A view has the own fields of the stored book, each empty name filled in from the edition, the edition's data field by field, and the status "enriched", "failed", "pending" or "skipped" exactly when the edition is enriched, is failed, is pending or missing, or there is no ISBN. |
| Catalog.DeletedIsGone | internal/books/store_memory.go:146-155 | Deleting succeeds for exactly the books one can get; then book and cover are gone for everybody, and every other view and cover is unchanged. |
| Catalog.CoverShownIffServed | internal/books/store_memory.go:239-252 | With consistent flags a view shows a cover exactly when the cover endpoint has one. |
| Order.ListingUnique | internal/books/store_memory.go:188 | The sorted duplicate-free sequence of a set is unique. |
| Order.LeqIsLexicographic | internal/books/store_memory.go:188 | A string does not sort after another if and only if it is a prefix of it or has the smaller character at the first place where they differ. |
| Order.SortedKeysAreListing | internal/books/store_memory.go:183-188 | Collecting map keys in any order and sorting them yields that sequence. |
| MemoryStores.MemoryStore.constructor | internal/books/store_memory.go:33-39 | A new store is empty. |
| MemoryStores.MemoryStore.Create | internal/books/store_memory.go:50-65 | Stores the caller's pointer under the new ID with owner, default status and both times set; nothing else changes, except that a pointer the store holds already shows the new book under its old keys, too. |
| MemoryStores.MemoryStore.OwnedBook | internal/books/store_memory.go:69-75 | Finds a book exactly when it exists and belongs to the caller. |
| MemoryStores.MemoryStore.ApplyEdition | internal/books/store_memory.go:93-110 | The field-by-field merge into a copy equals the view of the book. |
| MemoryStores.ApplyCanonicalNames | internal/books/book.go:50-57 | The edition's names fill in only what the book lacks. |
| MemoryStores.MemoryStore.Get | internal/books/store_memory.go:77-88 | Returns a fresh merged copy of the caller's own book, or nothing; the store does not change. What the merged view shows is stated by `Catalog.ViewExactly`. |
| MemoryStores.MemoryStore.List | internal/books/store_memory.go:112-129 | Returns each of the caller's books once, merged and oldest first, in fresh cells that are distinct from each other and from the store's; the store is unchanged. |
| MemoryStores.MemoryStore.Update | internal/books/store_memory.go:131-144 | Replaces the caller's own book keeping its creation time, also through a pointer the store holds already; for anyone else's book it fails and changes nothing. |
| MemoryStores.MemoryStore.Delete | internal/books/store_memory.go:146-155 | Removes the caller's own book only. |
| MemoryStores.MemoryStore.EnsureEdition | internal/books/store_memory.go:159-166 | Creates a pending row if there is none and otherwise leaves the row alone. |
| MemoryStores.MemoryStore.MarkEditionPending | internal/books/store_memory.go:168-178 | Sets only the status, creating the row if needed. |
| MemoryStores.MemoryStore.PendingEnrichment | internal/books/store_memory.go:180-194 | Returns the sorted listing of unfinished editions, cut to a positive limit. |
| MemoryStores.MemoryStore.EditionStatus | internal/books/store_memory.go:196-204 | Reports the status of an existing row. |
| MemoryStores.MemoryStore.SaveEnrichment | internal/books/store_memory.go:206-223 | Sets the status and, only when there is metadata, the metadata and its time; the cover flag stays. |
| MemoryStores.MemoryStore.SaveCover | internal/books/store_memory.go:225-237 | Stores a copy of the cover and sets the flag, creating a pending row if there is none. |
| MemoryStores.MemoryStore.CoverForBook | internal/books/store_memory.go:239-252 | Returns a fresh copy of the cover for the caller's own book. |
| Calls.UsersAreIsolated | internal/books/store.go:12-15 | Whatever sequence of calls everybody else makes, a user's stored books stay exactly as they are. |
| Calls.OwnershipIsForEver | internal/books/store_memory.go:131-144 | No sequence of calls changes a book's owner or creation time. |
| Calls.KeysStayIds | internal/books/store_memory.go:50-65 | For calls with books by value, the map key of a book is always its ID. |
| MemoryStores.SharedPointerKeys | internal/books/store_memory.go:50-65 | For calls with pointers, the keys stay the IDs through a creation if and only if the pointer is not stored under another key, and through an update always. |
| Postgres.MemoryViewIsJoinView | internal/books/store_postgres.go:79-117 | After any sequence of calls that meets the condition of `StepAgreesIff`, for texts without U+0000 every `Get`, the whole shelf, the served cover up to its source URL, every status and every listing with a positive limit agree between the in-memory store and the join. |
| Postgres.ReadsAlikeIff | internal/books/store_postgres.go:119-164 | Stores in step answer a reader alike if and only if user, ID and ISBN asked for contain no U+0000. |
| Postgres.StepAgreesIff | internal/books/store_postgres.go:49-294 | A call keeps the two stores in step and ends alike (done, not found or another error) if and only if its texts contain no U+0000 and its numbers fit 32 bits, and it does not create under a taken ID, write a book of the caller's whose ISBN the constraint rejects or which carries a cover URL, or save a cover for an unknown edition. |
| Postgres.NulSeparatesStores | internal/books/store_postgres.go:65-72 | A book with a valid ISBN and a title of one U+0000 is stored by memory and rejected by SQL. |
| Endpoints.StoresAnswerAlike | internal/books/store.go:24-27 | From empty stores, after any sequence of endpoint calls and worker saves with fresh IDs, texts without U+0000 and numbers of 32 bits, any of whose writes may fail, every view, shelf, served cover up to its source URL, status and positive listing asked for without U+0000 agrees between the stores. |
| Endpoints.ServedAlike | internal/books/handlers.go:242-377 | One such request reads the same view from both stores, keeps them in step and leaves every stored book under its ID with an acceptable ISBN, no cover URL and fields that SQL can hold. |
| Endpoints.PostAlikeIff | internal/books/handlers.go:242-263 | A creation that the handler accepts keeps the stores in step if and only if its texts contain no U+0000 and its rating fits 32 bits. |
| Endpoints.EditAlikeIff | internal/books/handlers.go:331-370 | Likewise for a PATCH of a book of one's own with a valid ISBN or none. |
| Endpoints.EditWrites | internal/books/handlers.go:331-370 | The store calls attributed to a PATCH have exactly the effect of the handler. |
| Endpoints.PostWrites | internal/books/handlers.go:242-263 | The store calls attributed to a creation have exactly the effect of the handler. |
| Endpoints.RenewWrites | internal/books/handlers.go:414-437 | The store calls attributed to a refresh have exactly the effect of the handler. |
| Postgres.RunsAgree | internal/books/store_postgres.go:195-294 | Such a sequence keeps the two stores row for row in step. |
| Postgres.BookStep | internal/books/store_postgres.go:49-188 | Under that condition creating, updating and deleting end alike and keep the stores in step. |
| Postgres.EditionStep | internal/books/store_postgres.go:195-294 | Under that condition the upserts end alike and keep the stores in step. |
| Postgres.SaveCoverAgreesIff | migrations/0003_add_editions.sql:25 | Saving a cover keeps the stores in step, ending alike, if and only if its texts contain no U+0000 and the edition exists; without U+0000 a missing edition leaves the stores apart. |
| Postgres.ListingsAgree | internal/books/store_postgres.go:216-233 | The listings are equal if and only if the limit is positive, or is zero with nothing to list. |
| Postgres.CoversAgree | internal/books/store_postgres.go:299-317 | Both stores serve the same cover to the same caller, except for the source URL, if and only if user and ID contain no U+0000. |
| Handlers.Handler.Create | internal/books/handlers.go:242-274 | Rejects a missing user or an invalid ISBN without any change; otherwise stores the book under its canonical ISBN, ensures and queues the edition, and answers with the view, which has every field as asked for, the canonical ISBN, the status "to_read" if none was given and the edition's names where none were given. A failed write or re-read is a 500; a book whose edition cannot be ensured is stored and answered all the same, but not queued. |
| Handlers.CreationIsAsAsked | internal/books/handlers.go:42-52 | The same of the store function, for any store and any earlier state of the edition: every view after an accepted creation has the fields of the request body, the edition's data, and the address of its cover if there is one. |
| Handlers.Handler.Update | internal/books/handlers.go:331-377 | Answers 401, 404, 422 or, on a failed read, 500 without any change; otherwise writes the patched view back, ensures and queues the edition only if the ISBN changed, and answers with a view that has each field as the request body gives it, the ISBN in canonical form, and the others as they were. A body whose ISBN has no canonical form is a 422. A failed write or re-read is a 500, and a book deleted before the write a 404. |
| Handlers.PatchIsAsAsked | internal/books/handlers.go:67-89 | The same of the store function: after a PATCH each own field is that of the body, or of the view read if the body omits it; the book is stored under the canonical form of a given ISBN, whose edition has a row if it could be ensured; and only then does the ISBN change. |
| Handlers.Handler.Refresh | internal/books/handlers.go:414-443 | Answers 401, 404, 422 or, on a failed read, 500 without any change; otherwise sets the edition pending and queues it; if marking it fails it is not queued and the answer is 500. |
| Handlers.Handler.EnqueueEnrichment | internal/books/handlers.go:279-288 | Ensures the edition and then queues it; does nothing without an ISBN, and does not queue an edition that could not be ensured. |
| Handlers.ApplyTo | internal/books/handlers.go:67-89 | Replaces exactly the fields the patch provides. |
| Handlers.SetCoverURL | internal/books/handlers.go:292-296 | Fills the cover URL exactly when there is a cover. |
| Patches.PatchIsPartial | internal/books/handlers.go:331-377 | After a PATCH that keeps the ISBN the reader sees the previous view with just the patched fields and the update time replaced, if and only if the patch blanks no name the edition knows. |
| Patches.PatchesCompose | internal/books/handlers.go:54-56 | Any number of such PATCHes, interleaved with other people's calls and ensured editions, leave the owner with the original view with exactly those patches applied in order. |
| Patches.PatchesUnderEnrichment | internal/books/handlers.go:331-377 | Whatever workers, refreshes and other users do in between and whichever ISBNs the PATCHes move the book to, the own fields are those of the PATCHes applied in order, the edition data is that of the current edition, and a name the book has itself is changed by PATCHes only. |
| Patches.NamesFixedByPatch | internal/books/handlers.go:336-358 | From the first PATCH that shows or sets a name on, that name is what PATCHes make of it, whatever becomes of the editions. |
| Patches.PatchToNewIsbn | internal/books/handlers.go:345-369 | With a new ISBN patched names are used, names the reader saw are kept, and only a missing name comes from the new edition. |
| Patches.NewIsbnShowsNewEdition | internal/books/handlers.go:365-370 | With a new ISBN all other edition data is what any book with that ISBN shows. |
| Patches.PatchAcrossChanges | internal/books/handlers.go:336-370 | When the worker or other users change anything but the book between the handler's read and its write, the reader gets the current edition data and the patched own fields; only the names as read are frozen. |
| Patches.RacingPatches | internal/books/handlers.go:336-363 | Of two PATCHes that read the same view the later write wins as a whole; the outcome is that of both in turn if and only if the second overrides every change of the first. |
| Patches.PatchFreezesNames | internal/books/handlers.go:336-358 | A name shown when a PATCH arrives is shown ever after, whatever becomes of the editions. |
| SearchCaches.ResultCache.Get | internal/search/handlers.go:180-188 | A hit exactly when there is an entry that has not expired. |
| SearchCaches.ResultCache.Put | internal/search/handlers.go:190-216 | Below 256 entries only adds; at the limit drops what has expired, and if that makes no room one entry with the smallest expiry. |
| SearchCaches.ResultCache.Evict | internal/search/handlers.go:197-213 | The loop with its two sentinels does exactly that, provided keys are non-empty and expiries non-zero. |
| SearchCaches.Search | internal/search/handlers.go:102-143 | Answers from the cache when it can, stores only fresh answers, and maps every failure to its status without touching the cache. |
| SearchCaches.CacheBounded | internal/search/handlers.go:194-213 | After any sequence of puts there are at most 256 entries. |
| SearchCaches.LiveEvictionIsOldest | internal/search/handlers.go:194-213 | A live entry is dropped only when nothing had expired, and then has the smallest expiry. |
| SearchCaches.HitIsLatestPut | internal/search/handlers.go:180-188 | A hit equals the answer of a cache that never evicts: the latest put under that key, at most 60 seconds old. |
| SearchCaches.HitIsForSameWords | internal/search/handlers.go:174-188 | A search answered from the cache gets the hits stored last by a search for the same words and limit, up to case and spacing, at most 60 seconds ago. |
| SearchCaches.EntrySurvives | internal/search/handlers.go:194-213 | With a strictly increasing clock an entry answers for its key through the next 255 puts until it expires, as the unbounded cache would. |
| SearchCaches.SurvivalIsSharp | internal/search/handlers.go:194-213 | 256 further puts under new keys, with nothing expired, always drop the entry. |
| CacheKeys.KeysAreExact | internal/search/handlers.go:176-178 | Two searches share a key if and only if their limits are equal and their queries consist of the same words in the same order, up to case and the white space between and around the words, whatever characters the queries contain. |
| CacheKeys.FieldsAreItsWords | internal/search/handlers.go:174-178 | However a text is made of words free of white space, kept apart by any non-empty white space and possibly surrounded by some, its fields are exactly those words in order. |
| CacheKeys.FoldIdempotent | internal/search/handlers.go:174-178 | Folding a folded query changes nothing. |
| CacheKeys.TrimAbsorbed | internal/search/handlers.go:112-113 | Trimming the query first does not change its key. |
| CacheKeys.SurroundingSpaceIgnored | internal/search/handlers.go:174-178 | White space around a query does not change its key. |
| Isbn.CanonicalKeys | internal/books/isbn.go:38-44 | The keys inputs are mapped to are exactly the strings of the right shape, each mapped to itself and accepted by the database constraint. |
| Isbn.AcceptedExactly | internal/books/isbn.go:18-44 | An input is accepted if and only if what is left without hyphens, spaces, tabs and no-break spaces is thirteen digits, or nine digits and a digit or an x of either case; the key is those characters in order with a capital X. |
| Isbn.PassesExactly | migrations/0004_require_isbn.sql:35-36 | The constraint passes exactly the strings that are so without hyphens and spaces alone. |
| Isbn.SpellingDoesNotMatter | internal/books/isbn.go:18-41 | Inserting a separator anywhere or changing the case of a letter does not change the key or the rejection. |
| Isbn.PickISBN | internal/enrich/openlibrary.go:190-202 | Picks the first ISBN-13, else the first candidate of ten bytes, else nothing. |
| Isbn.Isbn13Exactly | internal/enrich/openlibrary.go:122 | A candidate counts as an ISBN-13 if and only if it is 978 or 979 and ten more digits. |
| Isbn.PickIsSettled | internal/enrich/openlibrary.go:190-202 | Once an ISBN-13 is picked no further candidates change the pick, and once there is a fallback no further candidates that are not ISBN-13s do. |
| Isbn.SuggestionKeepsItsKey | internal/enrich/openlibrary.go:187-202 | A suggested ISBN is rejected at creation or stored under exactly the key suggested; an ISBN-13 is always accepted. |
| Isbn.Suggest | internal/enrich/openlibrary.go:164-184 | The hits answer the documents in order, leaving out exactly those without a usable ISBN, with the author names joined by commas and the first publisher if any. |
| Isbn.AnswersExactly | internal/enrich/openlibrary.go:164-184 | The hits show, in order, exactly the documents that have an ISBN-13 or a candidate of ten bytes, each under one of its candidates with its title, year, first publisher and all authors. |
| Text.JoinAppended | internal/enrich/openlibrary.go:174-176 | A joined list with one more name is the list joined before, the separator and that name. |
| Retry.GetWithRetry | internal/enrich/httpclient.go:14-44 | Retries exactly the transient outcomes up to the limit, closes the body of every response it does not return and no other, and waits out the quadratic backoff between attempts. |
| Retry.SettledOnce | internal/enrich/httpclient.go:14-44 | The outcomes of the attempts determine the result and the number of attempts. |
| Retry.RetryBounds | internal/enrich/httpclient.go:15-43 | At most the given number of attempts; a returned response is neither 429 nor 5xx and is the only one left open; the backoff is at most 200 (n-1) n (2n-1) / 6 milliseconds, 1000 for three attempts. |
| Retry.FirstAnswerCounts | internal/enrich/httpclient.go:27-42 | After network errors, 429s and 5xx whose waits were not cut short, any other response, a 404 included, is returned with its status and body without a further attempt; an attempt that cannot be built ends in an error, a transient one without successor exhausts the attempts, and one whose wait is cut short cancels. |
| Retry.OnlyFailuresAreRepeated | internal/enrich/httpclient.go:26-33 | Conversely every attempt before the last one made was a network error, a 429 or a 5xx. |

## Left out

- Authentication, routing, OpenAPI, JSON, logging and process wiring: library calls with short branches; the caller's subject is a parameter.
- The bodies of the two providers and the fallback between them: the source is a free oracle in the protocol and a function of the ISBN in the uninterleaved rounds.
- SQL execution, connection pool, migrations running: the statements are specified as functions on rows; collations other than code point order, size limits of rows and index entries, and timestamps rounded to microseconds are not modelled.
- Clocks and IDs: instants and fresh IDs are parameters, and the two stores are given the same instant, although the relational one reads the database's clock for the enrichment time.
- Several server processes: the in-flight set is per process, so mutual exclusion is claimed for one.
- Interleaving inside one store call: each is atomic under its lock or transaction.
- Handlers.Handler.Update: apart from a concurrent delete and failing store calls the method runs without interleaving; what other calls between its read and its write lead to is stated by `Patches.PatchAcrossChanges` and `Patches.RacingPatches` on the store functions.
- Endpoints.StoresAnswerAlike: each request runs its store calls without other requests in between.
- MemoryStores.MemoryStore.Get: tags, the enrichment time and cover bytes are values here; in the program a copy shares the tags array, the time and the bytes with the store, and no function writes through them.
- Calls.KeysStayIds: the calls take books by value; what a pointer stored twice does is stated by `MemoryStores.SharedPointerKeys`.
- MemoryStores.MemoryStore.List: the order of books created at the same instant is left open, as in the code.
- Schedule.RoundsAreRun: speaks of sequential rounds in which no other caller interleaves and no store call fails; what holds under interleaving is stated in `Enrichment.dfy`, `Refetch.dfy`, `Starvation.dfy` and `Delivery.dfy`.
- The endpoints that list, show and delete books and serve covers: one store call each and its status codes.
- ISBN check digits and conversion between the two lengths: the code does neither.
- Delivery.DeliveredIff: requests that arrive between the rounds are left out; what they may do to one ISBN is stated by `Refetch.LookupAheadIff` and `Enrichment.StatusMoves`.
- Strings that are not valid UTF-8.
