# HTTP sessions and source snippets of Pavex, verified

This project models two components of Pavex and proves what they are for.

**HTTP sessions** (`libs/pavex_session`, `libs/pavex_session_memory_store`). A `Session` is a lazily
loaded, write-back cache of one record in a session store whose entries silently expire while the clock
moves. At the end of a request it is synced with the store in at most two store calls, and turned into a
cookie which comes back with the client's next request.

- `SessionTypes.dfy`: values and configuration.
- `StoreSpec.dfy`: one store call as a function of the records and of its clock readings; the reference
  store that forgets records the instant they expire.
- `MemoryStore.dfy`: the clock, the in-memory store and the store wrapper as classes.
- `SessionSpec.dfy`: operations, sync and cookies as functions of the session and the store's replies.
- `Session.dfy`: the `Session` class, method by method.
- `MapLaws.dfy`: what an application relies on from one operation to the next.
- `SessionInvariants.dfy`, `LazyRefinement.dfy`: what holds whatever the store replies.
- `Visitors.dfy`: exactly which requests without a cookie leave a record or get a cookie.
- `ConcurrentLoad.dfy`: several tasks that load one session at the same time.
- `WriteBack.dfy`, `TtlBounds.dfy`: what the store holds after a sync, and for how long.
- `Clients.dfy`: a browser and all its requests as a process that talks to the store call by call.
- `Middleware.dfy`: the end of a request, tying the `Session` class to that process.
- `Persistence.dfy`, `CookieRecord.dfy`, `Responses.dfy`, `WholeRuns.dfy`, `RemovalTrap.dfy`: whole runs of one
  client.
- `Isolation.dfy`: any number of clients, interleaved between any two store calls.
- `SharedCookie.dfy`: two requests that carry the same cookie, one of which logs out.

**Source snippets** (`libs/pavex_miette`). The diagnostic printer cuts a source context into lines, relates
highlighted spans to lines, and draws tab-aware underlines and labels.

- `SourceLines.dfy`: cutting into lines, and span classification.
- `Highlights.dfy`: visual columns, the printed line, and the underlines beneath it.
- `Labels.dfy`: the rows of a label.

How the environment is modelled:

- The clock never runs backwards and may move between any two readings; each store call takes up to two.
- `Moment` is one store call's circumstances: its clock readings, and whether the backend is down, in which
  case the call fails with `Other` and has no effect.
- A generated identifier is arbitrary. Where a result needs it to be new, the lemma says so.
- JSON values are opaque. Durations are whole nanoseconds. The extension threshold is an exact real in [0, 1].
- A panic is a result (`Panicked`, `SyncPanicked`) of an operation that leaves the session as it was.
- A subtraction that underflows counts as a panic, as in a debug build.
- The display width of a character is a given function. A tab stop is positive and a blank is one cell wide.

Where the code differs from what its documentation suggests, the model follows the code:

- Removing a key from a loaded, unchanged state does not mark the state as changed, so the removal is not
  written back (`RemovalTrap.RemovalIsLost`). The plain maps of `Persistence` describe exactly what is kept.
  The documented reading of a request is right if and only if what it leaves behind is what it sees at its end
  (`WholeRuns.FaithfulIffNeverNoticed`), which fails exactly if it wrote nothing and what it sees still differs
  from what was there before (`WholeRuns.FaithfulUnlessOnlyRemoved`).
- A renamed session without a record becomes "unchanged and empty" in memory under `NeverSkip`, although no
  record was created. This and the removal are the only cases in which `WriteBack.WriteBackAgreement` fails.
- A new session that has written something when it is synced cannot be synced again while its state stays as it
  is: the integrity assertion fails, or creating an empty record does (`SessionInvariants.NewSessionSyncsOnce`,
  `SessionInvariants.SecondSyncMayPanic`).
- Invalidating a session can be undone by another request with the same cookie: if that one's session is renamed
  and has its state in memory, in whatever order their store calls interleave (`SharedCookie.LogoutUndoneIff`).
- Where the cookie has no record, a request that writes server state and keeps its identifier gets no response but
  a failure, although the store works (`Responses.SyncTells`, `WholeRuns.WholeRunPersistence`).
- A context that ends in a lone CR gives its last line the number of the line before it.
- A caption is wrapped by display cells, but its pieces are placed by their length in bytes. The corner of a
  label to the left is in its anchor's column if and only if the text has as many bytes as cells
  (`Labels.LeftColumns`), and a centered piece with more bytes than there are cells makes the subtraction
  underflow (`Labels.DrawLabel`, `Labels.AccentsUnderflow`).
- A label to the right underflows as well, however short it is, if its highlight is one cell wide and starts the
  line or directly follows another one of at most two cells (`Labels.RightUnderflowsIff`,
  `Labels.ColumnZeroUnderflows`).
- The rows of a wrapped label to the right line up if and only if corner and dash are ASCII characters
  (`Labels.RightColumns`).

## Model

| member | source | states |
|---|---|---|
| StoreSpec.CallRefinesIdeal | libs/pavex_session_memory_store/src/lib.rs:45-195 | although a call reads the clock up to twice, there is one instant inside it at which reply and unexpired content are those of a plain map without a clock |
| StoreSpec.StoreRefinement | libs/pavex_session_memory_store/src/lib.rs:63-221 | for every sequence of calls and sweeps, all replies and the unexpired content are those of a store that forgets expired records at once; stale leftovers are never observable |
| StoreSpec.CallDependsOnOwnIds | libs/pavex_session_memory_store/src/lib.rs:97-195 | stores that agree on the unexpired records of the identifiers of a call reply alike and still agree afterwards |
| StoreSpec.CallLeavesOthers | libs/pavex_session_memory_store/src/lib.rs:97-195 | a call leaves the records of all other identifiers alone |
| StoreSpec.RenameConserves | libs/pavex_session_memory_store/src/lib.rs:184-195 | a successful change of identifier moves the record with its deadline, removes the old one, and keeps the number of unexpired records |
| StoreSpec.CallKeepsBound | libs/pavex_session_memory_store/src/lib.rs:107-146 | with one time-to-live, every deadline stays within it, and no call brings an expiry forward |
| StoreSpec.RecordLivesExactly | libs/pavex_session_memory_store/src/lib.rs:97-168 | a record that was created or overwritten is loaded, as written and with exactly the rest of its lifetime, until its time-to-live is over, and not from then on |
| StoreSpec.RepliesAgree | libs/pavex_session_memory_store/src/lib.rs:97-195 | a record is found by a load exactly if it can be deleted, updated, extended and renamed to an unused identifier, and cannot be created; what was deleted is not found |
| MemoryStore.Clock.Now | libs/pavex_session_memory_store/src/lib.rs:45-49 | readings never decrease |
| MemoryStore.InMemorySessionStore.GetIfFresh | libs/pavex_session_memory_store/src/lib.rs:63-74 | returns the record exactly if it is unexpired at the reading taken |
| MemoryStore.InMemorySessionStore.Remove | libs/pavex_session_memory_store/src/lib.rs:79-90 | the record is gone in any case, and returned exactly if it was unexpired at the reading taken |
| MemoryStore.InMemorySessionStore.Create | libs/pavex_session_memory_store/src/lib.rs:97-115 | refines the store specification at non-decreasing clock readings |
| MemoryStore.InMemorySessionStore.Update | libs/pavex_session_memory_store/src/lib.rs:121-133 | refines the store specification at non-decreasing clock readings |
| MemoryStore.InMemorySessionStore.UpdateTtl | libs/pavex_session_memory_store/src/lib.rs:139-148 | refines the store specification at non-decreasing clock readings |
| MemoryStore.InMemorySessionStore.Load | libs/pavex_session_memory_store/src/lib.rs:156-168 | refines the store specification; the remaining lifetime is never negative even if the record expires between the two readings |
| MemoryStore.InMemorySessionStore.Delete | libs/pavex_session_memory_store/src/lib.rs:174-178 | refines the store specification |
| MemoryStore.InMemorySessionStore.ChangeId | libs/pavex_session_memory_store/src/lib.rs:184-195 | refines the store specification, including the removal of an expired old record that is reported as unknown |
| MemoryStore.InMemorySessionStore.CollectStale | libs/pavex_session_memory_store/src/lib.rs:204-215 | for any iteration order, notes distinct stale identifiers: all of them without a batch size, else as many as the batch size if there are as many |
| MemoryStore.InMemorySessionStore.DeleteExpired | libs/pavex_session_memory_store/src/lib.rs:199-221 | removes stale records only and returns the exact drop in size; without a batch size no stale record is left, with one none is left unless that many were removed |
| MemoryStore.SweepIsInvisible | libs/pavex_session_memory_store/src/lib.rs:199-221 | a sweep leaves the unexpired content alone and accounts for all stale records |
| MemoryStore.SweepIsThorough | libs/pavex_session_memory_store/src/lib.rs:205-219 | a sweep spares stale records only if it has a batch size and has dropped that many, and drops only expired ones |
| MemoryStore.RepeatedSweepsTerminate | libs/pavex_session_memory_store/src/lib.rs:199-221 | after k sweeps at a standing clock, k times the batch is gone or nothing stale is left |
| MemoryStore.SessionStore.Invoke | libs/pavex_session/src/store_.rs:16-83 | forwards to the backend, or fails without effect |
| SessionSpec.NewSession | libs/pavex_session/src/session_.rs:164-191 | every new session satisfies the documented invariants |
| SessionSpec.Perform | libs/pavex_session/src/session_.rs:278-447 | every operation keeps the documented invariants and the incoming identifier, whatever the store replies |
| SessionSpec.WireRoundTrip | libs/pavex_session/src/wire.rs:7-13 | a cookie that is set and comes back is read as the same identifier and client map, including an empty one, and an empty map is left out of it |
| MapLaws.UnparsableCookie | libs/pavex_session/src/incoming.rs:17-34 | a cookie that does not parse starts a new session, as no cookie would |
| HttpSession.Session.constructor | libs/pavex_session/src/session_.rs:164-191 | a continuation of the incoming session or a new one, valid |
| HttpSession.Session.ForceLoad | libs/pavex_session/src/session_.rs:981-1030 | refines the specification; afterwards the state is in memory, or the load failed and nothing changed |
| HttpSession.Session.IsEmpty | libs/pavex_session/src/session_.rs:278-285 | answers as the specified operation on the loaded state; the store is not changed |
| HttpSession.Session.GetRaw | libs/pavex_session/src/session_.rs:288-299 | answers as the specified operation on the loaded state; the store is not changed |
| HttpSession.Session.InsertRaw | libs/pavex_session/src/session_.rs:310-339 | returns the previous value and leaves the specified changed state, or nothing on a doomed session; the store is not changed |
| HttpSession.Session.RemoveRaw | libs/pavex_session/src/session_.rs:346-356 | returns the removed value and leaves the specified state, in which an unchanged state stays marked as unchanged; the store is not changed |
| HttpSession.Session.Clear | libs/pavex_session/src/session_.rs:373-389 | leaves the specified empty state, marked as changed only if there was something to clear; the store is not changed |
| HttpSession.Session.Delete | libs/pavex_session/src/session_.rs:362-364 | refines the specification and keeps the invariants |
| HttpSession.Session.Invalidate | libs/pavex_session/src/session_.rs:436-439 | refines the specification and keeps the invariants |
| HttpSession.Session.CycleId | libs/pavex_session/src/session_.rs:396-427 | at most 16 draws, all but the last equal to the old identifier; panics exactly if all 16 are; else the new identifier differs from the old one |
| HttpSession.Session.WriteUnchanged | libs/pavex_session/src/session_.rs:495-545 | the verdict and the store afterwards are those of the specification |
| HttpSession.Session.WriteChanged | libs/pavex_session/src/session_.rs:563-594 | the verdict and the store afterwards are those of the specification |
| HttpSession.Session.Sync | libs/pavex_session/src/session_.rs:458-626 | session and store afterwards are those of the specification; a sync that fails leaves the session exactly as it was; the unreachable arm is unreachable |
| HttpSession.Session.Finalize | libs/pavex_session/src/session_.rs:644-723 | the cookie is the one of the specification; the unreachable arm is unreachable |
| HttpSession.Session.ClientGetRaw | libs/pavex_session/src/session_.rs:921-935 | refines the specification |
| HttpSession.Session.ClientIsEmpty | libs/pavex_session/src/session_.rs:937-944 | refines the specification |
| HttpSession.Session.ClientInsertRaw | libs/pavex_session/src/session_.rs:820-841 | refines the specification |
| HttpSession.Session.ClientRemoveRaw | libs/pavex_session/src/session_.rs:864-878 | refines the specification |
| HttpSession.Session.ClientClear | libs/pavex_session/src/session_.rs:884-898 | refines the specification |
| MapLaws.ServerLaws | libs/pavex_session/src/session_.rs:278-356 | an insert on the server side is read back and returns the previous value, other keys are not affected, and a state marked for deletion ignores everything |
| MapLaws.ServerRemovalLaws | libs/pavex_session/src/session_.rs:341-389 | a removed key is returned once and gone, other keys are not affected; after a clear or a delete nothing is there |
| MapLaws.ClientLaws | libs/pavex_session/src/session_.rs:820-944 | the same for inserts on the client side, as long as the session is not invalidated |
| MapLaws.ClientRemovalLaws | libs/pavex_session/src/session_.rs:864-898 | the same for removals on the client side |
| MapLaws.CycleIdRenames | libs/pavex_session/src/session_.rs:396-427 | for every kind of session, the new identifier is the one drawn, everything else stays, and it fails exactly if the old one was drawn |
| SessionInvariants.ReachableSessions | libs/pavex_session/src/session_.rs:52-137 | over all sequences of operations and repeated, failing or successful syncs against any store, the invariants hold, the old identifier never changes, and the arms called unreachable are |
| SessionInvariants.IntegrityCheckFailsIff | libs/pavex_session/src/session_.rs:530-543 | exactly when a sync hits the integrity assertion |
| SessionInvariants.FirstSyncNeverPanics | libs/pavex_session/src/session_.rs:530-543 | not before the first successful sync, whatever came before |
| SessionInvariants.NewSessionSyncsOnce | libs/pavex_session/src/session_.rs:530-543 | after a successful sync that wrote a non-empty state of a new session, no later sync succeeds while nothing changes the server state again, whatever the store replies; exactly when it panics |
| SessionInvariants.SecondSyncMayPanic | libs/pavex_session/src/session_.rs:530-543 | for example insert, sync, sync on a new session, under every configuration |
| SessionInvariants.FailuresAreReported | libs/pavex_session/src/session_.rs:467-594 | whatever the store replies, a sync reports every failure, except for an unknown identifier where it deletes or can create the state it has in memory; exactly when it makes a second call |
| SessionInvariants.RejectedMissInvalidates | libs/pavex_session/src/session_.rs:997-1027 | a load that finds no record invalidates the session exactly under `Reject` |
| SessionInvariants.InvalidationAbsorbs | libs/pavex_session/src/session_.rs:429-447 | after invalidation, no sequence of operations and syncs changes the server state or the client map, and no operation shows a value |
| SessionInvariants.InvalidatedSessionLeavesNothing | libs/pavex_session/src/session_.rs:546-663 | the last sync removes the incoming record, creates none, fails only if the store is down, and the removal cookie is sent exactly if there was an incoming session |
| LazyRefinement.LazyRefinesEager | libs/pavex_session/src/session_.rs:278-389 | for all sequences of operations and syncs, whatever happens to the store, all server-side answers are those of a plain value that starts with what the store held at the first load |
| Visitors.NewVisitor | libs/pavex_session/src/session_.rs:461-688 | for a request without a cookie, from its operations alone: it creates a record exactly if something was inserted (or put into the client map, under `NeverSkip`) and the session not given up; its deadline and the cookie are stated exactly |
| Visitors.IdleVisitor | libs/pavex_session/src/session_.rs:461-688 | a visitor who inserts nothing leaves no record and gets no cookie, under every configuration and whether or not the store is up |
| Visitors.ReturningVisitor | libs/pavex_session/src/session_.rs:650-712 | a request with a cookie always gets one back after a successful sync: the removal if invalidated, else the current identifier and client values |
| ConcurrentLoad.ConcurrentLoadsAgree | libs/pavex_session/src/session_.rs:981-1030 | for any number of tasks and any interleaving, the cell is written at most once, the session is invalidated exactly if the winning write marked it for deletion, and all successful reads agree |
| ConcurrentLoad.ConcurrentLoadsSucceed | libs/pavex_session/src/session_.rs:981-1030 | for any number of tasks and any interleaving, while the store is up no load fails, and every task that took its three steps has read the state in the cell |
| ConcurrentLoad.WakeUsesOrDrops | libs/pavex_session/src/session_.rs:997-1030 | a reply fills the cell if it is empty and is dropped otherwise, its task reads the cell either way, and a failure concerns its own task alone |
| ConcurrentLoad.LoneTask | libs/pavex_session/src/session_.rs:981-1030 | one task alone does what a single forced load does |
| WriteBack.WriteBackAgreement | libs/pavex_session/src/session_.rs:458-626 | after any operations and any failed or torn syncs, a successful sync makes memory and store agree, if and only if not in one of the two traps |
| WriteBack.SyncSucceedsIff | libs/pavex_session/src/session_.rs:467-595 | exactly when a sync with a working store succeeds, by identity and server state |
| WriteBack.RenameIsSafe | libs/pavex_session/src/session_.rs:511-589 | a renamed session with its state in memory always syncs, even if the old record expired; the old identifier is gone and the new one holds the record or the state |
| WriteBack.FailedSyncEffect | libs/pavex_session/src/session_.rs:546-595 | the most a failed sync does is to delete the old record; the session is as before |
| WriteBack.TornSyncIsRetryable | libs/pavex_session/src/session_.rs:563-595 | a failed sync of a renamed session, including after a successful delete, can be retried, and the new identifier then holds the state |
| WriteBack.NewSessionCookieExact | libs/pavex_session/src/session_.rs:650-688 | a request without a cookie gets one exactly if it is not invalidated and has client values or a record; if it gets none the store was not touched |
| TtlBounds.SyncNeverShortens | libs/pavex_session/src/session_.rs:495-594 | no sync brings an expiry forward, also not that of a record which changes its identifier, and deadlines stay within a time-to-live |
| TtlBounds.LoadedRecordsAreKeptAlive | libs/pavex_session/src/config/state.rs:28-132 | under `OnStateLoadsAndChanges`, a record that was loaded and then synced lives at least until the threshold's share of a time-to-live after the load |
| TtlBounds.ExtensionIsExact | libs/pavex_session/src/session_.rs:495-510 | the lifetime of a record that was only read is extended exactly if extensions on loads are configured and less than the threshold (if any) was left at the load; otherwise the store is not touched |
| TtlBounds.WrittenLivesFully | libs/pavex_session/src/session_.rs:563-626 | a written state gets a full time-to-live from the call that writes it, for every kind of identity, and the session remembers it as such |
| TtlBounds.CreatedLivesFully | libs/pavex_session/src/session_.rs:467-626 | so does an empty record that is created for want of one; if none is created, neither the store nor, unless renamed, the session changes |
| Persistence.ApplyRefines | libs/pavex_session/src/session_.rs:278-447 | every operation on a session answers and acts as on the pair of plain maps |
| Persistence.SyncCommits | libs/pavex_session/src/session_.rs:458-595 | the first call of a sync leaves in the store what the plain maps say the request leaves behind; or, if it failed, what was there; or nothing at the old identifier, with one call to go |
| Persistence.CloseRefines | libs/pavex_session/src/session_.rs:644-723 | the end of a request, with its cookie or its failure, commits the plain maps; a failed one loses server-side values only if it is torn in the middle of a changed and renamed session |
| CookieRecord.StepKeeps | libs/pavex_session/src/session_.rs:461-595 | under `NeverSkip` and without deletes, a cookie keeps having a record and nothing fails, step by step |
| Responses.SyncTells | libs/pavex_session/src/session_.rs:458-626 | on a working store, exactly when the first call of the final sync makes it fail, and whether there is a record for the cookie afterwards, from three bits of history |
| Responses.StepTells | libs/pavex_session/src/session_.rs:458-723 | every step of a client keeps those bits in line with the store, and its response fails exactly when they say so |
| WholeRuns.WholeRunPersistence | libs/pavex_session/src/session_.rs:164-723 | for any number of requests with any operations, and through failed loads and failed responses, all values read are those of one pair of plain maps to which all earlier requests were applied; while the store works, no load fails, and a response fails if and only if, by the history of the client, its cookie has no record and its request renamed the session without loading it or wrote to it without renaming it |
| WholeRuns.CookieImpliesRecord | libs/pavex_session/src/session_.rs:461-688 | under `NeverSkip`, without deletes, expiry and outages, a cookie has an unexpired record, at rest and during requests, except in the middle of the final sync of a renamed session; no response and no load fails, and persistence holds even under `Reject` |
| WholeRuns.NaivePersistence | libs/pavex_session/src/session_.rs:341-356 | the documented reading of requests is right for every run in which each response that does not fail leaves behind what the request saw; it is wrong for every run that, after the first response that does not, reads a lost key, in any later request, before anything else bears on that key |
| WholeRuns.FaithfulUnlessOnlyRemoved | libs/pavex_session/src/session_.rs:341-356 | it does not exactly if it wrote nothing and what it sees differs from what was there, and exactly if some key is lost |
| WholeRuns.FaithfulIffNeverNoticed | libs/pavex_session/src/session_.rs:341-356 | for one request: it leaves behind what it sees if and only if the next request can be told nothing about any key that the documented reading does not explain |
| RemovalTrap.RemovalIsLost | libs/pavex_session/src/session_.rs:354 | such a run of the session machine: a removed key is read again by the next request |
| Middleware.CloseIsOneSync | libs/pavex_session/src/session_.rs:458-595 | the one or two interleavable steps of a close add up to one whole sync when undisturbed |
| Middleware.FinalizeSession | libs/pavex_session/src/middleware.rs:14-28 | the session class leaves the cookie jar, the store and the response of the client process |
| Isolation.ClientsAreIsolated | libs/pavex_session/src/session_.rs:458-595 | in any interleaving of clients with disjoint identifiers and expiry sweeps, between any two store calls, each client fares as it would alone |
| Isolation.PersistenceInCompany | libs/pavex_session/src/incoming.rs:17-34 | persistence holds for every client in such an interleaving, also by the documented reading where its responses leave behind what its requests saw; under `Allow` and while the store works for it, exactly those responses fail that its own history says; and where records are also always created and never deleted, none does |
| Isolation.ReachableStoresAreBounded | libs/pavex_session_memory_store/src/lib.rs:107-146 | in every store that clients can reach, no record outlives a full time-to-live from now |
| SharedCookie.LogoutUndoneIff | libs/pavex_session/src/session_.rs:461-626 | one request invalidates its session and another with the same cookie is at work: in every interleaving of their store calls, exactly when a fresh record is left, and then the other sync succeeds and its response sets a cookie for it |
| SharedCookie.LeftBehind | libs/pavex_session/src/session_.rs:461-626 | for each of these interleavings, exactly which records are left under both identifiers |
| SharedCookie.LoadAndRenameRevives | libs/pavex_session/src/session_.rs:396-427 | loading and renaming before either syncs makes a session that leaves a record in every interleaving |
| SourceLines.GetLines | libs/pavex_miette/src/graphical_report_handler.rs:889-947 | the lines are those between the LFs of the context, with texts, byte offsets, byte lengths and numbers |
| SourceLines.TablesAreUnique | libs/pavex_miette/src/graphical_report_handler.rs:889-947 | there is only one such table of lines for a context |
| SourceLines.LinesTile | libs/pavex_miette/src/graphical_report_handler.rs:889-947 | the lines tile the bytes of the context, and are numbered consecutively if and only if it does not end in a lone CR |
| SourceLines.LinesRebuild | libs/pavex_miette/src/graphical_report_handler.rs:905-945 | the texts with their LF or CRLF terminators rebuild the context; no text contains an LF, and a CR before an LF is never part of a text; text and terminator are all the bytes of a line |
| SourceLines.Utf8LenIsLeast | libs/pavex_miette/src/graphical_report_handler.rs:906 | a character counts the least number of bytes that UTF-8 can hold it in (section 3 of RFC 3629) |
| SourceLines.SpanClassification | libs/pavex_miette/src/graphical_report_handler.rs:972-1010 | a non-empty span starts on exactly one line, which holds its first byte, and ends on exactly one, which holds its last; it applies to these and all between, which are exactly the lines it shares a byte with, flies by exactly those strictly between, and is single-line exactly if both are the same |
| SourceLines.EmptySpanClassification | libs/pavex_miette/src/graphical_report_handler.rs:973-1009 | an empty span applies exactly to the line that holds its offset, as a highlight of that single line, and to none at the end of the context; it flies by no line |
| Highlights.VisualOffsetMonotone | libs/pavex_miette/src/graphical_report_handler.rs:649-685 | visual columns never run backwards |
| Highlights.PrintedWhereComputed | libs/pavex_miette/src/graphical_report_handler.rs:649-700 | in the printed form of every line of a context, each character follows text exactly as wide as the column computed for its byte offset, tabs included |
| Highlights.NextColumn | libs/pavex_miette/src/graphical_report_handler.rs:649-662 | a tab reaches exactly to the next multiple of the tab width, every other character takes its own width |
| Highlights.PastTheText | libs/pavex_miette/src/graphical_report_handler.rs:669-684 | an offset at the end of the text is in the column after everything printed, one past it exactly one column further |
| Highlights.RenderLineText | libs/pavex_miette/src/graphical_report_handler.rs:688-700 | the loop prints the line that the column computation is about |
| Highlights.Underline | libs/pavex_miette/src/graphical_report_handler.rs:711-751 | the buffer is exactly as wide as the last underline reaches, underlines are disjoint and ordered and hold their anchors, and every column shows what belongs there |
| Highlights.UnderlineSpans | libs/pavex_miette/src/graphical_report_handler.rs:715-750 | the same for the visual columns of spans given by byte offsets |
| Highlights.AnchorsIncrease | libs/pavex_miette/src/graphical_report_handler.rs:720-748 | anchors strictly increase |
| Highlights.MarkShape | libs/pavex_miette/src/graphical_report_handler.rs:717-748 | a mark starts at its visual column or where the one before it ends, is never empty, and its anchor is its middle |
| Highlights.AnchorShows | libs/pavex_miette/src/graphical_report_handler.rs:723-742 | the anchor of an empty highlight shows the arrow, that of a labelled one the bar, that of any other one plain underline; all other columns of a mark show plain underline |
| Highlights.DrawMark | libs/pavex_miette/src/graphical_report_handler.rs:717-746 | draws what the specification of one mark says |
| Highlights.ApartMeansExact | libs/pavex_miette/src/graphical_report_handler.rs:720-746 | highlights that do not collide are underlined exactly at their visual columns |
| Highlights.HighlightsAreSingleLiners | libs/pavex_miette/src/graphical_report_handler.rs:665-669 | the assertion of `visual_offset` holds at both ends of every such highlight, and neither end is inside a character |
| Highlights.UnderlinedExactly | libs/pavex_miette/src/graphical_report_handler.rs:649-751 | from context to picture: highlights that lie on one line of a context, start and end between characters, share no byte and are wide enough to be seen are underlined exactly beneath the printed columns of the characters they cover, and blanks are beneath all others |
| Labels.DrawLabel | libs/pavex_miette/src/graphical_report_handler.rs:763-864 | every row shows the bars of the highlights to its left in their columns and its piece of the caption where it belongs; the drawing panics if and only if some piece does not fit, after all rows before it: to the right, if the anchor comes directly after the bars, else if the piece has more bytes than the space has cells |
| Labels.PlacementIff | libs/pavex_miette/src/graphical_report_handler.rs:778-800 | a label goes to the right if it fits there, else to the left if it fits there behind the bar before, else to the center; the space is what is left on that side |
| Labels.RightUnderflowsIff | libs/pavex_miette/src/graphical_report_handler.rs:720-827 | to the right, this happens exactly if the highlight is one cell wide and starts the line, or directly follows another one that is at most two cells wide |
| Labels.ColumnZeroUnderflows | libs/pavex_miette/src/graphical_report_handler.rs:720-827 | any label of the first cell of a line, if there is space for it to the right |
| Labels.PiecesThatFit | libs/pavex_miette/src/graphical_report_handler.rs:794-827 | a label to the left never panics; a centered one does not if no character has more bytes than cells and wrapping kept the pieces within the space |
| Labels.AccentsUnderflow | libs/pavex_miette/src/graphical_report_handler.rs:810-827 | a centered caption of fifty accented letters fits by cells, and panics |
| Labels.RightColumns | libs/pavex_miette/src/graphical_report_handler.rs:841-856 | to the right, the corner is exactly in the anchor's column, and the rows start in the same column if and only if corner and dash are ASCII |
| Labels.LeftColumns | libs/pavex_miette/src/graphical_report_handler.rs:832-854 | to the left, text and corner end where they belong if and only if the text has as many bytes as cells |
| Labels.CenterColumns | libs/pavex_miette/src/graphical_report_handler.rs:826 | in the center, the text is in the middle of the space, in bytes, up to one column |
| Labels.SigilBytesAre | libs/pavex_miette/src/graphical_report_handler.rs:801-809 | later rows are indented by exactly the bytes of the sigil |

## Left out

- MemoryStore.SessionStore.Invoke: one method stands for the six forwarding methods, and a failing backend has no effect; a backend that fails after a partial effect is not modelled.
- HttpSession.Session.Sync: nobody else changes the store between the two calls of the method; such interleavings are treated on values in `Isolation`.
- SourceLines.GetLines: reading the span out of the source is given; the method starts from the context text.
- Highlights.Underline: the visual columns of the spans are given; `UnderlineSpans` computes them first, where the original computes them inside the loop.
- HttpSession.Session.ClientGetRaw: the two client-state accessor structs are methods of the session; the borrow that keeps them apart is not modelled.
- HttpSession.Session.CycleId: nothing is assumed about the random source, so that 16 collisions are possible.
- Labels.DrawLabel: how the caption is wrapped is given; line number, gutter and colours of a row are not part of it.
- Postgres, MySQL and SQLite stores: their semantics live in SQL.
- JSON encoding and the typed `get`, `insert` and `remove` wrappers: thin layers over the raw operations.
- Cookie attributes, tracing, debug output, UUID generation and the registration of components: no invariant of interest.
- Clock arithmetic near the ends of the representable range, where the original would panic.
- Rounding of the extension threshold in 32-bit floating point.
- Styling, text wrapping, headers, cause chains and gutters of the diagnostic printer.
