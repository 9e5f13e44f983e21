# Verification of the TaskJuggler language server

A Dafny model of the parts of the language server where a small slip would go unnoticed, with proofs of
what they promise. `dafny verify dfyconfig.toml` checks everything.

The model follows the program's components, one module each:

- **Semantic-token deltas.** `EditScripts` and `FurthestReaching` are the theory of shortest edit scripts;
  `MyersDiff` is the O(ND) search with its V array, triangular snapshots, backtrace and coalescing;
  `TokenDelta` trims, diffs and serialises; `SemanticTokens` encodes spans into relative five-tuples;
  `Lexemes` is the lexer's bounded buffer and what a client sees of a token's source lines;
  `DocumentStore` rotates snapshots and stamps versions; `DeltaSession` is the protocol of full and delta
  requests between the server and a client.
- **Token ownership.** `TokenOwners` is the scope-stack sweep, `OwnerScope` the re-nesting of hoisted
  declarations under the project, `CursorLookup` the binary search and climb from a cursor.
- **Threads.** `JobQueue` is the linked queue; `Coordinator` the reader, coordinator, worker pool and
  cancellations as a step system; `SnapshotRefs`, `SemMemo` and `RecycleSlot` the reference counts, the
  compare-and-exchange memo and the one-buffer cache; `Diagnostics`, `DiagWorker` and `DiagRegistry` the
  coalescing diagnostics workers and what the client shows.
- **Workspace.** `Workspace` assembles include closures into projects, `QueryContexts` chooses what a query
  sees, `DepRef` prints and resolves task references.
- **Smaller machines.** `EolWrapper` inserts statement terminators and missing braces, `TextEdit` splices
  incremental changes, `WorkingDays` does weekday arithmetic, `Arena` is the bump allocator.

Code that changes things step by step is a method or a class with loops and invariants, tied to a
specification about which the lemmas speak. Protocols between threads are step systems: a step is one
critical section, one atomic operation or one message, and the theorems are about every interleaving.

Where the code does not do what one might expect, the model keeps the code and says exactly when it meets
the expectation:

- Version numbers restart when a document slot is reused, so a result id kept from before can be
  mistaken for a current one. `DeltaSession.DeltaTrustedExactly` says for which ids, over all reachable
  sessions; `DeltaSession.StaleIdMisleads` is the shortest run that ends with wrong tokens.
- A fragment that does not fit into the lexer's 4096 bytes is dropped whole, line breaks included, so the
  encoder can take one source line for another. `Lexemes.RoundTrip` says of the source text when a client
  still gets every line right; `Lexemes.CutCommentMisread` is a comment it gets wrong.
- The token encoder moves its cursor even when it drops an empty entry (`SemanticTokens.DecodeEncode`).
  `SemanticTokens.EmptyEndMisleads` shows what that would do to a token ending in an empty line;
  `Lexemes.ClosedTokensEndVisibly` that the lexer makes none.
- A hoisted declaration's parent is the document root and not the project, so the cursor lookup finds
  nothing in the project between hoisted declarations (`CursorLookup.NodeAtCursor`, `CursorLookup.GapExists`).
- A reference printed for two tasks without a common enclosing task does not resolve
  (`DepRef.PrintedResolvesExactly`, `DepRef.RootTasksMiss`).
- A range given backwards deletes the rest of the document (`TextEdit.ReplacesExactlyInOrder`).
- The closing brace of a macro call is taken for the end of a body once more than 256 braces are open
  (`EolWrapper.CallsReadExactly`, `EolWrapper.DeepCallMisread`).

Where the code and its own comments differ, the model follows the code: `job_queue.h` describes two paths
by message class and inline semantic-token requests, but there is one arrival queue and those requests go to
the pool; `arena.h` promises byte alignment where the code aligns to 8; the method table says notifications
have no id, and one that carries an id is still never answered; a client's response that carries an id is
answered like an unknown request.

## Model

| member | source | states |
|---|---|---|
| EditScripts.TurnsConcat | src/semantic_tokens_delta.c:73-88 | scripts compose: the concatenation turns the concatenated sequences into each other at the summed cost |
| EditScripts.TurnsReverse | src/semantic_tokens_delta.c:234-236 | a script read backwards turns the reversed sequences into each other at the same cost, so a trace recorded from the end is a script |
| EditScripts.TrimKeepsDistance | src/semantic_tokens_delta.c:325-340 | cutting a shared prefix and a shared suffix off both sequences changes no edit distance |
| EditScripts.CostAtLeastLengthGap | src/semantic_tokens_delta.c:161-173 | every script costs at least the difference of the lengths |
| EditScripts.DistanceToEmpty | src/semantic_tokens_delta.c:161-173 | with one side empty the single replacement is the shortest script |
| FurthestReaching.FurthestReached | src/semantic_tokens_delta.c:188-204 | the value the recurrence stores for a diagonal is reached with that many insertions and deletions |
| FurthestReaching.FurthestIsMaximal | src/semantic_tokens_delta.c:187-218 | greedy optimality: no path with d edits gets further along a diagonal than the stored value, points outside the grid included |
| FurthestReaching.ScriptReaches | src/semantic_tokens_delta.c:187-218 | any edit script is a path, so a cheaper script would have been found in an earlier round |
| FurthestReaching.StepBackFromPhantomColumn | src/semantic_tokens_delta.c:188-204 | a stored point right of the grid was reached by one edit from the point before it |
| FurthestReaching.StepBackFromPhantomRow | src/semantic_tokens_delta.c:188-204 | a stored point below the grid was reached by one edit from the point above it |
| FurthestReaching.CornerFirst | src/semantic_tokens_delta.c:205-210 | a path to a point beyond both ends passed the corner with fewer edits, so the exit test fires at the corner itself |
| MyersDiff.CornerReachedByPoint | src/semantic_tokens_delta.c:205-210 | when the exit test fires, the point is exactly (na, nb) |
| MyersDiff.CornerNotReached | src/semantic_tokens_delta.c:187-211 | a round whose test never fires has no path to the corner with that many edits |
| MyersDiff.ExtendDiagonal | src/semantic_tokens_delta.c:188-204 | one diagonal of one round, computed in place from its two neighbours, is the furthest reachable x; all indices of v are in bounds |
| MyersDiff.SearchRound | src/semantic_tokens_delta.c:188-211 | after a round every slot of v holds the furthest x of its diagonal, or the corner was found |
| MyersDiff.TakeSnapshot | src/semantic_tokens_delta.c:212-217 | the round is copied into its triangle row and earlier rows stay |
| MyersDiff.ForwardSearch | src/semantic_tokens_delta.c:175-221 | the search ends within na + nb rounds at the corner, no earlier round reaches it, and the snapshots hold every earlier round |
| MyersDiff.Predecessor | src/semantic_tokens_delta.c:242-260 | the backtrace reads the same choice and the same point from the snapshot that the search made |
| MyersDiff.BacktraceRound | src/semantic_tokens_delta.c:241-277 | one round back undoes one snake and one edit of the path |
| MyersDiff.Backtrace | src/semantic_tokens_delta.c:237-282 | the recorded kinds, read backwards, are a script from a to b of cost d_found, and never overrun na + nb entries |
| MyersDiff.TakeRun | src/semantic_tokens_delta.c:103-115 | a run of adjacent edits is counted to its end |
| MyersDiff.CoalesceEditOps | src/semantic_tokens_delta.c:89-124 | the operations rebuild b from a, are ascending with kept tokens between them, total d_found tokens and number at most d_found |
| MyersDiff.MyersDiffRun | src/semantic_tokens_delta.c:152-290 | on every input the operations rebuild b from a; up to 1024 tokens they are a shortest script, beyond that one replacement |
| TokenDelta.BuiltEditsApply | src/semantic_tokens_delta.c:301-316 | operations that rebuild the new tokens serialise to integer edits that turn the old buffer into the new one |
| TokenDelta.TrimPrefix | src/semantic_tokens_delta.c:325-332 | the prefix loop finds the longest common prefix in tokens |
| TokenDelta.TrimSuffix | src/semantic_tokens_delta.c:334-340 | the suffix loop finds the longest common suffix that does not overlap the prefix |
| TokenDelta.ExtendOverSuffix | src/semantic_tokens_delta.c:342-349 | operations for the middle are operations for the whole once the shared suffix follows |
| TokenDelta.UntrimmedEdits | src/semantic_tokens_delta.c:342-349 | a shortest script of the trimmed middle is a shortest script of the whole buffers |
| TokenDelta.ChangedIntegersOfOps | src/semantic_tokens_delta.c:301-316 | the edits touch five integers for each token edited |
| TokenDelta.DiffMiddle | src/semantic_tokens_delta.c:342-349 | diffing what the trims leave gives operations for the whole buffers |
| TokenDelta.BuildSemanticTokensDelta | src/semantic_tokens_delta.c:318-361 | applying the emitted edits to the old buffer gives exactly the new one on every path; edits are aligned to tokens, and shortest while the untrimmed rest has at most 1024 tokens |
| SemanticTokens.EncoderFits | src/parser.c:190-191 | for any text at all the encoder writes at most five integers for each entry counted while lexing |
| SemanticTokens.CountedPerLine | src/parser.c:145-149 | of the tokens recorded, the five kinds of punctuation count for nothing and any other for the lines it touches |
| SemanticTokens.DecodeEncode | src/semantic_tokens.c:155-184 | decoding the relative entries gives back the non-empty segments if and only if no dropped segment moved the cursor where the next entry depends on it |
| SemanticTokens.AllMarksOrdered | src/semantic_tokens.c:281-293 | segments of well-formed spans come in source order |
| SemanticTokens.MarksRead | src/semantic_tokens.c:271-297 | for well-formed spans that end visibly, a client decodes exactly the stretches the encoder meant, in order; which stretches those are is said in Lexemes |
| SemanticTokens.PushRelativeEntry | src/semantic_tokens.c:155-184 | five integers are appended in place unless the length is zero; the cursor moves in both cases |
| SemanticTokens.EmitToken | src/semantic_tokens.c:211-248 | the loop over lines appends the encoding of the token's segments within its counted space |
| SemanticTokens.ComputeSemanticTokensData | src/semantic_tokens.c:271-297 | the buffer sized by the lexer's count receives the encoding of all highlighted tokens without overrun; which types they are sent with is said by TypesNameFaces |
| Lexemes.StrBuf.StrAppend | src/lexer.l:76-86 | a fragment is appended in place, or dropped whole when the buffer would reach 4095 characters |
| Lexemes.StrBuf.Collect | src/lexer.l:236-248 | resetting, appending each fragment and finishing leaves the fold of the appends |
| Lexemes.LinesOfConcat | src/semantic_tokens.c:225-247 | the lines of two texts joined: the last line of the first goes on with the first of the second |
| Lexemes.EndIsLexemeEnd | src/lexer.l:89-92 | the position the rules count to is the end of the lexeme: a line for each break, the column the length of the last line |
| Lexemes.ClosedTokensEndVisibly | src/lexer.l:236-262 | every scanned token has its lexeme's range and never ends in an empty line, because a delimiter closes it |
| Lexemes.BufferCuts | src/lexer.l:79-86 | after any fragments the buffer holds the lexeme, or all before a line break that found it full, or a text that stops short in the line the buffer ran out in |
| Lexemes.InternedWhole | src/lexer.l:75-86 | a lexeme is interned whole if and only if it has at most 4094 characters |
| Lexemes.TypesNameFaces | src/semantic_tokens.c:50-58 | the type sent for a kind is the place in the announced legend of what the kind is to be shown as; punctuation and brackets are not shown |
| Lexemes.CutLengths | src/semantic_tokens.c:225-247 | walking the interned text meets the lengths of the lexeme's lines if and only if the lexeme is spared, which is said of the source text alone |
| Lexemes.MarksAreLines | src/semantic_tokens.c:211-248 | the encoder's stretches of a token are its source lines, one by one, if and only if walking its text meets their lengths |
| Lexemes.AllMarksAreLines | src/semantic_tokens.c:271-297 | the same for a whole document: all stretches are right exactly if each token's are |
| Lexemes.RoundTrip | src/semantic_tokens.c:271-297 | from source to client: what a client decodes is every line of every highlighted token if and only if each lexeme has no line break beyond the buffer, or loses only breaks between lines as long as the one it was cut at |
| Lexemes.TokensShownAsTheyAre | src/semantic_tokens.c:87-134 | whatever the buffer cut, every stretch a client decodes lies on a line of a token, under that token's legend name and without modifiers, and every token that is to be shown has one up to its end |
| Lexemes.WholeTextsRead | src/semantic_tokens.c:225-297 | a document whose texts have the line breaks and the last lines of their ranges is read back line by line |
| Lexemes.CutCommentMisread | src/lexer.l:236-248 | a comment whose first line fills the buffer: the client is told 4094 characters of a line of three |
| DocumentStore.Document.DocAlloc | src/document_store.c:60-65 | a reused slot restarts its versions at 1 |
| DocumentStore.Document.ClearParseState | src/document_store.c:72-77 | both snapshots are dropped |
| DocumentStore.Document.InstallParse | src/document_store.c:79-102 | the current snapshot becomes the previous one and a parse gets the next version; a missing parse gets none |
| DocumentStore.Document.DocFree | src/document_store.c:104-112 | freeing a slot drops its snapshots |
| DeltaSession.DocsnapSemTokens | src/query_context.c:88-116 | the buffer handed out is the encoding of the snapshot's tokens |
| DeltaSession.HandleSemanticTokensFull | src/semantic_tokens.c:321-330 | a full reply carries the snapshot's version and tokens, or null |
| DeltaSession.HandleSemanticTokensFullDelta | src/semantic_tokens_delta.c:363-401 | the reply diffs against the snapshot the id names, or is a full one |
| DeltaSession.AnswerIsRight | src/semantic_tokens_delta.c:377-399 | for a query whose pinned snapshots and base were issued, whatever reply the worker gives leaves the client with the pinned document's tokens |
| DeltaSession.SessionStaysRight | src/document_store.c:79-102 | every run of allocations, parses, clears, requests and replies keeps what the client holds under each result id right |
| DeltaSession.ClientEndsCurrent | src/semantic_tokens_delta.c:377-399 | a client whose last request is answered from the published document ends with exactly that document's tokens |
| DeltaSession.Perform | src/document_store.c:60-112 | the document object itself, driven through the slot changes of a notification, is in the state the session says |
| DeltaSession.AnswerFrom | src/semantic_tokens_delta.c:363-401 | the reply computed from the document object is one the session allows |
| DeltaSession.StandingThatOccurs | src/document_store.c:79-102 | in every reachable session versions count from 1 in each life and the two retained ones are consecutive |
| DeltaSession.FreshIsTrusted | src/semantic_tokens_delta.c:381-399 | in every reachable session, an id of the slot's present life, or of a version not retained, is answered with the published document's tokens |
| DeltaSession.StaleIsMisled | src/document_store.c:60-65 | for any other id, life and versions that occur there is a run from the start of the server in which an allowed reply leaves the client with wrong tokens |
| DeltaSession.StaleIdMisleads | src/document_store.c:60-65 | the shortest such run, for any two documents with different tokens: parse and fetch one, close, open the other, ask from the old id, be sent no edits |
| DeltaSession.DeltaTrustedExactly | src/semantic_tokens_delta.c:381-388 | over all reachable sessions with the same id, lives and retained versions: every allowed reply leaves the client right if and only if the id was issued in the slot's present life or names no retained snapshot |
| TokenOwners.ChainIsAllEnclosing | src/parser.c:446-456 | the naive search visits exactly the declarations whose ranges contain the position |
| TokenOwners.ScopesPrefixOfChain | src/parser.c:487-520 | the stack holds the enclosing declarations found so far, in order, and the rest of the naive chain lies ahead of the top frame |
| TokenOwners.DeclaredOnce | src/parser.c:446-456 | a laminar forest declares nothing twice, so a push that uses its child up happens once |
| TokenOwners.PushStep | src/parser.c:503-519 | pushing the child that contains the token keeps the stack well formed and uses that child up |
| TokenOwners.Descend | src/parser.c:494-519 | the inner loop ends with exactly the enclosing declarations on the stack; what is left to enter shrinks with every push |
| TokenOwners.AssignTokenOwners | src/parser.c:484-523 | every token's owner chain is the naive search's, and no declaration is pushed twice over the whole sweep |
| OwnerScope.SortMakesLaminar | src/parser.c:367-377 | disjoint declarations sorted by start form a laminar list of the same declarations |
| OwnerScope.ScopeIsLaminar | src/parser.c:396-444 | the layout with the project re-nested is laminar whatever the order of the hoisted declarations |
| OwnerScope.ScopeKeepsChains | src/parser.c:396-444 | at every position the re-nested layout gives the naive chain of the declarations as the grammar left them, with the project in front where its range covers the position |
| OwnerScope.FindProject | src/parser.c:470-475 | the first project declaration among the top-level ones |
| OwnerScope.BuildOwnerScope | src/parser.c:396-444 | the partition loop and the sorts build that layout |
| OwnerScope.OwnTokens | src/parser.c:457-524 | the whole pass gives every token the owner of a naive search over the unsorted declarations |
| CursorLookup.FindToken | src/document_symbol.c:76-86 | the binary search finds the last token before the end of input that starts at or before the cursor |
| CursorLookup.TrimmedChain | src/document_symbol.c:88-91 | with no declaration starting in between, climbing from the declarations around a token to those still open gives the declarations around the cursor |
| CursorLookup.TjNodeAt | src/document_symbol.c:74-92 | the lookup returns the deepest declaration containing any position, between tokens too, if and only if the position is not in a gap of a re-nested project |
| CursorLookup.NodeAtCursor | src/parser.c:584-592 | parse to cursor: the lookup over the pass's owners agrees with a naive search of the declarations as the grammar left them exactly outside those gaps |
| CursorLookup.GapExists | src/document_symbol.c:88-91 | declarations as the grammar leaves them, a task hoisted out of its project: on a blank line after the task the project is around the cursor and the lookup finds nothing |
| CursorLookup.NoGapWithoutProject | src/parser.c:329-335 | without a re-nested project there is no gap |
| JobQueues.JobQueue.constructor | src/job_queue.c:36-42 | an open queue without jobs |
| JobQueues.JobQueue.Push | src/job_queue.c:51-59 | the job is linked in behind all others |
| JobQueues.JobQueue.Pop | src/job_queue.c:61-72 | the oldest job leaves; null only when closed and drained |
| JobQueues.JobQueue.Close | src/job_queue.c:74-79 | closing keeps the jobs |
| JobQueues.JobQueue.MarkCancelledById | src/job_queue.c:88-101 | every queued request with the id is marked, nothing else is, and the order stays |
| Coordinator.PlacesStep | src/threadpool.c:66-123 | every step moves jobs from place to place; only an arrival makes one |
| Coordinator.KeepsOnePlace | src/threadpool.c:66-123 | each message's job is in exactly one queue or thread, or freed |
| Coordinator.DispatchInOrder | src/threadpool.c:72-90 | the coordinator executes messages in arrival order |
| Coordinator.KeepsContexts | src/server.c:274-361 | a query keeps the state it was pinned to, which is the one its arrival place calls for |
| Coordinator.KeepsAsked | src/threadpool.c:153-162 | marks come from cancellations that arrived after the request, through both queues |
| Coordinator.KeepsMatch | src/server.c:206-216 | a job is freed with a reply exactly if its message is answerable |
| Coordinator.InvHolds | src/threadpool.c:66-162 | all of this in every interleaving of reader, coordinator, workers and cancellations |
| Coordinator.NeverTwice | src/server.c:364-387 | no message is answered twice, and notifications and unknown methods without an id never are |
| Coordinator.EachAnsweredByShutdown | src/threadpool.c:135-147 | when the pool has stopped, each request has been answered exactly once |
| Coordinator.ResultsFollowArrival | src/server.c:332-361 | each result was computed against the state after exactly the notifications that arrived before it, in order |
| Coordinator.CancelledOnlyIfAsked | src/server.c:206-216 | a request is answered as cancelled only if a cancellation for its id arrived after it |
| Coordinator.MarksExactly | src/job_queue.c:88-101 | a step marks exactly the requests, of whatever class, with the cancelled id that wait in the queue it goes through |
| Coordinator.WaitingCancelHonoured | src/threadpool.c:153-162 | every request with the id that waits in the arrival queue when its cancellation arrives is answered as cancelled, however the run goes on |
| Coordinator.HandedOffCancelHonoured | src/threadpool.c:153-162 | so is every request with the id that waits in the queue to the pool |
| Coordinator.CancelledExactly | src/threadpool.c:153-162 | over every run: a request is answered as cancelled if and only if a cancellation of its id found it in one of the two queues |
| Coordinator.ThreadsRunFreely | src/threadpool.c:66-123 | in every run each thread that has something to do can do it, and up to four queries run at a time |
| Coordinator.KeepsMarks | src/threadpool.c:111-118 | a reply is the cancelled one exactly if the job was marked while queued, and marks come too late for answered jobs |
| Coordinator.ShutdownEnds | src/threadpool.c:135-147 | after the reader stops, some thread can move until all have ended, and every move leaves less to do |
| SnapshotRefs.KeepsAcquire | src/query_context.c:60-63 | acquiring raises the count with the number of holders |
| SnapshotRefs.KeepsDecrement | src/query_context.c:65-68 | the atomic decrement keeps counts equal to holders and frees at zero |
| SnapshotRefs.KeepsMove | src/document_store.c:99-101 | handing a reference on changes no count |
| SnapshotRefs.KeepsAddMember | src/workspace.c:537-541 | each entry of the workspace snapshot under construction takes a reference of its own |
| SnapshotRefs.KeepsInv | src/diag_worker.c:191-198 | every step keeps counts equal to holders: parses, the building and publishing of workspace snapshots, queries, worker requests that replace older ones, runs and releases |
| SnapshotRefs.CountsAreHolders | src/query_context.c:60-86 | in every run a count is the number of holders, and a snapshot nothing holds has been freed, exactly once |
| SnapshotRefs.HeldIsAlive | src/query_context.c:151-181 | nothing reachable from a held workspace snapshot is freed |
| SnapshotRefs.NothingLeaks | src/query_context.c:156-197 | once all releases are done, what is alive is owned by a slot, the published pointer, a query, a worker or a live workspace snapshot |
| SnapshotRefs.InstallParseRotates | src/document_store.c:79-102 | a parse moves the current snapshot to the previous place and puts one known to nobody in its own; what was previous is about to be released, and no other pointer changes |
| SnapshotRefs.AddEntryRecords | src/workspace.c:537-541 | an entry is the document snapshot current in the slot; a slot without one has none |
| SnapshotRefs.PublishPublishes | src/workspace.c:703-707 | the built snapshot, with its entries, becomes the published one, and the old one is about to be released |
| SnapshotRefs.PinHoldsPublished | src/server.c:281-289 | a query holds what is published when it is pinned, and the previous snapshot of its document |
| SnapshotRefs.RequestIsPublished | src/diag_worker.c:191-198 | a worker is asked for what is published, and an older pending request is about to be released |
| SnapshotRefs.ReleaseGivesUp | src/query_context.c:65-68 | a release gives up one reference and frees what had no other |
| SemMemo.EveryoneGetsTheMemo | src/query_context.c:88-116 | under any interleaving of first callers the memo is written once and everyone returns the same buffer, equal to the pure computation and not freed |
| SemMemo.LosersAreFreed | src/query_context.c:104-112 | every losing buffer is freed, once, and the published one is not |
| SemMemo.LoadTakesTheMemo | src/query_context.c:88-98 | a caller that finds the memo returns it and computes nothing |
| RecycleSlot.NeverLostOrShared | src/parser.c:119-141 | under any mix of takes, allocations, moves and releases no two owners share a buffer, what an owner has is neither cached nor freed, and every buffer is in the slot, owned, or freed once |
| RecycleSlot.TakenIsExclusive | src/parser.c:119-123 | a buffer taken from the slot is nobody else's, and is at least 32 MB |
| RecycleSlot.ReleaseRecycles | src/parser.c:125-141 | a release of 32 MB or more goes back to an empty slot; anything else is freed |
| Diagnostics.DiagSet.FileIndex | src/diagnostics.c:209-213 | the bucket of a document, if it has one |
| Diagnostics.DiagSet.Add | src/diagnostics.c:209-239 | a diagnostic is appended to its document's list and no other list changes |
| Diagnostics.DiagSetPublish | src/diagnostics.c:268-280 | the messages: all of the current set, then an empty list for each document only the previous set had |
| Diagnostics.MessagesSent | src/diagnostics.c:268-280 | which message is sent about a document |
| Diagnostics.PublishReplaces | src/diagnostics.c:268-280 | a client that showed at most the previous set's documents shows exactly the current set afterwards |
| DiagWorker.KeepsOrder | src/diag_worker.c:122-147 | every step keeps the runs an increasing sequence that ends with the newest request unless one is pending |
| DiagWorker.KeepsView | src/diag_worker.c:85-147 | every step, baselines included, keeps the client's view accounted for by the last set and the messages still to send |
| DiagWorker.RunsNewestInOrder | src/diag_worker.c:122-147 | a worker runs an in-order subsequence of its requests, and when idle has run the newest |
| DiagWorker.QuiescentViewIsNewest | src/workspace.c:609-615 | at quiescence the client shows for each of the worker's own documents exactly the newest set, stale ones cleared, despite the coordinator's empty baselines |
| DiagWorker.RetiredLeavesNothing | src/diag_worker.c:141-147 | over every run: once a worker retired with its project has exited, the client shows none of its markers |
| DiagWorker.SilentAfterExit | src/diag_worker.c:141-147 | over every run: a worker stopped at the end of the server exits at once and sends nothing more |
| DiagWorker.ShutdownKeepsNewest | src/diag_worker.c:342-349 | stopped then after it had run the newest request, it leaves the client with what that run found |
| DiagWorker.JoinedIsExited | src/diag_worker.c:216-227 | the coordinator goes on after a retirement only when the worker has exited, with nothing left pending |
| DiagWorker.NeverStuck | src/diag_worker.c:125-147 | a worker with a request or a stop signal can always move |
| DiagRegistry.Registry.Find | src/diag_worker.c:250-255 | the registered worker of a project |
| DiagRegistry.Registry.AcquireProjectWorker | src/diag_worker.c:298-312 | a worker in the wrong mode is replaced, nobody else is touched |
| DiagRegistry.Registry.RetireUnseen | src/diag_worker.c:331-339 | the sweep with swap-with-last removal retires exactly the unseen workers |
| DiagRegistry.Registry.Update | src/diag_worker.c:314-340 | afterwards there is one worker a project in its mode, each asked for a run in the order of the projects; matching ones are kept, and exactly the others retired, told to remove their markers |
| DiagRegistry.Registry.Shutdown | src/diag_worker.c:342-349 | at the end of the server every worker is stopped without removing its markers |
| Workspace.FirstNamed | src/document_store.c:39-41 | the first slot in use with the name |
| Workspace.DocFind | src/document_store.c:37-56 | the first slot with the exact name, and only if there is none the first with the normal form of it |
| Workspace.ClosedHoldsReachable | src/workspace.c:511-524 | a set closed under includes holds everything reachable |
| Workspace.SearchIsClosure | src/workspace.c:511-524 | when the queue is drained, the visited documents are exactly the reachable ones |
| Workspace.ProjectPopulateFromRoot | src/workspace.c:475-530 | the search ends on cyclic and diamond includes, copies each document reachable through parsed ones exactly once, and claims the unclaimed |
| Workspace.AssembleClosures | src/workspace.c:575-583 | one project for each compile_commands root; a document belongs to the first that reaches it |
| Workspace.BuildWorkspaceSnapshot | src/workspace.c:552-597 | after both passes every document is in exactly one project: the first root's that reaches it, else its own singleton |
| Workspace.DistinctRoots | src/workspace.c:575-595 | no two projects have the same root document |
| QueryContexts.BuildQueryContext | src/server.c:274-329 | a query sees exactly the parsed documents that are its own by name, of its project, or all of them, each once and in order, with its own marked; it pins the previous snapshot of its document, published or not, and gets the project's root |
| QueryContexts.OrphanStandsAlone | src/server.c:311-315 | over an assembled workspace, a query about a document outside all closures sees that document alone |
| QueryContexts.SiblingsShareARoot | src/server.c:311-315 | a query about a document of some closure sees exactly the parsed documents reached from the same root and from no earlier one |
| DepRef.SplitJoin | src/project_tree.c:140-154 | splitting at dots undoes joining with dots |
| DepRef.SplitAtDot | src/project_tree.c:140-154 | a dot only separates: the parts of a text with a dot are the parts of both sides, so empty segments count for nothing |
| DepRef.ChildTask | src/project_tree.c:174-181 | the first task child with the id |
| DepRef.FindTask | src/project_tree.c:201-213 | the loops follow the segments down, or find nothing |
| DepRef.ClimbArrives | src/project_tree.c:233-241 | a climb arrives exactly if it stops below the synthetic root |
| DepRef.ProjectDep.ProjectDepResolve | src/project_tree.c:215-255 | the first call computes and publishes the fresh answer, every later call returns it |
| DepRef.DescendFinds | src/project_tree.c:201-213 | with distinct sibling ids the ids of a task lead to it and nowhere else |
| DepRef.SameIdsSamePlace | tools/generate_large_tjp.py:125-132 | tasks whose ids agree for a while share their ancestors for as long |
| DepRef.PrintReference | tools/generate_large_tjp.py:113-135 | one bang a level above the common prefix, then the rest of the target's path |
| DepRef.PrintedResolvesExactly | tools/generate_large_tjp.py:113-135 | the printed reference resolves to its target if and only if source and target share an enclosing task and neither is it |
| DepRef.AbsoluteResolves | src/project_tree.c:227-230 | the full dotted path resolves absolutely |
| DepRef.TooManyBangs | src/project_tree.c:231-241 | as many bangs as the owner is deep never resolve |
| DepRef.RootTasksMiss | tools/generate_large_tjp.py:113-135 | for any two different tasks without a task around them: the printed reference is refused, the absolute one resolves |
| EolWrapper.ClosersClose | src/lexer.l:587-599 | each synthesised brace closes one more open body |
| EolWrapper.Lexer.NextReal | src/lexer.l:578-600 | the held token, the scanner's, or a missing brace at the end of input |
| EolWrapper.Lexer.Deliver | src/lexer.l:623-634 | nesting and previous-token state after a token is handed over |
| EolWrapper.Lexer.Yylex | src/lexer.l:574-635 | each call extends the output by the next token or by the terminator that belongs before it |
| EolWrapper.Tokens | src/lexer.l:574-635 | reading to the end gives the completed input with its terminators, and each token stands behind one exactly if it wants one |
| EolWrapper.ErasingGivesInput | src/lexer.l:574-635 | without terminators the output is the input, exactly the missing braces, and the end |
| EolWrapper.TerminatorsWellPlaced | src/lexer.l:518-528 | no two terminators are adjacent and each follows a token that can end a statement |
| EolWrapper.BodiesAreTerminated | src/lexer.l:602-621 | every brace that closes a body, and the end, follows a terminator or a token that cannot end a statement |
| EolWrapper.EveryTokenStandsRight | src/lexer.l:512-548 | for every token of the completed input, kind by kind: it stands behind a terminator if and only if a statement starts with it on a new line, a body ends with it, or it is the end, and the token before it does not go on; else it stands behind that token |
| EolWrapper.StackForgets | src/lexer.l:549-555 | of the braces open, the wrapper knows the macro calls among the outermost 256 and takes the rest for bodies |
| EolWrapper.CallsReadExactly | src/lexer.l:602-608 | after a token that can end a statement, a closing brace gets a terminator if and only if it closes a body, or a macro call with more than 256 braces open |
| EolWrapper.DeepCallMisread | src/lexer.l:549-555 | 256 bodies and a macro call in the innermost: the call is cut in two by a terminator |
| TextEdit.SpotsAscend | src/lifecycle.c:221-228 | positions strictly increase with the offset |
| TextEdit.SpotIsPosition | src/lifecycle.c:221-228 | the counters of the scan are the position: the number of line breaks before the offset, and the characters since the last of them |
| TextEdit.ApplyIncrementalChange | src/lifecycle.c:214-251 | between two positions of the text, in order, exactly the text between them is replaced; with no such end the rest goes, with no such start the new text is appended |
| TextEdit.ReplacesExactlyInOrder | src/lifecycle.c:221-250 | of any two positions of the text: exactly the text between them is replaced if and only if they come in order; given backwards, everything after the start is cut off |
| TextEdit.InverseRestores | src/lifecycle.c:221-250 | the inverse edit restores the source |
| TextEdit.ApplyContentChanges | src/lifecycle.c:268-292 | the changes are folded in order; nothing results from an empty list or an entry without text |
| TextEdit.FoldFollowsClient | src/lifecycle.c:268-292 | folding what a client announces, in positions of its own text, gives the client's text |
| TextEdit.ServerFollowsClient | src/lifecycle.c:351-358 | over every session the server's text is the client's after each notification |
| TextEdit.SpoiltKeepsText | src/lifecycle.c:351-358 | a notification without changes, or with an entry without text, leaves the text as it was |
| WorkingDays.WalkWorkingDaysInclusive | src/code_lens.c:220-231 | the walk snaps, ends on a weekday at the same time of day, and has exactly the asked number of weekdays between the snapped base and the result |
| WorkingDays.WeekendsOfTheCalendar | src/code_lens.c:198-203 | day 0 was a Thursday; the weekends are the days two and three after it and every seven days from there |
| WorkingDays.WalkUnique | src/code_lens.c:220-231 | there is only one such walk |
| WorkingDays.CountedBackwards | src/code_lens.c:220-231 | the same days counted from the other end |
| WorkingDays.WalkBackReturns | src/code_lens.c:189-231 | walking back as many days returns to the snapped base |
| WorkingDays.WholeWeeks | src/code_lens.c:199-203 | q weeks hold 5q weekdays wherever they start |
| WorkingDays.WeeksAndADay | src/code_lens.c:220-231 | 5q + 1 days from a weekday end exactly 7q calendar days away |
| WorkingDays.WeeksEndOnFriday | src/code_lens.c:170-180 | a length of q weeks from a Monday ends on the Friday of the q-th week |
| WorkingDays.LengthWalked | src/code_lens.c:170-181 | a walk for a length has five weekdays a week, 22 a month, 260 a year, and one for anything below a day |
| WorkingDays.EndFromMonday | src/code_lens.c:220-231 | w working days from a Monday end on working day (w - 1) % 5 of week (w - 1) / 5 |
| WorkingDays.ShortAndLongLengths | src/code_lens.c:170-181 | from a Monday, a length below a day stays on the day, and a year ends on the Friday of the 52nd week |
| Arenas.Arena.constructor | src/arena.c:44-48 | an arena without blocks |
| Arenas.Arena.Grow | src/arena.c:56-66 | a block of at least the need, in front, with the others untouched |
| Arenas.Arena.ArenaAlloc | src/arena.c:68-82 | an aligned region of its own in the newest block, which is a fresh one only if the request did not fit |
| Arenas.Arena.ArenaStrndup | src/arena.c:84-98 | a zero-terminated copy in a region of its own in the newest block, which is a fresh one only if the copy did not fit; bytes in use stay |
| Arenas.LaidStays | src/arena.c:84-98 | blocks that keep what is in use keep every region and string |
| Arenas.Serve | src/arena.c:56-98 | over any sequence of calls regions stay in their blocks, share no byte, structures are at multiples of 8, and every string is unchanged at the end |

## Left out

- JSON building and parsing, message framing and the text of messages: a message is its class, its id and what the model needs of its parameters.
- The flex rules and the grammar: raw tokens and declaration trees are inputs with stated well-formedness.
- tj3, the sandbox, temporary directories, file reading and polling: a run's diagnostics are part of the request, a notification is an abstract update.
- Allocation failure, the bound on documents and the growth of buffers by doubling.
- Memory orders of the atomic operations: each atomic operation is one step.
- Sizes of machine integers outside the token encoder, where columns and deltas wrap as 32-bit values.
- UTF-16 against byte columns: columns count code units of one kind.
- TokenOwners.AssignTokenOwners: nodes are immutable values, so an owner is given with the declarations around it in place of parent pointers; the project in it carries its re-nested children.
- OwnerScope.BuildOwnerScope: the library sort is an insertion sort by start; equal starts do not occur among disjoint declarations.
- CursorLookup.TjNodeAt: requires every declaration to start at a token, which the grammar provides.
- Lexemes.RoundTrip: how the rules split a token into fragments is not modelled, only that each matches one line break or no line break and that the last one is no line break; the result does not depend on the split.
- DeltaSession.DeltaTrustedExactly: the requests before the one in question are taken to have named current ids; after a wrong buffer nothing more is said of the client that holds it.
- DeltaSession.AnswerIsRight: assumes of the query what holds in every reachable session; the statements about runs are SessionStaysRight, ClientEndsCurrent and DeltaTrustedExactly.
- Coordinator.ResultsFollowArrival: what a notification does to the documents is abstract; a result is described by the sequence of messages executed before it.
- Coordinator.CancelledOnlyIfAsked: not every request that is asked to be cancelled is: a cancellation that finds the job in no queue is missed, as the pool's header says.
- SnapshotRefs.KeepsInv: the two references a query takes are taken in one step, like the pointer moves of a slot's rotation; only the coordinator does either, under the document mutex.
- DiagWorker.QuiescentViewIsNewest: speaks of documents no other worker publishes; a document that moves between projects may be cleared late by the retiring worker.
- DepRef.FindTask: only tasks are resolved, as in the code; prefix targets and the deep copy of document trees into project trees are not modelled.
- DepRef.PrintReference: takes the dotted ids already split into their parts.
- TextEdit.ApplyIncrementalChange: strings are values, so the three copies into a fresh buffer are a concatenation.
- EolWrapper.Lexer.Yylex: token positions and texts are not carried along.
- Arenas.Arena.ArenaAlloc: the block list is a sequence and a fresh block is zeroed; what callers write into their regions is not modelled.
- WorkingDays.WalkWorkingDaysInclusive: parsing of durations, calendar-day walks and date formatting are not modelled.
- The registry's condition that project ids are distinct is met by `Workspace.DistinctRoots` for documents with distinct URIs.
- SemanticTokens.ComputeSemanticTokensData: a keyword is known by its word and not by its token number.
- Keyword documentation tables, hover, completion, signatures, folding, references and highlights.
