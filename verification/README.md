# Verified models of the chat service

Dafny models of the parts of the chat service that carry state from one request to the next, cut a stream
into chunks, or print an exact format, with proofs of what each is for. `dafny verify dfyconfig.toml`
checks everything.

| file | models |
|---|---|
| `Turns.dfy` | pairing messages into prior turns |
| `HistoryWindow.dfy` | token sizes, the capped and step-aligned window of turns, the prompt built from it |
| `ChatTail.dfy` | the Redis tail, its two Lua scripts, and the history object that reads it before the database |
| `CacheAgreement.dfy` | whole runs of a conversation: tail against message table |
| `CitationParser.dfy` | the streaming citation parser as a class, and its independence of chunking |
| `CitationSpec.dfy` | a lookahead reference for the parser; spans, conservation, printing and parsing |
| `ThinkStripper.dfy` | the stripper of `<think>` blocks, and the answer stream through both |
| `Redelivery.dfy` | redelivered workers on one request row with a lock and commits |
| `CarryOver.dfy` | findings blocks inherited from answer to answer |
| `RateLimiter.dfy` | the sliding-window limiter |
| `PdfWriter.dfy`, `BrokenFont.dfy` | the fixture PDF writer, its cross-reference table, the object numbers in the broken-font fixture |
| `SseRelay.dfy`, `SseReader.dfy`, `SseSession.dfy` | relaying a request's event log, resuming it, the event-stream text and the line reader, sessions cut at any line |
| `RetrievalMetrics.dfy` | nDCG, recall, precision, MRR |
| `TraceDedup.dfy` | messages logged once per trace |
| `CompanyName.dfy` | the normal form of company names |
| `PyText.dfy`, `Seqs.dfy` | Python text functions several files use; identities about sequences |

Code that changes state is modelled as classes and methods with loops. Each method is proved against a
specification function or states its result outright, and the properties are proved of that function.
Protocols (tail and table, redelivery, limiter, relay) are state machines; their theorems hold for every run
and every interleaving the events allow.

## Findings

Where a property does not hold of the code, lemmas give an input on which it fails and the exact condition
under which it holds, for all inputs.

- **A resent question, a lost answer and a missed question break cache agreement.** A failed question sent
  again has two answer rows: the table shows the blank one, a warm tail the real one. An answer whose append
  failed stays missing from a live tail, and so does a question whose append failed when its request fails
  before loading the history. In any run a load agrees with the table exactly when nothing is at odds in the rows
  it covers (`LoadAgreesExactly`): for each question that is not blocked, the first answer row is one the tail has,
  or the appended answer shown instead shows the same in a turn; and from a missed question on, every question
  shown is blocked. Without those three faults that is always so (`LoadAgreesWithTable`), and whenever the table is
  read (`ColdLoadAgrees`). Runs of the model reach the failing loads: the resent question's own load agrees exactly
  when the table is read again or the question is blocked (`ResentLoadAgreement`); a later one, and one after a
  lost answer, also when the answer shows nothing (`ResentQuestionAgreement`, `LostAnswerAgreement`); and one past a
  missed question exactly when the table is read again or that question is blocked (`MissedQuestionAgreement`).
- **The step alignment holds only while no turn is trimmed.** `HistoryBudget` says the window moves once every
  `step` turns (src/services/context/turns.py:50-51). Turn indices are counted from the start of what was
  loaded, so once the tail is full they shift by one per turn (`FullTailIsTrimmed`), and windows are left alone
  only by shifts of whole steps (`WindowIgnoresWholeSteps`). Two aligned windows before and after such a turn never
  start with the same turn (`TrimmedWindowMoves`; an input is in `TrimmedMoves`).
- **The window may start off a multiple of the step**, because no step boundary lies in the part that fits
  (`StartOffBoundary`) or because the turn on it is missing, its question having been blocked
  (`StartPastBlocked`). It starts at a multiple exactly when, of the turns that fit, the first to reach the
  boundary is on one; or, when not even the last turn fits, when that is (`StartIsMultipleExactly`). When no turn is
  missing, that is when a boundary lies in the part that fits (`GaplessStartIsMultiple`).
- **A lone last answer can be cut twice**, marker included (`AnswerCutTwice`). Kept answers are at most the
  marker's 4 tokens over their cap in every window exactly when the cap is not negative and the budget is at most
  the cap (`AnswersWithinCapExactly`, `ConfiguredAnswersWithinCap`); they are never more than 7 over
  (`KeptAnswersWithinCap`).
- **The think stripper does depend on the cut between chunks**: inside an open tag, inside the newlines after a
  block, and inside a close tag unless another block opens right after (`UncleanCuts`, `ExactCut`).
- **nDCG can exceed 1** when a page is retrieved twice, which the expansion of context items to page keys
  allows (`DuplicateExceedsOne`). It is at most 1 for every discount exactly when the top k hold no more hits than
  the ideal ranking (`BoundedForEveryDiscount`); and for any one discount, the logarithmic one included, it is at
  most 1 on all rankings with h hits exactly when h is no more than the ideal number
  (`BoundedForEveryRanking`).
- **Recall at a negative cutoff** slices from the end (`NegativeCutoff`). Recall at k is never above recall at a
  later cutoff, and positive together with precision at k, exactly when k is not negative (`RecallGrowsExactly`,
  `RecallAndPrecisionAgree`).
- **The line reader's last event id runs ahead** of the events it has seen when a stream is cut between the id
  line and the data line of a block, and only then (`CutInsideBlock`). A client that resumes from it misses that
  event: over any number of connections, cut after any lines, it has seen everything up to where it would resume
  exactly when no cut fell there (`NothingMissedExactly`, `OneCutMissesOne`).
- **A pointer may name its own generation.** The trace module's description speaks of messages an earlier
  generation logged; a message repeated within one call is replaced as well (`RepeatNamesItself`). The pointer
  names its own generation exactly when no earlier call had the message (`NamesItselfExactly`).
- **A delivery over the cap, or expired, can leave a request completed**: one that loaded "failed" writes nothing,
  so what another delivery commits meanwhile stays (`OverCapLeavesCompleted`). It leaves "failed" exactly when it did
  not load that or the row is failed as it commits (`ReturnFailsExactly`).
- **A completed request can become "failed" again.** A delivery that loads a completed request and then errs on
  its own writes "failed" over it (`CompletedIsOverwritten`). The row stays as it is exactly when no such delivery
  commits that write (`CompletedIsFinal`).

## Model

| member | source | states |
|---|---|---|
| Turns.PriorTurns | src/services/context/turns.py:100-135 | the turns are those of the specification function: pairing, then the injection scan |
| Turns.PairsAreQuestionsWithAnswers | src/services/context/turns.py:106-112 | the pairing loop pairs each question with the first assistant message before the next question, and drops answers before any question |
| Turns.CutIsShiftedSuffix | src/services/context/turns.py:100-135 | cutting any message list anywhere leaves a suffix of the turns, renumbered |
| Turns.TurnIndicesIncrease | src/services/context/turns.py:114-135 | turn indices strictly increase |
| Turns.PriorTurnsAreUnblocked | src/services/context/turns.py:114-135 | there is a turn exactly for each question that is not blocked, with its own index and first answer; no blocked question or its answer appears |
| Turns.TurnsShowQuestions | src/services/context/turns.py:114-135 | what a turn shows of its question: the detector's sanitized text if it scans and there is any text, and else the text itself; the answer only if there is one with any text, its summary, and whether it came from carried findings |
| Turns.FindingsNeverReachTurns | src/schemas/chat.py:44-80 | Contract F1: no change to findings blocks, hops or document ids changes the turns |
| HistoryWindow.TruncationBound | src/services/context/turns.py:88-97 | every cut text is at most 4 tokens over its cap, if and only if the cap is not negative |
| HistoryWindow.TruncatesExactly | src/services/context/turns.py:88-97 | a text of at most 4n characters is left as it is; of any longer one, its first 4n characters (for a negative n, all but its last) without trailing whitespace remain, and the marker |
| HistoryWindow.TokensOfTurns | src/services/context/turns.py:138-139 | turns count a token for every four characters of questions and answers, each rounded up |
| HistoryWindow.CapTurns | src/services/context/turns.py:142-172 | the window: a kept turn has its original's index, question, flag and summary, and its answer as TruncatesExactly says (unchanged within the cap); the longest suffix within the budget, from its first turn that reaches the next multiple of the step; or the last turn alone, its answer cut to what the question leaves |
| HistoryWindow.ShortAnswersAreKept | src/services/context/turns.py:142-172 | with no cap, or with every answer within it, a window whose last turn fits is a suffix of the turns given |
| HistoryWindow.FittingSuffixIsLongest | src/services/context/turns.py:153-159 | the suffixes within the budget are exactly those no longer than the fitting one |
| HistoryWindow.WindowIsSuffix | src/services/context/turns.py:161-172 | what is kept is a contiguous suffix of the capped turns, or the last turn alone |
| HistoryWindow.KeptWithinBudget | src/services/context/turns.py:153-172 | when the last turn fits, what is kept is within the budget, and with step 1 is the longest suffix that is |
| HistoryWindow.LoneTurnNearBudget | src/services/context/turns.py:161-167 | a lone last turn has at most max(budget, its question) + 4 tokens |
| HistoryWindow.KeptAnswersWithinCap | src/services/context/turns.py:144-167 | a kept answer is at most 4 over its cap, or 7 when it is the lone last one with room above the cap |
| HistoryWindow.AnswersWithinCapExactly | src/services/context/turns.py:144-167 | for every budget with a cap: the answers of all its windows are at most 4 over the cap if and only if the cap is not negative and the budget is at most the cap |
| HistoryWindow.ConfiguredAnswersWithinCap | src/services/context/turns.py:58-61 | the same of a configured budget, where a cap of 0 stands for none |
| HistoryWindow.AnswerCutTwice | src/services/context/turns.py:144-167 | an input and its window: with budget 5 and cap 1 the lone answer is cut twice and is 7 over |
| HistoryWindow.WindowIsStable | src/services/context/turns.py:142-172 | as turns are appended the first kept turn never moves back, and while it stays the window before is a prefix of the window after |
| HistoryWindow.SameStartGrows | src/services/context/turns.py:142-172 | while the start position stays, the window grows by exactly the appended turns, capped |
| HistoryWindow.MoveSkipsBoundary | src/services/context/turns.py:169-172 | a move to an aligned window reaches or passes the next multiple of the step |
| HistoryWindow.StartIsMultipleExactly | src/services/context/turns.py:161-172 | for all turns `prior_turns` can give, gaps included: the window starts at a multiple of the step if and only if, of the turns that fit, the first to reach the boundary is on a multiple, or, when none fits, the last turn is |
| HistoryWindow.StartPastBlocked | src/services/context/turns.py:114-125 | an input with a blocked question whose window is aligned and starts off a multiple |
| HistoryWindow.GaplessStartIsMultiple | src/services/context/turns.py:161-172 | when no turn is missing: if and only if the window is aligned, or is the last turn alone at such an index |
| HistoryWindow.StartOffBoundary | src/services/context/turns.py:169-172 | an input whose window starts off a boundary |
| HistoryWindow.WindowIgnoresWholeSteps | src/services/context/turns.py:169-172 | renumbering leaves every window alone if and only if it is by whole steps |
| HistoryWindow.FullTailIsTrimmed | src/services/context/turns.py:100-135 | a message list that loses its first question and answer as a new pair comes in gives the earlier turns without the first, counted anew, and the new one |
| HistoryWindow.TrimmedWindowMoves | src/services/context/turns.py:50-51 | with no turn missing and a step above 1, two aligned windows before and after that never start with the same turn |
| HistoryWindow.TrimmedMoves | src/services/context/turns.py:50-51 | an input: without trimming the window stays, with it the window moves |
| HistoryWindow.AsMessages | src/services/context/turns.py:175-181 | the loop computes the messages of the turns |
| HistoryWindow.MessagesOfTurn | src/services/context/turns.py:175-181 | each turn gives the user's message with its question and, right after it, the assistant's if there is an answer, in order, and nothing else |
| HistoryWindow.PromptPrefixIsStable | src/services/context/turns.py:175-181 | while the first kept turn stays the same, the prompt sent earlier is a prefix of the next |
| ChatTail.RedisKey.CasPopulate | src/redis_client.py:83-107 | a readable tail at least as recent is left alone, and any other value is overwritten by the rows given; the result says which |
| ChatTail.RedisKey.AppendTrim | src/redis_client.py:109-170 | a readable tail with an earlier latest_seq gets the row and keeps as many of its last entries as the limit allows; a later one, a cold key and garbage are left as they are; the result says which |
| ChatTail.RedisKey.Invalidate | src/redis_client.py:244-246 | the key is gone |
| ChatTail.TailInvariant | src/redis_client.py:83-170 | in every interleaving of appends, stale populates and expiries the cached rows are in strict sequence order, at most the limit, none after latest_seq |
| ChatTail.LatestNeverDecreases | src/redis_client.py:83-170 | in every interleaving latest_seq never decreases while the key lives |
| ChatTail.FetchedIsWindow | src/services/context/conversation_history.py:131-148 | what a cold read fetches is in order, within the limit and no later than the latest_seq it reports |
| ChatTail.FetchedIsHistory | src/services/context/conversation_history.py:131-148 | what a cold read fetches, row by row: exactly the rows without cards among the last `max` before `before_seq`, in order, and the last sequence number before it |
| ChatTail.ConversationHistory.Load | src/services/context/conversation_history.py:58-84 | for every key value: if it holds a message list whose latest_seq is not before the snapshot and whose entries validate, the result is its messages and the key is untouched; otherwise the messages of the last `max` rows before `before_seq` without cards, whatever the tail holds, which are written unless a more recent tail stands |
| ChatTail.ConversationHistory.AppendUser | src/services/context/conversation_history.py:86-100 | the tail after a question is appended, or unchanged when the call failed |
| ChatTail.ConversationHistory.AppendAssistant | src/services/context/conversation_history.py:102-126 | the tail after an answer is appended |
| CacheAgreement.RunKeepsInvariant | src/services/context/conversation_history.py:58-126 | in every run of serial turns, with questions sent again and appends and requests that fail at any point, the tail holds exactly what is kept of the end of the message table, leaving out none of the last `max` rows |
| CacheAgreement.LoadAgreesExactly | src/services/context/conversation_history.py:58-84 | in every run, a load returns what the tail keeps of the table from some row on, which is the first or at least `max` before the end; its prior turns are those of the table from there if and only if no answer and no question the tail has missed is at odds there |
| CacheAgreement.LoadAgreesWithTable | src/services/context/conversation_history.py:58-84 | in every run without a resend, a lost answer or a question that fails unloaded and missed, a load (tail warm, cold, expired, unreadable or behind) gives prior turns that are, up to renumbering, a suffix of those of the whole table, hold all turns of its last `max` rows, and are all of them while the table has no more rows |
| CacheAgreement.ResentLoadAgreement | src/api/routers/chat.py:166-208 | a run in which a failed question is sent again: its load agrees with the table if and only if the table is read again or the question is blocked |
| CacheAgreement.ResentQuestionAgreement | src/api/routers/chat.py:166-208 | the run goes on with an answer and another question: that load agrees if and only if the table was read again, the first question is blocked, or its answer shows nothing |
| CacheAgreement.LostAnswerAgreement | src/services/chat/tasks.py:1619-1633 | a run in which an answer does not reach the tail: the next load agrees under the same condition |
| CacheAgreement.MissedQuestionAgreement | src/services/context/conversation_history.py:86-100 | a run in which a question does not reach the tail and fails before it is loaded: the next load agrees if and only if the table is read again or that question is blocked |
| CacheAgreement.ColdLoadAgrees | src/services/context/conversation_history.py:131-148 | in every run a load that reads the table agrees with it from where it starts |
| CitationParser.BracketCitationParser.Feed | src/services/chat/citation_parser.py:55-68 | a chunk's text and spans and the new state are those of the character machine; a finalized parser raises |
| CitationParser.BracketCitationParser.Finalize | src/services/chat/citation_parser.py:70-92 | the held-back bracket and pending span come out; a second call raises |
| CitationParser.BracketCitationParser.OnText | src/services/chat/citation_parser.py:125-135 | one character outside a bracket |
| CitationParser.BracketCitationParser.OnBracket | src/services/chat/citation_parser.py:137-180 | one character inside a bracket: close, reopen, overlong, hold |
| CitationParser.StreamAnswer | src/services/chat/tasks.py:1248-1300 | chunking independence: however the answer is cut, text and spans are those of the whole answer at once |
| CitationSpec.ParsedIsReference | src/services/chat/citation_parser.py:114-180 | the parser shows the text pieces of a lookahead reference and one span per run of adjacent citations |
| CitationSpec.PiecesRebuildRaw | src/services/chat/citation_parser.py:125-180 | text and citation pieces put back together are the raw answer |
| CitationSpec.CharactersAreConserved | src/services/chat/citation_parser.py:55-92 | at every point, characters read = emitted + removed citations + held back, and at most 31 are held back |
| CitationSpec.SpansFollowText | src/services/chat/citation_parser.py:103-112 | no span ends beyond text already emitted |
| CitationSpec.SpansTileCleanText | src/services/chat/citation_parser.py:103-112 | spans tile the clean text from 0: each starts where the one before ended, ends strictly increase |
| CitationSpec.SpansCarryAllRefs | src/services/chat/citation_parser.py:143-157 | the spans carry the references of all citations, each once and in order |
| CitationSpec.RoundTrip | src/services/chat/citation_parser.py:103-189 | passages printed with any citation brackets of up to 30 characters (one or several labels each, `S` in either case, any whitespace around labels and commas) and parsed give back the text, and each passage's bounds with exactly its labels in order |
| CitationSpec.MarkIsCited | src/services/chat/citation_parser.py:143-189 | a bracket that holds numbers joined by commas in that way gives one span with exactly those labels, in order |
| CitationSpec.OtherBracketIsShown | src/services/chat/citation_parser.py:143-180 | every other bracket, and any of more than 30 characters, stays in the text and cites nothing |
| ThinkStripper.ThinkingStripper.FeedChunk | src/services/chat/events.py:30-57 | the loop ends, and its output and new state are those of the specification function |
| ThinkStripper.FeedRemovesBlocks | src/services/chat/events.py:30-57 | one feed of a whole text is a recursive removal of its blocks and the newlines after each |
| ThinkStripper.FeedShowsAnswer | src/services/chat/events.py:30-57 | an answer written as pieces with thoughts between them, the last perhaps still open, is shown as exactly its pieces, without the newlines after each thought |
| ThinkStripper.ExactCut | src/services/chat/events.py:30-57 | feeding a then b is feeding a + b if and only if the cut is not inside an open tag, not inside newlines being stripped, and inside a close tag only if another block opens right after |
| ThinkStripper.CleanCutFeedsAlike | src/services/chat/events.py:30-57 | so a cut outside both tags and outside the newlines after a close tag makes no difference |
| ThinkStripper.UncleanCuts | src/services/chat/events.py:30-57 | inputs on which a cut shows |
| ThinkStripper.StreamThinkingAnswer | src/services/chat/tasks.py:1248-1300 | stripper then parser, over any harmless cuts, give the clean text and spans of the answer without its blocks |
| Redelivery.LlmRequestRow.IncrementAttemptCount | src/repository/llm_request_repository.py:91-104 | counts on top of the row as the lock is taken, and returns that count |
| Redelivery.LlmRequestRow.UpdateStatus | src/repository/llm_request_repository.py:80-89 | sets the status in the worker's own version of the row, under the lock, and nothing else; a status the session has already is not written |
| Redelivery.Perform | src/repository/llm_request_repository.py:80-104 | each step of the state machine changes the row as the repository's methods, the commit and the rollback do |
| Redelivery.AttemptCap | src/services/chat/tasks.py:552-612 | however deliveries interleave and wherever they die, at most the allowed number get past the commit before the router's LLM call, with pairwise distinct attempt numbers within the cap |
| Redelivery.AttemptsAreCounted | src/services/chat/tasks.py:590-612 | the committed count is the number of deliveries that committed an attempt, each once; every one that got to the LLM call is among them |
| Redelivery.ReturnLeaves | src/services/chat/tasks.py:559-612 | over every run, the row a delivery leaves committed on returning: an expired one "failed", one over the cap its attempt and "failed", a refused one its attempt and "completed"; if it loaded "failed" nothing is written and the status it finds at its commit stays |
| Redelivery.ReturnFailsExactly | src/services/chat/tasks.py:568-612 | an expired or over-cap delivery leaves "failed" if and only if it did not load "failed" or the row is failed as it commits |
| Redelivery.OverCapLeavesCompleted | src/services/chat/tasks.py:590-595 | a run in which it is not: a delivery over the cap that loaded "failed" leaves the request completed |
| Redelivery.RunLeaves | src/services/chat/tasks.py:590-612 | the commit before the LLM call leaves the attempt, within the cap, and "streaming", unless the delivery loaded that |
| Redelivery.OutcomeLeaves | src/repository/llm_request_repository.py:80-89 | the commit of a run's outcome leaves that status |
| Redelivery.ErrorLeaves | src/services/chat/tasks.py:1721-1738 | the commit after an error leaves "failed" |
| Redelivery.OnlyCommitsCommit | src/repository/llm_request_repository.py:80-104 | no other step changes what is committed |
| Redelivery.CapIsReached | src/services/chat/tasks.py:590-612 | for every cap, a run in which as many deliveries get to the LLM call |
| Redelivery.OverCapRun | src/services/chat/tasks.py:590-595 | and one more delivery leaves the count above the cap and "failed" |
| Redelivery.CompletedIsFinal | src/services/chat/tasks.py:552-558 | from a completed request on, through any further deliveries, the row stays as it is if and only if no delivery that failed on its own commits; until then no further LLM call is made |
| Redelivery.CompletedIsOverwritten | src/services/chat/tasks.py:1721-1738 | a run in which a completed request ends up failed |
| CarryOver.LatestFindingsBlock | src/services/chat/tasks.py:211-236 | of the latest message with a block: over the hop cap, dropped for that; else, if the scope is checked and differs as a set, dropped for that; else carried with the same block and documents and one hop more. With no such message, none. Without the check the scope plays no part |
| CarryOver.ScopeIsASet | src/services/chat/tasks.py:257-262 | two scopes differ exactly when some document is in one and not in the other |
| CarryOver.BlockLineage | src/services/chat/tasks.py:1132-1142 | a persisted block is that of a sealed run of its turn at hops 0, or that of the latest bearing answer with the same documents and one hop more, within the cap, under a scope that has not moved |
| CarryOver.BearsExactly | src/services/chat/tasks.py:1132-1142 | an answer bears a block if and only if it is a sealed run's that has one, or it is direct and its window holds the latest bearing answer, with hops + 1 within the cap and the same documents as a set or none |
| CarryOver.CapIsReached | src/services/chat/tasks.py:228-235 | after a sealed run, direct turns under its scope inherit its block exactly as often as the cap allows, or all of them if they are fewer |
| CarryOver.BlockTracesToRun | src/services/chat/tasks.py:1356-1369 | every block traces back to a sealed run with the same block and documents, under a scope set-equal to the turn's |
| CarryOver.InheritanceIsCapped | src/services/chat/tasks.py:228-235 | one run's block is inherited by at most the capped number of turns in total |
| RateLimiter.RateLimitKey.Check | src/redis_client.py:330-345 | the sorted set, its expiry and the reply after the script |
| RateLimiter.RunKeepsInvariant | src/redis_client.py:330-345 | in every run the sorted set holds accepts only, and every one still inside the window |
| RateLimiter.RefinesFullHistory | src/redis_client.py:330-373 | in every run with a clock that never goes back, each reply, decision and count, is what the full history of accepts calls for: allowed exactly when fewer than the limit lie in (now - W, now] |
| RateLimiter.AllowedExactly | src/redis_client.py:330-373 | in every run a request is allowed if and only if fewer than the limit of the requests allowed before it lie in the last W ms, and the reply counts those |
| RateLimiter.NoWindowExceedsLimit | src/redis_client.py:330-345 | no window of length W, wherever laid, holds more accepts than the limit |
| RateLimiter.ExpiryDropsNothingLive | src/redis_client.py:343-343 | when the key expires each of its entries left the window at least a minute before |
| PdfWriter.PdfBytes | infra/loadtest/make_fixtures.py:63-82 | the two loops write the file of the specification function |
| PdfWriter.EntryIsTwentyBytes | infra/loadtest/make_fixtures.py:76-77 | an entry has twenty bytes if and only if its offset is below 10^10 |
| PdfWriter.EntriesFitFormat | infra/loadtest/make_fixtures.py:76-77 | all entries have twenty bytes if and only if the last object starts below 10^10 |
| PdfWriter.EntryPointsAtObject | infra/loadtest/make_fixtures.py:76-77 | the i-th in-use row of the table reads as the offset of object i |
| PdfWriter.ObjectAtOffset | infra/loadtest/make_fixtures.py:71-73 | at that offset and up to the next stands object i with its number and body |
| PdfWriter.StartXrefPointsAtXref | infra/loadtest/make_fixtures.py:74-81 | the number before the end-of-file marker is the offset of the `xref` keyword |
| PdfWriter.ReadsBackExactly | infra/loadtest/make_fixtures.py:63-82 | a reader with the format's own keywords, which checks the header and the free entry and follows `startxref` and the table, gets back every body, whatever bytes they hold, if and only if the last object starts below 10^10 |
| PdfWriter.ReadsRoot | infra/loadtest/make_fixtures.py:78-81 | the root that the trailer names is object 1 |
| PdfWriter.SmallFileReadsBack | infra/loadtest/make_fixtures.py:63-82 | so it does from every file of at most 10^10 bytes |
| BrokenFont.BuildBrokenFont | infra/loadtest/make_fixtures.py:115-143 | the loop writes, under each number, the object the fixture needs there |
| BrokenFont.ReadStreamOf | infra/loadtest/make_fixtures.py:85-86 | a stream's /Length is the length of its payload |
| BrokenFont.PageUnderItsNumber | infra/loadtest/make_fixtures.py:115-143 | the numbers a page names are those its content, font and CMap stand under |
| BrokenFont.FixtureReadsBack | infra/loadtest/make_fixtures.py:115-143 | for every page count, reading the file by its offsets and following its references from the root named in the trailer finds that many different pages, each with the drawn text and the CMap |
| SseRelay.EventStream | src/api/routers/chat.py:336-384 | over any polls, everything that is yielded: the greeting, after each poll a keepalive or the well-formed entries it read, up to what ends it: a failed read, a failure of the worker known when a third poll in a row is empty, or an entry that stops the relay; then its last blocks and its outcome |
| SseRelay.ReachesTenAtMost | src/api/routers/chat.py:345-345 | a poll reads ten entries, or as many fewer as there are |
| SseRelay.SessionCatchesUp | src/api/routers/chat.py:308-308 | after any number of cut connections the client has what was to be delivered up to where its next connection starts |
| SseRelay.ExactlyOnce | src/api/routers/chat.py:336-384 | however often the client is cut off between blocks and resumes, it receives each event once and in order, and with a terminal event in hand all of them up to the first terminal one |
| SseReader.ReaderReadsRelay | src/api/routers/chat.py:336-384 | end to end: over any polls, reading the printed output of a connection sees exactly the deliverable log entries from the cursor to the first stop or to where the relay got, plus the relay's own error if that ended it, with the last one's id and the status that tells how it ended |
| SseReader.LinesOfBlock | src/api/exceptions.py:15-18 | the lines of a printed block |
| SseReader.ReadChatStream | infra/loadtest/locustfile.py:167-202 | the loop's status, last event id and events seen are those of the line-by-line specification |
| SseReader.ReaderRecoversEvents | infra/loadtest/locustfile.py:167-202 | reading the printed blocks with their comments sees exactly the events up to the first terminal one, with its status and the last id |
| SseReader.IdRoundTrip | infra/loadtest/locustfile.py:173-175 | the id handed back for resuming is the id that was printed |
| SseReader.CutInsideBlock | infra/loadtest/locustfile.py:167-202 | after any blocks, cut inside the next one, the last id is that one's while the events seen are those before it if and only if the cut is after the id line and before the data line |
| SseSession.ReaderOfContact | infra/loadtest/locustfile.py:167-202 | of a connection cut after any line, the reader has seen exactly the events whose data line arrived, and its last id is that of the last whose id line did |
| SseSession.NothingMissedExactly | infra/loadtest/locustfile.py:173-175 | over any number of connections, each resumed from the last id read, the client has seen every well-formed entry up to where it would resume if and only if no cut fell between the id line and the data line of an event |
| SseSession.OneCutMissesOne | infra/loadtest/locustfile.py:173-175 | with one such cut it has seen all of them but that event |
| SseSession.SeenExactlyOnce | src/api/routers/chat.py:336-384 | with none, each event once and in order, and with a terminal event in hand all of them up to the first |
| RetrievalMetrics.NdcgAtK | src/eval/metrics/retrieval.py:52-63 | the two loops compute DCG over IDCG, and 0 in the degenerate cases |
| RetrievalMetrics.HitsWeighMostAtTop | src/eval/metrics/retrieval.py:55-58 | rearrangement: hits weigh at most what as many hits at the top would, and exactly that only when they are at the top |
| RetrievalMetrics.NdcgOfDistinct | src/eval/metrics/retrieval.py:52-63 | for duplicate-free results and any decreasing discount nDCG is in [0, 1], and 1 if and only if the first min(relevant, k) results exist and are all relevant |
| RetrievalMetrics.NdcgOfOne | src/eval/metrics/retrieval.py:52-63 | one relevant page found once has the weight of its rank over that of the first |
| RetrievalMetrics.BoundedForEveryDiscount | src/eval/metrics/retrieval.py:10-21 | with duplicates allowed: a ranking's nDCG is at most 1 for every discount if and only if its top k hold no more hits than the ideal ranking |
| RetrievalMetrics.BoundedForEveryRanking | src/eval/metrics/retrieval.py:52-63 | for any one discount: nDCG is at most 1 on all rankings with h hits in the top k if and only if h is no more than the ideal number |
| RetrievalMetrics.DuplicateExceedsOne | src/eval/metrics/retrieval.py:10-21 | a page retrieved twice gives nDCG above 1 |
| RetrievalMetrics.RecallIsMonotone | src/eval/metrics/retrieval.py:34-39 | recall grows with the cutoff and stays in [0, 1] |
| RetrievalMetrics.RecallCounts | src/eval/metrics/retrieval.py:34-39 | recall is the number of pools with a page among the first k, over the number of pools |
| RetrievalMetrics.PrecisionCounts | src/eval/metrics/retrieval.py:24-31 | precision is the number of positions before k with a relevant page, over k |
| RetrievalMetrics.RecallGrowsExactly | src/eval/metrics/retrieval.py:34-39 | recall at k is at most recall at every later cutoff, on all inputs, if and only if k is not negative |
| RetrievalMetrics.NegativeCutoff | src/eval/metrics/retrieval.py:34-39 | for every negative k, an input whose recall is 1 at k and 0 at 0 |
| RetrievalMetrics.RecallAndPrecisionAgree | src/eval/metrics/retrieval.py:24-39 | at cutoff k recall is positive exactly when precision is, on all inputs, if and only if k is not negative |
| RetrievalMetrics.Mrr | src/eval/metrics/retrieval.py:42-49 | the reciprocal rank of the first hit, 0 if and only if there is none |
| TraceDedup.CompactMessages | src/observability/trace_payload.py:101-133 | what is logged of a call, capped or as a pointer, and the scope's map and count after it; without a scope every message, capped |
| TraceDedup.CapTextSize | src/observability/trace_payload.py:52-55 | a capped text is at most its marker over the cap, and a short one is left as it is |
| TraceDedup.CapTextCuts | src/observability/trace_payload.py:52-55 | a longer text keeps as many characters as the cap and says how many it lost |
| TraceDedup.ExcerptIsCut | src/observability/trace_payload.py:58-64 | the first excerpt keeps its tags and has its body cut, what is before it stays, and the rest is done likewise |
| TraceDedup.CapsByRole | src/observability/trace_payload.py:75-92 | a system prompt is cut at its own cap, another message at that of a message |
| TraceDedup.ShortIsLoggedWhole | src/observability/trace_payload.py:75-92 | a message whose texts are below all caps, parts included, is logged unchanged, its excerpts included |
| TraceDedup.LogTrace | src/observability/trace_payload.py:42-49 | a trace's log is that of its calls in one fresh scope |
| TraceDedup.SeenIsFirst | src/observability/trace_payload.py:118-131 | the map holds exactly the digests that have occurred, each under the label of the call where it first did |
| TraceDedup.LoggedInFullOnce | src/observability/trace_payload.py:112-132 | a message is logged in full if and only if it is short or no message with the same role, content and tool call fields stands before it in the trace |
| TraceDedup.LabelsAreUnique | src/observability/trace_payload.py:105-108 | no two generations of a scope carry the same label |
| TraceDedup.PointersAreSound | src/observability/trace_payload.py:121-130 | a pointer's text, in full: it names a generation whose log holds in full a message with the same role, content and tool call fields, and gives its length |
| TraceDedup.NamesItselfExactly | src/observability/trace_payload.py:118-130 | that generation is the pointer's own if and only if no earlier call had the message |
| TraceDedup.RepeatNamesItself | src/observability/trace_payload.py:118-130 | an input: one call with the same long message twice |
| CompanyName.NormalizeCompany | src/services/router/company_name.py:72-87 | the steps and the popping loop compute the normal form |
| CompanyName.Idempotent | src/services/router/company_name.py:72-87 | normalizing twice is normalizing once, whatever folding and letters Unicode adds |
| CompanyName.WrittenIsRead | src/services/router/company_name.py:80-84 | a name written as spelt words, punctuation and text in brackets reads as exactly those words: case and dots do not matter, punctuation separates words, what is in brackets is dropped |
| CompanyName.KeyOfWritten | src/services/router/company_name.py:72-87 | its key is those words up to the last that is no suffix, or the first, joined by spaces |
| CompanyName.Abbreviated | src/services/router/company_name.py:77-77 | the documented example "Poste Italiane S.p.A.", for any suffixes with "spa" and without "italiane" |
| CompanyName.KeyKeepsAWord | src/services/router/company_name.py:84-87 | the key's words are the shortest nonempty beginning of the name's words after which only suffixes follow |
| CompanyName.SuffixesDoNotMatter | src/services/router/company_name.py:72-87 | appending any text whose words are all suffixes to a name with a word leaves the key unchanged, brackets included, unless the text closes a bracket of the name |

## Left out

Behaviour that is not modelled:

- The agent loop, router, retrievers, rerankers, scope resolver, ingestion, recovery and purge jobs.
- The injection detector: an arbitrary function from text to a verdict and sanitized text.
- LLM adapters, provider errors and fallback, metrics, Langfuse calls and logging.
- JSON and cjson: payloads are opaque. Decoding and encoding failures inside the Lua scripts that leave the key
  as it is are not steps of the model.
- SQL text and ORM state: a message table is a sequence of rows, a request row is a value with a lock.
- Fields of `ChatMessage` and `Turn` that history does not read: name and tool call id.
- `session_index`, `compute_retrieval_metrics`, cost and outcome tables, prompt text: no state to keep.
- Redis stream trimming and expiry, and the stream delete on a retry: the relay's log only grows.
- The liveness check of the relay: what it finds is part of each poll.
- Timings the reader takes, transport errors, and the splitting of the byte stream into lines by the client
  library: lines end at a newline.
- Real-file PDF fixtures, the drawn prose and the CMap text: the drawn text and the CMap are parameters.
- The user interface, authentication and document routers, load shapes, evaluation judge and scripts.

Assumptions and limits of single statements:

- CacheAgreement.LoadAgreesExactly: one turn is in flight at a time; only the last question is sent again; a failed turn leaves a blank answer row; the appends of one conversation are in the order of its steps.
- CacheAgreement.LoadAgreesWithTable: for runs without those faults; LoadAgreesExactly says what holds with them.
- HistoryWindow.CapTurns: which turns are kept is described for increasing indices, which `prior_turns` gives.
- HistoryWindow.TrimmedWindowMoves: for turns numbered from 0 without a gap, since with one an aligned window need not start at a multiple.
- ChatTail.RedisKey.AppendTrim: the limit is at least 1, since an empty message list comes back from Lua as an object; the script and the history object use the same limit.
- ChatTail.ConversationHistory.Load: for a table in sequence order and a limit of at least 1.
- ChatTail.TailInvariant: populates write what some earlier read of the table fetched, as FetchedIsWindow states.
- CitationParser.StreamAnswer: digits in a citation are ASCII digits, where the source's pattern takes any Unicode digit.
- CitationSpec.RoundTrip: texts have no opening bracket, and all but the first are not empty, since citations that touch are one run.
- Redelivery.AttemptCap: the database's read-committed rows and row lock are taken as given; how old a request is may be judged either way at each delivery.
- Redelivery.CompletedIsFinal: from a state in which every delivery left has loaded the request as completed or has failed; one that loaded it before can still write to it.
- Redelivery.Perform: what a failing delivery reads of the row and writes to it in its new session is one step.
- CarryOver.InheritanceIsCapped: turns are sequential and each turn's window is the end of the message history, of any length.
- RateLimiter.RefinesFullHistory: member names never repeat and the server clock never goes back.
- PdfWriter.ReadsBackExactly: a byte is a character.
- SseReader.ReaderReadsRelay: for entries that print, as in ReaderRecoversEvents.
- SseSession.NothingMissedExactly: the same; a line arrives whole or not at all.
- SseRelay.ExactlyOnce: connections are cut between blocks, where SseSession has cuts after any line; log ids increase, and whether a usage event is persisted is a property of its data text.
- SseReader.ReaderRecoversEvents: event names and data are single lines without space at either end, as JSON objects and the service's event names are.
- RetrievalMetrics.NdcgAtK: real arithmetic, with the logarithmic discount replaced by any positive, strictly decreasing weights.
- TraceDedup.LoggedInFullOnce: the digest is taken to be injective; content is a text or a list of text parts and opaque parts.
- CompanyName.Idempotent: what Unicode decomposition, lower-casing and word characters do beyond ASCII is a parameter, of which only `Alphabet.Valid` is assumed; that the lower case of a final sigma depends on its place is not modelled.
- CompanyName.SuffixesDoNotMatter: the appended text starts with a character that ends a word, since letters glued to the last word change it.
