# Verified model of openaidy's decision logic

A Dafny model of the parts of openaidy where correctness depends on more than one
function at a time, with machine-checked proofs of what they guarantee. Each module
follows one source file.

| file | models |
|---|---|
| `CycleSearch.dfy` | the three-colour depth-first search of the workflow graph checker |
| `WorkflowGraph.dfy`, `GraphRules.dfy`, `GraphReports.dfy`, `GraphClaims.dfy` | the workflow graph check, its exact meaning, where its errors point, and what every single issue claims |
| `GraphTexts.dfy`, `GraphEdits.dfy`, `NewIssues.dfy`, `EdgeDeletion.dfy` | what the texts of issues tell apart, the acceptance of edits, which new issues they report, and when deleting an edge is refused |
| `Placeholders.dfy`, `TemplateCheck.dfy` | `{{input}}` placeholders and the validation of workflow templates |
| `NestedTransactions.dfy` | nested transactions over SQLite savepoints |
| `TokenRenewal.dfy`, `TokenSafety.dfy` | renewal of the bootstrap-admin token: interleavings, then real-time safety |
| `RequestCorrelator.dfy`, `Reconnection.dfy` | request correlation and reconnection backoff of the WebSocket client |
| `CacheStore.dfy`, `CacheRuns.dfy`, `CacheKeys.dfy` | the addon proxy's cache, whole runs of it, and its keys |
| `Permissions.dfy` | addon permission format and checks |
| `AppConfig.dfy` | the cross-reference check of the application configuration |
| `Basics.dfy` | optional values, trimming, numerals, and what these do exactly |

`dafny verify dfyconfig.toml` checks everything.

## How it is built

Code that computes a value is a function. Code that changes something step by step is a
method or a class with the source's fields; each such method is proved to compute a
specification function of the old state (or to report exactly the issues a declarative
predicate describes), and the properties of whole runs are lemmas about those functions.
Promises, timers, the files on disk and SQLite's own stack are part of the state, so that
what happens to them is stated too; where the source does not hold them they are ghost
fields. What the runtime does on its own (time passing, a timer firing, a write finishing
or failing) is an event of a run, and the lemmas hold for every run.

Clocks, generated tokens and the outcome of statements that may fail are parameters.
Regular expression syntax (`invalidRegex`) is a function parameter. Strings are sequences
of characters; where code units matter (the cache key hash and its sort order) they are
sequences of 16-bit units.

## Main results

* **Cycle search.** It ends on every node and link list; a list it returns is a simple
  cycle; null means that the reverse of the finishing order is a topological order, so
  null is returned exactly on acyclic graphs.
* **Graph check.** It passes exactly when the declarative rules hold and no two different
  edges are filed under one pair key, which keys without NUL guarantee (a family of
  well-formed graphs with NUL in their keys is refused). Every culprit edge and key is
  pointed at and no other. Every single error and warning is there exactly when its claim
  holds, and a cycle is found exactly when there is one, in any graph, whatever else is
  wrong with it. In a graph that passes, some step can start until all have completed,
  whatever has completed so far.
* **Edits.** Sequences of accepted edits keep a graph free of cycles and of everything else
  that is not about agents, even when agents come and go between the edits. In an invalid
  graph an accepted edit can still add an issue, because issues are compared by text: a
  family is given, and for plain names the exact condition under which nothing is hidden.
  An edit can also be refused for an older problem: breaking the reported cycle uncovers the
  next one. Where nothing is wrong but cycles, it is exact when deleting an edge is accepted.
* **Transactions.** The contents always follow the simple meaning "a failed call restores
  the contents at its entry", although `ROLLBACK TO` leaves its savepoint on the stack, by
  the invariant that whatever is above a frame carries the next depth's name. The stack
  can outgrow the depth counter by any amount.
* **Token renewal.** At most one renewal is under way; nothing lands after a stop has
  returned. Under stated timing the token on disk is valid at every instant of every run
  exactly when it had enough left at the start and checks cannot miss the time when it
  falls due; which configurations are tolerant is exact too. `iat` and `exp` are whole
  seconds, and the second lost to that is needed: without it some run loses the token.
* **Correlation.** No promise is settled twice in any run, and what settles it, and how, is
  exact. With fresh ids, pending ids, timers and unsettled promises coincide and created =
  pending + resolved + rejected. With reused ids, which promises are lost is given exactly,
  and `rejectAll` leaves none hanging exactly when none is lost.
* **Cache.** Statistics agree with the entries in every state; as long as the clock does not
  run backwards, the cache answers as the plain map with expiry, but misses exactly the keys
  evicted since they were last set; nothing is evicted before a limit is reached; the victim
  is least by what has happened to its key; the bound on entries holds for keys that are not
  empty, while the empty key lets the cache grow without end.
* **Keys.** The shift-and-mask hash is the polynomial in 31 modulo 2^32; when two hashes, or
  two permission-scoped keys, coincide is characterised exactly.
* **Templates.** The placeholder scan is the one leftmost reading. What substitution leaves
  to resolve, and which texts it changes without a value, is characterised exactly: names
  that every object inherits are replaced too.
* **Permissions, configuration.** Permission parsing and formatting are inverse; the
  template and configuration checks report exactly what is wrong.

Where the code and its documentation differ, the model follows the code:
`getBackoffDelay` is described as exponential, but the first delay is already twice the
interval and from the fourth on it is constant (`Reconnection.DelayExactly`);
substitution is described as leaving placeholders without a value untouched, but replaces
`{{constructor}}` and the like (`Placeholders.UnknownKeysUntouchedExactlyWhen`);
edits are described as rejected only for problems they introduce, but one that breaks the
reported cycle is rejected for the next (`EdgeDeletion.DeletionCanBeRefused`);
`ReconnectionManager.cancel` is described as cancelling the pending reconnection, but it
stops only the timer set last (`Reconnection.CancelStopsAllExactlyWhen`).

## Model

| member | source | states |
|---|---|---|
| `CycleSearch.CycleFinder.constructor` | packages/workflow-templates/src/graph.ts:90-92 | the adjacency lists hold, for each listed key, the targets of its links in order, and nothing for unlisted keys |
| `CycleSearch.CycleFinder.Visit` | packages/workflow-templates/src/graph.ts:97-112 | one recursive visit turns state map, stack and finishing order into those of the specification, and ends because each visit of an unmarked key marks one more of a finite set |
| `CycleSearch.FindCycle` | packages/workflow-templates/src/graph.ts:86-120 | returns null exactly when the links leaving listed nodes form no cycle, and otherwise a simple cycle |
| `CycleSearch.VisitKeepsInvariant` | packages/workflow-templates/src/graph.ts:97-112 | a visit keeps: the stack is a path and holds exactly the visiting keys, and everything a finished key leads to was finished before it; a back edge closes a simple cycle |
| `CycleSearch.FoundCycleIsSimple` | packages/workflow-templates/src/graph.ts:83-85 | a returned list is a genuine cycle with distinct inner keys |
| `CycleSearch.FinishOrderIsTopological` | packages/workflow-templates/src/graph.ts:105-119 | when nothing is found, the reverse finishing order lists every node once and the source of each link before its target |
| `CycleSearch.NullExactlyWhenAcyclic` | packages/workflow-templates/src/graph.ts:82-89 | null exactly on acyclic graphs |
| `WorkflowGraph.IndexNodes` | packages/workflow-templates/src/graph.ts:132-135 | each key, blank or not, is mapped to the first node that has it |
| `WorkflowGraph.CheckNodes` | packages/workflow-templates/src/graph.ts:153-256 | the pass with its set of seen keys gives the errors defined by position, and the distinct usable keys in order |
| `WorkflowGraph.CheckEdge` | packages/workflow-templates/src/graph.ts:261-378 | the callback for one edge, with its early returns, gives the errors and warnings defined by position |
| `WorkflowGraph.CheckEdges` | packages/workflow-templates/src/graph.ts:258-378 | the pass with its set of pair keys gives all edge errors, condition warnings and the links the search is run on |
| `WorkflowGraph.WarnDisconnected` | packages/workflow-templates/src/graph.ts:389-402 | one warning for each usable key no link touches |
| `WorkflowGraph.ValidateWorkflowGraph` | packages/workflow-templates/src/graph.ts:122-405 | the whole check equals its definition by position, errors and warnings in order |
| `GraphRules.StepErrorsExactly` | packages/workflow-templates/src/graph.ts:175-255 | a step has no error exactly when kind, description, agent and loop meet the declared rules |
| `GraphRules.ConditionErrorsExactly` | packages/workflow-templates/src/graph.ts:301-357 | an edge has no condition error exactly when its kind and condition are allowed |
| `GraphRules.SearchDecidesCycles` | packages/workflow-templates/src/graph.ts:380-387 | once nodes and edges are accepted the search sees the whole graph, so its answer decides whether the edges form a cycle |
| `GraphRules.OkExactlyWhen` | packages/workflow-templates/src/graph.ts:122-405 | for every graph, ok exactly when the declarative rules hold, acyclicity included, and pair keys tell the edges apart |
| `GraphRules.PairKeyInjective` | packages/workflow-templates/src/graph.ts:288 | equal pair keys of NUL-free keys mean equal ends |
| `GraphRules.NulFreeKeysSuffice` | packages/workflow-templates/src/graph.ts:288-298 | for keys without NUL, ok exactly when the declarative rules hold |
| `GraphRules.NulInKeysCanCollide` | packages/workflow-templates/src/graph.ts:288-297 | a family of well-formed graphs with NUL in their keys that the check refuses |
| `GraphRules.DeletingAnEdgeKeepsOk` | packages/workflow-templates/src/graph.ts:122-405 | deleting any edge from an ok graph leaves it ok |
| `GraphRules.OkGraphsNeverStall` | packages/db/src/client.ts:252-255 | in an ok graph, whatever has completed, some step that has not can start, as long as one is left |
| `GraphReports.EdgeBlamedExactlyWhen` | packages/workflow-templates/src/graph.ts:261-357 | some error carries an edge's index exactly when that edge breaks a rule |
| `GraphReports.KeyBlamedExactlyWhen` | packages/workflow-templates/src/graph.ts:155-256 | some node error carries a key exactly when it is used twice or its step breaks a rule |
| `GraphReports.ReportedCycleIsReal` | packages/workflow-templates/src/graph.ts:380-387 | in any graph, the reported cycle is a closed walk along its edges that passes no step twice |
| `GraphClaims.ErrorsMean` | packages/workflow-templates/src/graph.ts:122-378 | in any graph, whatever else is wrong with it, an error other than a cycle is reported exactly when what its message and place claim holds of the graph |
| `GraphClaims.CycleFoundExactlyWhen` | packages/workflow-templates/src/graph.ts:258-387 | in any graph a cycle is found exactly when there is a closed walk along edges between different steps, with usable sources, the first under their pair keys |
| `GraphClaims.CycleReportedExactlyWhen` | packages/workflow-templates/src/graph.ts:380-387 | and exactly then one is reported |
| `GraphClaims.NulFreeCycleFoundExactlyWhen` | packages/workflow-templates/src/graph.ts:288-387 | for keys without NUL the last condition drops |
| `GraphClaims.WarningsMean` | packages/workflow-templates/src/graph.ts:358-402 | in any graph a warning is given exactly when its claim holds: a condition no approval can meet, or a step no edge touches |
| `GraphClaims.NamedByTitle` | packages/workflow-templates/src/graph.ts:132-139 | issues name a step by its trimmed title or else its key, and of several steps with one key by the first |
| `GraphEdits.AcceptedExactlyWhen` | packages/workflow-templates/src/graph.ts:416-422 | an edit is accepted exactly when every text shown after it was shown before it |
| `GraphEdits.EditsNeverAddMessages` | apps/server/src/tasks/operations/workflow-graph-operations.ts:113-130 | no sequence of accepted edits, each with the agents known at its time, ever shows a text not shown at its start, but for texts about agents |
| `GraphEdits.WithSameAgentsNeither` | packages/workflow-templates/src/graph.ts:411-422 | as long as the agents stay the same, no text at all is added |
| `GraphEdits.ErrorsButAgents` | packages/workflow-templates/src/graph.ts:192-203 | leaving the known agents out of a check leaves out the issues about agents and no other |
| `GraphEdits.ValidGraphsStayValid` | apps/server/src/tasks/operations/workflow-graph-operations.ts:113-130 | once a graph meets all rules but for its agents, every sequence of accepted edits reaches only graphs that do, so none with a cycle, whatever becomes of the agents |
| `GraphEdits.WithSameAgentsValid` | apps/server/src/tasks/operations/workflow-graph-operations.ts:113-130 | as long as the agents stay the same, valid graphs stay valid |
| `GraphEdits.EditOfValidGraph` | apps/server/src/tasks/operations/workflow-graph-operations.ts:113-130 | from a valid graph an edit is accepted exactly when its result is well-formed with faithful pair keys |
| `GraphEdits.NewIssueCanGoUnreported` | packages/workflow-templates/src/graph.ts:420-421 | a family of edits of invalid graphs that add an issue and are accepted, because the texts are equal |
| `GraphTexts.TextsTell` | packages/workflow-templates/src/graph.ts:416-422 | messages whose names have no quotation marks, and whose unknown ends have no arrow or quotation mark, are equal when their texts are |
| `GraphTexts.AgentTextsStandOut` | packages/workflow-templates/src/graph.ts:198-201 | whatever the names are, no other text can pass for one about an unknown agent |
| `NewIssues.NewIssuesReportedByMessage` | packages/workflow-templates/src/graph.ts:416-422 | for plain names, exactly when no step or edge has a complaint now that it did not have but another one had |
| `NewIssues.NewIssuesReportedExactlyWhen` | packages/workflow-templates/src/graph.ts:416-422 | when names also tell the steps of both graphs apart, exactly when no edge has a complaint now that it did not have but another edge had |
| `NewIssues.EditsInPlaceReportEverything` | packages/workflow-templates/src/graph.ts:416-422 | so an edit that leaves edges in their places reports every issue it adds |
| `EdgeDeletion.DeletionAcceptedExactlyWhen` | packages/workflow-templates/src/graph.ts:380-422 | where nothing is wrong but cycles, and names are plain and distinct, deleting an edge is accepted exactly when no cycle is left or the same one is reported |
| `EdgeDeletion.DeletionFromReportedCycle` | packages/workflow-templates/src/graph.ts:380-422 | so an edge of the reported cycle can be deleted exactly when that leaves no cycle |
| `EdgeDeletion.DeletionCanBeRefused` | apps/server/src/tasks/operations/workflow-graph-operations.ts:113-130 | a family of graphs with two loops where deleting an edge of the first is refused, although every closed walk left was there before |
| `Placeholders.KeyAtExactly` | packages/workflow-templates/src/validate.ts:10 | the scan finds a key at a place exactly when the pattern matches there with that key |
| `Placeholders.TokenizationExactly` | packages/workflow-templates/src/validate.ts:10-15 | the scan is the only reading of a text into characters and placeholders that prints back to it and matches leftmost |
| `Placeholders.SubstituteFills` | packages/workflow-templates/src/validate.ts:22-30 | substitution replaces token by token with what the table has or inherits; inserted values are never scanned |
| `Placeholders.UnknownKeysUntouchedExactlyWhen` | packages/workflow-templates/src/validate.ts:17-30 | a text whose placeholders have no value of their own is unchanged exactly when none of them is a name every object inherits |
| `Placeholders.InheritedNamesAreFilled` | packages/workflow-templates/src/validate.ts:26-29 | with no values at all, the placeholder of any inherited name is replaced |
| `Placeholders.ConstructorIsFilled` | packages/workflow-templates/src/validate.ts:26-29 | so `{{constructor}}` becomes the text of a built-in function |
| `Placeholders.SubstitutionDependsOnListedKeys` | packages/workflow-templates/src/validate.ts:12-30 | only the values of the keys that extraction lists matter |
| `Placeholders.NothingListedExactlyWhen` | packages/workflow-templates/src/validate.ts:12-15 | extraction lists nothing exactly when the pattern matches at no position of the text |
| `Placeholders.ResolvedExactlyWhen` | packages/workflow-templates/src/validate.ts:12-30 | for any values, nothing is left after substitution exactly when every listed key has a value and no two opening braces, word characters and two closing braces of the text or of values come together |
| `Placeholders.ResolvedWithoutBraces` | packages/workflow-templates/src/validate.ts:12-30 | for values without braces only braces of the text itself can, and each value counts as a whole |
| `Placeholders.FullyResolved` | packages/workflow-templates/src/validate.ts:12-30 | values may have closing braces too, if only placeholders have opening ones |
| `Placeholders.BracesCanFormPlaceholder` | packages/workflow-templates/src/validate.ts:26-29 | for all words, a doubly braced placeholder becomes a new placeholder |
| `TemplateCheck.ValidateWorkflowTemplate` | packages/workflow-templates/src/validate.ts:40-128 | an error is reported exactly when what it claims is wrong with the template, so none exactly when the template is sound |
| `TemplateCheck.SoundExactlyWhen` | packages/workflow-templates/src/validate.ts:40-128 | a template has no error exactly when its own nodes, loops and edges meet the graph rules, it has no cycle, and nothing else is wrong with it |
| `TemplateCheck.TemplateNames` | packages/workflow-templates/src/validate.ts:41-48 | errors name its steps by their own titles or keys |
| `TemplateCheck.SoundTemplatesHaveWellFormedGraphs` | packages/workflow-templates/src/validate.ts:41-56 | a template without errors has a graph that meets all graph rules |
| `TemplateCheck.ValuesResolveSoundTemplates` | apps/server/src/tasks/operations/workflow-template-operations.ts:54-105 | with a value for every input, substitution puts the input's value in place of every placeholder of every title, description, agent, edge condition, trigger match and acknowledgement |
| `TemplateCheck.SoundTextsResolveExactlyWhen` | packages/workflow-templates/src/validate.ts:22-123 | such a text has nothing left exactly when no braces come together around a word once its placeholders are filled |
| `TemplateCheck.SoundTextsWithoutBraces` | packages/workflow-templates/src/validate.ts:22-123 | with values that have no braces, only braces of its own can |
| `NestedTransactions.Sqlite.Release` | packages/db/src/node-sqlite.ts:139 | SQLite's RELEASE removes the newest savepoint of that name and all above it |
| `NestedTransactions.Sqlite.RollbackTo` | packages/db/src/node-sqlite.ts:143 | SQLite's ROLLBACK TO restores the newest savepoint of that name and keeps it |
| `NestedTransactions.Database.Transaction` | packages/db/src/node-sqlite.ts:129-147 | contents and outcome follow the simple recursive meaning, the depth is restored on every exit, ROLLBACK always finds its target, and a failed nested call leaves exactly one dead savepoint |
| `NestedTransactions.Database.RunCallback` | packages/db/src/node-sqlite.ts:137-141 | any callback, with nested calls, throws and catches, has the simple meaning and leaves above the stack exactly the dead savepoints of its own depth |
| `NestedTransactions.LeftoversShareOneName` | packages/db/src/node-sqlite.ts:133-146 | all frames left above the current one carry the current depth's savepoint name |
| `NestedTransactions.NewestIsOwnFrame` | packages/db/src/node-sqlite.ts:134-143 | so the newest savepoint with the caller's name is the caller's own frame |
| `NestedTransactions.StackOutgrowsDepth` | packages/db/src/node-sqlite.ts:142-145 | for any n, a callback that leaves n dead savepoints while the depth is unchanged |
| `TokenRenewal.BootstrapAdminManager.EnsureToken` | apps/server/src/bootstrap-admin.ts:58-85 | the valid record on disk, or else a new one in memory once it is on disk; no record when disabled |
| `TokenRenewal.EnsuredExactly` | apps/server/src/bootstrap-admin.ts:58-85 | a valid record on disk is kept and nothing written; otherwise one record is written, with the new token; a disabled manager has none |
| `TokenRenewal.EnsuredCanBegin` | apps/server/src/bootstrap-admin.ts:58-105 | an enabled manager that is not running can be started once that has succeeded |
| `TokenRenewal.BootstrapAdminManager.StartAutoRenew` | apps/server/src/bootstrap-admin.ts:99-118 | does nothing when disabled or running; otherwise checks at once and arms the timer |
| `TokenRenewal.BootstrapAdminManager.TriggerRenewalCheck` | apps/server/src/bootstrap-admin.ts:126-141 | skips while a renewal is in flight, otherwise starts one exactly when renewal is due |
| `TokenRenewal.DueUntilRenewed` | apps/server/src/bootstrap-admin.ts:126-184 | a token that is due stays due until a renewal has finished, so every check until then leaves one under way |
| `TokenRenewal.BootstrapAdminManager.OnPersisted` | apps/server/src/bootstrap-admin.ts:206-209 | the record reaches memory only after it was renamed into place, and the in-flight mark is cleared |
| `TokenRenewal.BootstrapAdminManager.StopAutoRenew` | apps/server/src/bootstrap-admin.ts:148-156 | clears the timer and waits exactly when a renewal is in flight |
| `TokenRenewal.OneRenewalAtATime` | apps/server/src/bootstrap-admin.ts:39-46 | in every interleaving at most one renewal is under way and the record in memory has been on disk |
| `TokenRenewal.StopIsFinal` | apps/server/src/bootstrap-admin.ts:143-156 | once a stop has returned, and until the next start, no write lands |
| `TokenSafety.RunsStayUnexpired` | apps/server/src/bootstrap-admin.ts:99-198 | from the invariant, every run keeps the token on disk unexpired |
| `TokenSafety.StartIsSafeExactlyWhen` | apps/server/src/bootstrap-admin.ts:107-184 | for every tolerant configuration and whatever lifetime the token was given, all runs after a start keep the token unexpired exactly when it has more than failures times interval plus renewal time left and checks cannot miss the time when it falls due |
| `TokenSafety.DueStartIsSafeExactlyWhen` | apps/server/src/bootstrap-admin.ts:107-117 | for a token that is due already or falls due early enough, what it has left decides |
| `TokenSafety.FirstTokenIsSafe` | apps/server/src/bootstrap-admin.ts:58-118 | in a tolerant configuration, a manager that minted its first token and is started at once keeps a valid token on disk in every run |
| `TokenSafety.TolerantExactlyWhen` | apps/server/src/bootstrap-admin.ts:58-246 | a configuration is tolerant exactly when that holds of every first token and every start time |
| `TokenSafety.LateThresholdDooms` | apps/server/src/bootstrap-admin.ts:178-184 | a token not yet due but with no more left than the next check and its failures need is lost in some run |
| `TokenSafety.TruncationDooms` | apps/server/src/bootstrap-admin.ts:240-246 | if the lifetime does not also cover the second lost to whole-second claims, a renewal in the last millisecond of a second is followed by a run that loses the new token |
| `TokenSafety.MintedExpiry` | apps/server/src/websocket/middleware/auth.ts:220-223 | a minted token expires its whole-second lifetime after the start of the second it was minted in |
| `TokenSafety.DefaultsTolerate` | apps/server/src/lib/env.ts:87-104 | the shipped settings are tolerant of exactly 290 failed checks in a row |
| `RequestCorrelator.Correlator.Create` | packages/sdk/src/websocket-client.ts:57-71 | one new unsettled promise with its armed timer and its pending entry |
| `RequestCorrelator.Correlator.Resolve` | packages/sdk/src/websocket-client.ts:76-85 | settles, disarms and forgets the pending request of that id, and says whether there was one |
| `RequestCorrelator.Correlator.Reject` | packages/sdk/src/websocket-client.ts:90-99 | the same with a rejection |
| `RequestCorrelator.Correlator.RejectAll` | packages/sdk/src/websocket-client.ts:104-112 | rejects and disarms every pending request, forgets them all, and returns their number |
| `RequestCorrelator.Correlator.Cleanup` | packages/sdk/src/websocket-client.ts:117-126 | releases exactly the requests older than the timeout |
| `RequestCorrelator.Correlator.OnTimeout` | packages/sdk/src/websocket-client.ts:59-62 | a firing timer rejects its promise and removes whatever is pending under its id |
| `RequestCorrelator.SettledAtMostOnce` | packages/sdk/src/websocket-client.ts:46-134 | in every run, even with reused ids, no promise is settled twice and it is unsettled exactly while its timer is armed |
| `RequestCorrelator.StatusExactly` | packages/sdk/src/websocket-client.ts:57-126 | in every run a promise ends resolved exactly when a response of its id came while its own entry was pending, rejected exactly when a rejection, a clean-up or its own timer came first, and unsettled otherwise |
| `RequestCorrelator.NoEarlyTimeout` | packages/sdk/src/websocket-client.ts:57-62 | in every run a request's timer does not fire before the timeout has passed |
| `RequestCorrelator.TimerFiresAfterTimeout` | packages/sdk/src/websocket-client.ts:57-62 | and can fire once it has, if the request is still unsettled |
| `RequestCorrelator.CleanupIsDue` | packages/sdk/src/websocket-client.ts:117-126 | in every run a clean-up rejects exactly the pending requests whose deadline has passed |
| `RequestCorrelator.FreshnessIsExact` | packages/sdk/src/websocket-client.ts:57-71 | creating keeps ids, timers and promises in step exactly when the id is not pending |
| `RequestCorrelator.RunsKeepCoincide` | packages/sdk/src/websocket-client.ts:46-134 | with fresh ids they stay in step in every run |
| `RequestCorrelator.Conservation` | packages/sdk/src/websocket-client.ts:46-134 | created = pending + resolved + rejected, and pending ids, armed timers and unsettled promises are equally many |
| `RequestCorrelator.RejectAllSettlesEverything` | packages/sdk/src/websocket-client.ts:329-332 | after a disconnect nothing is pending and no promise is unsettled |
| `RequestCorrelator.RejectAllSettlesExactlyWhen` | packages/sdk/src/websocket-client.ts:57-112 | in every run, reused ids or not, it settles everything exactly when no promise was lost: overtaken by a request of the same id, or robbed of its entry by another one's timer |
| `RequestCorrelator.LostExactly` | packages/sdk/src/websocket-client.ts:57-99 | in every run the lost promises are the unsettled ones that no response can settle |
| `RequestCorrelator.CoincideExactlyWhen` | packages/sdk/src/websocket-client.ts:46-134 | in every run ids, timers and promises are in step exactly when no promise is lost |
| `RequestCorrelator.ReusedIdLeftHanging` | packages/sdk/src/websocket-client.ts:433-436 | two requests of one id, then `rejectAll`: the first promise stays unsettled |
| `RequestCorrelator.AllDeadlinesFired` | packages/sdk/src/websocket-client.ts:59-62 | once every armed timer has fired everything is settled, whatever ids were used |
| `RequestCorrelator.ReusedIdLosesAnswer` | packages/sdk/src/websocket-client.ts:59-69 | a reused id loses its second request's answer when the first timer fires |
| `Reconnection.ReconnectionManager.Schedule` | packages/sdk/src/websocket-client.ts:167-176 | refuses at the maximum; otherwise counts the attempt first, then sets a timer with the delay of the new count |
| `Reconnection.ReconnectionManager.Reset` | packages/sdk/src/websocket-client.ts:181-194 | clears the timer set last and the count |
| `Reconnection.DelayExactly` | packages/sdk/src/websocket-client.ts:157-162 | the delays are two, four, eight and then ten times the interval |
| `Reconnection.DelaysGrowToTheCap` | packages/sdk/src/websocket-client.ts:157-162 | delays never shrink, start at twice the interval and stay within ten times it |
| `Reconnection.AttemptsAreBounded` | packages/sdk/src/websocket-client.ts:167-176 | in every run without a reset one timer is set per attempt, at most the maximum, and the total wait depends on their number alone |
| `Reconnection.AttemptsExactly` | packages/sdk/src/websocket-client.ts:167-194 | in every run there are as many attempts as were asked for since the last reset, up to the maximum |
| `Reconnection.TotalWaitOfRun` | packages/sdk/src/websocket-client.ts:157-176 | three or more attempts, n of them, wait interval times (10n - 16) in total |
| `Reconnection.ArmedExactly` | packages/sdk/src/websocket-client.ts:167-194 | in every run the armed timers are those that were set, have not fired, and were not cancelled while they were the last |
| `Reconnection.CancelStopsAllExactlyWhen` | packages/sdk/src/websocket-client.ts:181-186 | after any run a cancel leaves no timer armed exactly when every timer set before the last one has fired or was cancelled |
| `Reconnection.CancelStopsAllOneAtATime` | packages/sdk/src/websocket-client.ts:167-186 | in runs that never schedule while a timer is armed a cancel always stops everything |
| `Reconnection.SecondScheduleOutlivesCancel` | packages/sdk/src/websocket-client.ts:174-186 | after two schedules and a cancel the first timer is still armed |
| `CacheStore.Cache.Get` | apps/server/src/addons/proxy-cache.ts:162-186 | a hit updates use and statistics, an expired entry is removed, a miss is counted |
| `CacheStore.Cache.Set` | apps/server/src/addons/proxy-cache.ts:191-221 | evicts at most one entry first, even when the key exists, then replaces in place or appends |
| `CacheStore.Cache.Delete` | apps/server/src/addons/proxy-cache.ts:226-237 | removes the entry of that key and its size |
| `CacheStore.Cache.Has` | apps/server/src/addons/proxy-cache.ts:242-253 | true for an unexpired entry; an expired one is removed |
| `CacheStore.Cache.FindVictim` | apps/server/src/addons/proxy-cache.ts:313-359 | the key of the entry least by the policy, the earliest among equals |
| `CacheStore.Cache.Evict` | apps/server/src/addons/proxy-cache.ts:287-308 | removes that entry unless its key is the empty string |
| `CacheStore.Cache.Cleanup` | apps/server/src/addons/proxy-cache.ts:385-397 | deleting while iterating leaves exactly the live entries in order and counts the others |
| `CacheRuns.AlwaysConsistent` | apps/server/src/addons/proxy-cache.ts:136-398 | in every reachable state keys are distinct, the size is the sum of the entries' sizes, the count their number, and the hit rate up to date |
| `CacheRuns.AlwaysSized` | apps/server/src/addons/proxy-cache.ts:191-221 | and every entry counts with the size of its value |
| `CacheRuns.LookupsAreCounted` | apps/server/src/addons/proxy-cache.ts:162-186 | hits and misses are the lookups that did and did not return a value |
| `CacheRuns.GetIsLatestSet` | apps/server/src/addons/proxy-cache.ts:162-221 | any value returned is the latest set under that key, not deleted since and not expired |
| `CacheRuns.VictimIsLeastByHistory` | apps/server/src/addons/proxy-cache.ts:287-359 | what is evicted is the key used longest ago, asked for least since set, or set longest ago, ties to the earliest map position |
| `CacheRuns.AnswersExactly` | apps/server/src/addons/proxy-cache.ts:162-308 | with a clock that does not run backwards, in every run, the cache answers as the plain map with expiry, but misses exactly the keys evicted since they were last set |
| `CacheRuns.SetRemovesExactly` | apps/server/src/addons/proxy-cache.ts:191-308 | a set takes away an entry of another key exactly when a limit is reached and that entry is the least by the policy, its key not being empty |
| `CacheRuns.ExactBelowLimits` | apps/server/src/addons/proxy-cache.ts:191-308 | as long as no set finds a limit reached, the cache is the plain map with expiry |
| `CacheRuns.EvictionsAreCounted` | apps/server/src/addons/proxy-cache.ts:287-308 | the statistics count the sets that found a limit reached and an entry to take away |
| `CacheRuns.SetKeepsPlaces` | apps/server/src/addons/proxy-cache.ts:191-221 | a set leaves the other keys in their order, a key that is there in its place, and puts a new one last |
| `CacheRuns.LookupsDropExpired` | apps/server/src/addons/proxy-cache.ts:162-253 | after a lookup of a key an entry of that key that is left has not expired |
| `CacheRuns.CleanedExactly` | apps/server/src/addons/proxy-cache.ts:385-397 | a clean-up leaves exactly the entries that have not expired |
| `CacheRuns.CleanedInOrder` | apps/server/src/addons/proxy-cache.ts:385-397 | and in the order they had |
| `CacheRuns.ExactUntilEviction` | apps/server/src/addons/proxy-cache.ts:162-253 | so until the first eviction it is that map |
| `CacheRuns.SetKeepsLimitExactlyWhen` | apps/server/src/addons/proxy-cache.ts:191-196 | a set keeps the number of entries within the limit exactly unless the cache is full, the key new and the victim's key empty |
| `CacheRuns.EmptyKeyDefeatsLimit` | apps/server/src/addons/proxy-cache.ts:191-308 | for every n, limit and policy, a run of n sets, the first of the empty key, that leaves n entries |
| `CacheRuns.AlwaysWithinLimit` | apps/server/src/addons/proxy-cache.ts:274-308 | for non-empty keys there are never more than max(1, maxEntries) entries |
| `CacheKeys.HashStep` | apps/server/src/addons/proxy-cache.ts:97-99 | one turn of the loop is one step of the polynomial modulo 2^32 |
| `CacheKeys.Hash` | apps/server/src/addons/proxy-cache.ts:94-102 | the absolute value of the polynomial in 31 of the code units, reduced to signed 32 bits, in base 36 |
| `CacheKeys.SameHashExactlyWhen` | apps/server/src/addons/proxy-cache.ts:94-102 | the value is at most 2^31, and two strings hash alike exactly when their polynomials are equal or opposite modulo 2^32 |
| `CacheKeys.WithPermissionScope` | apps/server/src/addons/proxy-cache.ts:119-126 | sorts the caller's list in place and derives the key from its sorted contents |
| `CacheKeys.SameScopedKeyExactlyWhen` | apps/server/src/addons/proxy-cache.ts:119-126 | two scoped keys are equal exactly when the base keys are and the polynomials of the sorted permissions, one after another with a separator between, are equal or opposite modulo 2^32 |
| `CacheKeys.SameJoinExactlyWhen` | apps/server/src/addons/proxy-cache.ts:124 | for permissions without the separator the text that is hashed determines the list |
| `CacheKeys.BeforeExactly` | apps/server/src/addons/proxy-cache.ts:124 | the order is by code units: the first difference decides, and a beginning comes first |
| `CacheKeys.ReorderingKeepsKey` | apps/server/src/addons/proxy-cache.ts:116-126 | any reordering of the permission list gives the same key, and so does the list a call leaves behind |
| `Permissions.ParseExactly` | apps/server/src/addons/permission.ts:77-103 | a text parses to a permission exactly when that permission is well-formed and formats to the text |
| `Permissions.StrictCheckExactly` | apps/server/src/addons/permission.ts:118-164 | what a strict check allows; the scoped branch adds nothing |
| `Permissions.LenientCheckExactly` | apps/server/src/addons/permission.ts:118-180 | a check that is not strict also allows any permission of a resource of which some permission is granted |
| `Permissions.ReasonsExactly` | apps/server/src/addons/permission.ts:118-180 | which wildcard let a permission through, or why it was denied |
| `Permissions.GrantingMoreNeverRevokes` | apps/server/src/addons/permission.ts:118-180 | a larger grant list allows whatever a smaller one does, strict or not |
| `Permissions.CheckAll` | apps/server/src/addons/permission.ts:185-202 | lists exactly the permissions not allowed, and allows exactly when there are none |
| `Permissions.ScopedAccessAgreesExactlyWhen` | apps/server/src/addons/proxy.ts:39-56 | for every grant list and well-formed base, exactly when the proxy's check and the strict checker agree; always for targets that can be a scope |
| `Permissions.AgentAccessIsStrictCheck` | apps/server/src/addons/proxy.ts:65-67 | agent access is the strict check of the scoped permission |
| `Permissions.WorkspaceAccessIsStrictCheck` | apps/server/src/addons/proxy.ts:72-74 | workspace access is the strict check of the scoped permission |
| `AppConfig.CheckProviders` | packages/config/src/app-config.ts:486-534 | exactly the provider issues that hold, and tables that give each id its last provider's models |
| `AppConfig.CheckAgents` | packages/config/src/app-config.ts:536-590 | exactly the agent issues that hold, against those tables |
| `AppConfig.CheckDefaults` | packages/config/src/app-config.ts:592-636 | exactly the issues of the default provider and model that hold |
| `AppConfig.SuperRefine` | packages/config/src/app-config.ts:485-688 | an issue is raised exactly when what it claims holds, and none exactly when the configuration has referential integrity |
| `AppConfig.NothingWrongExactlyWhen` | packages/config/src/app-config.ts:485-688 | the issues, read one by one, add up to referential integrity |

## Left out

- NestedTransactions.Database.Transaction: assumes that ROLLBACK and ROLLBACK TO do not fail on their own account; if one did, the depth would not be restored. It is proved that they always find their target.
- NestedTransactions.Database.RunCallback: callbacks are synchronous; the asynchronous wrapper in packages/db/src/client.ts passes a promise-returning callback to the same runner and is not covered.
- CacheStore.Cache.Set: the size estimate is a function parameter, so a value that cannot be serialised (where the original throws after the eviction) is not modelled; one clock reading stands for the several an operation makes.
- RequestCorrelator.Correlator.RejectAll: the order in which pending requests are rejected is not modelled.
- TokenRenewal.BootstrapAdminManager.StartAutoRenew: only timer-driven renewals are under way; `ensureToken` comes before the start, and a call of it or of `maybeRenewToken` by other code during a run is not modelled.
- Placeholders.SubstituteFills: what plain objects inherit is a table of texts, none of which begins with a brace; that an input named `__proto__` cannot be stored in such an object is not modelled.
- TemplateCheck.ValuesResolveSoundTemplates: not for the channel of a trigger, of which the check looks at the first placeholder only.
- NewIssues.NewIssuesReportedExactlyWhen: for names without quotation marks; with them two different messages can have one text, and only `AllNewReportedByText` applies.
- EdgeDeletion.DeletionAcceptedExactlyWhen: for graphs in which nothing is wrong but cycles; with other errors the numbers of later edges change as well, and `GraphEdits.AcceptedExactlyWhen` applies.
- WorkflowGraph.ValidateWorkflowGraph: regular expression syntax is a function parameter; lower-casing in one warning is modelled for the letters A to Z, which are the only ones that matter there.
- Permissions.CheckAll: its mirror image `checkAny` and the grouping helpers are not modelled.
- The `WebSocketClient` life cycle: sockets, heartbeats and event handlers, including that `connect` resets the attempt counter.
- The cache key's request part (`generate`, time buckets) and the `ProxyCache` class around the store.
- `Database.close`, statements and pragmas of the SQLite wrapper.
- The audit log and model pricing: their loops would only add easier members.
- Cryptography, token signatures, file formats and everything behind HTTP routes and Drizzle.
