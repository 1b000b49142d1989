# Kubescape, verified in Dafny

This project models five parts of Kubescape whose correctness rests on several
functions, or on a whole state machine, and proves what those parts promise.
`dafny verify dfyconfig.toml` checks all of it.

**1. Coalesced execution and shutdown of the MCP server.** Overlapping tool
calls with one key share one execution; each caller may stop waiting on its
own; the last to leave cancels the work; shutdown stops admitting work, drains,
cancels and joins. `Keys` has the key builders of all nine kinds of shared call
over byte strings and proves when two keys agree; `ControlIds` has the parser
that feeds three of them. `Lifecycle` and `Coalescing` are the transition system:
every critical section of `doSharedChan`, `runShared` and `workLifecycle` is one
atomic step, and any number of callers, keys, generations and `shutdown` calls
take their steps in any order. One inductive invariant (`Coalescing.Inv`) is
kept by every step. `CoalescingRuns` draws the consequences for whole runs,
`CoalescingAnswers` says by the steps taken what callers, refused handlers and calls of
`shutdown` are told, `CoalescingProgress` shows that a draining server finishes, and
`SharedCalls` puts protocol and keys together: who shares a result asked for it. `McpServer`
has the objects themselves, updated in place, each method proved to do what the
corresponding step says.

**2. Output paths of a fleet scan.** `Paths` has the splicing loop of
`resolvePath` over an arbitrary file system of symbolic links, and pathname
resolution (section 4.13 of POSIX.1-2017, with missing components taken as
themselves) as a relation of its own; the two are proved to agree, and `Separators`
says for which paths and which link texts. `Lexical` has filepath.Clean and
filepath.Join, and `Joining` says for which paths they change nothing on any file
system. `Fleet` has the checks that keep the reports of all contexts and the fleet
report apart.

**3. The scope of an admission policy binding.** `BindingScope` and
`SelectorReach` have the offline analysis of `cmd/vap` and a request-level
semantics: which group, version, resource and subresource a rule matches, in any
world of resource scopes that agrees with the built-in table. The analysis is
proved exact, never silent and sound in refusing, under the conditions stated, and
`Refusals` has the exact condition for a refusal to be right.

**4. Grouping, ordering and paging.** `Vulnerabilities` and `Packages` prove the
one-pass, in-place grouping equal to a specification that knows no order, and
`Paging` that following `next_offset` yields the list itself.

**5. Reductions that must not lose anything.** `Ownership` (deduplicating secret
findings along owners), `SecretText` (cutting harmless URIs out of a value and
searching the rest) and `Remediation` with `Worst` (no requested control
vanishes; one item per resource and control, at its worst record).

`Sequences`, `Texts` and `Orders` hold what these share.

## Where the code falls short of its description

Each of these is proved with an input that shows it and with the exact condition
under which the code does what it says.

- The array form of `control_ids` lets an ID with a comma through, and it then
  shares the key of the two IDs it looks like (`ControlIds.ArrayLetsCommaThrough`);
  keys agree exactly for calls that are equal once IDs are cut at commas
  (`Keys.KeysAreExact`). The string form cannot produce such an ID
  (`ControlIds.ListedIdsAreCommaFree`).
- `resolvePath` says it resolves components as the kernel does, but takes a
  backslash for a separator on every platform, in the path
  (`Paths.BackslashGoesAstray`) and in the texts of links
  (`Separators.BackslashTextGoesAstray`). A path without one agrees with POSIX on
  every file system whose link texts have none, and no other path does
  (`Separators.PosixIffPlain`); and such paths agree on every file system with link
  texts from a given set if and only if none of these has one
  (`Separators.PosixIffPlainLinks`).
- `perContextOutputPath` says a context's name cannot escape the output
  directory. The name `.` does, under an `--output` that ends in a separator
  (`Fleet.DotEscapes`). Any name does under an `--output` such as `link/../report`:
  `filepath.Join` drops a link along with the `..` after it, where the directory is
  the one above the link's target (`Fleet.DotsAfterLinkEscape`). The report lands in
  the directory that `--output` names, wherever links lead, if and only if the
  context is not such a `.` and no `..` of the directory comes after a name
  (`Fleet.FileStaysIff`).
- The listing of vulnerabilities is documented not to depend on the order of the
  matches. That holds for all permutations of them exactly when matches that tie
  on severity, namespace and data source agree in all that is reported
  (`Vulnerabilities.OrderFreeIffTiesAgree`).
- `--namespace` is silent about cluster-scoped custom resources called
  `namespaces` when the rule names them at every group
  (`SelectorReach.ForeignNamespacesAreSilent`). Exactly those requests are
  accounted for that lie on a part not read as the core resource
  (`SelectorReach.RequestIsNamed`), and a policy over such resources has them named
  exactly when it is declared Cluster and covers a part clear of the core group
  (`SelectorReach.NamespacesAreNamedIff`).
- `--namespace` is refused for a rule on a bare `*`, though it would narrow the
  namespaced requests the rule matches (`SelectorReach.BareWildcardIsRefused`),
  and for a built-in cluster-scoped plural swept at every group
  (`SelectorReach.SharedPluralIsRefused`). The rules for which the selector decides
  about nothing they match, so that a refusal is right, are characterised exactly
  (`Refusals.RefusalIsExact`).
- Deduplication loses findings when workloads own each other in a circle
  (`Ownership.CycleLosesFindings`, `Ownership.OwnersInACircle`); it loses none for
  any findings exactly when ownership is acyclic (`Ownership.LossFreeIffAcyclic`).
- Remediation items are keyed by resource and control joined with a NUL. A NUL in
  a resource ID together with one in a control ID can merge two pairs, and one is
  then not listed (`Remediation.NulLosesAPair`); either kind of ID being free of NUL
  rules that out (`Remediation.NulFreeIsApart`,
  `Remediation.NulFreeResourcesAreApart`), and each pair has its item exactly when
  no two pairs share a key (`Remediation.EachPairOnceIff`).

## Model

| member | source | states |
|---|---|---|
| Coalescing.StepKeepsInv | cmd/mcpserver/mcpserver.go:209-281 | every critical section of callers, executions and shutdown, from any state of the invariant, keeps it: entries name live uncancelled generations, counts equal present callers, `active` equals unfinished handlers plus unended executions, permits stay within two |
| Coalescing.JoinKeepsInv | cmd/mcpserver/mcpserver.go:209-236 | joining or creating a generation under scanCtxMu keeps the invariant |
| Coalescing.LeaveKeepsInv | cmd/mcpserver/mcpserver.go:238-248 | the deferred section keeps it: the last leaver cancels and drops the entry only if it is still its own |
| Coalescing.ExecutionKeepsInv | cmd/mcpserver/mcpserver.go:261-281 | acquiring, running, releasing, retiring, cancelling, publishing and ending keep it in the order of the deferred calls, and what the function returned is what is stored |
| Coalescing.BeginKeepsInv | cmd/mcpserver/lifecycle.go:71-79 | admitting or refusing a handler keeps it |
| Coalescing.EndCallKeepsInv | cmd/mcpserver/lifecycle.go:91-101 | ending a handler keeps it, waiters closed on the last one |
| Coalescing.ShutdownKeepsInv | cmd/mcpserver/lifecycle.go:143-172 | draining, watching, both selects and cancelling keep it; work is told to stop only once draining |
| CoalescingRuns.ReachableInv | cmd/mcpserver/mcpserver.go:209-281 | the invariant holds in every reachable state of every interleaving |
| CoalescingRuns.RunIsLater | cmd/mcpserver/mcpserver.go:209-281 | along any run cancellation, publication, results and draining are never taken back, a generation out of the table never gains callers, and a drained idle server stays idle |
| CoalescingAnswers.SharedResultIsOne | cmd/mcpserver/mcpserver.go:250-255 | any two callers leaving a generation through `done`, at any two moments, leave with the same result, and its function returned that before |
| CoalescingAnswers.ResultIffGiven | cmd/mcpserver/mcpserver.go:273-280 | in any run, a generation has a result if and only if an earlier step of its own gave that one: its function's return, or the semaphore's error |
| CoalescingAnswers.AnswerIsReturned | cmd/mcpserver/mcpserver.go:250-280 | whatever a caller is answered, the function it waited for returned it; the semaphore's error reaches nobody |
| CoalescingAnswers.LeftAsItChose | cmd/mcpserver/mcpserver.go:250-255 | a caller that left was interrupted if and only if it left by its context, and answered if and only if it left by `done` |
| CoalescingAnswers.MayLeaveIff | cmd/mcpserver/lifecycle.go:129-138 | a waiting caller can leave by its context if and only if that was ended or some grace period ran out |
| CoalescingAnswers.RefusedIffDraining | cmd/mcpserver/lifecycle.go:71-79 | a handler is refused if `shutdown` was called before, and admitted otherwise |
| CoalescingAnswers.FinishedIff | cmd/mcpserver/lifecycle.go:149-171 | a call of `shutdown` has returned nil if and only if it saw its idle channel closed, and its error if and only if its time to join ran out |
| CoalescingRuns.OneLiveExecutionPerKey | cmd/mcpserver/mcpserver.go:215-235 | two in-flight uncancelled executions of one key are the same execution |
| CoalescingAnswers.FunctionRunsOnce | cmd/mcpserver/mcpserver.go:224-235 | a generation's function runs at most once, and the generation has a value if and only if that run returned it |
| CoalescingRuns.CancelledHasNobodyForever | cmd/mcpserver/mcpserver.go:238-248 | a still-running execution is cancelled only with no caller left, and never gets one again |
| CoalescingRuns.JoinersFindLiveWork | cmd/mcpserver/mcpserver.go:214-236 | whoever joins gets an in-flight, uncancelled, unpublished generation listed under its key and counts in it |
| CoalescingRuns.ListedWhileLive | cmd/mcpserver/mcpserver.go:242-271 | a generation once in the table stays there exactly as long as it is in flight and uncancelled, so none removes its successor's entry |
| CoalescingRuns.NoCallersNoEntries | cmd/mcpserver/mcpserver.go:238-248 | with no caller present the table is empty |
| CoalescingRuns.PermitsAreBounded | cmd/mcpserver/mcpserver.go:189-196 | limited executions inside their function never exceed the two permits, and the semaphore counts exactly them |
| CoalescingRuns.InactiveIsQuiet | cmd/mcpserver/lifecycle.go:71-101 | `active` is zero if and only if every handler has ended or was refused and every execution has ended |
| CoalescingRuns.CleanShutdownIsFinal | cmd/mcpserver/lifecycle.go:140-172 | after `shutdown` returned nil nothing is running and nothing ever starts again |
| CoalescingRuns.FailedShutdownIsHonest | cmd/mcpserver/lifecycle.go:161-171 | `shutdown` fails only while work is registered and after cancelling it |
| CoalescingRuns.CancelledAfterGrace | cmd/mcpserver/lifecycle.go:149-160 | in every state of a run work has been told to stop if and only if the grace period of some `shutdown` has run out before |
| CoalescingRuns.CancelledIsDraining | cmd/mcpserver/lifecycle.go:143-160 | and admission has ended by then |
| CoalescingRuns.CancelledFreesCallers | cmd/mcpserver/lifecycle.go:129-138 | from then on, at every later moment, every waiting handler can leave without its execution |
| CoalescingRuns.HandlersCanLeave | cmd/mcpserver/mcpserver.go:238-254 | once work has been told to stop, steps of handlers alone lead to a state where all have left and every execution under way is cancelled, no execution having taken a step |
| CoalescingRuns.NobodyPresentCancels | cmd/mcpserver/mcpserver.go:238-248 | whenever nobody waits, every execution under way is cancelled |
| CoalescingRuns.IdleChannelsCloseOnce | cmd/mcpserver/lifecycle.go:91-127 | every idle channel is closed at most once, and is closed exactly when nothing is registered |
| CoalescingProgress.ProductiveUsesWork | cmd/mcpserver/mcpserver.go:209-281 | every step of a handler or an execution uses up work |
| CoalescingProgress.DrainingIsBounded | cmd/mcpserver/lifecycle.go:140-172 | after draining has begun, the steps of handlers and executions in any schedule are bounded by the work then outstanding |
| CoalescingProgress.WorkCanMove | cmd/mcpserver/mcpserver.go:261-281 | no deadlock: while anything is registered some handler or execution can take a step, also with all permits taken |
| CoalescingProgress.StuckMeansDone | cmd/mcpserver/lifecycle.go:140-172 | when no handler or execution can move, all has ended and every waiting `shutdown` can return nil |
| SharedCalls.AnswersMatchQuestions | cmd/mcpserver/mcpserver.go:209-281 | the execution that answers a caller was started for the caller's own tool and arguments, control IDs cut at commas; with comma-free IDs for exactly those |
| SharedCalls.ScansHoldThePermits | cmd/mcpserver/mcpserver.go:189-208 | the permits taken are exactly the scans under way, one each, so at most two scans are ever under way |
| SharedCalls.AnalysesNeverQueue | cmd/mcpserver/analysis_coalesce.go:46-58 | whatever permits are taken, an analysis not yet started can start, and it takes none |
| Lifecycle.EndKeepsChannels | cmd/mcpserver/lifecycle.go:91-101 | ending the last work closes every waiting channel for the first and only time |
| Lifecycle.IdleKeepsChannels | cmd/mcpserver/lifecycle.go:117-127 | a new idle channel is closed at once or waits, and the others stay as they are |
| McpServer.WorkLifecycle.constructor | cmd/mcpserver/lifecycle.go:46-55 | a fresh lifecycle admits work and has none |
| McpServer.WorkLifecycle.Begin | cmd/mcpserver/lifecycle.go:71-79 | the object does the Begin step and reports whether it admitted |
| McpServer.WorkLifecycle.BeginShared | cmd/mcpserver/lifecycle.go:85-89 | the object counts one more, draining or not |
| McpServer.WorkLifecycle.End | cmd/mcpserver/lifecycle.go:91-101 | the object does the End step; no channel is closed twice, so no close panics |
| McpServer.WorkLifecycle.Idle | cmd/mcpserver/lifecycle.go:117-127 | the object does the Idle step and hands out a fresh channel |
| McpServer.WorkLifecycle.StartDrain | cmd/mcpserver/lifecycle.go:144-147 | the object starts draining and changes nothing else |
| McpServer.WorkLifecycle.CancelContext | cmd/mcpserver/lifecycle.go:160 | the object's context is cancelled and nothing else changes |
| McpServer.CloseEach | cmd/mcpserver/lifecycle.go:96-98 | the closing loop closes each waiter exactly once, each open when its turn comes |
| McpServer.CloseAll | cmd/mcpserver/lifecycle.go:94-100 | over all channels ever handed out, the waiting ones are closed once more and no other is touched |
| McpServer.WorkLifecycle.CloseWaiters | cmd/mcpserver/lifecycle.go:95-100 | the waiting list is emptied with every channel on it closed |
| McpServer.ClosedOnce | cmd/mcpserver/lifecycle.go:96-99 | closing each waiter once is the CloseAll of the End step |
| McpServer.KubescapeMcpserver.Join | cmd/mcpserver/mcpserver.go:209-236 | the server's table, generations and lifecycle do the Join step |
| McpServer.KubescapeMcpserver.Create | cmd/mcpserver/mcpserver.go:215-236 | a new generation appears with its creator counted and its entry in the table, all others unchanged |
| McpServer.KubescapeMcpserver.Leave | cmd/mcpserver/mcpserver.go:238-248 | the table and the generation do the Leave step |
| McpServer.KubescapeMcpserver.DropEntry | cmd/mcpserver/mcpserver.go:245-247 | the entry goes only if it is this generation's |
| McpServer.KubescapeMcpserver.Retire | cmd/mcpserver/mcpserver.go:263-268 | the retiring section takes the generation out of the table and no other |
| McpServer.KubescapeMcpserver.Publish | cmd/mcpserver/mcpserver.go:269-270 | own context cancelled, then `done` closed while still open |
| Keys.UnescapeOfEscape | cmd/mcpserver/mcpserver.go:847 | unescaping undoes url.QueryEscape on every byte string |
| Keys.EscapeHidesPunctuation | cmd/mcpserver/mcpserver.go:1570-1574 | an escaped component holds none of the keys' punctuation |
| Keys.EncodeIsInjective | cmd/mcpserver/analysis_coalesce.go:38-44 | url.Values.Encode determines the arguments, absent told from empty |
| Keys.KeyCutAtColons | cmd/mcpserver/mcpserver.go:826 | a key cut at its colons gives the tool's tag and its escaped arguments, the unescaped namespace in between |
| Keys.PiecesDetermineRequest | cmd/mcpserver/mcpserver.go:1503 | those pieces determine the tool and its arguments, up to the cut of control IDs |
| Keys.KeysAreExact | cmd/mcpserver/remediation.go:278-285 | over all tools and arbitrary strings, two accepted calls share a key if and only if they are the same call with control IDs cut at commas |
| Keys.SameKeySameRequest | cmd/mcpserver/mcpserver.go:1527 | with comma-free control IDs, keys agree if and only if tool and arguments agree |
| Keys.CommaMergesControlIds | cmd/mcpserver/mcpserver.go:868 | an ID with a comma shares the key of two different requests |
| Keys.KeyOfCanonical | cmd/mcpserver/mcpserver.go:868 | cutting control IDs at commas leaves the key as it is |
| Keys.CommaFreeIsCanonical | cmd/mcpserver/mcpserver.go:1527 | cutting comma-free control IDs at commas gives them back |
| ControlIds.ParseControlIds | cmd/mcpserver/mcpserver.go:658-687 | both forms give the trimmed non-blank IDs in order, or a refusal for a missing, ill-typed or blank list |
| ControlIds.ListedIsParsed | cmd/mcpserver/mcpserver.go:663-669 | the IDs of the string form are its parts between commas, in order, each without the blanks around it and the blank ones left out; refused if all are blank |
| ControlIds.ItemsAreParsed | cmd/mcpserver/mcpserver.go:670-683 | the array form likewise from its elements; refused for one that is not a string |
| ControlIds.ListedIdsAreCommaFree | cmd/mcpserver/mcpserver.go:663-669 | the string form yields at least one ID and none with a comma |
| ControlIds.SpellingsAgree | cmd/mcpserver/mcpserver.go:658-687 | a comma-separated list and the array of the same IDs parse alike |
| ControlIds.ArrayLetsCommaThrough | cmd/mcpserver/mcpserver.go:670-679 | the array form yields an ID with a comma, and a scan for it shares the key of the scan for the two IDs it looks like |
| Paths.ResolvePath | cmd/scan/fleetscan.go:350-406 | the splicing loop ends on every link graph and computes the recursive walk, with its errors |
| Paths.WalkIsResolution | cmd/scan/fleetscan.go:369-403 | the walk finds a location with so many links left if and only if pathname resolution reaches it following the others |
| Paths.ResolutionIsUnique | cmd/scan/fleetscan.go:336-344 | pathname resolution reaches one location, over one number of links |
| Paths.WalkAppend | cmd/scan/fleetscan.go:400-402 | resolving a + b is resolving b from where a leads, the budget of links included |
| Paths.ResolvesWithinHops | cmd/scan/fleetscan.go:350-406 | a location is returned if and only if resolution reaches it following at most 64 links |
| Paths.ResolvesAsPosix | cmd/scan/fleetscan.go:339-349 | for a path without a backslash this is the resolution rule of POSIX.1-2017, section 4.13: found by the code if and only if reached in POSIX within 64 links |
| Separators.PosixIffPlain | cmd/scan/fleetscan.go:339-420 | the code agrees with POSIX on every file system whose links hold no backslash if and only if there is none in the path, nor in the working directory of a relative one |
| Separators.BackslashSpoils | cmd/scan/fleetscan.go:410-420 | for any path with a backslash some file system makes the two differ |
| Separators.PosixIffPlainLinks | cmd/scan/fleetscan.go:381-420 | for any set of link texts: every plain path agrees with POSIX on every file system with links to these texts if and only if none of them holds a backslash |
| Separators.EveryBackslashTextGoesAstray | cmd/scan/fleetscan.go:381-420 | each text with a backslash has a file system of readable links, no other text with one, on which a plain path leads the code elsewhere than POSIX |
| Separators.BackslashTextGoesAstray | cmd/scan/fleetscan.go:393-402 | a link to `a\b` leads the code to `a/b` and POSIX to the one name |
| Paths.SplitPathIsPosix | cmd/scan/fleetscan.go:410-420 | the components are POSIX's if and only if the pathname has no backslash |
| Paths.BackslashGoesAstray | cmd/scan/fleetscan.go:410-420 | a file name with a backslash resolves elsewhere than in POSIX |
| Paths.LongChainsAreRefused | cmd/scan/fleetscan.go:388-391 | a path that takes more than 64 links is refused as such |
| Paths.SmallerBudget | cmd/scan/fleetscan.go:388-391 | a smaller bound on links turns an outcome into the refusal or leaves it as it is |
| Paths.ResultIsFinal | cmd/scan/fleetscan.go:350-406 | no prefix of the result is a link, and resolving the result again returns it |
| Paths.RenderIsInjective | cmd/scan/fleetscan.go:321 | comparing resolved paths as strings is comparing locations |
| Paths.CleaningWithoutLinks | cmd/scan/fleetscan.go:339-344 | when no link is crossed the result is the lexically cleaned path |
| Paths.ParentOfLinkTarget | cmd/scan/fleetscan.go:341-344 | `link/..` is the parent of where the link leads, while cleaning stays in the directory holding it |
| Lexical.CleanPathLeadsThere | cmd/scan/fleetscan.go:900 | filepath.Clean changes neither where a path leads, links aside, nor whether it is absolute |
| Lexical.JoinLeadsThere | cmd/scan/fleetscan.go:900 | links aside, filepath.Join of a directory and a file name leads to the file in that directory |
| Joining.CleanIffNoCancel | cmd/scan/fleetscan.go:900 | the cleaned path leads where the path does, over as many links, on every file system if and only if no `..` in the path comes after a name |
| Joining.JoinIffNoCancel | cmd/scan/fleetscan.go:900 | the joined path leads where the directory's components and the file do, on every file system, if and only if no `..` among them comes after a name |
| Joining.LandsIffNoCancel | cmd/scan/fleetscan.go:899-900 | the joined path lands in the directory wherever links lead if and only if the file is not `..` and no `..` of the directory comes after a name |
| Joining.DotsAfterLink | cmd/scan/fleetscan.go:339-344 | a link, then `..`, leads to the directory above the link's target |
| Fleet.FileStaysLexically | cmd/scan/fleetscan.go:872-901 | links aside, the derived path leads to a direct child of the output directory, and for the context `.` under an output ending in a separator to its parent |
| Fleet.DerivedFile | cmd/scan/fleetscan.go:872-901 | a base name of stem and extension derives a path whose last component is the stem, a dot, the context's name and the extension; without a directory that is the path |
| Fleet.NamesTellFilesApart | cmd/scan/fleetscan.go:877-901 | two contexts derive one path if and only if their sanitized names agree |
| Fleet.SeparatorsAreReplaced | cmd/scan/fleetscan.go:881-882 | separators in a context's name become underscores, and nothing else changes |
| Fleet.NamelessIff | cmd/scan/fleetscan.go:882-885 | refused are exactly the names of nothing but blanks |
| Fleet.DiscardIsKept | cmd/scan/fleetscan.go:887-894 | an output of the null device keeps its path for every context and writes nothing |
| Fleet.DerivedLeadsThereIff | cmd/scan/fleetscan.go:872-901 | with links: on every file system the derived path leads where the output's directory and the context's file do, if and only if no `..` among them comes after a name |
| Fleet.FileStaysIff | cmd/scan/fleetscan.go:872-901 | the context's file lands in the directory `--output` names, on every file system, if and only if the context does not escape and no `..` of the directory comes after a name |
| Fleet.LinkedDirectoryIsLeft | cmd/scan/fleetscan.go:872-901 | under `link/../report`, with the link to `far/down`, the directory is `far` and any context's report lands beside the link |
| Fleet.DotsAfterLinkEscape | cmd/scan/fleetscan.go:872-901 | one such input, a link to `t/s` in `/w`, `--output link/../r` and context `p`: the directory is `/w/t`, the report lands at `/w/r.p` |
| Fleet.DotEscapes | cmd/scan/fleetscan.go:877-901 | the context `.` under an output ending in a separator does lead, links aside, to the directory's parent |
| Fleet.PrinterDestinations | cmd/scan/fleetscan.go:226-248 | the explicit files of the formats, in order, each once; none for the discard sink |
| Fleet.DestinationsIff | cmd/scan/fleetscan.go:226-248 | a file is a destination if and only if output is not discarded and it is the path itself, without formats, or one some format resolves to explicitly |
| Fleet.ExplicitsInOrder | cmd/scan/fleetscan.go:226-248 | they come in the order of the formats that first resolve to them |
| Fleet.PerContextOutputPaths | cmd/scan/fleetscan.go:823-870 | accepted if and only if every context has a name and no case-folded destination occurs twice; otherwise exactly the repeated destinations are reported |
| Fleet.ConflictsAreRepeats | cmd/scan/fleetscan.go:858-865 | the conflicts found are the destinations that occur more than once |
| Fleet.AcceptedContextsAreApart | cmd/scan/fleetscan.go:823-870 | no two places in an accepted context list share a destination even ignoring case |
| Fleet.RefusedIffClash | cmd/scan/fleetscan.go:823-871 | named contexts are refused if and only if two places in the list, or two files of one context, share a destination up to case |
| Fleet.FleetReportAliases | cmd/scan/fleetscan.go:308-333 | passes if and only if the fleet report and every destination resolve, to different locations and different files |
| Fleet.ApartIff | cmd/scan/fleetscan.go:309-333 | a destination passes if and only if report and destination lead to two different locations, each over at most 64 links, and are not the same file |
| Fleet.ValidateFleetOutputs | cmd/scan/fleetscan.go:271-295 | what both checks accept keeps all contexts' reports and the fleet report apart |
| Fleet.LinkedReportsCollide | cmd/scan/fleetscan.go:840-856 | two contexts' destinations that differ as strings are one file when one is a link to the other |
| Fleet.PlainFilesResolveApart | cmd/scan/fleetscan.go:840-856 | destinations of one directory that are not themselves links resolve apart, whatever links lead to the directory |
| BindingScope.ValuesOverlap | cmd/vap/vap.go:830-839 | true exactly when some two values match |
| BindingScope.ResourcesOverlap | cmd/vap/vap.go:844-855 | true exactly when some two resources match in name and subresource |
| BindingScope.OverlapIsShared | cmd/vap/vap.go:830-866 | two lists overlap if and only if both admit some one value |
| BindingScope.ResourceOverlapIsShared | cmd/vap/vap.go:841-866 | two patterns overlap if and only if both match some one resource or subresource |
| BindingScope.ClassifyResourceRule | cmd/vap/vap.go:814-828 | the verdict is a function of the set of constraints, so order and repetition do not show |
| BindingScope.ClassificationIsExact | cmd/vap/vap.go:793-828 | "matches" if and only if one request is matched by rule and constraint; "outside" if and only if no resource is named by both at any group and version |
| BindingScope.NarrowSplits | cmd/vap/vap.go:1129-1137 | the narrowed pattern splits into the narrowed name and the narrowed subresource |
| BindingScope.NarrowIsIntersection | cmd/vap/vap.go:1126-1137 | the narrowed pattern of two overlapping ones matches exactly what both match |
| BindingScope.NarrowAll | cmd/vap/vap.go:1141-1154 | the loop's list admits exactly the values given and, through a wildcard, those the binding admits |
| BindingScope.NarrowIsExact | cmd/vap/vap.go:1139-1154 | a narrowed list admits exactly the values it names itself and, through a wildcard, those the bound admits |
| BindingScope.NarrowedByParts | cmd/vap/vap.go:1141-1154 | each value stands for itself and each wildcard for the bound, in the order given |
| SelectorReach.LookupIsExact | cmd/vap/vap.go:955-981 | at a named group the table's word is what all worlds it describes agree on: cluster-scoped in all, namespaced in all, or unknown |
| SelectorReach.ReachIsExact | cmd/vap/vap.go:905-953 | at a named group, "always matched" if and only if the selector decides about the resource in no world in which it is matched, "narrows" if and only if it decides in all of them |
| SelectorReach.WildcardReach | cmd/vap/vap.go:934-944 | a bare wildcard narrows exactly when declared Namespaced, and then the selector decides about all that is matched; declared Cluster, about Namespace objects alone |
| SelectorReach.LookupFolds | cmd/vap/vap.go:930 | resources are looked up without regard to case and blanks around them |
| SelectorReach.DropContradicted | cmd/vap/vap.go:1110-1124 | the loop drops exactly the named groups at which the table contradicts the declared scope |
| SelectorReach.BindingCoverage | cmd/vap/vap.go:1052-1078 | the parts returned are exactly the non-empty intersections with the binding's resources |
| SelectorReach.CoveredIsBounded | cmd/vap/vap.go:1052-1078 | a covered part admits no group that neither the constraint names nor both sides admit through its wildcard, exactly such versions, and exactly the resources both name |
| SelectorReach.CoveredGroupsAgree | cmd/vap/vap.go:1080-1124 | it keeps no named group at which the table has the resource in the other scope |
| SelectorReach.BoundGroupIsSilent | cmd/vap/vap.go:1080-1124 | so a constraint on everything cluster-scoped is silent about a namespaced resource that a binding rule names at its own group |
| SelectorReach.ResolveReach | cmd/vap/vap.go:1007-1032 | every always-matched entry, each once and no other; narrowable if and only if some covered part is not always matched |
| SelectorReach.CheckNamespaceSelectorScope | cmd/vap/vap.go:1180-1212 | silent, warning or refusal exactly by those two facts |
| SelectorReach.MatchedGroupIsKept | cmd/vap/vap.go:1080-1124 | scope filtering never drops the group of a request the constraint matches |
| SelectorReach.SurfaceOfRequest | cmd/vap/vap.go:1034-1078 | a request matched by policy and binding lies on some covered part, through narrowing and filtering |
| SelectorReach.ClusterRequestIsSeen | cmd/vap/vap.go:905-953 | the part a fixed cluster-scoped request lies on is always matched, except exactly when it is taken for the core Namespace resource |
| SelectorReach.RequestIsNamed | cmd/vap/vap.go:1007-1032 | a directly matched cluster-scoped request of fixed scope lies on a named part if and only if it lies on one not read as the core Namespace resource |
| SelectorReach.NeverSilent | cmd/vap/vap.go:1163-1212 | such a request makes `--namespace` warn or refuse; for a resource called `namespaces`, when it lies on a part not read as the core one |
| SelectorReach.ForeignGroupsAreSeen | cmd/vap/vap.go:931-933 | that part is there whenever the constraint's groups do not admit the core group |
| SelectorReach.NamespacesAreNamedIff | cmd/vap/vap.go:1007-1032 | a policy over resources called `namespaces` has them named if and only if it declares scope Cluster and covers a part clear of the core group |
| SelectorReach.CustomResourcesAreMatched | cmd/vap/vap.go:905-953 | a rule over every group matches the cluster-scoped custom resources of its name |
| SelectorReach.ForeignNamespacesAreSilent | cmd/vap/vap.go:931-933 | called `namespaces`, such resources go unnamed |
| SelectorReach.RefusalIsSound | cmd/vap/vap.go:1163-1203 | when `--namespace` is refused the selector would decide about no directly matched request, given no bare wildcard and each built-in plural at its own group |
| Refusals.RefusalIsExact | cmd/vap/vap.go:1163-1203 | the selector decides about no directly matched request in any world if and only if every pair of overlapping entries is clear, which the groups both sides admit, the narrowed name, the declared scope and the table settle |
| Refusals.MayDecideIff | cmd/vap/vap.go:1163-1171 | request by request: in some world the scope admits it and the selector decides, if and only if its scope, group, name and table entry say so |
| Refusals.PlainRefusalsAreClear | cmd/vap/vap.go:1196-1203 | the refusals of RefusalIsSound meet that condition |
| Refusals.ClusterSweepIsRightlyRefused | cmd/vap/vap.go:934-944 | a wildcard over one group's cluster-scoped resources is refused, rightly, outside those provisos |
| SelectorReach.BareWildcardIsRefused | cmd/vap/vap.go:942-944 | a policy over `*` is refused though it matches every request |
| SelectorReach.SharedPluralIsRefused | cmd/vap/vap.go:964-981 | so is a built-in plural swept at every group, though other groups share it |
| Vulnerabilities.GroupMatches | cmd/mcpserver/vulnerability_list.go:133-158 | the in-place pass leaves one group per key, with its match of greatest rank, first by namespace and data source among those, and its fixed match of greatest rank |
| Vulnerabilities.EntriesOf | cmd/mcpserver/vulnerability_list.go:159-196 | exactly the passing groups become entries, keys distinct |
| Vulnerabilities.ListVulnerabilities | cmd/mcpserver/vulnerability_list.go:114-230 | the page is cut from the one listing, and every entry on it has the greatest rank of the matches of its key |
| Vulnerabilities.EntryShowsTheWorst | cmd/mcpserver/vulnerability_list.go:119-196 | in every listing, an entry has rank and details of the greatest match of its key and the fix of the greatest one with a fix |
| Vulnerabilities.ListedIff | cmd/mcpserver/vulnerability_list.go:168-176 | a key is listed if and only if some match of it reaches the least severity and, if asked for, some match of it has a fix |
| Vulnerabilities.RanksDoNotRise | cmd/mcpserver/vulnerability_list.go:198-216 | severities do not rise along the list, and equal ones ascend by ID, name, version, type and PURL |
| Vulnerabilities.ListingIsUnique | cmd/mcpserver/vulnerability_list.go:198-216 | a list of matches has one listing |
| Vulnerabilities.ReportIsUnique | cmd/mcpserver/vulnerability_list.go:102-113 | a key is reported once |
| Vulnerabilities.DistinctSourcesAgree | cmd/mcpserver/vulnerability_list.go:119-129 | distinct severity, namespace or data source within each group is enough for ties to agree |
| Vulnerabilities.OrderDoesNotShow | cmd/mcpserver/vulnerability_list.go:102-113 | when ties agree, any order and repetition of the same matches gives the same listing |
| Vulnerabilities.OrderShows | cmd/mcpserver/vulnerability_list.go:111-112 | when ties do not agree, two permutations of the matches have no listing in common |
| Vulnerabilities.OrderFreeIffTiesAgree | cmd/mcpserver/vulnerability_list.go:102-113 | the listing is the same for every permutation of the matches if and only if ties agree |
| Vulnerabilities.ListingExists | cmd/mcpserver/vulnerability_list.go:114-230 | for any matches and filters there is a listing |
| Vulnerabilities.PagesFitTogether | cmd/mcpserver/vulnerability_list.go:218-229 | pages requested one by one, each from the matches in any order, are one listing in pieces |
| Vulnerabilities.GroupIsReport | cmd/mcpserver/vulnerability_list.go:159-196 | a group holds its greatest ranks, and passes exactly when the specification reports it, as it does |
| Packages.LicensesAreTheUnion | cmd/mcpserver/sbom_list.go:161-170 | a package's licences are the union over all its copies, matching or not, without repetition |
| Packages.SortKeyIsInjective | cmd/mcpserver/sbom_list.go:177-189 | entries that agree in the four sort fields are the same entry |
| Packages.ListingIsUnique | cmd/mcpserver/sbom_list.go:177-189 | so the unstable sort has one outcome |
| Packages.ListedOncePerPackage | cmd/mcpserver/sbom_list.go:124-176 | a package is listed exactly once if and only if some copy passes the filters, with the licences of all copies |
| Packages.FirstCopyIsShown | cmd/mcpserver/sbom_list.go:154-158 | an entry shows name, version, type and language of its package's first copy that passes the filters |
| Packages.SelectedIff | cmd/mcpserver/sbom_list.go:154-155 | a copy passes if and only if its name in lower case holds the wanted text and its type is the wanted one up to case |
| Packages.SamePackageIff | cmd/mcpserver/sbom_list.go:137-140 | copies are of one package if and only if they share a purl, or have none and agree in name, version and type |
| Packages.EntriesAscend | cmd/mcpserver/sbom_list.go:177-189 | entries ascend by name, version, type and purl, the first difference deciding |
| Packages.MergeCopies | cmd/mcpserver/sbom_list.go:132-171 | the in-place pass merges each package's copies and names it after its first matching one |
| Packages.ListPackages | cmd/mcpserver/sbom_list.go:130-207 | there is a listing that meets the specification, and the page is cut from every such listing |
| Paging.PagesAreTheList | cmd/mcpserver/sbom_list.go:198-206 | following `next_offset` with limits of at least 1 ends within one request per entry and collects the list, no gap and no overlap |
| Paging.PageIsFull | cmd/mcpserver/sbom_list.go:191-206 | a page stops short of its limit only at the end of the list, and tells the total and where the next one starts |
| Ownership.GetEvaluatedAncestors | cmd/mcpserver/secret_exposure.go:999-1042 | the walk ends on any ownership, cyclic or not, and returns the chain up to the first repetition |
| Ownership.ControllerIsPreferred | cmd/mcpserver/secret_exposure.go:1044-1057 | the reference followed is the first one marked as controller, and the first of all only if none is |
| Ownership.ParentIff | cmd/mcpserver/secret_exposure.go:1007-1033 | the parent is the workload named by UID and kind, and only without one that named by kind and name whose UID does not contradict |
| Ownership.BuildIndex | cmd/mcpserver/secret_exposure.go:934-944 | the two indexes, later workloads replacing earlier ones |
| Ownership.IndexIsLast | cmd/mcpserver/secret_exposure.go:934-944 | of several workloads under one key or UID the last is found |
| Ownership.KeysAgreeIff | cmd/mcpserver/secret_exposure.go:984-986 | workloads share a key if and only if kind and name agree up to case |
| Ownership.SignaturesByWorkload | cmd/mcpserver/secret_exposure.go:946-954 | a signature is recorded under a key if and only if some finding has it there |
| Ownership.DeduplicateWorkloadFindings | cmd/mcpserver/secret_exposure.go:929-982 | keeps, in order, exactly the findings not made on an ancestor as well |
| Ownership.SurvivorsInPlace | cmd/mcpserver/secret_exposure.go:956-981 | what is kept are the findings that are no duplicates, each in its place |
| Ownership.AncestorsOfAncestor | cmd/mcpserver/secret_exposure.go:999-1042 | without cycles an ancestor's ancestors are the ones further up the chain |
| Ownership.AcyclicLosesNothing | cmd/mcpserver/secret_exposure.go:929-982 | without cycles every dropped finding has a surviving one with its signature on an ancestor |
| Ownership.CircleIffMet | cmd/mcpserver/secret_exposure.go:999-1042 | the walk meets a workload among its own ancestors if and only if some chain of owners leads from it back to its key |
| Ownership.CycleLosesFindings | cmd/mcpserver/secret_exposure.go:968-976 | on such a chain a finding is dropped with nothing left in its place |
| Ownership.OwnersInACircle | cmd/mcpserver/secret_exposure.go:999-1042 | two workloads owning each other are such a cycle |
| Ownership.LossFreeIffAcyclic | cmd/mcpserver/secret_exposure.go:929-1042 | no findings are ever lost if and only if no chain of owners leads back to its start |
| SecretText.StripRanges | cmd/mcpserver/secret_exposure.go:348-360 | the builder loop keeps exactly the characters outside the union of the ranges, overlapping or not |
| SecretText.OutsideInPlace | cmd/mcpserver/secret_exposure.go:348-360 | what is kept are the characters no range covers, each in its place |
| SecretText.HasExposedUriCredentials | cmd/mcpserver/secret_exposure.go:297-336 | whether URIs match, whether one exposes a credential, and the ranges of the others, sorted and within the value |
| SecretText.RangesAreSafeUris | cmd/mcpserver/secret_exposure.go:297-336 | the ranges cut out are the URIs that show nothing, each up to its first end |
| SecretText.ExposedByParts | cmd/mcpserver/secret_exposure.go:305-331 | a URI shows a credential by its user and password, or by the text between the "@" and its end |
| SecretText.EndsAtIff | cmd/mcpserver/secret_exposure.go:314-325 | a URI ends at a blank or quote, at a delimiter before another URI, or where one starts |
| SecretText.FindUriEnd | cmd/mcpserver/secret_exposure.go:314-325 | the first position at which the URI ends |
| SecretText.RemainingIsShorter | cmd/mcpserver/secret_exposure.go:343-366 | what is searched next is strictly shorter, so the search ends |
| SecretText.EvaluateSecretString | cmd/mcpserver/secret_exposure.go:338-389 | the verdict of the search over rounds |
| SecretText.VerdictIsExact | cmd/mcpserver/secret_exposure.go:338-389 | a leak if and only if a credential shows in some round, or on the last text without a URI the key is sensitive, the text not harmless, and not a path under a key that names one |
| SecretText.KeyDecides | cmd/mcpserver/secret_exposure.go:371-388 | when nothing shows in any round and no URI is left, the verdict is that of the key, as just described, under the keyword rule |
| SecretText.FirstShowingNames | cmd/mcpserver/secret_exposure.go:338-372 | a leak is reported under the first rule that matches in the first round that shows one, and otherwise under the URI rule |
| SecretText.OnlySeparatorsAreTrimmed | cmd/mcpserver/secret_exposure.go:361 | between rounds only safe URIs and, at the ends, blanks, quotes and delimiters are given up |
| Remediation.UnaddressedControls | cmd/mcpserver/remediation.go:214-258 | the loop lists the first mention of every skipped control, in order |
| Remediation.NoControlVanishes | cmd/mcpserver/remediation.go:204-258 | a control is listed exactly once if asked for, not blank, not among the unfixed and not evaluated, and otherwise not at all |
| Remediation.EntriesAreFirstMentions | cmd/mcpserver/remediation.go:234-256 | each entry spells the control as first asked for and carries the last reason on record |
| Remediation.EntriesInOrder | cmd/mcpserver/remediation.go:234-256 | they come in the order asked for |
| Remediation.EntryReason | cmd/mcpserver/remediation.go:214-258 | the reason is the last one recorded, with the missing types, and without any that the report has no result |
| Remediation.BuildRemediationItems | cmd/mcpserver/remediation.go:699-777 | the items are strictly sorted, one per key, each the first of its worst records |
| Remediation.ItemsAreUnique | cmd/mcpserver/remediation.go:765-775 | the order in which the map is walked does not show |
| Remediation.EachPairOnceIff | cmd/mcpserver/remediation.go:715-722 | each recorded (resource, control) pair has exactly one item if and only if no two pairs share a key |
| Remediation.NulFreeIsApart | cmd/mcpserver/remediation.go:717 | control IDs without NUL keep the pairs apart, whatever the resource IDs |
| Remediation.NulFreeResourcesAreApart | cmd/mcpserver/remediation.go:717 | resource IDs without NUL do too, whatever the control IDs |
| Remediation.NulMergesPairs | cmd/mcpserver/remediation.go:717 | with a NUL in a resource ID and one in a control ID two pairs can share a key |
| Remediation.NulLosesAPair | cmd/mcpserver/remediation.go:715-722 | two outcomes of different pairs of which no listing has both |
| Remediation.WorstIsShown | cmd/mcpserver/remediation.go:679-693 | no item reads better than a record of its pair, and none is made up |
| Remediation.PatchIsTrusted | cmd/mcpserver/remediation.go:734-747 | an item offers a patch only if every outcome of its pair was fixed and its resource rendered |
| Remediation.PatchIffAllDeliver | cmd/mcpserver/remediation.go:724-763 | with pairs apart, a pair's item offers a patch if and only if the pair has an outcome, each of its outcomes was fixed and rendered, and it was not skipped |
| Remediation.ClassIsWorst | cmd/mcpserver/remediation.go:676-751 | an item is not evaluated if its control was skipped, else manual if some outcome of its pair leaves no patch, else partial if some is not fixed, else a patch |
| Remediation.ItemSpeaksFor | cmd/mcpserver/remediation.go:724-760 | it speaks for the first outcome of its pair in that class: reason or rendering message, names, file, resource and evidence |
| Remediation.ItemsAscend | cmd/mcpserver/remediation.go:769-774 | items ascend by resource, and for one resource by control |
| Remediation.NormalizeFolds | cmd/mcpserver/remediation.go:185-187 | control IDs are compared without blanks around them and without case |
| Remediation.SkippedAreShown | cmd/mcpserver/remediation.go:214-777 | end to end, the answer has a not-evaluated item for exactly the controls asked for and skipped |
| Worst.AddKeeps | cmd/mcpserver/remediation.go:716-722 | adding a record keeps one entry per key, the first of the worst so far |
| Worst.OnePrevails | cmd/mcpserver/remediation.go:718-720 | under one key one record prevails |

## Left out

- Command-line wiring, help texts and the per-flag "not supported" checks: long, flat branches.
- Kubernetes, storage and HTTP clients, YAML and JSON, logging, the SSE transport: I/O around the cores.
- The engines behind the results (OPA, network policy, RBAC graph, fix handler): their outputs are arbitrary inputs.
- Panics in shared functions, and the stdio transport, where the lifecycle middleware is not installed.
- Contexts: a handler's own may end at any step, and counts as ended once shutdown gives up; the goroutine by which bind passes that on is not a step of its own.
- What a shared function does on a cancelled context: it may return any value or error.
- The semaphore's first-in-first-out order: it is a counter that any waiting execution may get a permit from.
- Timers: the grace period may be over at any step.
- `McpServer` has one method per critical section; what the goroutines do between the sections is in `Coalescing`.
- The values that shared functions return are integers standing for any value or error.
- Windows volumes: the root is POSIX's. Unreadable links and unknown components are as in the code.
- Hard links and file identity: `os.SameFile` is a parameter of the fleet checks, as are the printers' rule for output files and case folding.
- A location in `Paths` is the list of its components; `Paths.RenderIsInjective` relates it to the string.
- The built-in resource table is an arbitrary map from plural to group and scope.
- Scopes other than Cluster and Namespaced rule nothing out, as in the code, and are one constructor.
- The errors of parsing resource rules and of loading a policy's constraints, which end the check before the analysis.
- Severity texts: a match carries its parsed rank. Description, CVSS, URLs and advisories are one opaque field.
- The update of a group through a pointer is the update of a sequence element, and `sort` is the one sorted arrangement, which is proved unique.
- Case mapping and trimming: ASCII letters for ToLower and ToUpper, ASCII blanks for control IDs in keys, Unicode blanks elsewhere.
- A finding's signature is opaque; SHA-256 digests are taken as values.
- Regular expressions are abstract functions; of the URI pattern only what FindAll guarantees of match positions is used. hasExposedQueryCredentials and isSafeValue are abstract too.
- The wording of reasons and messages; reasons are a datatype.
- The maps of a report's resources and evidence, and the evidence's own bounds.
- Paging.PagesAreTheList: assumes limits of at least 1 and one list behind all requests, as the tools enforce the first and `Vulnerabilities.PagesFitTogether` proves the second.
- SelectorReach.NeverSilent: for a resource called `namespaces` it asks for a part not read as the core resource; ForeignNamespacesAreSilent shows why, RequestIsNamed that this is exact.
- SelectorReach.RefusalIsSound: its two provisos are sufficient, not necessary; the exact condition is in Refusals.RefusalIsExact.
- Ownership.LossFreeIffAcyclic: assumes unique workload keys, as the index by kind and name does.
- Ownership.ParentIff: assumes unique keys and UIDs; IndexIsLast says who is found without.
- Ownership.KeysAgreeIff: assumes kinds without a slash, as the supported kinds are.
- Fleet.ValidateFleetOutputs: keeps contexts apart by the names of their destinations, as the code does; LinkedReportsCollide shows two of them brought together by a link, PlainFilesResolveApart when they resolve apart.
