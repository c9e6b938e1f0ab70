# Verification of the panel's state-keeping core

This project models, in Dafny, the parts of the Chiral panel and its node agent whose correctness rests on a
graph, a fixpoint, a relation or an interleaving, and proves what those parts promise. Code that updates state step
by step is a class or a method with loops, proved against a specification; the lemmas are about the specification.
`dafny verify dfyconfig.toml` checks everything.

| file | what it models |
|---|---|
| `Supervisor.dfy` | the kernel supervisor: one mutex, a generation counter, a `waitDone` channel and a waiter goroutine per process, as a step system over callers, exits and waiters |
| `ExternalChains.dfy` | proxies dialled through proxies: the acyclicity check in the store and the fixpoint that decides what a subscriber's document carries |
| `ExternalRefresh.dfy` | re-reading a subscription while keeping row identity |
| `RuleSets.dfy`, `Namers.dfy` | rule-set rendering: removal of empty groups, a closed document, provider names and their replay |
| `Egress.dfy` | node-to-node egress rules and the search that refuses loops |
| `Restricted.dfy` | restricted destinations: stored blocks as an incremental view of a full recomputation |
| `Access.dfy` | three-layer access: personal rows over group denials over the default, with whole-set editors |
| `RateLimit.dfy`, `Online.dfy`, `Alerts.dfy` | bounded in-memory state machines over time |
| `Transfer.dfy` | pulling a kernel archive through the panel |
| `Rotation.dfy` | sealed values and moving them to a new key |
| `Graphs.dfy`, `Collections.dfy`, `Decimals.dfy`, `Wrappers.dfy` | shared vocabulary |

Tables are maps and sets, a transaction is one step, ids that the store draws at random are parameters assumed
unused, and the outcomes of I/O (a process that cannot start, a write that fails, a timer that fires) are parameters
too. Clock readings are integers in nanoseconds. Regular expressions, URL stems and ciphers are function values with
the one law each needs.

## Where the code does less than it says

Each of these is a lemma with the exact condition or a concrete run.

- An egress update writes `enabled` before it looks at the target, and a re-enabled rule without a new target is not
  checked at all: a loop can be switched on (`UpdateKeepsAcyclicExactly`, `ReEnabledLoop`), and a request refused for
  its target leaves the switch written with no node re-applied (`RefusedUpdateExact`).
- Moving a subscriber can gain them access in both directions. Leaving does when a profile was granted to them
  personally and also withheld (`LeavingGainsNothingExactly`, `GainByLeaving`); deleting their group is the same
  (`DissolvingKeepsProfilesExactly`). Joining does whenever the group refuses less than they were refused, or grants
  more than they held (`JoiningGainsNothingExactly`, `GainByJoining`).
- A refresh that drops a proxy turns every surviving proxy chained through it, of whatever source, into a direct dial,
  because the column is declared `ON DELETE SET NULL` (`LostTargetMeansDirectDial`, `ChainedBecomesDirect`).
- The key that stands for an endpoint joins its parts with a bar, so two endpoints share one when a server name holds
  a bar (`KeysAreEndpoints`, `KeysCanClash`).
- The checks against loops and the writes they guard are separate statements in concurrent handlers. Two requests that
  are each harmless can close a loop together, for proxy chains (`RacingRequestsExact`, `RacingRequestsLoop`,
  `InterleavedWritesExact`) and for egress rules
  (`RacingRulesExact`, `RacingRulesLoop`, `InterleavedRulesExact`).
- Rendering skips a rule whose policy was dropped before naming its list; resolving a provider name again does not
  (`SkippedNamesakeIsServed`, `ImitatingSkip`). `ListForExact` says exactly when the two agree, for lists whose bases do
  not read like one another's suffixed names; `AgreesWhereNoRivalIsSkipped` holds for any.
- Announcements wait 120 seconds as counted from a timestamp cut to whole seconds, so up to a second less than the
  debounce in real time unless the change was first seen on a whole second (`DebounceKeptExactly`,
  `HeldLessThanTheDebounce`); messages need not alternate when targets are switched off and on
  (`SentAlternateExactly`).
- The limiter's comment allows twice the quota across a boundary; it is twice the quota less one
  (`UnderTwiceTheQuota`). Its eviction uses the empty key as "none yet", which no throttled key can be.
- A report can remove another node's sighting by superseding it, so a count can fall short of the union
  (`OthersKeptExactly`, `OverlapLosesAnAddress`; exactly when: `CountIsTheUnionExactly`).
- Key ids are 32 bits of a hash. Between two keys that share one, values sealed under the old key are left behind while
  clear ones move: a half-rotated database no single key opens (`NothingLostExactly`, `SharedKeyIdHalfRotates`).

## Model

| member | source | states |
|---|---|---|
| `Supervisor.Manager.StartLocked` | agent/internal/xray/xray.go:285-380 | the fields after each way a launch can end: nothing changed without a config, ERROR when the process cannot be made, else the new process with the generation bumped, its own waitDone channel and the binary it was started from |
| `Supervisor.Manager.StopBegin` | agent/internal/xray/xray.go:382-395 | nothing running: STOPPED and no wait; otherwise the generation is bumped and the channel to wait on is the current one |
| `Supervisor.Manager.StopEnd` | agent/internal/xray/xray.go:396-399 | after the wait no process and no running binary are recorded and the state is STOPPED |
| `Supervisor.Manager.WaiterSection` | agent/internal/xray/xray.go:338-378 | an exit counts as a crash exactly when no stop or start moved the generation on; only then are the fields touched |
| `Supervisor.Manager.SetBinary` | agent/internal/xray/xray.go:88-92 | replaces the configured binary and nothing else |
| `Supervisor.InvHolds` | agent/internal/xray/xray.go:263-400 | the supervisor invariant survives every step any caller, process exit or waiter can take |
| `Supervisor.LockOwnedHolds` | agent/internal/xray/xray.go:263-283 | the mutex is held by exactly the caller inside the critical section |
| `Supervisor.FieldsHold` | agent/internal/xray/xray.go:285-400 | state and cmd agree wherever the mutex holder is, and the current process has a tracked, undecided waiter |
| `Supervisor.OpsStayFit` | agent/internal/xray/xray.go:263-400 | a caller waiting on a channel or about to launch is at a call that gets there |
| `Supervisor.WaitersHold` | agent/internal/xray/xray.go:338-378 | each waiter's generation, liveness and reporting status stay in agreement with the fields |
| `Supervisor.ProcessStepsKeepWaiters` | agent/internal/xray/xray.go:338-378 | the same over exits and the waiters' own steps |
| `Supervisor.CallerStepsKeepWaiters` | agent/internal/xray/xray.go:263-400 | the same over the steps of callers |
| `Supervisor.LaunchKeepsWaiters` | agent/internal/xray/xray.go:285-380 | the same over a launch, for the old waiters and the new one |
| `Supervisor.ReportsHold` | agent/internal/xray/xray.go:338-378 | no process appears twice among the crash reports |
| `Supervisor.InvOnRun` | agent/internal/xray/xray.go:263-400 | the invariant holds in every state of every run |
| `Supervisor.AtMostOneKernel` | agent/internal/xray/xray.go:263-400 | in every reachable state at most one kernel process is alive |
| `Supervisor.FreeLockTellsTruth` | agent/internal/xray/xray.go:170-174 | whenever the mutex is free RUNNING holds exactly when cmd is set, the recorded running binary is the one that process was started from, and a live process implies RUNNING |
| `Supervisor.CrashReportsExact` | agent/internal/xray/xray.go:338-378 | a crash is reported at most once per process, never for a live one, and a waiter that is through has reported exactly the exits no stop had claimed |
| `Supervisor.CallKeepsItsOp` | agent/internal/xray/xray.go:263-283 | a caller is at one call from asking for the mutex until it returns, and returns only while holding it |
| `Supervisor.OnlySettingChangesTheBinary` | agent/internal/xray/xray.go:88-92 | the configured binary is the one last set |
| `Supervisor.RestartReturnsByLaunching` | agent/internal/xray/xray.go:263-283 | a restart or an apply returns only by a launch, with nothing of the old kernel alive; a launched process is alive, is cmd, runs the configured binary and the state is RUNNING; otherwise nothing runs and the state says why |
| `Supervisor.StopReturnsStopped` | agent/internal/xray/xray.go:382-400 | a stop returns with cmd and the running binary cleared, STOPPED and no process alive |
| `Supervisor.StartReturnsStarted` | agent/internal/xray/xray.go:170-180 | a start returns without a launch only when it found RUNNING, and then it has touched nothing |
| `Supervisor.CrashIsRecorded` | agent/internal/xray/xray.go:338-378 | the waiter of a process no stop claimed leaves cmd and the running binary cleared and the state ERROR, and goes on to report; any other waiter changes no field |
| `Supervisor.OpAllAlong` | agent/internal/xray/xray.go:263-283 | over a run, a caller is at the same call at every moment between asking and returning |
| `Supervisor.LastStepOfCall` | agent/internal/xray/xray.go:263-283 | the step with which a call returns is one taken under the mutex |
| `Supervisor.RestartsEndInALaunch` | agent/internal/xray/xray.go:277-283 | every restart or apply in a run ends with its own launch |
| `Supervisor.StopsEndStopped` | agent/internal/xray/xray.go:382-400 | every stop in a run ends with nothing running and STOPPED |
| `Supervisor.StartsEndStarted` | agent/internal/xray/xray.go:170-180 | every start in a run ends with its own launch, or found the kernel running and changed nothing |
| `Supervisor.HelpIsAvailable` | agent/internal/xray/xray.go:382-400 | while a stop waits under the mutex, the next step it depends on is owed: it can be taken, without the mutex until the last |
| `Supervisor.WaitOnlyShrinks` | agent/internal/xray/xray.go:382-400 | no step by anyone moves such a wait backwards, and the helpful one moves it forwards |
| `Supervisor.StillWaiting` | agent/internal/xray/xray.go:382-400 | a stop still waiting waits for the same process, at no greater distance |
| `Supervisor.StuckOwesOneStep` | agent/internal/xray/xray.go:338-400 | a wait that came no closer for ever would leave one and the same step possible, and untaken, for ever |
| `Supervisor.StopCompletes` | agent/internal/xray/xray.go:382-400 | every stop waiting under the mutex completes, on any endless run that is weakly fair step by step: a kill timer, an exit after a kill, a reap, a close or a return that stays possible from some moment on is taken |
| `Supervisor.SomeoneCanMove` | agent/internal/xray/xray.go:263-400 | no deadlock: with any call or waiter unfinished, some step of work already begun is enabled |
| `Supervisor.HolderCanMove` | agent/internal/xray/xray.go:263-400 | whoever holds the mutex is never the one everybody waits for in vain |
| `ExternalChains.Carried` | core/internal/external/service.go:217-264 | whatever order the map is visited in, the result is the largest set of permitted proxies in which every chain target resolves; carried and blocked partition the permitted set and every blocked proxy's recorded target is unresolved in the final answer; nothing carried is denied or relayed without exposure |
| `ExternalChains.CollectPermitted` | core/internal/external/service.go:223-236 | of the enabled proxies those not denied, and a relayed one only if exposed |
| `ExternalChains.PermittedMayGoOut` | core/internal/external/service.go:223-236 | the permitted proxies are the listed ones that are enabled, not denied, and exposed if they dial through a fleet node |
| `ExternalChains.RemovalSettles` | core/internal/external/service.go:238-262 | one removal loses no proxy any self-contained set needs, and shrinks the map |
| `ExternalChains.StillHoldsContained` | core/internal/external/service.go:251-260 | dropping an unresolved proxy keeps every self-contained set inside what is left |
| `ExternalChains.StillRightlyBlocked` | core/internal/external/service.go:251-260 | and leaves every blocked proxy's target unresolved |
| `ExternalChains.NothingContainedNeeds` | core/internal/external/service.go:238-262 | an unresolved proxy is in no self-contained set |
| `ExternalChains.WalkReaches` | core/internal/store/external.go:339-367 | the walk bounded by the number of chained rows finds the id exactly when following chains from the target reaches it |
| `ExternalChains.LongTrailIsClosed` | core/internal/store/external.go:352-366 | a walk longer than the number of chained rows has gone round a loop and met everything it ever will, by pigeonhole |
| `ExternalChains.TrailRepeats` | core/internal/store/external.go:352-366 | two equal places on a trail stay equal when both move on |
| `ExternalChains.Pigeonhole` | core/internal/store/external.go:352-366 | more places than values repeat a value |
| `ExternalChains.ExternalStore.CheckExternalChain` | core/internal/store/external.go:339-367 | refuses exactly the targets from which the chains lead back to the proxy being set |
| `ExternalChains.ExternalStore.SetExternalProxy` | core/internal/store/external.go:315-334 | the outcome and the table after each kind of request, and an acyclic chain graph stays acyclic |
| `ExternalChains.SavedExactly` | core/internal/store/external.go:315-334 | a request is saved exactly when the proxy exists, at most one kind of chain is given, the node or proxy named exists, and that proxy does not lead back |
| `ExternalChains.EdgesAfterReset` | core/internal/store/external.go:315-334 | how one update changes the chain graph: the row's old edge out, its new one in |
| `ExternalChains.ResetKeepsAcyclic` | core/internal/store/external.go:315-334 | every accepted update of an acyclic chain graph leaves it acyclic |
| `ExternalChains.CycleRefusalExact` | core/internal/store/external.go:339-367 | a target is refused for a cycle if and only if accepting it would have closed one |
| `ExternalChains.LateWriteExact` | core/internal/store/external.go:320-333 | check and write are two statements: a write keeps the table acyclic if and only if its check would still pass when it lands |
| `ExternalChains.InterleavedWritesExact` | core/internal/store/external.go:315-334 | however many requests are under way, the table stays acyclic throughout if and only if every write lands while its check still holds |
| `ExternalChains.RacingRequestsExact` | core/internal/store/external.go:315-334 | two requests checked against one table leave it cyclic if and only if each one's target leads to the other one's proxy without the links the two replace |
| `ExternalChains.RacingRequestsLoop` | core/internal/store/external.go:320-333 | two such requests: A through B and B through A, both accepted |
| `ExternalChains.CarriedIffChainEnds` | core/internal/external/service.go:217-264 | on an acyclic table a proxy is carried if and only if walking its chain stays among the permitted proxies and ends at a direct dial or a named fleet node |
| `ExternalChains.CarriedChainEnds` | core/internal/external/service.go:238-262 | a carried proxy's chain ends, because an acyclic table never leads back to one already walked through |
| `ExternalChains.LoopWouldBeCarried` | core/internal/external/service.go:238-262 | why the store has to keep chains acyclic: two proxies through one another would both be carried although neither chain ends |
| `ExternalChains.Fragments` | core/internal/external/service.go:156-190 | the rendered items are exactly the carried proxies in list order, each body the proxy's own under its label with its sort order and place, none of them denied, disabled or relayed without exposure; and every dialer-proxy names a fleet node of the subscriber's or another item of the same document |
| `ExternalChains.EmitAll` | core/internal/external/service.go:165-188 | the loop emits each carried proxy once, in order, with the right dialer |
| `ExternalChains.CarriedGoesOut` | core/internal/external/service.go:166-188 | a carried proxy goes out under its own label |
| `ExternalChains.PermittedIsTheRow` | core/internal/external/service.go:223-236 | what a document is built from is the store's own rows |
| `ExternalRefresh.RefreshStore.ReplaceExternalProxies` | core/internal/store/external.go:225-299 | the table, the claimed ids and both denial tables after a refresh, over every previous list and every parsed sequence; which rows that keeps is `SurvivesExactly` and `ClaimedByFirstLookalike` |
| `ExternalRefresh.RefreshStore.WriteAll` | core/internal/store/external.go:243-288 | each parsed proxy updates the row it claims or inserts one denied to every subscriber and group |
| `ExternalRefresh.RefreshStore.WriteNext` | core/internal/store/external.go:244-287 | one turn of that loop |
| `ExternalRefresh.RefreshStore.NextId` | core/internal/store/external.go:245-266 | the next id is the row of that name, else of that endpoint, unless it is taken already, else the new one; what these are on the list itself is `CandidateIsTheLookalike` |
| `ExternalRefresh.RefreshStore.DeleteUnclaimed` | core/internal/store/external.go:290-297 | the rows of this source nobody claimed go, with their denials, and chains through them are cut |
| `ExternalRefresh.RefreshStore.DeleteProxy` | core/migrations/0020_external_chain_through_external.sql:16 | deleting a proxy clears every chain that named it and drops its denials |
| `ExternalRefresh.RefreshStore.ExternalProxies` | core/internal/store/external.go:172-188 | one source's rows, each once, in the provider's order |
| `ExternalRefresh.IndexRows` | core/internal/store/external.go:230-235 | both indexes over the previous list; the last bearer of a key wins |
| `ExternalRefresh.ClaimsInjective` | core/internal/store/external.go:243-266 | parsed proxies map injectively onto ids: each is the id given at that turn or its own candidate |
| `ExternalRefresh.ClaimsUnique` | core/internal/store/external.go:243-266 | no row is claimed twice |
| `ExternalRefresh.ClaimsFit` | core/internal/store/external.go:245-266 | what a parsed proxy claims is its own candidate or the id given at that turn |
| `ExternalRefresh.NameBearerSurvives` | core/internal/store/external.go:245-257 | the row indexed under a name still in the subscription is always among the claimed |
| `ExternalRefresh.KeysAreEndpoints` | core/internal/store/external.go:301-303 | two endpoint keys are equal if and only if server, port and type are, for server names without a bar |
| `ExternalRefresh.KeysCanClash` | core/internal/store/external.go:301-303 | with a bar in a server name two endpoints share a key |
| `ExternalRefresh.IndexLast` | core/internal/store/external.go:230-235 | the index holds, under each key, the last previous row to have it |
| `ExternalRefresh.CandidateIsTheLookalike` | core/internal/store/external.go:229-250 | the row a parsed proxy goes for, read off the previous list: the last of its name or, when none has it, the last at its endpoint |
| `ExternalRefresh.TakenExactly` | core/internal/store/external.go:243-266 | a previous row is claimed by somebody if and only if it is somebody's candidate |
| `ExternalRefresh.ClaimedByFirstLookalike` | core/internal/store/external.go:243-266 | the i-th parsed proxy gets a previous row if and only if it is the first that resembles it |
| `ExternalRefresh.SurvivesExactly` | core/internal/store/external.go:215-224 | a previous row survives if and only if some proxy still listed resembles it: its last bearer of the name or, failing any, the last at the endpoint |
| `ExternalRefresh.RenamedKeepsItsRow` | core/internal/store/external.go:215-224 | a proxy listed under a new name at an unchanged endpoint keeps its row with label, enabled flag, fleet-node chain, order and exposure |
| `ExternalRefresh.RefreshedRow` | core/internal/store/external.go:257-272 | the i-th parsed proxy ends up as the i-th row; a matched row keeps label, enabled flag, chains, order and exposure, except a chain through a row that is going away |
| `ExternalRefresh.RefreshedTable` | core/internal/store/external.go:225-299 | the source ends up holding exactly the parsed sequence, and no other source's rows come or go |
| `ExternalRefresh.RefreshedDenies` | core/internal/store/external.go:273-297 | exactly the new ids gain a denial for every existing subscriber and group; deleted ids lose theirs; all others are untouched |
| `ExternalRefresh.RefreshKeepsAcyclic` | core/internal/store/external.go:225-299 | a refresh never makes an acyclic chain graph cyclic |
| `ExternalRefresh.LostTargetMeansDirectDial` | core/migrations/0020_external_chain_through_external.sql:16 | any surviving proxy of any source that was chained through another turns into a direct dial if and only if its target is among the rows the refresh deletes |
| `ExternalRefresh.SurvivorsChain` | core/migrations/0020_external_chain_through_external.sql:16 | a surviving row keeps its chain unless it was dialled through a deleted one |
| `ExternalRefresh.ChainedBecomesDirect` | core/internal/store/external.go:290-297 | one refresh that does it: a is dialled through b, the provider lists only a, and a goes direct |
| `Namers.Namer.Of` | core/internal/ruleset/render.go:210-227 | terminates with the URL's name in the map every earlier request built, fresh exactly when the URL is new |
| `Namers.Namer.Pick` | core/internal/ruleset/render.go:215-225 | the first of base, base-2, base-3 and so on that is free |
| `Namers.FreeFrom` | core/internal/ruleset/render.go:219-224 | a free candidate always exists |
| `Namers.CandidateInjective` | core/internal/ruleset/render.go:219-224 | no two suffixes give the same candidate |
| `Namers.NamesDistinct` | core/internal/ruleset/render.go:210-227 | distinct URLs get distinct names, also when a base already looks like x-2 |
| `Namers.NamesStable` | core/internal/ruleset/render.go:210-227 | a URL keeps the name it was first given, whatever is asked later |
| `Namers.NameByRank` | core/internal/ruleset/render.go:210-227 | where bases do not imitate one another's suffixes, a URL's name is its base with the number of namesakes asked for before it |
| `Namers.FirstTwoNames` | core/internal/ruleset/render.go:210-227 | two lists with one stem are named by it and by it with -2; an empty stem is called rules |
| `Namers.OnlyNearMatters` | core/internal/ruleset/render.go:210-227 | for any names: lists that no other list can rival are named as if the others were not there |
| `RuleSets.ResolveGroups` | core/internal/ruleset/render.go:132-165 | what survives is the largest set of names in which every group carrying one has a member; the output is those groups in order and the dropped names are the rest, each once |
| `RuleSets.DropPass` | core/internal/ruleset/render.go:139-153 | one pass loses no supportable name and either shrinks the set or leaves it supported |
| `RuleSets.DropOne` | core/internal/ruleset/render.go:145-153 | dropping an empty group keeps everything any supported set needs |
| `RuleSets.SurvivorsIgnoreOrder` | core/internal/ruleset/render.go:132-165 | which names survive does not depend on the order, or repetition, of the groups |
| `RuleSets.Expand` | core/internal/ruleset/render.go:169-184 | a group's members: builtin or surviving literals in order, then the proxies its pattern matches |
| `RuleSets.MembersAre` | core/internal/ruleset/render.go:169-184 | every member is a builtin, a surviving group or a given proxy |
| `RuleSets.MembersInOrder` | core/internal/ruleset/render.go:169-184 | in order: first the literals that are builtin or surviving, as the preset lists them, then the matched proxies, as given |
| `RuleSets.StandingInOrder` | core/internal/ruleset/render.go:156-162 | the surviving groups, each with its members, stand in preset order |
| `RuleSets.StandingIsSelected` | core/internal/ruleset/render.go:156-162 | they are the groups whose name survives, resolved one by one |
| `RuleSets.KeptInOrder` | core/internal/ruleset/render.go:96-101 | the rules kept are those with a builtin or a defined policy, in preset order |
| `RuleSets.SelectPlaces` | core/internal/ruleset/render.go:169-184 | what a filter keeps, by place and in order |
| `RuleSets.BuiltinsInAnyCase` | core/internal/ruleset/render.go:188-194 | the five builtin policies, in any letter case |
| `RuleSets.LinesRead` | core/internal/ruleset/render.go:95-117 | each line reads back as its rule: inline text and policy, or a provider whose URL is the rule's list |
| `RuleSets.Render` | core/internal/ruleset/render.go:47-121 | the surviving groups, one line for each rule whose policy is defined, providers that invert the naming, and a closed document: no member, policy or provider is referred to without being defined |
| `RuleSets.RenderRules` | core/internal/ruleset/render.go:95-117 | a rule is emitted exactly when its policy is a builtin or an emitted group, and list rules name their provider |
| `RuleSets.OutputCloses` | core/internal/ruleset/render.go:47-121 | the document is referentially closed |
| `RuleSets.ListFor` | core/internal/ruleset/routing.go:40-77 | replaying the namer over every list rule gives the URL bearing the asked name, or says there is none |
| `RuleSets.ListForAnswers` | core/internal/ruleset/routing.go:57-75 | the list handed back is the one Render meant if and only if both namings gave that list the same name |
| `RuleSets.NothingSkippedAgrees` | core/internal/ruleset/routing.go:57-75 | where no list rule was skipped for its policy, every provider resolves to the list Render meant |
| `RuleSets.ListForExact` | core/internal/ruleset/routing.go:57-75 | for lists whose bases do not read like one another's suffixed names, it does if and only if as many namesakes come before the list among all rules as among the rendered ones |
| `RuleSets.ImitatingSkip` | core/internal/ruleset/routing.go:57-75 | that hypothesis is needed: a skipped list whose own base reads x-2 takes the name the second list called x was rendered under, although the ranks agree |
| `RuleSets.AgreesWhereNoRivalIsSkipped` | core/internal/ruleset/routing.go:57-75 | for any names: a provider resolves to what Render meant as soon as no list that could rival it was skipped, whatever happened to the others |
| `RuleSets.KeepsNearUrls` | core/internal/ruleset/render.go:96-106 | skipping rules of other lists keeps the mentions of these in order |
| `RuleSets.SkippedNamesakeIsServed` | core/internal/ruleset/render.go:99-101 | the failing family: a list rule skipped ahead of a namesake makes the provider resolve to the skipped list |
| `Egress.EgressReaches` | core/internal/api/egress.go:383-404 | the search with its shared seen map terminates; a find is a path of enabled fleet landings, and a miss leaves everything reachable marked |
| `Egress.Reachable` | core/internal/api/egress.go:383-404 | started with an empty map, it answers true exactly when such a path exists |
| `Egress.RulesOn` | core/internal/store/egress.go:223-226 | the rules carried by one node |
| `Egress.ResolveTarget` | core/internal/api/egress.go:299-334 | the landing a request resolves to, or a refusal, in the handler's order of checks; what that grants is `ResolvedAsAsked` |
| `Egress.ResolvedAsAsked` | core/internal/api/egress.go:299-334 | a landing is granted exactly when it may be (direct, an existing proxy, or another existing node bound to the profile named that does not lead back), and it is the very one asked for |
| `Egress.EgressStore.CreateEgress` | core/internal/api/egress.go:116-187 | a rule is stored exactly when the node exists, the body is valid and the landing may be granted, enabled and with the very landing asked for; with readable rules an acyclic landing graph stays acyclic |
| `Egress.UpdateRules` | core/internal/api/egress.go:189-286 | outcome and table of an update, including that a refused target leaves the switch written |
| `Egress.UpdateIsAsAsked` | core/internal/api/egress.go:189-286 | an accepted update leaves the rule with the landing asked for, or its old one when none was; it is refused for its target exactly when that may not be granted; the switch is written as asked even then, and no other rule changes |
| `Egress.EgressStore.UpdateEgress` | core/internal/api/egress.go:189-286 | both on the stored table: the outcome, and the rule as asked |
| `Egress.EgressStore.DeleteEgress` | core/internal/api/egress.go:336-349 | the rule goes and an acyclic graph stays acyclic |
| `Egress.CreateKeepsAcyclic` | core/internal/api/egress.go:299-334 | a new landing keeps the graph acyclic if and only if the search from its target does not lead back |
| `Egress.RetargetKeepsAcyclic` | core/internal/api/egress.go:245-272 | an accepted new target keeps the graph acyclic |
| `Egress.UpdateKeepsAcyclicExactly` | core/internal/api/egress.go:235-272 | an update keeps the graph acyclic unless, and only unless, it switches on a disabled landing that has come to lead back, with no accepted new target |
| `Egress.SwitchKeepsAcyclic` | core/internal/api/egress.go:235-241 | the unchecked switch alone: exactly when re-enabling closes a loop |
| `Egress.ReEnabledLoop` | core/internal/api/egress.go:235-241 | two ordinary requests that build a loop |
| `Egress.LateRuleExact` | core/internal/api/egress.go:189-286 | any write of a rule keeps the landings acyclic if and only if its landing does not lead back when it is written |
| `Egress.InterleavedRulesExact` | core/internal/api/egress.go:116-286 | however many requests are under way, the landings stay acyclic throughout if and only if that holds of every write |
| `Egress.RacingRulesExact` | core/internal/api/egress.go:158-187 | two rules created at once, each allowed by the landings both requests saw, close a loop if and only if each one's landing leads to the node of the other |
| `Egress.RacingRulesLoop` | core/internal/api/egress.go:158-187 | two such requests on an empty table, both accepted |
| `Restricted.BlocksFor` | core/internal/profile/restricted.go:21-118 | the blocks of a node's config, in destination order |
| `Restricted.BarredExactly` | core/internal/profile/restricted.go:94-112 | whom a destination bars on a node: exactly the credentials there of subscribers neither allowed nor in an allowed group |
| `Restricted.BarredInOrder` | core/internal/profile/restricted.go:97-107 | and in the subscribers' order: splitting the subscribers splits the list |
| `Restricted.AllowedAreNeverBlocked` | core/internal/profile/restricted.go:78-107 | no block of a destination names a credential of a subscriber it lists or of a member of a group it lists |
| `Restricted.OthersAreBlocked` | core/internal/profile/restricted.go:68-116 | where it applies, every credential of every other subscriber is named in a block with its body |
| `Restricted.BlockFor` | core/internal/profile/restricted.go:68-116 | one destination's block, absent when it does not apply or bars nobody |
| `Restricted.EmailsExactly` | core/internal/profile/restricted.go:102-106 | which credentials a block names |
| `Restricted.BlocksExactly` | core/internal/profile/restricted.go:21-118 | a block is present exactly for each destination that applies on the node, by scope or by one machine hop, and bars somebody there |
| `Restricted.CarriesIffApplies` | core/internal/profile/restricted.go:123-163 | a destination applies on a node if and only if the node is in the list to re-apply |
| `Restricted.RestrictedNodeIDs` | core/internal/profile/restricted.go:123-163 | that list, computed: scope, relay entries and egress sources |
| `Restricted.Server.ApplyNodes` | core/internal/api/restricted.go:232-238 | exactly the listed nodes are re-assembled |
| `Restricted.Server.CreateRestricted` | core/internal/api/restricted.go:85-109 | stored blocks stay what a full recomputation gives, without applying anything |
| `Restricted.Server.ReplaceDest` | core/internal/api/restricted.go:220-227 | so they do after a new body or allow list |
| `Restricted.Server.UpdateRestricted` | core/internal/api/restricted.go:111-139 | a new body, or a refusal when the destination is missing or the body does not parse; every node's stored blocks equal a fresh computation either way |
| `Restricted.Server.SetRestrictedUsers` | core/internal/api/restricted.go:196-217 | a new allow list, or a refusal when it names a subscriber who does not exist: the same |
| `Restricted.Server.SetRestrictedNodes` | core/internal/api/restricted.go:162-194 | a new scope: the same, with the old and the new carriers re-applied |
| `Restricted.Server.DeleteRestricted` | core/internal/api/restricted.go:141-160 | deletion: the same |
| `Restricted.Server.CreateRelay` | core/internal/api/relay.go:119-189 | a new relay line: refused or written as the handler does, stored blocks fresh everywhere |
| `Restricted.Server.UpdateRelay` | core/internal/api/relay.go:191-232 | a toggled relay line, or a refusal for an empty label or a rate not above zero: the same |
| `Restricted.Server.DeleteRelay` | core/internal/api/relay.go:234-247 | a deleted relay line: the same |
| `Restricted.Server.WriteRelays` | core/internal/api/relay.go:255-262 | re-applying the two ends is enough for any change to one relay line |
| `Restricted.Server.CreateEgress` | core/internal/api/egress.go:116-187 | a new egress rule: stored blocks fresh everywhere |
| `Restricted.Server.UpdateEgress` | core/internal/api/egress.go:189-286 | an updated egress rule: fresh unless the target was refused, in which case nothing was re-applied |
| `Restricted.Server.DeleteEgress` | core/internal/api/egress.go:336-349 | a deleted egress rule: fresh everywhere |
| `Restricted.OnlySourcesChange` | core/internal/api/egress.go:373-379 | a change of relays or rules matters only where the node's own exits change |
| `Restricted.SameBlocks` | core/internal/profile/restricted.go:21-118 | block lists agree when, place by place, destinations are equal or apply nowhere near the node |
| `Restricted.DroppedUnseen` | core/internal/api/restricted.go:141-160 | dropping a destination that does not apply changes no block |
| `Restricted.DestinationDropped` | core/internal/api/restricted.go:141-160 | deleting a destination changes blocks only where it applied |
| `Restricted.OneRuleChanged` | core/internal/api/egress.go:373-379 | changing one egress rule changes blocks only on the node that carries it |
| `Restricted.RefusedUpdateExact` | core/internal/api/egress.go:235-251 | a refused egress update leaves stale blocks if and only if its switch turned a landing some destination needs: scoped there, applying by no other way, barring somebody |
| `Restricted.RefusedButSwitchedOn` | core/internal/api/egress.go:235-251 | one request that does it: a landing switched on with an unknown target kind is refused, is on, and the node lacks the block it now needs |
| `Restricted.OneMoreExit` | core/internal/profile/restricted.go:40-77 | one more exit adds blocks exactly for the destinations that need it |
| `Restricted.ToggleChangesBlocks` | core/internal/api/egress.go:235-241 | the switch changes a node's blocks if and only if some destination applies there only through it |
| `Access.Transposes` | core/internal/store/group.go:628-639 | the subscriber's and the object's reader are the two ends of one relation |
| `Access.UserResetExact` | core/internal/store/group.go:493-558 | after the whole-set editor the subscriber is refused exactly the list, of what exists, and nobody else's answer moves |
| `Access.UserResetFewest` | core/internal/store/group.go:541-556 | no other rows achieve it with an exception fewer |
| `Access.ObjectResetExact` | core/internal/store/group.go:562-623 | the editor from the object's end: exactly the list, every other object untouched |
| `Access.ObjectResetFewest` | core/internal/store/group.go:606-621 | and with the fewest exceptions |
| `Access.EditorsAgree` | core/internal/store/group.go:493-623 | the two editors write the same rows for the same wish |
| `Access.Store.SetUserDimension` | core/internal/store/group.go:493-558 | the loop over the universe writes exactly those rows |
| `Access.Store.SetUserNodeAccess` | core/internal/store/external.go:426-449 | in each dimension the effective denials become the requested set restricted to what exists; other subscribers are untouched; the invariant is kept |
| `Access.Store.SetObjectAccess` | core/internal/store/group.go:562-623 | the refused subscribers become exactly the list; every other object and dimension is untouched |
| `Access.Store.ResetObject` | core/internal/store/group.go:600-621 | the loop over the users writes exactly those rows |
| `Access.Store.SetUserObjectAccess` | core/internal/store/group.go:365-399 | after an exception the subscriber is refused the object if and only if it was not an allowance; after its removal, if and only if their group refuses it; no other answer of any kind, subscriber or object moves |
| `Access.ExceptionDecides` | core/internal/store/group.go:365-399 | an exception decides over the group, its removal hands the question back to the group, and nothing else moves |
| `Access.GroupListDecides` | core/internal/store/group.go:281-311 | a group's list decides for members without an exception of their own, and for nobody else |
| `Access.GroupListApplied` | core/internal/store/group.go:281-311 | the same for every kind, subscriber and object at once |
| `Access.Store.SetGroupRuleset` | core/internal/store/group.go:100-110 | members who chose nothing themselves carry the group's rule set; nobody else's effective rule set moves |
| `Access.Store.SetUserRulesetNone` | core/internal/store/group.go:455-468 | a subscriber who opts out carries none, one who opts back in carries their group's; nobody else's moves |
| `Access.Store.SetUserRuleset` | core/internal/store/ruleset.go:165-178 | a chosen rule set is carried whatever the group says, an emptied choice falls back to the group's; nobody else's moves |
| `Access.Store.CreateObject` | core/internal/store/relay.go:58-89 | a new object is effectively denied to every existing subscriber and group; nothing else changes |
| `Access.Store.DeleteObject` | core/internal/store/relay.go:164-173 | a deleted object takes its rows along; no other answer changes |
| `Access.Store.CreateUser` | core/internal/store/user.go:111-158 | a new subscriber is refused everything there is |
| `Access.Store.CreateSubscriberGroup` | core/internal/store/group.go:37-58 | a new group withholds everything there is, and keeps doing so for later objects until somebody edits it |
| `Access.Store.SetGroupNodeAccess` | core/internal/store/group.go:281-311 | members without an exception of their own are refused exactly the list and nobody else's answer moves, or the request fails on something that does not exist |
| `Access.Store.DetachUser` | core/internal/store/group.go:149-178 | the group's decisions are folded into the member's rows |
| `Access.Store.SetUserGroup` | core/internal/store/group.go:189-233 | the subscriber ends up in the group asked for; leaving changes no denial and no rule set for anybody; joining discards the member's own rows; a missing group is refused |
| `Access.Store.DetachMembers` | core/internal/store/group.go:124-133 | every member is settled, in denials, rule set and profiles; nobody else is touched |
| `Access.Store.DeleteSubscriberGroup` | core/internal/store/group.go:119-142 | deleting a group changes no denial and no rule set for anybody; a member holds afterwards the profiles they held or were granted personally, and nobody else's profiles change |
| `Access.LeavingChangesNoDenial` | core/internal/store/group.go:149-178 | leaving a group changes no denial in any dimension, for the member or anyone else |
| `Access.LeavingChangesNoRuleset` | core/internal/store/group.go:173-177 | nor any effective rule set |
| `Access.LeavingKeepsProfilesExactly` | core/internal/store/group.go:149-172 | leaving keeps the member's profiles if and only if no grant of their own was being withheld from them |
| `Access.LeavingGainsNothingExactly` | core/internal/store/group.go:198-207 | leaving gains a subscriber nothing, over denials and profiles, if and only if no grant of their own was withheld |
| `Access.JoiningGainsNothingExactly` | core/internal/store/group.go:198-207 | joining gains them nothing if and only if the group refuses all they were refused and grants only what they held |
| `Access.GainByJoining` | core/internal/store/group.go:210-231 | a subscriber refused a node gains it by joining a group that withholds nothing |
| `Access.DissolvingKeepsProfilesExactly` | core/internal/store/group.go:119-142 | deleting a group keeps everybody's profiles if and only if none of its members had a grant of their own withheld |
| `Access.GroupGoneProfiles` | core/internal/store/group.go:119-142 | what deleting a group does to anybody's profiles |
| `Access.LeavingChangesProfiles` | core/internal/store/group.go:149-172 | what leaving does to a profile, in general: it is held afterwards when it was held, or granted personally |
| `Access.LeavingKeepsOthersProfiles` | core/internal/store/group.go:149-178 | nobody else's profiles change |
| `Access.GainByLeaving` | core/internal/store/user.go:256-261 | a member gains a profile by leaving: withheld, then bound, then they leave |
| `Access.JoiningTakesTheGroups` | core/internal/store/group.go:210-231 | a new member is refused exactly what the group refuses and holds exactly its profiles |
| `Access.GroupGoneSame` | core/internal/store/group.go:119-142 | once every member is settled the group can go without any answer changing |
| `Access.DetachOne` | core/internal/store/group.go:129-133 | settling one member leaves the settled settled and the others alone |
| `Access.Store.BindUserProfile` | core/internal/store/user.go:256-261 | binding takes effect unless the profile is withheld |
| `Access.Store.SetUserProfileAccess` | core/internal/store/group.go:403-426 | after a grant the profile is held, after a withholding it is not, after neither it is held when the group grants it; no other holding moves |
| `Access.ObjectAdded` | core/internal/store/store.go:220-243 | adding an object keeps the invariant and denies it to everyone |
| `Access.UserAdded` | core/internal/store/user.go:131-157 | adding a subscriber keeps the invariant and refuses them everything |
| `Access.GroupAdded` | core/internal/store/group.go:37-58 | adding a group keeps the invariant |
| `RateLimit.Limiter.Allow` | core/internal/api/ratelimit.go:84-104 | the answer, the wait and the buckets after one attempt |
| `RateLimit.Limiter.Evict` | core/internal/api/ratelimit.go:113-130 | expired windows go; a live one only if that left no room, and then one that resets first |
| `RateLimit.Limiter.DropExpired` | core/internal/api/ratelimit.go:114-118 | exactly the live windows remain |
| `RateLimit.Limiter.Prune` | core/internal/api/ratelimit.go:134-142 | exactly the live windows remain and the size bound is kept |
| `RateLimit.Limiter.Throttle` | core/internal/api/ratelimit.go:148-161 | zero for a request let through, otherwise the Retry-After of the refusal |
| `RateLimit.SizeBounded` | core/internal/api/ratelimit.go:84-130 | no event takes the map past max entries (one, for a limiter made with less) |
| `RateLimit.RunBounded` | core/internal/api/ratelimit.go:84-142 | so no run ever does |
| `RateLimit.LiveLostOnlyWhenFull` | core/internal/api/ratelimit.go:113-130 | a live window is lost only to an attempt under a new key that finds all max windows live, and then none of them resets earlier |
| `RateLimit.PruneTakesTheExpired` | core/internal/api/ratelimit.go:134-142 | pruning keeps a window if and only if it has not expired, and keeps it as it was |
| `RateLimit.UnderTwiceTheQuota` | core/internal/api/ratelimit.go:84-104 | over any run in which a key is not evicted while live, every closed interval of one window's length admits at most 2n - 1 requests (n at least 1): one below the bound the code's comment gives |
| `RateLimit.TwiceTheQuotaNearlyReached` | core/internal/api/ratelimit.go:84-104 | a run that reaches 2n - 1 |
| `RateLimit.RefusedOnlyWhenSpent` | core/internal/api/ratelimit.go:96-101 | nobody is refused who has not had n requests let through within the window behind them |
| `RateLimit.CountedWereAdmitted` | core/internal/api/ratelimit.go:84-104 | every attempt a window has counted was let through since it opened |
| `RateLimit.RetryAfterIsEnough` | core/internal/api/ratelimit.go:152-154 | waiting the advertised seconds lands past the reset, and a second less would not |
| `Online.Registry.Replace` | core/internal/online/online.go:67-104 | the registry after one node's absolute report |
| `Online.Registry.Note` | core/internal/online/online.go:85-103 | one observation: ignored without a user or address, stored if newer than what is there |
| `Online.Registry.Keep` | core/internal/online/online.go:74-83 | exactly the sightings to keep remain, and no user without one |
| `Online.Registry.Forget` | core/internal/online/online.go:111-125 | a disconnected node's contribution is gone |
| `Online.Registry.Prune` | core/internal/online/online.go:184-202 | exactly the fresh sightings and node states remain |
| `Online.Registry.Status` | core/internal/online/online.go:140-159 | distinct fresh addresses, fresh nodes, and whether any of those was incomplete |
| `Online.Registry.Counts` | core/internal/online/online.go:163-180 | agrees with Status for every user, with an entry only for those above zero |
| `Online.MergedNewest` | core/internal/online/online.go:85-103 | merging a report keeps, for each address, the newest sighting |
| `Online.OthersKeptExactly` | core/internal/online/online.go:60-67 | a report leaves another node's sighting alone if and only if it holds nothing newer for that address |
| `Online.SeenWasReported` | core/internal/online/online.go:67-125 | in every reachable state each stored sighting is in its node's latest report |
| `Online.CountWithinUnion` | core/internal/online/online.go:127-132 | so the count never exceeds the union of the latest reports |
| `Online.ReportedIsSeen` | core/internal/online/online.go:67-125 | where no address is ever in two latest reports at once, whatever is reported and fresh is stored |
| `Online.CountIsTheUnion` | core/internal/online/online.go:127-132 | and then the count is the union |
| `Online.CountedExactly` | core/internal/online/online.go:67-125 | an address is counted if and only if the sighting left by the last report to name it is fresh and the node of that sighting has neither reported nor left since |
| `Online.CountIsTheUnionExactly` | core/internal/online/online.go:127-132 | the count is the union of the latest reports if and only if that holds of every address in it |
| `Online.OverlapLosesAnAddress` | core/internal/online/online.go:98-102 | with overlap it can fall short: a run in which a still-reported address counts for nothing |
| `Online.PruneInvisible` | core/internal/online/online.go:182-202 | drop every prune from any run and no later Status can tell |
| `Online.PruningAgrees` | core/internal/online/online.go:182-202 | the pruned and the unpruned registry agree on everything fresh, through all later operations |
| `Online.StepAgree` | core/internal/online/online.go:67-125 | reports and departures preserve that agreement |
| `Online.CountedAfterReport` | core/internal/online/online.go:94-103 | an address counts after a report if and only if another node's sighting of it is fresh, or the report names it with an observation that is: dated by its own time, or by the report's when it carries none |
| `Online.ReportingShows` | core/internal/online/online.go:67-73 | a node that has just reported is shown, and the answer is incomplete if and only if its report was, or some other fresh node's last one |
| `Online.LeavingShows` | core/internal/online/online.go:111-125 | a node that left is no longer shown, its sightings are gone and everyone else's stay |
| `Alerts.Announcer.ObserveNode` | core/internal/store/alert.go:148-158 | a first sighting is stored as announced; changed_at moves only when the observation differs |
| `Alerts.Announcer.MarkAnnounced` | core/internal/store/alert.go:161-166 | the announced state and time, nothing else |
| `Alerts.Announcer.Sweep` | core/internal/alert/alert.go:60-103 | every node's row after a sweep, whatever fails on the way, and the notifications sent in order; recorded nodes stand as they were seen, and each message says what is on record |
| `Alerts.Announcer.Settle` | core/internal/alert/alert.go:82-101 | one node: settling, marked first, sent only if somebody listens |
| `Alerts.Announcer.ObserveAll` | core/internal/alert/alert.go:66-70 | every listed node's observation is recorded unless its write fails |
| `Alerts.SeenIsRecorded` | core/internal/alert/alert.go:66-70 | every listed node whose write succeeds is on record as it was seen |
| `Alerts.ToldIsOnRecord` | core/internal/alert/alert.go:82-101 | every message names a listed node and the state now both observed and announced for it |
| `Alerts.ToldExactly` | core/internal/alert/alert.go:82-101 | a node is told of exactly when its change is marked and some target is enabled, and the message names the state now announced |
| `Alerts.EachNodeAlone` | core/internal/alert/alert.go:60-103 | a run of sweeps over the fleet is, for each node, a run of its own ticks |
| `Alerts.MarksFlip` | core/internal/alert/alert.go:82-95 | what is announced is the first sighting flipped once per mark |
| `Alerts.NeighboursAlternate` | core/internal/alert/alert.go:82-95 | successive announcements always alternate between up and down |
| `Alerts.FirstMarkIsAChange` | core/internal/store/alert.go:144-147 | the first sighting is never announced; the first announcement contradicts it |
| `Alerts.ChangedAtDates` | core/internal/store/alert.go:148-158 | changed_at is the second in which the present uninterrupted run of observations began |
| `Alerts.MarkedHasHeld` | core/internal/alert/alert.go:87-89 | an announcement comes after sweeps that recorded nothing but that state over 120 whole seconds |
| `Alerts.MarksKeepApart` | core/internal/alert/alert.go:19-23 | two announcements of a node are at least 120 whole seconds apart |
| `Alerts.LastingChangeIsAnnounced` | core/internal/alert/alert.go:82-95 | a state that has held for the debounce is what is announced, once a sweep gets as far as announcing |
| `Alerts.HeldLessThanTheDebounce` | core/internal/alert/alert.go:87-89 | in real time the debounce is not guaranteed: a state announced after just over 119 seconds |
| `Alerts.DebounceKeptExactly` | core/internal/alert/alert.go:87-89 | every sweep that can announce a change comes a whole debounce of real time after the sweep that first saw it if and only if that sweep's clock read a whole second |
| `Alerts.SentAlternateExactly` | core/internal/alert/alert.go:96-100 | successive notifications contradict each other if and only if an even number of marks went unsent between them |
| `Alerts.SentNeedNotAlternate` | core/internal/alert/alert.go:96-98 | two messages running that both say offline, because the targets were off in between |
| `Transfer.ReadChunk` | core/internal/kernel/fetch.go:239-266 | the slice of the archive at the offset, and whether it reaches the end; an offset outside is refused |
| `Transfer.AssembledIsTheArchive` | core/internal/kernel/fetch.go:239-266 | asking from the start in slices of any size until the last one gives the archive |
| `Transfer.InstallState.Begin` | agent/internal/client/install.go:43-57 | one install at a time; a claim empties the channel, a refused one leaves the running transfer's reply alone |
| `Transfer.InstallState.Deliver` | agent/internal/client/install.go:73-78 | a frame is dropped when the channel is full |
| `Transfer.InstallState.Chunk` | agent/internal/client/install.go:87-115 | the reply handed over for any interleaving of arrivals, looks, timeouts and cancellation |
| `Transfer.HandedOverIsAsked` | agent/internal/client/install.go:96-114 | a slice handed over is one of the archive asked for, at the offset asked for |
| `Transfer.InstallState.DownloadViaRelay` | agent/internal/xray/install.go:228-256 | file, verdict and requests of the whole download loop |
| `Transfer.FileIsAPrefix` | agent/internal/xray/install.go:228-256 | under stale, duplicated or dropped genuine frames the file is always a prefix of the archive, and equals it when the download succeeds |
| `Transfer.OffsetsGrow` | agent/internal/xray/install.go:236-245 | every request is for the next byte the file lacks, so offsets strictly increase |
| `Transfer.AnsweredSucceeds` | agent/internal/xray/install.go:228-256 | when every request is answered in turn the download succeeds with the archive |
| `Transfer.SuccessIsOnDisk` | agent/internal/xray/install.go:241-249 | a download that succeeds has asked at least once and synced, and wrote nothing if no write went through |
| `Transfer.StaleFrames` | agent/internal/client/install.go:99-104 | a stale frame taken in time costs nothing; one still in the channel when the answer comes crowds it out and the wait ends without a reply |
| `Transfer.InstallState.Transfer` | agent/internal/client/install.go:119-142 | from claiming the slot to giving it back: the slot is free again, and a genuine transfer leaves a prefix of the archive or, on success, all of it, synced |
| `Rotation.SealOpens` | core/internal/secret/secret.go:73-134 | what a box seals it opens under the same name and calls its own; sealing fails only for want of randomness |
| `Rotation.OwnsExactly` | core/internal/secret/secret.go:90-97 | a box owns exactly what starts with the sealing prefix and its own key id |
| `Rotation.OwnedByAnother` | core/internal/secret/secret.go:111-120 | what one key owns, a key with a different id refuses to open |
| `Rotation.AadsDistinct` | core/internal/store/rotate.go:40-93 | no two cells of the eleven columns bind the same name, for ids without a colon |
| `Rotation.EveryColumnListed` | core/internal/store/rotate.go:40-93 | every kind of sealed cell is in the list the rotation walks |
| `Rotation.Store.RotateColumn` | core/internal/store/rotate.go:125-193 | one column: every selected cell not owned by the new key is re-sealed and counted, or the whole call fails; which cells those are is `MovesAre` |
| `Rotation.Store.Reseal` | core/internal/store/rotate.go:170-177 | one cell: open under the old key, seal under the new |
| `Rotation.Store.RotateSecretKey` | core/internal/store/rotate.go:101-123 | all or nothing: on success every value that is not empty, and secret if it is a variable component, is owned by the new key and under differing key ids opens to what it opened to, every other cell is as it was, and the count is that of the values moved; any failure leaves the database as it was |
| `Rotation.MovesAre` | core/internal/store/rotate.go:125-169 | the cells moved are those not empty, secret if components, and not owned by the new key |
| `Rotation.RotationReachesCell` | core/internal/store/rotate.go:125-193 | one cell after a successful rotation: owned by the new key with its reading kept, or, empty or a public component, untouched |
| `Rotation.RotationReachesEveryCell` | core/internal/store/rotate.go:101-123 | the same for all cells at once, none added and none lost |
| `Rotation.OpensTheClear` | core/internal/secret/secret.go:99-109 | a value in the clear, marked or from before marking, opens as it stands and is owned by nobody |
| `Rotation.PlaintextsSurvive` | core/internal/store/rotate.go:95-100 | under differing key ids every selected cell reads under the new key as it did under the old, and is owned by the new key; owned cells, empty ones and public components are as they were |
| `Rotation.PlaintextSurvivesExactly` | core/internal/store/rotate.go:163-191 | in general a selected cell reads the same afterwards if and only if the new key did not own it or already opened it to what the old key did |
| `Rotation.NothingLostExactly` | core/internal/store/rotate.go:95-100 | nothing readable is lost if and only if every cell both keys take for their own opens under both to one plaintext; keys with differing ids have no such cell |
| `Rotation.SecondRunMovesNothing` | core/internal/store/rotate.go:97-98 | a second run moves nothing and changes nothing |
| `Rotation.ThereAndBack` | core/internal/store/rotate.go:95-123 | rotating to a key and back restores every reading |
| `Rotation.RotatesWhenEverythingOpens` | core/internal/store/rotate.go:163-191 | the re-sealing succeeds if and only if every value to move opens, has a nonce and can be written |
| `Rotation.SharedKeyIdLosesAValue` | core/internal/store/rotate.go:165-169 | two keys sharing a key id: the rotation reports success, moves nothing, and leaves a value only the old key can read |
| `Rotation.SharedKeyIdHalfRotates` | core/internal/store/rotate.go:17-19 | the same two keys over a sealed and a clear value: one moves, one stays, and neither key opens both |

## Left out

- Supervisor.StopCompletes: weak fairness is the operating system's and the runtime's part: a timer that stays armed fires, a killed process exits, a goroutine that stays runnable runs. Nothing is assumed of a step that cannot be taken.
- Switching binaries (`activate.go`: `Activate`, `rollback`, `staysUp`, the probes): a straight line of calls into the supervisor steps modelled here; `SetBin`, restarts and crashes may interleave with everything else in the step system.
- The config-version guard, file handling and settle wait of `Apply`, and the stderr tail: one-branch facts; the stop-then-start under one lock is modelled.
- ExternalRefresh.RenamedKeepsItsRow: for server names without a bar; `SurvivesExactly` and `ClaimedByFirstLookalike` hold for any.
- Restricted.AllowedAreNeverBlocked: for a credential email that belongs to one subscriber on the node, as the assembly hands them out.
- Egress.CreateKeepsAcyclic: takes every node's rules as readable; `Reachable` is exact about the readable ones, and the handler itself treats a failed read as no rules.
- ExternalChains.ExternalStore.SetExternalProxy: takes the check and the write as one step, as do the handlers over egress rules; what checks and writes allow as separate steps is stated by `InterleavedWritesExact`, `RacingRequestsExact`, `InterleavedRulesExact` and `RacingRulesExact`.
- Restricted.Server.ApplyNodes: assumes that applying a known node succeeds and that its credentials do not change meanwhile; the source logs a failure and goes on.
- Restricted destinations cover the scoped node and one machine hop into it, as `blocksFor` does; nothing is claimed about longer paths.
- Order within an equal `ord` of two external proxies, the text of YAML and Xray documents, and the link parser.
- Deleting subscribers and nodes from the access tables beyond what `DeleteObject` models: plain cascades.
- The ids drawn by `NewID` are parameters required to be unused; 64-bit wrap-around of counters and durations is not modelled.
- RateLimit.RetryAfterIsEnough: the seconds are the whole seconds of the wait plus one; the source goes through a float, exact at these sizes.
- Alerts.Announcer.Sweep: the node list holds each node once, as its primary key guarantees; delivery itself (HTTP, Telegram) is not part of this model.
- Transfer.FileIsAPrefix: assumes the archive of a version does not change during a transfer; checksum, unpacking and version check after it are not modelled.
- Rotation.AadsDistinct: for ids without a colon, as the store draws them, and variable ids other than the ten fixed tags.
- AES-GCM, base64, PBKDF2 and key fingerprints are abstract: a cipher opens what it seals under the same name, and a key id holds no colon.
- HTTP decoding, status codes, auditing, gRPC, SMTP, the frontend, history sampling and role checks: no invariant of their own.
- `core/internal/clashrule`, a second rule renderer that the panel does not wire in.
