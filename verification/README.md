# funcbox, modelled and proved

funcbox is a self-hosted function server: it keeps warm pools of JavaScript workers behind a bounded
cache, streams responses out of them, decides which hosts a function may fetch from, and is driven by a CLI
that bundles a directory, logs in through a browser and follows logs. This project models the parts
of it that keep state, backtrack or interleave, and proves what their comments, documentation and tests
promise. `dafny verify dfyconfig.toml` checks all of it.

Where the Go code updates an object in place, the model has a class with methods that are proved against a
specification (`ManagerObject`, `StreamObject`, `CliAuthObject`, `OrganizationObject`, `LogCaptureObject`, and
the classes in `WorkerPool`, `AsyncExport`, `Collect` and `EffectiveCache`): a function of the old state, or, for
the login handlers, a sequence of steps of the protocol. Where goroutines or requests interleave, it has a state
machine in which every critical section, store operation, callback and reading of the clock is one step;
statements about it hold for every run.

## The components

- **Warm pools.** `PoolTable` is what the manager's mutex guards, `ManagerObject` the critical sections as
  they are written, `Manager` the interleaving of lookups, builds, evictions, invalidations and closings, and
  `ManagerRuns` what holds of every run. `DevReload` adds the reload loop of `funcbox dev`. `WorkerPool` is
  the pool behind one entry, `Stream` and `StreamObject` a streamed response, `AsyncExport` the table of
  asynchronous host calls.
- **Bundling.** `Ignore` is the ignore-file matcher, `Collect` the directory walk through symbolic links,
  `CollectMeaning` what it collects, `CollectTrouble` when it fails. `BundlePath`, `Bundle` and `BundlePack` are the archive side.
- **Fetch policy.** `FetchPolicy` is the intersection of permission levels, `EffectiveCache` the
  generation-keyed cache in front of it, `EffectiveCacheAnswers` the states from which it answers rightly, and
  `EffectiveCacheOverlap` what settings writes do to it.
- **User IDs.** `UserId` and `UserIdSearch`: the search for a free public User ID.
- **Login and organization.** `CliAuth` is the timed protocol of codes, credentials and tokens, `CliAuthRuns`
  what holds of its runs, `CliAuthWindow` its sliding window, `CliAuthObject` its handlers; `Organization` and
  `OrganizationObject` are users, workspaces and their guards.
- **Logs.** `LogCapture` and `LogCaptureObject` attribute guest output to requests; `LogFollow` is
  `funcbox logs --follow`.
- `Text` and `Sizes` hold strings and file trees, `Common` what several modules share.

## Where the code does less than it says

The code is modelled as it is. These findings are proved, each with the exact condition under which the promise
does hold.

- **The port-0 pre-check** (policy/pattern.go:118-121) is described as "at least one port is allowed". That
  holds for one level (`FetchPolicy.PreCheckExactForOneLevel`) and fails for two levels naming the same host with
  different ports (`PreCheckMayPassForNoPort`). It never rejects a host some port would be allowed for, and some
  port is allowed exactly when 80, 443 or a port named in a pattern is open at every level (`SomePortAllowedIff`).
- **User IDs from `xn--` local parts** never become valid, and the search loop does not stop. `UserIdSearch.HaltsIff`
  gives the exact bases.
- **Overlapping settings updates** both read generation g and both write g + 1. From every state with a stale
  update, at either level, its write can leave the cache serving the lost policy for as long as the other one is
  stored (`EffectiveCacheOverlap.StaleWriteServesTheLostPolicy`). The answers until the next write are right
  exactly when no entry, and no call in flight that can still store one, disagrees with another call that can still
  come to the same key (`EffectiveCacheAnswers.AnswersRightIffCoherent`); a serial write always leaves it so.
- **A mint in flight across a revocation** reads the clock again after it has touched the credential, so its
  token can outlive the revocation by more than an hour. Without one, no token does
  (`CliAuthRuns.RevocationTakesHoldIff`).
- **A mint in flight across the end of the 90 days** still yields a token, or renews the credential.
  `CliAuthWindow.TokenStillPossibleIff` and `UsableAgainIff` say exactly when that can still happen.
- **Overlapping firings of the dev reload timer** can install an older directory snapshot after a newer one. Between
  reloads a new call is served exactly the last snapshot installed (`DevReload.ServesLastInstalled`), so it is as
  new as every finished reload exactly when that snapshot is; reloads that take turns keep it so (`TurnsFromStart`).
- **Several calls of a worker pool's Close** can each take a worker and wait for each other for ever. Some call can
  still return exactly while at most one of them has taken a worker (`WorkerPool.CanReturnIffOneTaker`).
- **Last-admin and open-mode guards** check, and then write back the record loaded before the check; two requests at
  the same time can defeat them, and so can one that needs no guard: a user's language patch or login writes the
  user's role and status back too. A membership added or removed on an outdated check can take a workspace's last
  admin away. Interleaved requests keep the rules exactly when each write meets, on the store as it then is and the
  record it carries, the condition of `Organization.StillSafe` (`InterleavedSafeIff`).
- **Following logs** skips an entry that turns up with a smaller id than one printed already, which happens because
  ids are drawn before entries are stored. Nothing is missed exactly when each entry is newer than all found before
  and at most 50 arrive between polls (`LogFollow.LosslessIff`).
- **Stream generations** travel as floating-point numbers and are told apart only up to 2^53.

## Model

| member | source | states |
|---|---|---|
| PoolTable.GetKeepsTable | runtime/manager.go:110-138 | Whatever the cap: after a lookup the map, the recency list and the back-pointers agree; the entry answered is the most recent; a miss evicts at most one entry, the least recent, never the new one |
| PoolTable.DropKeepsTable | runtime/manager.go:209-228 | Invalidate removes exactly the named entry and keeps map and list consistent |
| ManagerObject.Manager.TouchLocked | runtime/manager.go:144-153 | The in-place list operation moves or inserts exactly the touched pool in front, and keeps every back-pointer |
| ManagerObject.Manager.EvictIfOverCapLocked | runtime/manager.go:162-171 | Over the cap, exactly the back of the list leaves list and map, and is returned |
| ManagerObject.Manager.Lookup | runtime/manager.go:110-138 | HandlerFor's critical section on the real map, list and pointers does exactly one lookup step of the table |
| ManagerObject.Manager.InvalidateLocked | runtime/manager.go:209-228 | Invalidate's critical section does exactly one drop step of the table |
| ManagerObject.Manager.CloseLocked | runtime/manager.go:233-251 | Close takes all entries and leaves both containers empty |
| Manager.StepKeepsInv | runtime/manager.go:110-251 | Every step of every goroutine keeps the invariant: an incarnation has one builder until it is built, and is tracked or owned by exactly one closer |
| ManagerRuns.PoolLife | runtime/manager.go:110-251 | In every reachable state each incarnation is built at most once, closed at most once and only after its build and after leaving the map; a built pool is tracked or has exactly one closer; the hook runs at most once and only for an eviction |
| ManagerRuns.NothingLeaks | runtime/manager.go:180-251 | When only new requests could still move the manager, every build has finished, every untracked pool was closed exactly once, and the hook ran exactly once per eviction and never for Invalidate |
| ManagerRuns.HookAfterClose | runtime/manager.go:180-190 | In every run the eviction hook is called for a pool that was built only after the Close of that pool has returned |
| ManagerRuns.OnlyBuiltIsClosed | runtime/manager.go:180-251 | No goroutine is ever inside the Close of a pool that was not built |
| ManagerRuns.OutcomeIsFinal | runtime/manager.go:125-136 | A finished build is never redone or overwritten |
| ManagerRuns.SameAnswer | runtime/manager.go:117-138 | All callers that share an in-flight build get the same handler or the same error |
| ManagerRuns.CallerGetsItsPool | runtime/manager.go:110-138 | From every reachable state and whatever happens in between: a caller that does not give up is answered by the incarnation tracked under its key or by a new one for that key, which has been built; by its own pool if the build had no error, else with that error |
| ManagerRuns.FailedBuildStaysCached | runtime/manager.go:125-136 | While its entry is tracked, a failed build is answered again without a new build |
| ManagerRuns.RecencyMeaning | runtime/manager.go:144-153 | The recency sequence lists each accessed key once, by time of last access |
| ManagerRuns.GetOnKeys | runtime/manager.go:110-171 | The keys tracked after a lookup are a function of those tracked before |
| ManagerRuns.TrackedAreMostRecent | runtime/manager.go:110-171 | In every run without Invalidate and Close from a state with nothing tracked, whatever else interleaves, the tracked keys are exactly the cap most recently accessed distinct keys, in order |
| ManagerRuns.LargerCapTracksMore | runtime/manager.go:70-78 | On the same accesses a larger cap tracks a superset |
| DevReload.DevStepKeepsInv | internal/cli/dev.go:544-555 | Every step of server, builds and reload loop keeps the link between pools and the snapshots they were built from |
| DevReload.CallBeginsAfterReloads | internal/cli/dev.go:544-555 | A call begins with at least the snapshot of every finished reload as its floor |
| DevReload.AnswersAreFresh | internal/cli/dev.go:358-361 | A call that begins after a reload finished is answered by a pool, or an error, built from that snapshot or a later one, even if an older build was in flight |
| DevReload.ServesLastInstalled | internal/cli/dev.go:544-555 | In a reachable state with no reload between its set and its Invalidate, a call that begins then and is answered before the next set is served exactly the last snapshot installed |
| DevReload.TurnsFromStart | internal/cli/dev.go:544-584 | From the start, in every run whose reloads read and set in turn and find no older directory than before, the last snapshot is as new as what every finished reload read |
| DevReload.InOrderReloadsServeNewContents | internal/cli/dev.go:544-555 | Even with reloads under way: if snapshots were installed in the order they were read, a call is answered from a directory as new as the one any reload finished before it read |
| DevReload.OverlappingReloadsServeOldContents | internal/cli/dev.go:544-555 | Without turns it can fail: a run of two overlapping reloads after which a new call is served the older directory |
| WorkerPool.EachWorkerOnce | runtime/enginepool/pool.go:105-157 | In every reachable state each original worker is in exactly one of idle, serving one request, closed |
| WorkerPool.ReturnNeverBlocks | runtime/enginepool/pool.go:149-157 | A request that holds a worker always finds room in the channel |
| WorkerPool.CloseReclaimsAll | runtime/enginepool/pool.go:133-143 | When Close returns, every worker was closed exactly once and no request holds one |
| WorkerPool.ClosedPoolCloses | runtime/enginepool/pool.go:133-143 | Once a Close has returned, any other returns without waiting for a worker |
| WorkerPool.SingleCloseProgresses | runtime/enginepool/pool.go:133-143 | A single Close always has a worker to take, or a request in flight that will return one |
| WorkerPool.OverlappingClosesHang | runtime/enginepool/pool.go:133-143 | Two Close calls that have each taken a worker never return, nor does any other, in any continuation |
| WorkerPool.CanReturnIffOneTaker | runtime/enginepool/pool.go:133-143 | With any number of Close calls begun and none returned, some continuation lets one return if and only if at most one of them has taken a worker |
| WorkerPool.HangIsReachable | runtime/enginepool/pool.go:133-143 | Every pool of two or more workers can get into the state in which none can return |
| WorkerPool.NewPool | runtime/enginepool/pool.go:105-126 | All workers come up, or those already up are closed exactly once |
| WorkerPool.Pool.Close | runtime/enginepool/pool.go:133-143 | Closes every worker of the channel exactly once and empties the pool |
| Stream.OnlyOwnPumpReaches | runtime/enginepool/worker.go:171-218 | With generations below 2^53, a callback reaches the sink only from the pump of the request being served |
| Stream.WriteThrowsIff | runtime/enginepool/worker.go:171-201 | A write throws into the pump exactly when the pump is not that of the request being served or the connection takes less than the chunk; what it took is in the response |
| Stream.AnyResponseCanComplete | runtime/enginepool/worker.go:439-471 | From every state between two responses, any bytes can be streamed to a clean end |
| Stream.NeverStartedStaysSilent | runtime/enginepool/worker.go:453-458 | A pump the glue never started never offers a byte |
| Stream.PumpsAreIsolated | runtime/enginepool/worker.go:171-218 | No step of a pump changes a response other than its own; a stale pump changes neither a response nor the sink |
| Stream.CleanEndIffOwnPumpDone | runtime/enginepool/worker.go:439-471 | A streamed response ends without abort exactly when its own pump reported done and starting the stream raised no error |
| Stream.EndedStays | runtime/enginepool/worker.go:439-471 | An ended response never changes again |
| Stream.ResponsesAreOwnStreams | runtime/enginepool/js/glue.js:127-158 | Over every run a response's bytes are, in order, a prefix of what its own pump wrote, and all of it after a clean end |
| Stream.InexactGenerations | runtime/enginepool/worker.go:171-218 | Beyond 2^53, exactly which neighbouring generations are confused, and which are locked out |
| StreamObject.Worker.Arm | runtime/enginepool/worker.go:439-458 | Arming a fresh sink under the next generation is the model's begin step |
| StreamObject.Worker.StartFailed | runtime/enginepool/worker.go:453-458 | A failed start marks the sink failed and is the model's failing step, whether or not the pump has begun to run |
| StreamObject.Worker.HostWrite | runtime/enginepool/worker.go:171-201 | The write callback appends what the connection took, for the request being served only, and throws exactly for a stale generation or a short write |
| StreamObject.Worker.HostDone | runtime/enginepool/worker.go:202-209 | The done callback is the model's done step, without effect when stale |
| StreamObject.Worker.HostFail | runtime/enginepool/worker.go:210-218 | The fail callback is the model's fail step, without effect when stale |
| StreamObject.Worker.Finish | runtime/enginepool/worker.go:459-471 | The response is aborted exactly when its own pump did not report done, or starting the stream failed |
| AsyncExport.TableIsUnreported | runtime/enginepool/internal.go:76-169 | In every reachable state the table holds exactly the finished but unpolled ids, and every call was reported at most once, with its own function's result |
| AsyncExport.PollReportsOnce | runtime/enginepool/internal.go:105-130 | A poll reports a finished call once; any other poll changes nothing, and none disturbs another id |
| AsyncExport.ReturnIsAnswered | runtime/enginepool/internal.go:86-130 | A call just kicked is not done; once its function has returned, the answer to its id is what the function returned, and no other answer changes |
| AsyncExport.ResultWaits | runtime/enginepool/internal.go:86-130 | A result waits, unchanged, for the next poll of its id, whatever else happens |
| AsyncExport.Export.Kick | runtime/enginepool/internal.go:86-104 | A kick takes an id never used before |
| AsyncExport.Export.StoreResult | runtime/enginepool/internal.go:92-100 | The goroutine's critical section is the model's return step |
| AsyncExport.Export.Poll | runtime/enginepool/internal.go:105-130 | The poll closure is the model's poll step |
| Ignore.MatchIffSplit | internal/cli/ignore.go:134-157 | segmentsMatch holds exactly when the path splits so that each `**` takes a run of whole segments and every other pattern segment globs one |
| Ignore.StarsTakeAnyRun | internal/cli/ignore.go:134-157 | A leading `**` matches exactly when some suffix of the path matches the rest |
| Ignore.ConsecutiveStarsCollapse | internal/cli/ignore.go:134-157 | Two `**` in a row, anywhere in a pattern, mean the same as one |
| Ignore.RuleMatches | internal/cli/ignore.go:118-132 | The loop over starting positions finds a match if there is one at any of them |
| Ignore.UnanchoredIsStarsInFront | internal/cli/ignore.go:118-132 | A rule without anchor means the same as the anchored rule with `**` in front |
| Ignore.Match | internal/cli/ignore.go:96-116 | The loop over the rules computes the recursive meaning, directory-only rules included |
| Ignore.OneMoreRule | internal/cli/ignore.go:96-132 | One more rule decides exactly the paths that its segments split, from the root if it is anchored, and only directories if it is for directories; all others stay as they were |
| Ignore.LastApplicableRuleWins | internal/cli/ignore.go:96-116 | The polarity of the last applicable rule decides |
| Ignore.NoApplicableRuleKeeps | internal/cli/ignore.go:96-116 | Without an applicable rule the path is kept |
| Ignore.ParseIsCanonical | internal/cli/ignore.go:64-93 | Every parsed rule is anchored if it has several segments, and has a well-formed spelling |
| Ignore.ParseOfRender | internal/cli/ignore.go:64-93 | Parsing the spelling of a canonical rule gives that rule back if and only if the rule is negated, or anchored, or does not begin with `!` |
| Ignore.ParseIgnoreLine | internal/cli/ignore.go:64-93 | A line is accepted exactly when it spells some rule by the grammar (a mark of negation, a leading slash, segments joined by slashes, a trailing slash), and then gives that rule, which is canonical |
| Ignore.LineMeaning | internal/cli/ignore.go:64-93 | A line spells at most one rule, and parsing finds it |
| Ignore.NewMatcher | internal/cli/ignore.go:46-62 | The rules are those of the lines of the file, in their order |
| Ignore.LineContributes | internal/cli/ignore.go:46-62 | A line contributes, at its place, exactly the rule that its text without the white space around it spells |
| Ignore.OtherLinesContributeNothing | internal/cli/ignore.go:46-62 | Comments, blank lines and lines that spell no rule contribute nothing |
| Ignore.SpaceMeaning | internal/cli/ignore.go:52 | White space is the 25 characters with that Unicode property |
| Ignore.AppendedLineOverrides | internal/cli/ignore.go:46-116 | A line appended to the file overrides everything before it where it applies and changes nothing elsewhere |
| Collect.Collector.CollectDir | internal/cli/collect.go:91-154 | The recursion terminates on every finite file graph, however links loop, and has the effect of absorbing the walk's items in order |
| Collect.Collector.CollectEntry | internal/cli/collect.go:97-151 | One directory entry: exclusion, cycle cut, recursion, or the file under the running limits |
| Collect.RelSplitsBack | internal/cli/ignore.go:101-103 | The matcher splits a joined path back into the segments it was joined from |
| CollectMeaning.WalkFindsCollectable | internal/cli/collect.go:91-154 | The walk finds exactly the files at the end of descents that repeat no real directory, enter no excluded one and are not excluded themselves |
| CollectMeaning.CollectableIff | internal/cli/collect.go:97-151 | A file is collectable if and only if listed entries lead to it through different real directories, none of them named `.git`, nor `node_modules` unless that is included, nor ignored, and the file is neither `.funcboxignore` nor starts with `.env` nor is ignored |
| CollectMeaning.AbsorbIsBatch | internal/cli/collect.go:146-151 | The running limits fail exactly when the full totals exceed them |
| CollectMeaning.CollectResult | internal/cli/collect.go:67-79 | Where nothing stops the walk the map holds exactly the collectable files, it fails exactly when their totals exceed the limits, and CheckUnpackedSize accepts what it returns |
| CollectMeaning.OrderDoesNotMatter | internal/cli/collect.go:67-154 | Two listing orders of one tree, where one listing meets no I/O error, give the same map, or both fail |
| CollectMeaning.NoTroubleInOther | internal/cli/collect.go:91-154 | Either both listing orders meet an I/O error or neither does |
| CollectTrouble.TroubleIffStopped | internal/cli/collect.go:91-154 | The walk meets an I/O error exactly where a directory it enters cannot be read, or holds a broken link, or a file that would be taken and cannot be read |
| CollectTrouble.CollectSucceedsIff | internal/cli/collect.go:67-154 | Collecting succeeds if and only if there is no such place and the files fit, and then the map holds exactly the collectable files |
| BundlePath.AcceptedIff | bundle/unpack.go:143-167 | A name is accepted exactly when it is nonempty and relative, at no point leads above its start, ends below it, and is short enough cleaned |
| BundlePath.NormalizedIsSafe | bundle/unpack.go:143-167 | What is accepted is a relative path of plain names, at most 256 bytes |
| BundlePath.NormalizeIsIdempotent | bundle/unpack.go:143-167 | Normalizing twice is normalizing once; the fixed points are exactly the safe paths |
| BundlePath.DotsCancel | bundle/unpack.go:143-167 | Inside a path a name followed by `..`, a single dot and an empty segment make no difference |
| BundlePath.DotsCancelAtEnds | bundle/unpack.go:143-167 | Nor do they at its end, or at the beginning of a relative path |
| BundlePath.BackslashIsSlash | bundle/unpack.go:148 | A backslash anywhere means a slash |
| Bundle.ReadWithinBudget | bundle/unpack.go:121-141 | Reading one byte past the budget refuses exactly the contents that exceed it |
| Bundle.Unpack | bundle/unpack.go:64-119 | The running checks equal the batch predicate: success exactly for archives of directories and regular files with distinct safe names, at most 1000 files and 5 MiB, and then exactly those files; otherwise the fault of the first entry that breaks it |
| Bundle.UnpackedMeaning | bundle/unpack.go:76-116 | What is unpacked is, for each regular entry, its data under its normalized name, and nothing else |
| Bundle.FaultMeaning | bundle/unpack.go:76-116 | The fault reported is of the first entry that makes the archive unacceptable, and says what is wrong with it: its type, its path or the same path before, a thousand files before it, or the sum of sizes |
| Bundle.AcceptableLast | bundle/unpack.go:76-116 | An archive with one more entry is acceptable exactly when that entry has none of the faults checked, and it has at most one |
| Bundle.AcceptablePrefix | bundle/unpack.go:76-116 | Stopping early is right: no later entry mends an unacceptable archive |
| BundlePack.Pack | bundle/pack.go:33-65 | One regular entry per file, in strictly ascending path order |
| BundlePack.CanonicalIsUnique | bundle/pack.go:16-33 | A tree has one canonical archive, whatever order its map is walked in |
| Text.LessMeaning | bundle/pack.go:16-33 | Paths are ordered by the first character in which they differ, a prefix first |
| BundlePack.UnpackOfPack | bundle/pack.go:33-65 | Unpacking what Pack wrote gives the tree back exactly when its paths are safe and it is within the limits |
| BundlePack.UnpackedIsPackable | bundle/unpack.go:64-119 | Everything Unpack accepts is such a tree |
| BundlePack.RoundTrip | bundle/pack.go:16-33 | Pack, Unpack, Pack: the tree comes back and the second archive is the first |
| FetchPolicy.DecisionIsMeet | policy/fetch.go:79-141 | Effective followed by Decision allows a request exactly when there is a level and every level alone allows it |
| FetchPolicy.OneLevelMeaning | policy/pattern.go:100-136 | One allowlist by itself, on a lower-case host and a real port: allowed exactly when some pattern names that very host, or for a wildcard a domain it ends in after a dot, and its port, or 80 or 443 if it names none |
| FetchPolicy.SpellingMakesNoDifference | policy/pattern.go:100-114 | A host with letters in the other case, or with one final dot, is decided like the host without |
| FetchPolicy.OnlyTheLevelSetMatters | policy/fetch.go:79-141 | Order and repetition of levels make no difference |
| FetchPolicy.MoreLevelsNarrow | policy/fetch.go:79-141 | An added level never allows more |
| FetchPolicy.ComputeEffective | policy/fetch.go:90-112 | The min-mode loop and the filtering loop compute the effective policy |
| FetchPolicy.Decide | policy/fetch.go:125-141 | The decision loop computes the decision |
| FetchPolicy.AnyPatternMatches | policy/fetch.go:143-150 | True exactly when some pattern matches |
| FetchPolicy.PreCheckNeverRejectsTooMuch | policy/pattern.go:116-136 | The port-0 pre-check passes whenever some port is allowed |
| FetchPolicy.PreCheckExactForOneLevel | policy/pattern.go:116-136 | For one level it passes exactly when some real port is allowed |
| FetchPolicy.SomePortAllowedIff | policy/pattern.go:116-136 | Some real port is allowed exactly when there is a level and 80, 443 or one of the ports named in the patterns is open at every level |
| FetchPolicy.PreCheckMayPassForNoPort | policy/pattern.go:116-136 | Two levels for which the pre-check passes and no port is allowed |
| FetchPolicy.WildcardMeansProperSubdomain | policy/pattern.go:100-114 | A wildcard admits exactly the names ending in its domain after a dot, whatever the case and with or without a final dot |
| EffectiveCache.KeyInjective | server/internal/invoke/effective.go:109 | Keys of different generation pairs or versions differ, whatever characters the version id has |
| EffectiveCache.StepKeepsInv | server/internal/invoke/effective.go:92-128 | Every store read, cache probe, cache write and serial settings write keeps cache and stored policies in agreement |
| EffectiveCache.EntriesAgree | server/internal/invoke/effective.go:92-128 | In every run without overlapping updates each entry is the intersection of the policies recorded at its generations and the manifest's |
| EffectiveCache.AnswersEqualRecomputing | server/internal/invoke/effective.go:92-128 | In every such run a call returns what recomputing from the settings it read gives, and those are no older than the ones current when it began |
| EffectiveCache.AnswersAreTheMeet | server/internal/invoke/effective.go:110-128 | So an answer allows exactly what the organization, the workspace if it owns the version, and the manifest each allow |
| EffectiveCache.AnswersAreFresh | server/internal/invoke/effective.go:92-128 | The rows an answer goes by are no older than those stored when its call began |
| EffectiveCache.AnswersGoByStoredRows | server/internal/invoke/effective.go:92-128 | And each of them was stored at some point of the run |
| EffectiveCache.UnusableRowRefuses | server/internal/invoke/effective.go:92-107 | A row that cannot be read or does not parse ends the call with the refusal, any other is used as it is stored |
| EffectiveCacheOverlap.StaleWriteServesTheLostPolicy | server/internal/api/org.go:193-213 | From every reachable state in which an update at either level is stale, whatever policy it is about to write: a run in which no other write overlaps, after which a new call has read that policy and is answered with another of one's choice |
| EffectiveCacheAnswers.AnswersRightIffCoherent | server/internal/invoke/effective.go:92-128 | From any state a call can be in, whatever writes led to it: every answer before the next settings write is what its own rows give if and only if no two ways to come to a key in use, and no entry under it, disagree |
| EffectiveCacheOverlap.WriteKeepsAnswersIff | server/internal/api/org.go:193-213 | After a settings write the answers are right exactly when the state it leaves is coherent; it is after a serial write and after one that repeats the policy its generation had |
| EffectiveCache.RefusalAllowsNothing | server/internal/invoke/effective.go:96-107 | The answer given when settings cannot be read allows no host and port |
| EffectiveCache.Cache.ResolveFetch | server/internal/invoke/effective.go:92-128 | One call on the real map: the refusal, or a policy that allows exactly what organization, workspace and manifest all allow, stored under its key and nothing else changed; agreement is kept |
| UserId.SanitizeUserID | server/internal/auth/user_id.go:46-55 | The lowered text with each maximal run of characters other than letters, digits and dashes replaced by one dash, without the dashes at its ends, and cut to 63; a DNS label or empty, and empty exactly when there is no letter or digit; a label is left as it is |
| UserId.SanitizedIsLabel | server/internal/auth/user_id.go:46-55 | The sanitized local part is empty or a DNS label of at most 63 characters |
| UserId.SanitizedIsStable | server/internal/auth/user_id.go:46-55 | Sanitizing again changes nothing |
| UserId.SeparatorBecomesDash | server/internal/auth/user_id.go:46-55 | Two labels with other characters between them become the two with one dash between |
| UserId.BaseOfEmail | server/internal/auth/user_id.go:24-29 | The base comes from what is before the first `@`, and is `user` when that has no letter or digit |
| UserId.ValidMeaning | manifest/reserved.go:34-42 | A User ID is accepted exactly when it is a DNS label, does not start with `xn--` and is not the name of a route |
| Text.LoweredMeaning | server/internal/auth/user_id.go:48 | Lower-casing takes the n-th capital to the n-th small letter, two other characters to `k` and `i`, and leaves all others alone |
| Text.ItoaMeaning | server/internal/auth/user_id.go:58 | The number of a suffix is written in decimal without leading zeros |
| UserId.SuffixUserID | server/internal/auth/user_id.go:57-65 | The candidate is what is kept of the base, a dash and the number, at most 63 characters: all of the base if there is room, else the longest prefix that leaves room less its final dashes; of a label it makes a label |
| UserId.SuffixedIsLabel | server/internal/auth/user_id.go:57-65 | A suffixed candidate is a DNS label |
| UserId.SuffixedIsValidUnlessPunycode | manifest/reserved.go:34-42 | A suffixed candidate is rejected exactly when the part of the base it keeps starts with `xn--` |
| UserId.SuffixedDistinct | server/internal/auth/user_id.go:57-65 | Candidates with different numbers differ, despite truncation |
| UserId.DeriveUserID | server/internal/auth/user_id.go:24-44 | The loop returns the first candidate that is valid and unclaimed |
| UserId.FoundMeaning | server/internal/auth/user_id.go:24-44 | What the search returns is a valid ID nobody has claimed: the base, or what is kept of it, a dash and the number, from 2 on; and no earlier one of these is valid and unclaimed |
| UserId.NoneMeaning | server/internal/auth/user_id.go:24-44 | When it finds none up to a number, none of these up to that number is valid and unclaimed |
| UserIdSearch.SearchHalts | server/internal/auth/user_id.go:24-44 | For any finite set of claimed IDs and any base not starting with `xn--`, the search halts by suffix claimed + 2 with an unclaimed, unreserved DNS label |
| UserIdSearch.PunycodeNeverAccepted | server/internal/auth/user_id.go:24-44 | For a base that keeps `xn--` under every suffix no candidate is ever accepted |
| UserIdSearch.HaltsIff | server/internal/auth/user_id.go:24-44 | For any set of claimed IDs smaller than the range of 19-digit counters: a base has an acceptable candidate if and only if it does not start with `xn--` or loses it under the longest suffixes |
| CliAuth.ClampTTL | server/internal/auth/accesstoken.go:86-97 | The lifetime is positive, at most an hour, never more than a positive request, and equal to it within the hour |
| CliAuth.ClampIsStable | server/internal/auth/accesstoken.go:86-97 | Clamping is idempotent and monotone on positive requests |
| CliAuth.DeskStepKeepsInv | server/internal/auth/cliauth.go:144-185 | Every step keeps: a code is live, or held by at most one exchange or credential whose verifier matched |
| CliAuthRuns.OneCredentialPerCode | server/internal/auth/cliauth.go:159-185 | In every run no two credentials come from one code, and a credential exists only for its approved user, within five minutes of the approval, with a verifier whose S256 hash is the stored challenge (sections 4.2 and 4.6 of RFC 7636) |
| CliAuthRuns.CredentialHistory | server/internal/auth/cliauth.go:144-185 | Behind every credential of a run there is an approval by its user and, within five minutes of it, one presentation of the code issued then, with a verifier whose S256 hash is the challenge given then |
| CliAuthRuns.EachItsOwnApproval | server/internal/auth/cliauth.go:144-185 | Two credentials go back to two approvals with different codes |
| CliAuthRuns.MismatchIsFinal | server/internal/auth/cliauth.go:164-174 | After one wrong verifier nothing ever turns that code into a credential |
| CliAuth.VaultStepKeepsInv | server/internal/auth/cliauth.go:187-216 | Every step keeps users, uses and token claims consistent, and no revoked credential is stored |
| CliAuthRuns.RefusedCheckEndsMint | server/internal/auth/cliauth.go:201-207 | A mint goes on from its check exactly when its user may sign in and the record read is inside its window |
| CliAuthWindow.IdleForever | server/internal/auth/clicredential.go:50-59 | A credential idle for 90 days with no mint of it in flight is never usable again and mints no token |
| CliAuthWindow.TokenStillPossibleIff | server/internal/auth/cliauth.go:201-210 | A credential can still yield a token if and only if it is stored and inside its window, or a mint of it is past its Touch, or it is stored and a mint of it is past its check or has read a record still live |
| CliAuthWindow.UsableAgainIff | server/internal/auth/clicredential.go:50-59 | A credential can be usable now or later if and only if it is stored and inside its window, or stored with a mint in flight that has read a live record or was checked less than 90 days ago |
| CliAuthRuns.TokenLife | server/internal/auth/accesstoken.go:123-183 | A token verifies only within an hour of its issue, expiry being cut to whole seconds |
| CliAuthRuns.TokenWorks | server/internal/auth/accesstoken.go:123-183 | And it does verify until a second before its lifetime ends, and never after |
| CliAuthRuns.RevocationTakesHold | server/internal/api/me.go:323-344 | With no mint between Touch and token at the revocation, no token of that credential verifies an hour or more after it |
| CliAuthRuns.InFlightMintOutlivesRevocation | server/internal/auth/cliauth.go:208-215 | With such a mint there is always a continuation in which its token does, by as much as the mint was delayed |
| CliAuthRuns.RevocationTakesHoldIff | server/internal/api/me.go:323-344 | In a reachable state, no continuation of revoking a stored credential has a token of it verify an hour later if and only if no mint of it stands between Touch and token |
| CliAuthObject.Auth.IssueCLIAuthCode | server/internal/auth/cliauth.go:144-157 | A code is issued exactly for a plain HTTP redirect to /callback on the loopback with a port and without user, and a challenge of 43 base64url characters; it is good for five minutes, only expired codes are dropped, and this is the protocol's issuing step |
| CliAuthObject.Auth.ExchangeCLICode | server/internal/auth/cliauth.go:164-185 | A live code is consumed whatever the verifier, and a credential of its user is created exactly on a match; nothing else changes, and these are the protocol's consuming and creating steps |
| CliAuthObject.Auth.MintAccessToken | server/internal/auth/cliauth.go:193-216 | A token is minted exactly for a stored credential of an eligible user less than 90 days after its last use, or its creation before the first, for 15 minutes unless a lifetime is asked for and at most an hour; by the protocol's four minting steps, moving only the last use |
| CliAuthObject.Auth.RevokeDevice | server/internal/api/me.go:323-367 | Removes exactly the named device, exactly for its owner or, for a CLI device, an admin with the override; for a CLI device it is the protocol's revoking step |
| CliAuthObject.HandlersKeepCodesApart | server/internal/auth/cliauth.go:159-185 | No two credentials the handlers have stored come from one code |
| CliAuthObject.Listed | server/internal/api/me.go:330-336 | The scan with its flag finds the device exactly when it is listed |
| Organization.StepIsSafe | server/internal/api/org.go:442-510 | Every request keeps: an active admin, an admin in every workspace, no workspace in open mode |
| Organization.AlwaysSafe | server/internal/api/workspaces.go:175-195 | From a bootstrapped organization, after any requests by anyone in any order, each finished before the next begins, all three still hold |
| Organization.AppliedNext | server/internal/api/org.go:442-510 | Each request finds the organization as the ones before it left it |
| Organization.GuardsAreExact | server/internal/api/org.go:475-486 | A request of any kind is granted if and only if it is permitted, by whom and of what, and its write keeps all three |
| Organization.WhyRefused | server/internal/api/org.go:442-486 | Each refusal has its reason: the caller, something missing, the request itself, or a write that would break safety |
| Organization.OnlyAdminsChangeUsers | server/internal/api/org.go:442-445 | No request changes a user's role or status, or open mode, unless its caller is an organization admin |
| Organization.OnlyManagersChangeWorkspaces | server/internal/api/workspaces.go:175-192 | No request changes or deletes a workspace unless its caller is an organization admin or one of its own admins, or creates one unless the caller is an organization admin or a workspace manager |
| Organization.PatchIsExact | server/internal/api/org.go:452-490 | A patch that is granted leaves exactly the given role and status, and everything else as it was |
| Organization.MembershipIsExact | server/internal/api/workspaces.go:366-465 | A membership request that is granted changes that one membership as asked, and everything else stays |
| Organization.OtherEffects | server/internal/api/workspaces.go:175-316 | What a sign-up, a settings patch, and creating or deleting a workspace change when they are granted; a request on the user's own record leaves role and status as they were |
| Organization.RefusedChangesNothing | server/internal/api/org.go:442-490 | A request that is not granted changes nothing |
| Organization.DelayedWriteSafeIff | server/internal/api/org.go:442-510 | For every kind of request, user, settings or membership, and for either kind of store, a write checked at any earlier time is safe now exactly when a condition on the store and on the record carried along holds: another active admin or an admin's record, no workspace, no open mode, another workspace admin |
| Organization.InterleavedSafeIff | server/internal/api/org.go:193-209 | In any interleaving of loads, guards and writes of any requests, with reads that may lag, and with the bootstrap's own open-mode write still to come: the three rules hold after every move if and only if each write is made while its condition holds |
| Organization.DelayedRequest | server/internal/api/org.go:442-510 | A request that has passed its checks writes what it prepared then, whatever others do before it writes; one that has not never writes |
| Organization.UndisturbedRequest | server/internal/api/org.go:442-510 | A request nothing comes between does what it does in one step |
| Organization.LagMeaning | server/internal/store/dynamodb/workspaces.go:85-96 | A read that lags by a write more sees what one that lagged by one less saw before the last write; without lag it sees the store |
| Organization.BootstrapWrites | server/internal/auth/login.go:525-559 | At the start only the bootstrap's own open-mode write is pending, and only if the server was started in open mode |
| Organization.CrossedDemotionsLeaveNoAdmin | server/internal/api/org.go:477-490 | Two admins who demote each other at the same time both pass the check and leave none |
| Organization.StaleRecordUndoesPromotion | server/internal/api/org.go:447-490 | A status patch, which needs no guard, writes back the role it loaded and undoes the promotion of the only admin left |
| Organization.OwnRecordUndoesPromotion | server/internal/api/me.go:140-186 | A language patch, or a login that refreshes the address, of a plain member undoes in the same way the promotion that has made the member the only admin left |
| Organization.StaleAddDemotesLastAdmin | server/internal/store/dynamodb/workspaces.go:133-148 | An addition checked while the user was no member demotes the workspace's last admin exactly where the store overwrites a member |
| Organization.StaleRemovalDropsLastAdmin | server/internal/api/workspaces.go:438-465 | A removal checked while the user was no member removes the workspace's last admin |
| Organization.CrossedCreationBreaksOpenMode | server/internal/api/org.go:193-209 | Enabling open mode and creating a workspace at the same time both pass and break the open-mode rule in either order |
| Organization.StaleSettingsRestoreOpenMode | server/internal/api/org.go:178-209 | A settings patch that leaves open mode alone writes back the value it loaded, and restores open mode over a workspace created meanwhile |
| OrganizationObject.CountOtherActiveAdmins | server/internal/api/org.go:549-563 | The loop counts exactly the other active admins, in whatever order the store lists users |
| OrganizationObject.CountOtherWSAdmins | server/internal/api/workspaces.go:477-485 | The loop counts exactly the other admins of the workspace |
| OrganizationObject.FindMember | server/internal/api/workspaces.go:102-114 | The scan finds the user's role in the workspace, or none |
| OrganizationObject.Handler.PatchUser | server/internal/api/org.go:442-510 | The handler with its counting loop answers and writes as specified, and keeps safety |
| OrganizationObject.Handler.UpdateOrgSettings | server/internal/api/org.go:159-214 | Open mode is switched on only when no workspace exists; switching off is always allowed |
| OrganizationObject.Handler.CreateWorkspace | server/internal/api/workspaces.go:175-196 | Refused in open mode; the creator becomes the workspace's admin |
| OrganizationObject.Handler.SetWorkspaceMember | server/internal/api/workspaces.go:366-411 | Adds or changes one membership, never demoting the last admin |
| OrganizationObject.Handler.RemoveWorkspaceMember | server/internal/api/workspaces.go:438-465 | Removes one membership, never the last admin's |
| OrganizationObject.Handler.DeleteWorkspace | server/internal/api/workspaces.go:290-316 | Deletes an empty workspace with its memberships |
| LogCapture.EachCaptureIsItsOwn | server/internal/invoke/logcapture.go:31-149 | In every interleaving each capture holds exactly the first 32768 bytes its own invocation wrote to each stream and its first 200 fetch decisions |
| LogCapture.OthersMakeNoDifference | server/internal/invoke/logcapture.go:73-128 | A capture is the same whatever other goroutines do |
| LogCapture.FirstOfAppended | server/internal/invoke/logcapture.go:31-41 | Truncating piece by piece is truncating the whole |
| LogCaptureObject.BoundedBuffer.Write | server/internal/invoke/logcapture.go:31-41 | Keeps the first 32768 bytes; the count returned is of the bytes kept unless the buffer was full |
| LogCaptureObject.InvocationTracker.Begin | server/internal/invoke/logcapture.go:102-109 | Registers a fresh, empty capture for the goroutine |
| LogCaptureObject.InvocationTracker.WriteTo | server/internal/invoke/logcapture.go:137-149 | A write reaches only the goroutine's own capture and stream |
| LogCaptureObject.InvocationTracker.RecordFetch | server/internal/invoke/logcapture.go:58-65 | A decision reaches only the goroutine's own capture |
| LogFollow.PrintLogsPage | internal/cli/logs.go:82-114 | Whatever the page: the backwards loop prints, oldest first, exactly its entries after the last one seen, and returns the greatest id printed |
| LogFollow.Poll | internal/cli/logs.go:56-73 | One turn of the loop prints exactly what is new among the newest 50, and remembers the greatest id printed so far |
| LogFollow.Follow | internal/cli/logs.go:56-73 | Any number of polls, whatever log each finds, prints poll by poll what is new on its page |
| LogFollow.NoRepeats | internal/cli/logs.go:24-31 | Printed ids are strictly increasing over all polls, so none is printed twice, and each was in the log at some poll |
| LogFollow.SeenIsGreatest | internal/cli/logs.go:95-114 | The id remembered is the greatest that any poll so far could find, though only a page of 50 is fetched and entries come late or are deleted |
| LogFollow.PrintedIff | internal/cli/logs.go:56-114 | An id is printed if and only if some poll finds it among the newest 50 and newer than all that the polls before it found |
| LogFollow.ArrivalPrintedIff | internal/cli/logs.go:56-114 | An entry is ever printed if and only if, at the first poll that finds it, it is newer than all found before and among the newest 50 |
| LogFollow.LosslessIff | internal/cli/logs.go:56-114 | Everything that arrives after the first poll is printed if and only if at most 50 entries arrive between any two polls and each is newer than all found before |
| LogFollow.LateEntryIsSkipped | server/internal/invoke/invoke.go:319-325 | An entry stored late under a smaller id is skipped |

## Left out

- The JavaScript engine, its event loop, HTTP, TLS, file watching and signals: their callbacks are steps that may come at any time.
- The tar and gzip byte formats: an archive is its sequence of names, types and contents; header errors and truncated streams do not occur.
- Cryptography and randomness: the two hash functions are uninterpreted, a fresh secret or id is one never used before, and the signature of a token is left out, so only claims and expiry are modelled.
- The store is a map whose operations are atomic and, except in Organization's interleaved requests, whose reads see every write before them; store errors are modelled only where a handler has its own branch for them.
- Deleting a workspace takes two statements in the SQL stores, and a query and a batch in DynamoDB (server/internal/store/sqlcommon/workspaces.go:57-65); here it is one write, so neither the moment in which the workspace is there without members nor a member added in that moment is modelled.
- Login rules, which can refuse a login or a request, and the other fields of a user: a request of a user's own that changes nothing, or is refused by them, has no step.
- OAuth clients, codes and grants, except that RevokeDevice may remove a grant.
- Goroutines that only start another critical section (evictAsync, Invalidate's closer) begin within the step that starts them; a pool is told apart by its incarnation, not by its key.
- Registration of a function's owner and manifest: a version keeps both for ever, and a workspace id is never used again.
- path.Match on one segment is an uninterpreted predicate; a malformed pattern counts as not matching.
- Broken links and unreadable directories end the walk with an error; EvalSymlinks failing after a successful Stat does not occur.
- ParsePattern and the IP-literal rules of the fetch policy: a pattern is given parsed, in lower case.
- Effective visibility is a minimum of three ranks and would add only easy members.
- Lower-casing beyond what can become an ASCII letter: sanitizing and host comparison see no difference.
- Names in archives, keys and User IDs are sequences of bytes, written as characters.
- A poll of the logs that fails ends the command.
- The clock of the login protocol never runs backwards. Device names are not modelled.
- The garbage collector of the blob store: as coded, versions are listed before blobs, so a deploy between the two looks unreferenced.
- HTML pages, the dashboard, configuration, cookies, metrics, MCP wrappers and flag parsing.
- UserId.DeriveUserID: takes a limit on the number of candidates, because the original loop need not end; UserIdSearch proves when it does, and the counter is unbounded except in HaltsIff and PunycodeNeverAccepted. Store failures during the search are not modelled.
- StreamObject.Worker.HostWrite: requires a generation that passes exactly through a float, as the original assumes; Stream.InexactGenerations says what happens beyond.
- AsyncExport.Export.Kick: ids stay below 2^53, because they travel through the guest as floats.
- WorkerPool.Pool.Close: is the sequential case with all workers in the channel; the interleaved case is the state machine in the same module.
- StreamObject.Worker.HostDone: requires an exact generation, as HostWrite does.
- StreamObject.Worker.HostFail: requires an exact generation, as HostWrite does.
- EffectiveCache.AnswersEqualRecomputing: assumes that settings updates of one level do not overlap; EffectiveCacheAnswers and EffectiveCacheOverlap say what holds when they do.
- Organization.AlwaysSafe: treats a request's check and write as one step; Organization.InterleavedSafeIff covers requests that interleave.
- BundlePack.Insert: stands for sort.Strings, on distinct names and on values instead of in place.
