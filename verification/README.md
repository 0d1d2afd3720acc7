# ZaneOps: routes, locks, stacks and logs

A Dafny model of four parts of the ZaneOps backend, with proofs of what they keep over all
inputs and all runs.

* **The proxy's route table.** Workers edit one shared, ordered list of Caddy routes with GET,
  PATCH and DELETE under `If-Match` (sections 13.1.1 and 15.5.13 of RFC 9110). `RouteTable` has the
  sort key and the upsert, `Routing` what the proxy does with a request, `ProxyServer` the machine
  of any number of clients, `ProxyRuns` what all its runs keep, `Installation` the runs from the
  table the installation leaves, `Registry` the calls for build registries, `ProxyClient` the retry
  loops as methods, `StackUrls` the validator of one stack's URLs, and `Paths` the normal form of
  base paths.
* **The semaphore** guarded by a cache lock: `Semaphore` is the machine, `SemaphoreRuns` its safety
  over all interleavings, `SemaphoreClient` the operations as loops over the shared cache.
* **The compose compiler and its change log.** `Values` models `${...}` substitution, `Overrides`
  the override table and its pending changes, `Redeploy` the difference of two snapshots,
  `EnvCompile` the `x-zane-env` section, `Configs` the versioned inline configs, `Services` the
  renaming and merging of services, `CloneUrls` the route domains of a clone. `Deployments`,
  `DeploymentRuns`, `RedeployPending`, `CloneDeploys` and `ComposeStack` put them together: one
  deployment, histories of a stack, a redeploy on top of pending changes, the first deployment of a
  clone, and the stack record that is updated in place.
* **Log pages and text chunks.** `LogPages` has cursor pagination and the context of one log;
  `Utf8` and `Chunks` have `truncate_utf8` over UTF-8 (section 3 of RFC 3629).

Loops and records of the source are methods and classes here. Each is proved to compute a function
of its inputs or of the state before, and the theorems are about that function. The machines take
lists of actions; an action that is not enabled changes nothing, so every list is an interleaving.

## Where the code does less than one would expect

The code is modelled as it is. Where a promise fails, an input that breaks it is given, and for all
inputs and runs the exact condition under which it holds.

* The route table is not always independent of arrival order, because the key knows a path only by
  its length (`RouteTable.CanonicalIffNoTies`, `RouteTable.EqualLengthPathsTie`). Routing still is
  (`Routing.RoutingIgnoresArrivalOrder`).
* The comments in `_sort_routes` put the frontend just before the catch-all. The branch for it asks
  for an id the front does not have, and the custom order is the last part of the key; the front has
  that place only under the condition of `Routing.FrontComesLastIff`, which a build registry breaks
  (`Routing.RegistryComesBehindFront`, `Routing.FrontIsNotAlwaysLast`).
* The installation puts the front before the API, and patching a registry in place does not sort
  (`Installation.InstalledTableIsOutOfOrder`, `ProxyRuns.InPlaceSortedIff`,
  `ProxyRuns.InPlaceCanUnsort`). Requests go to the longest prefix from the first upsert on, or once
  the front or the API is gone, and not before (`Installation.InstalledRoutesByPrefixIff`).
* A refused registry call retries with the etag it already has (`Registry.RetriesAreUseless`).
* The URL validator compares domains and base paths as they are written. The proxy normalises base
  paths and does not mind letter case (`StackUrls.UniqueWinnersIff`,
  `StackUrls.TrailingSlashIsAccepted`, `StackUrls.OtherCaseIsAccepted`).
* `release` gives up when the lock is busy. Those slots are lost until `reset`
  (`SemaphoreRuns.SlotsAreConserved`, `SemaphoreRuns.LostReleasesStarve`,
  `SemaphoreRuns.ReleaseCanBeLost`).
* A redeploy that swaps keys between rows is refused by the database
  (`Redeploy.RedeployRestoresIff`, `Redeploy.SwappedKeysFail`).
* A redeploy on top of pending changes adds to them and does not replace them: a pending content wins
  over the snapshot's, a pending deletion goes through, and the replay can hide a name
  (`RedeployPending.RowsComeBackIff`, `RedeployPending.RedeployOverPendingIff`,
  `RedeployPending.PendingDeleteSurvivesRedeploy`, `RedeployPending.LateDeleteHidesName`).
* The preview of a rename keeps the old key (`Overrides.PreviewMatchesIff`,
  `Overrides.RenameStrandsItsKey`), and with two changes for one row the compiler can see what the
  table does not have (`Overrides.ReplayIsNoOpIff`, `Overrides.SecondChangeForARowBreaksReplay`).
* An exposed variable that refers to another one changes what its readers see from the first
  deployment to the second (`EnvCompile.RecompileSeesSameEnvironIff`,
  `EnvCompile.OpenExposedValueDrifts`), and not after that
  (`DeploymentRuns.ThirdDeployChangesNothing`).
* A config that keeps its name can look like the versioned name of another
  (`Configs.ReferencesResolveIff`, `Configs.LookalikeLosesConfig`), and one that is dropped and comes
  back uses its first names again (`Configs.SameNameIff`, `Configs.DroppedConfigReusesName`).
* A dependency that spells out another service's new name becomes an edge
  (`Services.EdgesPreservedIff`, `Services.SpelledNameAddsEdge`).
* Cloning misses a label made of several variables in one case (`CloneUrls.CloneIsCompleteIff`,
  `CloneUrls.CompositeLabelIsMissed`), and cloning a clone can give two routes one variable
  (`CloneUrls.LabelsShareIff`, `CloneUrls.CloneOfCloneSharesVariable`).
* Following `next` skips logs when a page break falls between logs of one timestamp
  (`LogPages.WalkVisitsAllIff`, `LogPages.TieIsSkipped`), and going there and back then ends on
  another page (`LogPages.NextThenPreviousIff`, `LogPages.TieIsComeBackTo`).
* `truncate_utf8` runs forever when a character is wider than the limit (`Chunks.EndsIff`,
  `Chunks.WideCharacterLoops`).

## Assumptions

* An etag is a digest without collisions; proxy responses are success, 404 or 412. A wildcard host
  matches exactly one leading label. Hosts and paths match without regard to the case of the letters
  A to Z; other letters compare as they are. A path pattern that ends in `*` stands for all paths
  that start with the text before its final stars, where any other star is taken as itself. The list
  of route ids is given: ids are not computed from URLs.
* No cache key expires, critical sections finish, and only a holder calls `release`. `reset` revokes
  every holder.
* A value of a compose file is a list of pieces (text, `${name}`, `{{ env.name }}`, a template
  expression) and `expand` is one pass over it with unset variables empty. Generators return
  arbitrary values. Pending changes are taken in the order they were requested. The deploy views run
  in one transaction.
* A request is checked as the change serializers check it (`DeploymentRuns.Checked`): a change names
  a row with its current value, and no pending change names that row yet
  (backend/compose/views/serializers.py:442-468). A redeploy on top of pending changes is not checked
  so and not part of the checked runs; it is modelled on its own (`ComposeStack.Stack.Redeploy`,
  `RedeployPending`).
* The log store does not change while a reader pages, its existence probes have no time limit, and
  Loki and the client order logs by timestamp and creation time, which together are unique. The
  timestamps are those the store holds.
* A text has no lone surrogates.

## Model

| member | source | states |
|---|---|---|
| Text.NumberSuffixUnique | backend/compose/processor.py:1181 | A text ending in a non-digit followed by a decimal number decodes in one way only, so `{name}_v{version}` does. |
| Text.DecimalReads | backend/compose/processor.py:1181 | The rendering of a number reads as that number, without leading zeros. |
| Text.LexLeIff | backend/temporal/proxy.py:97-107 | Host texts compare as Python compares them: a prefix first, else by the first code point that differs. |
| Text.LowerCharIs | backend/compose/processor.py:149-175 | The letters of the alphabet are folded and nothing else is. |
| RouteTable.KeyTotalOrder | backend/temporal/proxy.py:97-107 | The sort key of a route is totally ordered: any two keys compare, both ways only if equal, and transitively. |
| RouteTable.SortSorts | backend/temporal/proxy.py:97-107 | Sorting gives an ordered list with the same routes. |
| RouteTable.SortIsStable | backend/temporal/proxy.py:97-107 | Routes of one key keep the order they came in, as with Python's `sorted`. |
| RouteTable.SortedUnique | backend/temporal/proxy.py:97-107 | An ordered list is determined by the routes of each key in their order. |
| RouteTable.CanonicalIffNoTies | backend/temporal/proxy.py:50-107 | The table is independent of arrival order (every permutation sorts alike) exactly when no two different routes have one key. |
| RouteTable.EqualLengthPathsTie | backend/temporal/proxy.py:82-88 | Distinct path and host are not enough: `/ab*` and `/cd*` on one host tie and keep their arrival order. |
| RouteTable.UpsertContents | backend/temporal/proxy.py:320-332 | An upsert leaves an ordered table that holds the new route and exactly the old routes of other ids. |
| RouteTable.UpsertKeepsUnique | backend/temporal/proxy.py:320-332 | An upsert never puts two routes with one id in the table. |
| RouteTable.UpsertKeepsOrder | backend/temporal/proxy.py:320-332 | The new route comes behind the old ones of its key, and the old ones of each key keep their order. |
| RouteTable.WithoutConcat | backend/temporal/proxy.py:320-326 | Filtering out an id goes through the table in order. |
| RouteTable.UpsertIdempotent | backend/temporal/proxy.py:748-765 | Upserting one route twice is upserting it once. |
| RouteTable.UpsertsCommuteIff | backend/temporal/proxy.py:748-765 | Upserts of two different ids commute, on every table, exactly when the two routes have different keys. |
| Routing.FirstMatchIs | backend/temporal/proxy.py:97-107 | The proxy picks a route iff one matches, and then the first that matches. |
| Routing.PathMatchesIff | backend/temporal/proxy.py:590-594 | A pattern of a stem and one star matches the paths that go on from the stem, one without a final star its own path alone, an absent one all, letter case aside. |
| Routing.CatchAllAnswers | backend/temporal/proxy.py:58-60 | With the catch-all in the table no request stays without an answer. |
| Routing.FirstMatchIsLongestPrefix | backend/temporal/proxy.py:74-107 | In an ordered table the first match has the longest path prefix of all matching routes, and the catch-all without a matcher is picked only when no route with one matches. |
| Routing.ExactPathWins | backend/temporal/proxy.py:82-88 | Of an exact path and a pattern with the same prefix that both match, the exact one is picked. |
| Routing.TiedMatchersAgree | backend/temporal/proxy.py:82-95 | Two routes that tie and both match a request have one matcher, letter case aside. |
| Routing.RoutingIgnoresArrivalOrder | backend/temporal/proxy.py:97-107 | Two ordered tables of the same routes, no two with one matcher (letter case aside), route every request alike, whatever the arrival order. |
| Routing.FrontHasNoPlaceOfItsOwn | backend/temporal/proxy.py:65-67 | The branch for the frontend asks for an id under which the front is not registered, so the front has the custom order of any route. |
| Routing.FrontComesLastIff | backend/temporal/proxy.py:58-72 | In a sorted table all other routes with a matcher come before the front, or tie with it, exactly when none has an empty prefix and none at the root path is on a later host or, on the same host, under an id with a custom order; routes without a matcher always come behind it. |
| Routing.RegistryComesBehindFront | backend/temporal/proxy.py:461-463 | In every sorted table a build registry, routed by host alone, stands behind the front. |
| Routing.FrontIsNotAlwaysLast | backend/temporal/proxy.py:65-67 | The table of the front, one registry and the catch-all is sorted, and the front is not the last route with a matcher. |
| Routing.ApiStandsBehind | backend/temporal/proxy.py:61-67 | In a sorted table the API stands behind any other route with its matcher. |
| Routing.HostMatchesIff | backend/zane_api/utils.py:538-552 | The host patterns that match a name are that name and its `domain_to_wildcard`, letter case aside, and no others. |
| StackUrls.CollectRoutes | backend/compose/processor.py:1040-1132 | The collecting loop succeeds iff every route passes the serializer and no two share domain and base path; it then returns them all in order. |
| StackUrls.FormAcceptsIff | backend/zane_api/serializers.py:35-40 | The route serializer takes a route exactly when it has a domain, passes the other checks, and its stripped path starts with a slash and has no component with a star or two dots that is left when `.` and `..` are resolved. |
| Paths.SplitJoin | backend/zane_api/serializers.py:38-40 | Splitting a path at slashes loses nothing. |
| Paths.StripIs | backend/zane_api/serializers.py:39-39 | Stripping takes white space away at both ends, all of it and nothing else. |
| Paths.AsciiSpace | backend/zane_api/serializers.py:39-39 | Of the ASCII characters the blank, tabs, line and page breaks and separators are white space. |
| Paths.SlashesAre | backend/zane_api/serializers.py:40-40 | Two slashes in front of a path stay two; one, or more than two, become one. |
| Paths.DotDotTakesLast | backend/zane_api/serializers.py:38-40 | A `..` takes the ordinary component before it away. |
| Paths.NormPathTwice | backend/zane_api/serializers.py:38-40 | Normalising an absolute path twice is normalising it once. |
| Paths.NoStarAtTheEnd | backend/zane_api/serializers.py:35-40 | A base path whose normal form has no star does not end in one either, not counting slashes, though the route keeps it as it was written. |
| StackUrls.FindShadow | backend/compose/processor.py:1134-1158 | The second loop refuses the stack iff some route's wildcard is routed at the same base path. |
| StackUrls.ValidateAndExtract | backend/compose/processor.py:1001-1160 | A stack is accepted iff all routes pass the serializer, none repeats and none is shadowed. |
| StackUrls.UniqueWinnersIff | backend/compose/processor.py:1096-1158 | Every request has at most one longest-prefix winner among a stack's routes exactly when the two checks pass on the domains and base paths as the proxy compares them: normalised and letter case aside. |
| StackUrls.AcceptedStackHasUniqueWinners | backend/compose/processor.py:1096-1158 | With URLs in normal form (lower case, base path without a final slash) an accepted stack has one winner for every request. |
| StackUrls.TrailingSlashIsAccepted | backend/temporal/proxy.py:590-594 | Without normal form that fails: `/a` and `/a/` are accepted together and then compete for the same requests. |
| StackUrls.OtherCaseIsAccepted | backend/compose/processor.py:1096-1101 | So do `X.io` and `x.io`: the check within a stack compares the text as written, the proxy (and the check against other stacks) does not mind letter case. |
| StackUrls.StackRequestsGoToTheWinner | backend/temporal/proxy.py:90-107 | In an ordered table that holds a stack's routes among others, a request for the stack goes to its one winner, or to a route of somebody else with as long a prefix, so host order never decides within a stack. |
| ProxyServer.RunKeepsInv | backend/temporal/proxy.py:302-376 | Every action of every client keeps: the table is the fold of the log, and each refusal of a running call spans an interval in which only others wrote and what the call had read (the table, or the one route it removes) changed. |
| ProxyRuns.TableIsFoldOfWrites | backend/temporal/proxy.py:302-391 | Under any interleaving of any number of clients the table is the starting table with the successful writes applied in commit order. |
| ProxyRuns.IdsStayUnique | backend/temporal/proxy.py:320-332 | No interleaving puts two routes with one id in the table. |
| ProxyRuns.UpsertSurvives | backend/temporal/proxy.py:730-783 | A committed upsert stays in the table, as the only route of its id, until a later write to that id. |
| ProxyRuns.GivingUpMeansOvertaken | backend/temporal/proxy.py:309-376 | A call that raises the etag error was overtaken: for each of its three refusals another client made a write that changed what the call had read (the table for an upsert, its route for a removal) between that attempt's GET and its PATCH or DELETE, three different writes, the first after the call began. |
| ProxyRuns.RemovalLosesToItsOwnRoute | backend/temporal/proxy.py:352-376 | A removal that raises was overtaken by three writes of others to the very route it was to remove. |
| ProxyRuns.EveryTableRoutesByLongestPrefix | backend/temporal/proxy.py:50-107 | At every moment of every run each request goes to a matching route with the longest prefix, with registry routes patched in place included, if the table was in order at the start or any upsert has gone through; registry ids are used for routes without a path only. |
| Installation.InstalledRoutesByPrefixIff | backend/backend/bootstrap.py:336-355 | From the table the installation leaves on, in every run, each request goes to a matching route with the longest prefix exactly when some upsert has gone through or the front or the API has been taken away. |
| Installation.InstalledTableIsOutOfOrder | backend/backend/bootstrap.py:336-355 | So the installed table itself does not route so: the front gets the requests for the API. |
| ProxyRuns.RegistriesKeepPaths | backend/temporal/proxy.py:461-463 | A registry route patched in place has the path it had: none. |
| ProxyRuns.InPlaceSortedIff | backend/temporal/proxy.py:492-499 | Patching a route in place keeps a sorted table sorted exactly when its new key is not below that of a route before it nor above that of a route behind it. |
| ProxyRuns.InPlaceCanUnsort | backend/temporal/proxy.py:492-499 | So a registry whose domain moves past the next one's leaves the table out of order. |
| Registry.KnownRegistryIsPatched | backend/temporal/proxy.py:474-500 | Undisturbed, `upsert_registry_url` replaces the route of a known registry where it stands. |
| Registry.NewRegistryIsUpserted | backend/temporal/proxy.py:501-520 | And it upserts one that has none as any other route. |
| Registry.RetriesAreUseless | backend/temporal/proxy.py:477-499 | The etag is read once before the loop: after one refusal both retries are refused too, even when nobody else writes any more. |
| ProxyClient.ProxyAdmin.GetRoutes | backend/temporal/proxy.py:315-318 | The GET returns the table and its etag and is one step of the machine. |
| ProxyClient.ProxyAdmin.PatchRoutes | backend/temporal/proxy.py:334-339 | The PATCH replaces the table iff the etag is still that of the table, and answers 412 otherwise. |
| ProxyClient.ProxyAdmin.DeleteRoute | backend/temporal/proxy.py:365-370 | The DELETE removes the route iff it is still as read; a changed one answers 412, a missing one 404. |
| ProxyClient.ProxyAdmin.TryUpsert | backend/temporal/proxy.py:313-342 | One turn of the upsert loop either writes the route once or is refused and writes nothing, whatever others do in between. |
| ProxyClient.ProxyAdmin.UpsertServiceUrl | backend/temporal/proxy.py:303-346 | The upsert loop is a run of the machine: it writes exactly once if it returns, and nothing, after three refusals, if it raises. |
| ProxyClient.ProxyAdmin.TryRemove | backend/temporal/proxy.py:356-372 | One turn of the removal loop deletes once, finds the route gone, or is refused and writes nothing. |
| ProxyClient.ProxyAdmin.RemoveServiceUrl | backend/temporal/proxy.py:352-376 | The removal loop deletes at most once; if it returns without deleting, the route had gone; if it raises it wrote nothing. |
| ProxyClient.StaleIdsAre | backend/temporal/proxy.py:617-623 | A cleanup picks exactly the ids found in the table that start with the stack's id and are not among its present routes. |
| ProxyClient.ProxyAdmin.CleanUpUrls | backend/temporal/proxy.py:596-631 | A cleanup is a run of the machine that deletes no other ids than those it picked from the table it read, and each of them is gone at some moment after that read, whatever others do meanwhile. The deletions run one after the other, as the gathered coroutines never wait. |
| Semaphore.RunKeepsInv | backend/temporal/semaphore.py:21-89 | Every interleaving of the cache operations of any number of processes keeps the counter, the lock and each process's progress consistent. |
| SemaphoreRuns.SlotsAreConserved | backend/temporal/semaphore.py:21-53 | In every reachable state the counter is the slots held plus the releases lost to a busy lock, and never above the limit. |
| SemaphoreRuns.LockExcludes | backend/temporal/semaphore.py:21-25 | No two processes are inside the lock at once. |
| SemaphoreRuns.LimitOneExcludes | backend/temporal/activities/registries.py:80-101 | With limit 1 no two processes hold the semaphore at once. |
| SemaphoreRuns.AllSlotsAlone | backend/temporal/semaphore.py:69-84 | A process that holds every slot is the only holder. |
| SemaphoreRuns.NobodyEntersWhileAllHeld | backend/temporal/semaphore.py:69-89 | While a process holds every slot, no run lets anyone else in before it releases or somebody resets. |
| SemaphoreRuns.LostReleasesStarve | backend/temporal/semaphore.py:44-53 | Once as many releases are lost as the limit, nobody ever holds a slot again in a run without `reset`. |
| SemaphoreRuns.ReleaseCanBeLost | backend/temporal/semaphore.py:44-45 | A run of two processes with limit 1 loses its one slot, and meets all that starvation needs. |
| SemaphoreRuns.AcquireSucceedsIff | backend/temporal/semaphore.py:27-42 | An undisturbed `acquire` gains a slot exactly when held slots and lost releases together are below the limit. |
| SemaphoreRuns.AcquireAllSucceedsIff | backend/temporal/semaphore.py:69-89 | An undisturbed `acquire_all` gains every slot exactly when none is held or lost. |
| SemaphoreRuns.ResetFreesAll | backend/temporal/semaphore.py:55-67 | An undisturbed `reset` by an idle process zeroes the counter, revokes every holder, forgets the lost releases and leaves the lock free. |
| SemaphoreRuns.ResetEndsStarvation | backend/temporal/semaphore.py:55-67 | After it whoever asks for a slot gets one, lost releases or not. |
| SemaphoreClient.SharedCache.Acquire | backend/temporal/semaphore.py:27-42 | The bounded `acquire` loop is a run of the machine in which the process makes just this call; it returns true only with a slot held. |
| SemaphoreClient.SharedCache.AcquireAll | backend/temporal/semaphore.py:69-89 | The bounded `acquire_all` loop is such a run too; true means this process alone holds all slots. |
| SemaphoreClient.SharedCache.Release | backend/temporal/semaphore.py:44-53 | `release` gives the slot back iff the lock was free at its one try; otherwise the counter stays and the slot is lost. |
| SemaphoreClient.SharedCache.Reset | backend/temporal/semaphore.py:55-67 | The waiting loop of `reset`, watched for any number of turns among whatever others do: done means that the counter is 0, no slot is held and none is lost; otherwise it still waits. |
| Values.ClosedIsFixed | backend/compose/processor.py:641-653 | A value without placeholders is unchanged by both substitutions. |
| Values.ClosedIff | backend/compose/processor.py:641-653 | The values without placeholders are just those that no substitution changes. |
| Values.ExpandDependsOn | backend/compose/processor.py:641-648 | Only the variables a value mentions matter to its expansion. |
| Values.ExpandConcat | backend/compose/processor.py:641-648 | Expansion goes through a value piece by piece, from left to right. |
| Values.SubstituteConcat | backend/compose/processor.py:649-653 | So does putting in shared variables. |
| Overrides.ApplyAllKeepsUnique | backend/compose/models.py:199-221 | Applying changes keeps keys unique and ids new. |
| Overrides.UnnamedStays | backend/compose/models.py:199-221 | A row that no change names keeps its id, key and value. |
| Overrides.ReplayIsNoOp | backend/compose/processor.py:600-616 | When each row is changed at most once, replaying the changes over the table they are already applied to gives exactly the table's own override map. |
| Overrides.ReplayIsNoOpIff | backend/compose/processor.py:605-616 | Replaying changes leaves an override map as it is exactly when, for each key, the last change that sets or deletes it agrees with the map. |
| Overrides.SecondChangeForARowBreaksReplay | backend/compose/processor.py:605-616 | With two changes for one row the replay shows the compiler a value the table does not have. |
| Overrides.PreviewMatchesIff | backend/compose/processor.py:605-616 | Replaying pending changes over the untouched table agrees with applying them exactly when every key a rename leaves behind is set again later. |
| Overrides.RenameStrandsItsKey | backend/compose/processor.py:610-616 | A single rename is such a case: the preview keeps the old key. |
| Redeploy.NewChanges | backend/compose/views/stacks.py:694-731 | The view's loops compute the difference of the two snapshots. |
| Redeploy.EditsApply | backend/compose/views/stacks.py:700-721 | The deletes and updates go through exactly when no kept row takes a key a later row still has; the common rows then have their target values. |
| Redeploy.AddsApply | backend/compose/views/stacks.py:722-731 | Entries with new and distinct keys are all added, and rows already there stay. |
| Redeploy.RedeployRestoresIff | backend/compose/views/stacks.py:678-742 | With no changes pending, the computed changes go through exactly under that condition and then give the target's keys and values, with every common id kept. |
| Redeploy.KeptKeysRedeploy | backend/compose/views/stacks.py:700-721 | When entries with one id keep their key the condition always holds. |
| Redeploy.SwappedKeysFail | backend/compose/models.py:401-402 | Two rows that swapped keys cannot be restored: the first rename meets the unique constraint. |
| EnvCompile.CompileEnv | backend/compose/processor.py:620-653 | The two loops give each variable its override, generated or own value, then expand all of them in the environment the first loop leaves. |
| EnvCompile.OnePieceSettles | backend/compose/processor.py:620-653 | A variable without an override that is written as one piece settles to what that piece stands for: a shared variable to its value, or to itself if unknown; a variable of the section to the value given to it, or to nothing; a text to itself. |
| EnvCompile.OnlyTemplatesGenerate | backend/compose/processor.py:620-634 | Only a value that is one whole template expression, and has no override, is generated. |
| EnvCompile.PartsSettle | backend/compose/processor.py:641-653 | A value put together from two settles to what the two settle to, in order. |
| EnvCompile.SettledIsFilled | backend/compose/processor.py:649-653 | With closed shared values no settled variable still holds a shared variable that is set. |
| EnvCompile.RecompileGeneratesNothing | backend/compose/processor.py:620-634 | After its exposed values were stored, compiling the section again exposes nothing, whatever the generators would return. |
| EnvCompile.RecompileSeesSameEnvironIff | backend/compose/processor.py:640-653 | That second compile expands in the same environment exactly when each exposed value was unchanged by its own expansion. |
| EnvCompile.RecompileIsStable | backend/compose/processor.py:640-653 | Then every value of the section is what it was. |
| EnvCompile.ClosedExposedAreFixed | backend/compose/processor.py:640-653 | Values without placeholders satisfy that condition. |
| EnvCompile.OpenExposedValueDrifts | backend/compose/processor.py:631-653 | A `__` variable that refers to another changes what its readers see from the first compile to the second. |
| Configs.ExtractConfigContents | backend/compose/processor.py:959-998 | The loop gives a new config version 1, raises a changed one by one and keeps an unchanged one. |
| Configs.StoredIsExpanded | backend/compose/processor.py:959-998 | Each inline config is stored with its content expanded, an external one is not stored. |
| Configs.VersionCountsChanges | backend/compose/processor.py:979-996 | While a config stays present its version rises by exactly the number of content changes. |
| Configs.SameVersionIffSameContent | backend/compose/processor.py:979-996 | Two deployments between which a config stayed present give it one versioned name exactly when its content never changed in between. |
| Configs.VersionIs | backend/compose/processor.py:979-996 | The version of a config is one more than the number of times its content changed since it last came in. |
| Configs.SameNameIff | backend/compose/processor.py:979-996 | Two deployments of a history give a config one versioned name exactly when its content had changed equally often since it last came in, whether or not it was dropped in between. |
| Configs.DroppedConfigReusesName | backend/compose/processor.py:980-984 | A config that is dropped and added again starts over, so one name comes to mean two contents. |
| Configs.ApplyConfigVersioning | backend/compose/processor.py:1163-1203 | The two loops rename the config section in order and rewrite each service reference to a config of the file. |
| Configs.ReferencesResolveIff | backend/compose/processor.py:1173-1203 | Every reference resolves to the same config before and after renaming exactly when no config that keeps its name is called like another's versioned name. |
| Configs.LookalikeLosesConfig | backend/compose/processor.py:1189-1191 | An external config called `a_v1` takes the place of the first version of `a`, and references to `a` then lead to it. |
| Deployments.RequestedIs | backend/compose/models.py:180-194 | After `add_change` the latest requested content is the one deployed next, override changes keep their order, and at most one content change waits. |
| Deployments.NewEntriesFit | backend/compose/models.py:244-267 | Storing what a compile exposes never violates the unique key and leaves every row as it was. |
| Deployments.DeployStoresWhatItGenerates | backend/compose/models.py:196-271 | A deployment of checked changes fails only if the changes themselves break the key constraint; otherwise the compiler saw the table's own values, every row is kept, each exposed value is stored, and versions advance. |
| DeploymentRuns.ThirdDeployChangesNothing | backend/compose/models.py:196-271 | From the second deployment on, deploying with no changes requested changes no row, content or config version. |
| DeploymentRuns.SecondDeployChangesNothing | backend/compose/models.py:196-271 | Already the second one changes nothing if each exposed value was unchanged by its own expansion. |
| DeploymentRuns.DeployedSettles | backend/compose/models.py:244-267 | After a deployment every name the section generates or exposes has an override. |
| DeploymentRuns.DiffIsWellFormed | backend/compose/views/stacks.py:695-731 | The changes a redeploy computes name rows of the table with their current values, each at most once. |
| DeploymentRuns.RedeployRestoresSnapshot | backend/compose/views/stacks.py:678-742 | A redeploy with no changes pending brings back the snapshot's content, keys and values with nothing generated anew, exactly when no kept row takes a key a later row still has. |
| DeploymentRuns.RedeployGoesBack | backend/compose/views/stacks.py:678-742 | Whatever was requested and deployed since, redeploying a snapshot brings back the content, keys and values of the state it was taken of, under that condition. |
| RedeployPending.RowsComeBackIff | backend/compose/views/stacks.py:678-738 | Once the pending changes and those of the redeploy have gone through, the rows are those of the snapshot exactly when the pending changes bring what they take: the entries they add, or give rows that are as in the snapshot now, are those they take from such rows or delete. |
| RedeployPending.RedeployOverPendingIff | backend/compose/models.py:196-267 | Over such pending changes a redeploy restores the snapshot exactly when all changes go through one after the other, a content that was pending is the snapshot's, and replaying the changes over the snapshot's values hides no name that the content generates a value for. |
| RedeployPending.RedeployOfNowIsDeploy | backend/compose/views/stacks.py:678-742 | Redeploying the snapshot the stack is at, whatever is pending, is a plain deployment of what is pending. |
| RedeployPending.PendingDeleteSurvivesRedeploy | backend/compose/views/stacks.py:701-731 | So a pending deletion keeps a row of the snapshot from coming back. |
| RedeployPending.LateDeleteHidesName | backend/compose/processor.py:605-616 | A deletion and a rename to the same name, pending, and a redeploy of the state they lead to: all changes go through, but the compiler generates a value for the name again, which the database refuses. |
| DeploymentRuns.RowIsSticky | backend/compose/models.py:196-271 | Through any run of requests and deployments, successful or not, a row no change names keeps its key and value. |
| DeploymentRuns.CheckedRunsStaySound | backend/compose/views/serializers.py:442-468 | In every run of checked requests and of deployments the pending changes name rows with their current values, none of them twice. |
| DeploymentRuns.GeneratedNeverCollide | backend/compose/models.py:244-267 | At any moment of such a run a deployment fails only if the pending changes themselves break the key constraint, and a successful one leaves nothing to generate. |
| DeploymentRuns.GeneratedValueIsStored | backend/compose/models.py:257-267 | Each value a deployment exposes has its own row afterwards. |
| DeploymentRuns.StoredValueIsSticky | backend/compose/processor.py:600-627 | At any deployment after a run of checked requests and of deployments none of which edits its row, the compile uses the stored value for its name and generates nothing for it. |
| DeploymentRuns.VersionsFollowDeployments | backend/compose/models.py:240-242 | Over any run the stored config versions are those of the successful deployments in order. |
| ComposeStack.Stack.AddChange | backend/compose/models.py:180-194 | The stored list of pending changes becomes the requested one. |
| ComposeStack.Stack.ApplyOverrideChanges | backend/compose/models.py:199-221 | The loop applies the changes to the table in order, or stops at a row the database refuses. |
| ComposeStack.Stack.CollectOverrides | backend/compose/processor.py:600-616 | The compiler's loops give the rows' map with the unapplied changes replayed over it. |
| ComposeStack.Stack.ApplyPendingChanges | backend/compose/models.py:196-271 | The record afterwards is what the deploy step says; if the database refuses a row it is as before. |
| ComposeStack.Stack.Redeploy | backend/compose/views/stacks.py:678-742 | The view adds the computed changes to whatever is pending and deploys; the record afterwards is what the deploy step says, or as before. |
| Services.ProcessServices | backend/compose/processor.py:590-598 | The loops leave exactly the file's services under their new names, each with its dependencies on services of the file renamed and the rest as written. |
| Services.RenameDependencies | backend/compose/processor.py:737-744 | A dependency is renamed iff it names a service of the file. |
| Services.EdgesPreservedIff | backend/compose/processor.py:737-744 | Renamed services depend on one another exactly as the originals did, if and only if no service spells out another's new name without depending on it. |
| Services.SpelledNameAddsEdge | backend/compose/processor.py:739-744 | A dependency that spells out a new name becomes an edge that the file did not have. |
| Services.ClosedFileIsSafe | backend/compose/processor.py:737-744 | A file whose dependencies all name its own services meets that condition. |
| Services.Reconcile | backend/compose/processor.py:797-818 | The loop deploys each user service under its new name, merged with its computed self. |
| Services.OneServiceEach | backend/compose/processor.py:797-818 | There are exactly as many deployed services as user services. |
| Services.EveryServiceIsThere | backend/compose/processor.py:797-818 | Each user service is deployed under its new name with its own merged fields. |
| Services.DeployedFields | backend/compose/processor.py:797-818 | Field by field a user service is deployed with what was computed for the service of its new name, else with what the user set; `environment` is the computed one, quoted; a service that was not computed is as the user wrote it. |
| Services.MergedIs | backend/compose/processor.py:804-816 | A field the user set is the computed one where there is one and the user's otherwise, other fields stay computed, and `environment` is never taken from the user but quoted from the computed service. |
| Services.EnvironmentIsUsers | backend/compose/dtos.py:192-212 | Each variable whose last entry has a value is deployed with that text in quotes, booleans as `true` and `false`; one whose last entry has none is not deployed. |
| Services.EnvironmentLostIff | backend/compose/dtos.py:290-297 | The deployed service has no environment exactly when no variable ends with a value. |
| CloneUrls.ReplaceStackUrls | backend/compose/processor.py:491-541 | The nested loops are one pass over all labels of all services with one running index, and keep the number of labels of each. |
| CloneUrls.CloneIsCompleteIff | backend/compose/processor.py:502-537 | After the pass every route domain resolves to the `generate_domain` template, and a second pass is idle, exactly when no kept label mentions a variable the pass sets only later. |
| CloneUrls.PassIsIdleIff | backend/compose/processor.py:528-533 | A pass changes nothing exactly when every route domain is generated already. |
| CloneUrls.PlainLabelsAreComplete | backend/compose/processor.py:502-537 | With labels that are literal or one variable the pass is complete and idempotent. |
| CloneUrls.SetNamesAreComplete | backend/compose/processor.py:502-537 | So it is if no label of several pieces mentions a reserved name that the section lacks or leaves empty, which can be read off the file. |
| CloneUrls.CompositeLabelIsMissed | backend/compose/processor.py:519-533 | A label made of two variables can stop resolving after the pass looked at it. |
| CloneUrls.NewVariablesDiffer | backend/compose/processor.py:530-533 | No two labels replaced in one pass share a variable. |
| CloneUrls.LabelsShareIff | backend/compose/processor.py:502-533 | After a pass two labels share a variable exactly when both stayed and shared one before, or one stayed and mentioned the variable the other was given: the one of its route and of the number of labels replaced before it. |
| CloneUrls.NewVariablesAreOwn | backend/compose/processor.py:502-533 | In a file that mentions no reserved name a replaced label shares its variable with no other label. |
| CloneUrls.CloneOfCloneSharesVariable | backend/compose/processor.py:502 | The index starts over with each pass, so cloning a clone can give two routes one variable. |
| CloneDeploys.ClonedRouteIsFresh | backend/compose/processor.py:1037-1077 | A clone's deployment gives every route whose label is one variable a newly generated domain, not the original's: its variable settles to the generated value, and the label expands to it in the settled section. |
| CloneDeploys.CopiedOverrideStays | backend/compose/models.py:307-330 | Every other override comes along: the clone uses its value and generates nothing for it. |
| LogPages.Search | backend/search/loki_client.py:77-231 | A search returns the stretch of the store its cursor and range select, newest first, with the cursors the two probes give. |
| LogPages.HitsAreInWindow | backend/search/loki_client.py:77-231 | Whatever lies in the store, a page shows at most `size` logs, newest first, all from the time range its cursor selects. |
| LogPages.HitsAreNearest | backend/search/loki_client.py:77-231 | If a page leaves a log of that range out it is full, and the log is older than all it shows, or newer when going back. |
| LogPages.NextProbe | backend/search/loki_client.py:137-161 | There is no next cursor iff no log is older than the last one shown; otherwise it has the time of the newest older log. |
| LogPages.PreviousProbe | backend/search/loki_client.py:167-196 | There is no previous cursor iff no log is newer than the first one shown; otherwise it has the time of the oldest newer log. |
| LogPages.EndBoundFalls | backend/search/loki_client.py:493-499 | Each page's end bound is lower than the one before. |
| LogPages.WalkVisitsAllIff | backend/search/loki_client.py:137-161 | Following `next` shows every older log once, newest first, exactly when no page break falls between logs of one timestamp. |
| LogPages.TieIsSkipped | backend/search/loki_client.py:143-148 | Two logs of one timestamp and pages of one log: the second log is never shown. |
| LogPages.WalkVisitsAll | backend/search/loki_client.py:137-161 | With distinct timestamps the walk from the first page is the whole store, for every page size. |
| LogPages.NextThenPreviousIff | backend/search/loki_client.py:484-507 | Going `next` and then `previous` from any page shows it again exactly when no log behind it shares the timestamp of its last one. |
| LogPages.PreviousThenNextIff | backend/search/loki_client.py:484-507 | Going `previous` and then `next` shows the page again exactly when no log before it shares the timestamp of its first one. |
| LogPages.PreviousOfNext | backend/search/loki_client.py:484-507 | On a page reached by `next` that is always so. |
| LogPages.TieIsComeBackTo | backend/search/loki_client.py:484-507 | Three logs, two of one timestamp, and pages of one log: `next` and then `previous` comes back to another page. |
| LogPages.GetContext | backend/search/loki_client.py:255-412 | The context is just the logs of one stretch of the store, oldest first, with the two counts on either side of the timestamp. |
| LogPages.ContextIsCentred | backend/search/loki_client.py:286-310 | For a log of the store the stretch reaches `lines` logs to either side of it, or to the end. |
| Utf8.DecodeEncoded | backend/zane_api/utils.py:380-381 | Decoding an encoded text gives it back, so `errors="ignore"` ignores nothing. |
| Utf8.StrayByteIsIgnored | backend/zane_api/utils.py:380-381 | A byte that starts no character, in front of an encoded text, is ignored. |
| Utf8.BytesOfOne | backend/zane_api/utils.py:365-375 | Of the bytes of one character the first is no continuation byte and all others are. |
| Utf8.EncodeIsShortest | backend/zane_api/utils.py:352-383 | Of all byte sequences that spell a character its encoding is the shortest and the only one of its length, as section 3 of RFC 3629 demands. |
| Utf8.DecodeHalves | backend/zane_api/utils.py:380-381 | Cutting the bytes where a character ends cuts the text there. |
| Chunks.LastBoundary | backend/zane_api/utils.py:363-377 | Going back over continuation bytes ends where the last character that fits ends. |
| Chunks.OneTurn | backend/zane_api/utils.py:354-383 | One turn splits the text in two without loss; with a too wide character in front it makes no progress. |
| Chunks.TruncateUtf8 | backend/zane_api/utils.py:328-385 | The loop returns the greedy chunks of the text. |
| Chunks.ChunksAreSplit | backend/zane_api/utils.py:333-340 | The chunks put together are the text and each has at most `limit` bytes. |
| Chunks.NoChunkIsEmpty | backend/zane_api/utils.py:354-383 | No chunk is empty. |
| Chunks.NoSplitHasFewer | backend/zane_api/utils.py:354-383 | No other split into pieces of at most `limit` bytes has fewer pieces. |
| Chunks.EndsIff | backend/zane_api/utils.py:354-377 | The loop ends exactly when no character is wider than the limit; with four bytes or more it always does. |
| Chunks.WideCharacterLoops | backend/zane_api/utils.py:354-383 | A two-byte character and a limit of one byte: every turn leaves the text as it was. |

## Left out

- The HTTP, Docker, Loki, Temporal and cache clients are replaced by atomic steps on an abstract store; timeouts and failed responses other than 404 and 412 are not modelled.
- The installation's own PUT and PATCH of the front and API routes are no actions of the machine; what they leave is a starting table.
- The rest of a proxy route (handlers, TLS, upstreams) is one opaque text, and route ids are given, so nothing is claimed about ids of different URLs being different.
- `upsert_registry_url` on an existing route is in the machine with its reused etag, but its calls are kept out of `ProxyRuns.GivingUpMeansOvertaken`: it retries with a stale etag (`Registry.RetriesAreUseless`). A 404 in that branch ends the call.
- `cleanup_old_service_urls`, `delete_all_stack_urls` and the unconditional deletions of deployment and registry routes have the steps of `ProxyClient.ProxyAdmin.CleanUpUrls` and are not separate methods; the routes of a stack are taken to have a matcher, which some of them read.
- Expiry of cache keys, a lock that outlives its owner, and cancellation inside a critical section.
- SemaphoreClient.SharedCache.Acquire: only with `max_retries`; the unbounded loops of `acquire` and `acquire_all` are in the machine, where a process may retry forever, and not methods, since they need not end.
- SemaphoreClient.SharedCache.Reset: its loop is watched for a number of turns, as it need not end.
- Fairness and waiting times of the semaphore, and the sleeps between retries.
- YAML, JSON and TOML parsing, the repair of quotes and backslashes in `generate_deployable_yaml`, `expandvars` modifiers and its syntax errors.
- The generators of secrets, names and domains: they return arbitrary values.
- Validation errors of a compile (unsupported template, bad port, refused URLs) within `ComposeStack.Stack.ApplyPendingChanges`; the URL validator is modelled on its own in `StackUrls`.
- The checks of URLs against other stacks and services in the database: their SQL looks in one direction only.
- The duplicate-key check of the override change serializer: its loop overwrites the value it should compare, so the database constraint is used instead.
- RedeployPending.RedeployOverPendingIff: only for pending changes that bring what they take; for others the redeploy's changes do not restore the rows (`RedeployPending.RowsComeBackIff`), and that the compile happens to generate just what is missing is not pursued.
- Services.MergedIs: what the compiler computes for networks, logging, deploy settings and health checks is given, not derived; volumes and top-level keys, which are merged in the same way, are not modelled.
- A bare `environment` value of null is one more scalar text in `Services`; its rendering as the text `None` is not modelled.
- Configs.ReferencesResolveIff: says nothing about references to configs that are not in the file.
- LogPages.WalkVisitsAll: every log lies in the default range of 14 days; label selectors, text search and time filters are one fixed selection, and the fallback for a cursor that does not decode is not modelled.
- `count` and `delete` of the Loki client, formatting of times, and query statistics.
- Chunks.TruncateUtf8: defined only where the loop ends; `Chunks.EndsIff` shows that this is the exact condition. Negative limits are not modelled.
- Docker service creation, health checks, metrics, web shell, webhooks, GitLab sync, licensing, permissions, settings, migrations and the front end.
- The default flag of build registries and the transfer of workspace ownership, which are simple invariants.
