# Path selection in PANAPI, modelled and proved

PANAPI lets a central daemon choose network paths for applications. The application's half of a selector
sends the paths it knows to the daemon; the daemon hands them to a script as tables and translates the
table the script returns back into a path. This project models that machinery and proves what it keeps
over whole runs.

- `SchedulerModel`, `SchedulerInvariants`, `SchedulerLiveness`, `SchedulerRecovery`, `SchedulerFairness`,
  `SchedulerAccounting`, `SchedulerHistory`, `SchedulerService`: the load-aware scheduler `cmd/daemon/bandwidth.lua` as a state machine. Its
  callbacks run under one lock (`lua/selector.go:225-226`, `lua/stats.go:248-249`), so a run is any sequence
  of callbacks of any connections. What `table.sort` and `math.random` leave open, and what the clock shows, is carried by the
  event; the theorems hold for every legal choice. `SchedulerHistory` tells what every table holds from the
  events and the answers alone, and `SchedulerService` which path a connection gets. `Scheduler` is the script itself, a class whose methods
  update the global tables in place, each proved to do what the state machine says.
- `PathTranslation`, `TranslationState`: the daemon's maps between paths and tables (`lua/selector.go`).
- `SelectorProtocol`, `SelectorClient`, `SelectorRegistry`, `SplitSelector`, `PathRecords`: the split
  selector (`rpc/selector.go`, `rpc/path.go`), and its refinement of a selector called directly.
- `ScriptedDaemon`: applications and translation with an arbitrary script. `SchedulerInDaemon`: the
  translation with the load-aware scheduler as its script.
- `RankedModel`, `RankedScheduler`: the ranked scheduler `cmd/daemon/simpledemo.lua`.
- `CallStatistics`: the table helpers and the call statistics of the load-aware scheduler.
- `LuaTables`, `Options`: the Lua library behaviour that is relied on, and nil.

The code differs from what its own structure or documentation suggests in these points, and the model
follows the code:

- Refresh of the load-aware scheduler always raises, after its updates: it passes nil preferences to
  SetPreferences, which indexes them before it tests them for nil (`cmd/daemon/bandwidth.lua:188-192`,
  `:271`). Close raises for a connection that has no path (`:282`).
- A path that a later announcement leaves out stays listed (`:163-183`), so the scheduler can choose a path
  for which the daemon finds nothing (`SchedulerInDaemon`).
- PathDown strikes a path from the list of one remote and forgets it for all (`:249-259`). If another
  remote lists it too, Path can call itself forever there (`SchedulerRecovery.SharedPathEndsExactly`), and
  is certain to if all other paths of that remote are in use (`SchedulerLiveness.SharedPathLoopsExactly`).
- PathDown for a remote that was never initialised raises half-way and leaves the loads wrong
  (`SchedulerInvariants.PathDownKeepsCoreExactly`). No client of `rpc/selector.go` sends such a report: before
  its first Initialize it is refused (`SelectorProtocol.UnintroducedIsRefused`), and `SchedulerInDaemon`
  derives from this, over whole runs, that remotes of reports are known.
- The registry drops the preferences that come with Initialize (`rpc/selector.go:61-64`), so that a run in
  which they were set before is not refined (`SplitSelector.RunRefinesExactlyIfProper`), and joins the two
  addresses of a session without a separator (`:52`); a shared key breaks the refinement
  (`SplitSelector.RefinesExactlyWithDistinctKeys`).
- An exploration that finds the current path again does not renew its stamp
  (`cmd/daemon/bandwidth.lua:225-226`), so a connection on a path unused for longest may never leave it
  (`SchedulerFairness.ExplorationsVisitExactly`).
- PathDown of the ranked scheduler stops after the first path with the fingerprint
  (`cmd/daemon/simpledemo.lua:64`), so a path announced twice stays listed
  (`RankedModel.PathDownLeavesNoneExactly`).

Assumptions that some theorems need are stated in them as conditions on the events or on the state. For
these a lemma says exactly what becomes of the result without them:

- each local address serves one remote, for the tables of connections have no remote in their key:
  `SchedulerLiveness.AnswerListedExactly`;
- no two remotes share a fingerprint that is reported down, for the tables of paths have no remote in their
  key: `SchedulerLiveness.PathDownListedLiveExactly`, `SchedulerRecovery.SharedPathEndsExactly`;
- paths are reported down for known remotes: `SchedulerInvariants.PathDownKeepsCoreExactly`;
- sets have distinct fingerprints and no two connections share one: `ScriptedDaemon.HarmlessExactly`,
  `PathTranslation.FlushConsistentExactly`, `RankedModel.PathDownLeavesNoneExactly`;
- no two sessions share a key, and selectors are initialised first:
  `SplitSelector.RefinesExactlyWithDistinctKeys`, `SplitSelector.RunRefinesExactlyIfProper`.

Beyond them, `SchedulerAccounting.DeparturesComeLate` asks for a clock that does not go back, and refinement is
about selectors that are blind to forwarding paths, since these do not travel.

## Model

| member | source | states |
|---|---|---|
| SchedulerInvariants.RunKeepsCore | cmd/daemon/bandwidth.lua:161-285 | after any interleaving of callbacks every load is exactly the number of connections on the path, assigned connections are on live paths and have a switch time, lists have no duplicates, and Periodic never raises; paths are reported down for known remotes only |
| SchedulerInvariants.StepKeepsCore | cmd/daemon/bandwidth.lua:161-302 | each single callback keeps that agreement, whatever the choosers choose |
| SchedulerInvariants.LoadsSumToAssigned | cmd/daemon/bandwidth.lua:38-44 | the loads of all paths add up to the number of assigned connections |
| SchedulerInvariants.PathDownKeepsCoreExactly | cmd/daemon/bandwidth.lua:247-267 | PathDown keeps the agreement if and only if the remote is known or nobody is on the path; it raises if and only if the remote is unknown |
| SchedulerInvariants.UnknownRemoteDrivesLoadNegative | cmd/daemon/bandwidth.lua:247-255 | PathDown for an unknown remote makes the next move of a connection on the path leave it with load -1 |
| SchedulerInvariants.PathDownExact | cmd/daemon/bandwidth.lua:255-264 | PathDown leaves exactly the old list without the path, in order, and takes exactly its connections off it |
| SchedulerInvariants.PathPassKeepsCore | cmd/daemon/bandwidth.lua:200-244 | Path keeps the agreement and raises if and only if the remote is unknown, or has paths and the connection has no preferences |
| SchedulerInvariants.InitializeKeepsCore | cmd/daemon/bandwidth.lua:161-196 | Initialize and Refresh keep the agreement even when they raise, which they do if and only if the preferences are nil |
| SchedulerInvariants.CloseKeepsCore | cmd/daemon/bandwidth.lua:276-285 | Close keeps the agreement; it raises if and only if the connection has no path |
| SchedulerInvariants.CloseEndsSession | cmd/daemon/bandwidth.lua:276-285 | Close gives back one unit of load; and over every run after it the connection has no path and gets none, for any remote, until preferences are stored for it again |
| SchedulerLiveness.PathAnswers | cmd/daemon/bandwidth.lua:200-244 | a connection with preferences whose remote has paths gets, without error and without the recovery call, a live path listed for its remote, and is assigned to it |
| SchedulerLiveness.ReachedPathAnswers | cmd/daemon/bandwidth.lua:161-244 | the same in every state an orderly run reaches from the empty tables |
| SchedulerLiveness.RunKeepsOrder | cmd/daemon/bandwidth.lua:161-285 | over every run in which no two remotes share a path that is reported down and each local address serves one remote, every listed path is live and every connection is on a path listed for its remote |
| SchedulerLiveness.PathDownListedLiveExactly | cmd/daemon/bandwidth.lua:247-259 | after PathDown every listed path is live if and only if no other remote lists the path |
| SchedulerLiveness.RepeatsForeverExactly | cmd/daemon/bandwidth.lua:206-241 | certain failure: for a connection without a path no clock and no outcome of the sort ends the recovery call, if and only if every least-loaded listed path is dead |
| SchedulerLiveness.SharedPathLoopsExactly | cmd/daemon/bandwidth.lua:238-264 | certain failure: when a path listed for two remotes is reported down for one, no outcome of the sort ends the call of a connection of the other without a path, if and only if every other path of its remote is in use |
| SchedulerRecovery.EndsExactly | cmd/daemon/bandwidth.lua:200-244 | for any connection: the call is bound to end, after its first pass, if and only if no chooser is due or every listed path is live; a dead path can always stand first in the sorts by load and by last use |
| SchedulerRecovery.EndsOrMayNeverEnd | cmd/daemon/bandwidth.lua:238-241 | a call that is not bound to end after its first pass may go on calling itself for as long as the clock runs |
| SchedulerRecovery.MayRetryExactly | cmd/daemon/bandwidth.lua:206-224 | for any connection, measured paths or not: a pass may end in the recovery call if and only if a chooser is due and some draw lets it come up with a dead path |
| SchedulerRecovery.SharedPathEndsExactly | cmd/daemon/bandwidth.lua:247-264 | after a path is reported down for one remote, the calls of a connection for another are bound to end at all times if and only if that one does not list the path |
| SchedulerRecovery.ReachedCallEndsExactly | cmd/daemon/bandwidth.lua:161-285 | in every state a run from the empty tables reaches, the calls of a connection with preferences are bound to end at all times if and only if every path listed for the remote is live |
| SchedulerLiveness.AnswerListedExactly | cmd/daemon/bandwidth.lua:200-244 | for a local address that serves several remotes: Path answers, and with a path listed for the remote asked for if and only if a chooser was due or the path the connection has had is listed there too |
| SchedulerLiveness.PathPassStaysLive | cmd/daemon/bandwidth.lua:200-244 | with every listed path live, one pass through Path suffices and keeps it so |
| SchedulerLiveness.InitializeLists | cmd/daemon/bandwidth.lua:163-183 | after Initialize or Refresh the list holds exactly the old and the announced paths: one that is no longer announced stays |
| SchedulerLiveness.AnnounceAppends | cmd/daemon/bandwidth.lua:166-183 | listed paths keep their places and new ones are added at the end |
| SchedulerLiveness.AnnounceTables | cmd/daemon/bandwidth.lua:166-171 | the last announced table of a fingerprint is the one the script has from then on, with its place as its number; loads do not change |
| SchedulerFairness.ExplorationsVisitExactly | cmd/daemon/bandwidth.lua:77-90 | as many explorations of one connection, each in a new tick, as its remote has paths visit every path exactly once, however they go and whatever goes on among them that leaves the list, its stamps and the assignment alone, if and only if its path at the start is not one unused for longest |
| SchedulerFairness.ReachedExplorationsVisitExactly | cmd/daemon/bandwidth.lua:206-226 | the same in every state an orderly run reaches from the empty tables |
| SchedulerFairness.ExplorationsVisitEveryPath | cmd/daemon/bandwidth.lua:82-89 | a series of such explorations that starts elsewhere visits every path exactly once |
| SchedulerFairness.IdleCallFits | cmd/daemon/bandwidth.lua:198-210 | calls of Path by the connection itself that keep it where it is, within the second after a switch or later, fit into every such series and count for nothing |
| SchedulerFairness.CampaignVisits | cmd/daemon/bandwidth.lua:209-211 | any number of such explorations up to the number of paths visits different paths, none visited before |
| SchedulerFairness.ExplorationEscapesExactly | cmd/daemon/bandwidth.lua:209-211 | exploration is bound to leave the current path if and only if some listed path was unused for longer |
| SchedulerFairness.OldestPathIsNeverLeft | cmd/daemon/bandwidth.lua:225-226 | a connection on the one path unused for longest is not moved by exploration: the stamp is only renewed on a switch |
| SchedulerFairness.FirstByStampIsOldest | cmd/daemon/bandwidth.lua:82-89 | what stands first after the sort by last use is exactly a path unused for longest |
| SchedulerLiveness.FirstByLoadIsLeastLoaded | cmd/daemon/bandwidth.lua:98-105 | what stands first after the sort by load is exactly a least-loaded path |
| SchedulerFairness.ArrivalsKeepBalance | cmd/daemon/bandwidth.lua:206-207 | first choices of connections never let two loads of a remote differ by more than 1, and each adds one to the total |
| SchedulerFairness.ArrivalsSpreadEvenly | cmd/daemon/bandwidth.lua:93-106 | k first choices among n unused paths put k/n connections, rounded down or up, on each |
| SchedulerFairness.BestShareIsGreatest | cmd/daemon/bandwidth.lua:137-149 | when every listed path has an estimate or is idle, and none is idle with estimate 0, the comparison is a strict weak order and the paths that may come first are exactly those for which no other has more bandwidth per connection |
| SchedulerFairness.ShareIsOrderExactly | cmd/daemon/bandwidth.lua:137-149 | the comparison is a strict weak order if and only if every listed path without an estimate is idle and, should some idle path have estimate 0 (a share that is not a number), no listed path is before any other |
| SchedulerFairness.UnmeasuredShareExactly | cmd/daemon/bandwidth.lua:145 | a used path without an estimate counts as 1000 in front of a measured one and as nothing behind it |
| SchedulerFairness.ReachedIsMeasurable | cmd/daemon/bandwidth.lua:137-149 | in every state an orderly run reaches, loads and estimates of listed paths are not negative |
| SchedulerFairness.ShareComparisonIrreflexiveExactly | cmd/daemon/bandwidth.lua:145 | the comparison never puts a path before itself if and only if every listed path without an estimate is idle |
| SchedulerFairness.BestRTTIsLeast | cmd/daemon/bandwidth.lua:123-135 | when the round-trip time of every listed path is known the path chosen has the least |
| SchedulerFairness.UnmeasuredRTTExactly | cmd/daemon/bandwidth.lua:131 | a path without a round-trip time is put before exactly the paths slower than 1000, and no path is put before it |
| SchedulerAccounting.DeparturesComeLate | cmd/daemon/bandwidth.lua:202-236 | over every run whose clock does not go back, a connection leaves a path it is assigned to only more than 1,000,000 microseconds after each of its initialisations, refreshes and switches, its first choice included |
| SchedulerAccounting.DepartsAfterHysteresis | cmd/daemon/bandwidth.lua:208-232 | a connection leaves a path it is assigned to only more than 1,000,000 microseconds after its stored switch time, so the divisor of the sample is positive |
| SchedulerAccounting.MovesExactly | cmd/daemon/bandwidth.lua:225-237 | Path moves a connection if and only if a chooser is due and finds a live path other than the current one; otherwise it changes nothing |
| SchedulerAccounting.RunKeepsMeasurementsLive | cmd/daemon/bandwidth.lua:249-252 | over every run only live paths have a round-trip time, a bandwidth or a last use |
| SchedulerHistory.AssignmentIsLastAnswer | cmd/daemon/bandwidth.lua:225-228 | in every reachable state a connection is on the path its last answered call returned, unless that was reported down or the connection closed since |
| SchedulerHistory.PreferencesAreLast | cmd/daemon/bandwidth.lua:187-196 | the preferences kept for a connection are those given last; closing it makes them void if it has a path |
| SchedulerHistory.SwitchTimeIsLastClock | cmd/daemon/bandwidth.lua:235 | the switch time kept for a connection is that of its last initialisation, refresh or switch |
| SchedulerHistory.StampIsLastTaken | cmd/daemon/bandwidth.lua:226 | the stamp of a path is the number of ticks before the last switch to it, since it was last reported down |
| SchedulerHistory.RTTIsLast | cmd/daemon/bandwidth.lua:288-297 | the round-trip time kept for a path is the one measured last by a connection on it, since it was last reported down |
| SchedulerHistory.TableIsLast | cmd/daemon/bandwidth.lua:166-168 | the table kept for a live path is the one announced last |
| SchedulerHistory.ListIsStillListed | cmd/daemon/bandwidth.lua:163-183 | the list of a remote holds exactly what was announced for it and not reported down for it since |
| SchedulerHistory.BytesAreConserved | cmd/daemon/bandwidth.lua:229-236 | over every run the bytes reported for a connection are those that counted in samples, those dropped at a first choice, and those in its counter |
| SchedulerHistory.EstimateIsAverage | cmd/daemon/bandwidth.lua:229-236 | over every run the estimate of a path is the moving average of bytes over time of exactly the stays on it that ended since it was last reported down, bytes and time told from the events alone; each stay was longer than 1,000,000 microseconds |
| SchedulerHistory.DepartureAddsSample | cmd/daemon/bandwidth.lua:232 | a connection that leaves a path adds its bytes over its time there to the estimate, with weight 1/10 |
| SchedulerHistory.EstimateWithinSamples | cmd/daemon/bandwidth.lua:232 | in every reachable state an estimate lies between 0 and the largest sample since the path was last reported down |
| SchedulerHistory.AverageConverges | cmd/daemon/bandwidth.lua:232 | k equal samples shrink the distance of the estimate to the sample by exactly (9/10)^k |
| SchedulerService.PathServesPreferences | cmd/daemon/bandwidth.lua:200-224 | after every orderly run, a connection whose second is over gets, unless it explores, what the preferences given last ask for: the least round-trip time measured last, the greatest bandwidth per connection, or the least load |
| SchedulerService.ProfileExactly | cmd/daemon/bandwidth.lua:212-223 | for each profile exactly which listed paths may be chosen: those of least round-trip time, of greatest share, of least load, or any; where the measurements can be compared |
| SchedulerService.FirstAndExplorationExactly | cmd/daemon/bandwidth.lua:206-211 | without a path exactly the least-loaded ones may be chosen, on a draw of 1 exactly those unused for longest |
| SchedulerService.DueExactly | cmd/daemon/bandwidth.lua:206-208 | a chooser decides exactly when the connection has no path or more than 1,000,000 microseconds have passed since it was last initialised, refreshed or switched |
| Scheduler.LoadAwareScheduler.PathOnce | cmd/daemon/bandwidth.lua:200-243 | one pass of Path over the tables in place, for any draw and any order of equal elements, is the pass of the state machine with a choice the sort allows |
| Scheduler.LoadAwareScheduler.Path | cmd/daemon/bandwidth.lua:200-244 | the call with its recovery calls, for as many passes as are waited for, is that of the state machine, pass by pass; with every listed path live the first pass is the last and the path returned is the current one |
| Scheduler.LoadAwareScheduler.Choose | cmd/daemon/bandwidth.lua:206-224 | the chooser that is due finds a path the state machine allows, and one that serves the preferences of the connection |
| Scheduler.LoadAwareScheduler.FirstAfterSort | cmd/daemon/bandwidth.lua:77-90 | copying, sorting and taking the first yields an element no other is before, if the comparison is an order, and a listed one in any case |
| Scheduler.LoadAwareScheduler.SwitchTo | cmd/daemon/bandwidth.lua:225-237 | the updates of a switch, including what stays done when one of them raises |
| Scheduler.LoadAwareScheduler.Initialize | cmd/daemon/bandwidth.lua:161-185 | the table given is sorted by fingerprint in place and its paths are added one by one |
| Scheduler.LoadAwareScheduler.Refresh | cmd/daemon/bandwidth.lua:269-273 | Refresh does the updates of Initialize and then always raises, for it passes nil preferences on |
| Scheduler.LoadAwareScheduler.SetPreferences | cmd/daemon/bandwidth.lua:187-196 | nil preferences raise, since they are indexed before they are tested |
| Scheduler.LoadAwareScheduler.PathDown | cmd/daemon/bandwidth.lua:247-267 | the tables are cleared, the list is walked while it shrinks, and the connections are taken off; an unknown remote raises half-way |
| Scheduler.LoadAwareScheduler.Close | cmd/daemon/bandwidth.lua:276-285 | the assignment goes first; without one the callback raises |
| Scheduler.LoadAwareScheduler.SentPacket | cmd/daemon/bandwidth.lua:299-302 | bytes are added to the pending ones of the connection |
| Scheduler.LoadAwareScheduler.UpdatedMetrics | cmd/daemon/bandwidth.lua:288-297 | the round-trip time of the connection's path is replaced; without a path nothing happens |
| Scheduler.LoadAwareScheduler.Periodic | cmd/daemon/bandwidth.lua:53-73 | the tick advances; a live path without a load entry raises |
| LuaTables.RemoveWhileWalkingExact | cmd/daemon/bandwidth.lua:255-259 | removing from a list while walking over it removes every occurrence, and nothing else, if and only if the element never stands next to itself; a list without duplicates is such a list |
| LuaTables.TableSort | cmd/daemon/bandwidth.lua:82-87 | a sort yields a permutation, ordered if the comparison is a strict weak order |
| LuaTables.BeforeExactly | cmd/daemon/bandwidth.lua:165 | of two strings the first differing character decides, and a proper prefix comes first |
| PathTranslation.TableLivesUntilNextFlush | lua/selector.go:135-153 | a table handed out stands for its announced path until the paths of its address are replaced, and for nothing ever after, whatever happens to other addresses |
| PathTranslation.FlushConsistentExactly | lua/selector.go:230-231 | replacing the paths of an address keeps the two maps inverse to one another if and only if no fingerprint is announced twice |
| PathTranslation.RunConsistent | lua/selector.go:119-153 | over any run of sets with distinct fingerprints the tables that stand for a path are exactly the listed ones, each listed once under its own fingerprint |
| PathTranslation.DuplicateIsNeverFlushed | lua/selector.go:143-153 | with a fingerprint announced twice the table of the earlier path stands for it for ever |
| PathTranslation.StaleStays | lua/selector.go:131-141 | a table that stands for nothing never stands for a path again |
| TranslationState.State.ClearAddr | lua/selector.go:135-141 | the loop sets the entry of every table of the address to nil and empties its list |
| TranslationState.State.SetPaths | lua/selector.go:143-153 | the loop makes one new table for each path, in order |
| TranslationState.State.GetPanPath | lua/selector.go:131-133 | any table, known or not, is looked up; in agreement, a path found is listed under its fingerprint |
| TranslationState.State.ReplacePaths | lua/selector.go:309-317 | afterwards every new table stands for its path, and no table handed out for the address before stands for anything |
| SchedulerInDaemon.AnswerStandsExactlyWhileAnnounced | cmd/daemon/bandwidth.lua:200-244 | after every run from the start of the daemon, a connection with preferences gets a path listed for its remote; the daemon finds a path object for its table if and only if the set announced last for the remote, by the events of the run, has the fingerprint, and then it is one of that set |
| SchedulerInDaemon.RunKeepsAgreement | lua/selector.go:223-332 | over every run of daemon and scheduler together each table the script keeps is the current one of its fingerprint, or stands for nothing if the fingerprint is no longer announced; clients announce and report paths of their own remote, and report none before they announced some |
| SelectorProtocol.ClientReturnsLatest | rpc/selector.go:232-268 | whatever the daemon answers, the client returns the path object announced last under the fingerprint, or nothing if it was reported down since |
| SelectorProtocol.LatestExactly | rpc/selector.go:195-204 | that object is the one of an announcement after which its fingerprint was neither announced nor reported down |
| SelectorProtocol.RequestsArrive | rpc/selector.go:120-179 | from the first Initialize on every operation reaches the selector as it was made, paths without their forwarding paths, and Initialize with the preferences set last |
| SelectorProtocol.DecodesExactly | rpc/selector.go:120-179 | a message is forwarded if and only if it has both addresses and what its procedure needs; only a missing local address goes unnoticed |
| SelectorProtocol.UnintroducedIsRefused | rpc/selector.go:216-231 | before the first Initialize preferences are kept and not sent, and every other call is refused |
| SelectorClient.SplitClient.Initialize | rpc/selector.go:195-214 | the loop remembers every path and puts its record in the message, with addresses and preferences |
| SelectorClient.SplitClient.SetPreferences | rpc/selector.go:216-231 | a message is sent if and only if the connection was initialised |
| SelectorClient.SplitClient.Path | rpc/selector.go:232-246 | the path returned is the latest one of the client's history under the answer's fingerprint |
| SelectorClient.SplitClient.PathDown | rpc/selector.go:248-261 | the path is forgotten locally and reported, or the report is refused |
| SelectorClient.SplitClient.Refresh | rpc/selector.go:263-279 | the loop remembers every path and sends the records |
| SelectorClient.PathObjects | rpc/selector.go:160-166 | the server loop turns each record into a path object with that record |
| PathRecords.RecordLosesForwardingOnly | rpc/path.go:31-52 | a path that travels in a record loses its forwarding path and nothing else; two paths have one record if and only if they differ in nothing else |
| PathRecords.TravelLosesForwardingOnly | rpc/selector.go:199-203 | the same for a whole announced set, order kept |
| SplitSelector.SplitRefinesDirect | rpc/selector.go:51-88 | for every interleaving of sessions with different keys and every selector blind to forwarding paths, client, server and registry together answer as one selector for each open session would, with the application's own path objects |
| SplitSelector.StepRefines | rpc/selector.go:120-179 | each single operation does |
| SplitSelector.SplitGetsOperations | rpc/selector.go:51-88 | over every proper run of sessions with different keys, the selector behind the registry gets exactly the operations of its session since that was opened, in order, complete but for forwarding paths |
| SplitSelector.DirectGetsOperations | rpc/selector.go:51-88 | the reference, one selector for each open session, gets exactly the operations of its session |
| SplitSelector.EarlyPreferencesAreDropped | rpc/selector.go:61-64 | preferences set before Initialize: the selector behind the registry is initialised without them, one called directly with them |
| SplitSelector.RunRefinesExactlyIfProper | rpc/selector.go:51-88 | among sessions with different keys, the split selector answers a run like selectors of their own, for every blind selector, if and only if every application initialises its selector before it does anything else with it |
| SplitSelector.KeysMayCollide | rpc/selector.go:52 | two sessions can have the same key, since the addresses are joined without a separator |
| SplitSelector.KeysCollideExactly | rpc/selector.go:52 | two different sessions have one key if and only if a piece of text moves from the end of one local address to the beginning of the other remote address |
| SplitSelector.RefinesExactlyWithDistinctKeys | rpc/selector.go:51-59 | for every type of states with more than one value: the split selector answers as one selector for each open session, for every blind selector and every run from the start, if and only if no two sessions share a key |
| SelectorRegistry.HandleIsolates | rpc/selector.go:51-88 | a request leaves sessions with another key alone; a session with the same key is open afterwards if and only if the request is not Close |
| SelectorRegistry.FactoryRunsOncePerOpening | rpc/selector.go:51-88 | over every run the selectors of a key that were there or were made are those closed and the one still there: the factory runs at most once between two closings |
| SelectorRegistry.Registry.GetSelector | rpc/selector.go:51-59 | the factory is asked for a selector only for a key without one |
| SelectorRegistry.HandleExactly | rpc/selector.go:61-88 | what each kind of request does with the selector of its key, and what is answered |
| SelectorRegistry.SelectorGetsItsRequests | rpc/selector.go:51-88 | over every run a selector has had done with it exactly what was requested under its key since that was last closed, in order |
| SelectorRegistry.Registry.Serve | rpc/selector.go:61-88 | each kind of request does one operation of the factory's machine on the selector of its key, made first if need be, and gives its answer; Close forgets the selector |
| ScriptedDaemon.EveryScriptAnswersCurrent | lua/selector.go:268-332 | for every script and every run in which sets have distinct fingerprints and each fingerprint is announced by one connection: a path an application gets is one of the set it announced last |
| ScriptedDaemon.AnnouncementDelivers | lua/selector.go:223-246 | an announcement hands out one table for each path, which stands for it, and the application remembers its own path objects |
| ScriptedDaemon.CurrentPathIsDelivered | lua/selector.go:268-332 | a script that answers with such a table makes the application get its own path object, whatever happens in between, until a new set is announced for the address, the path is reported down or the connection closes |
| ScriptedDaemon.HarmlessExactly | lua/selector.go:268-332 | whatever the connections may announce: no script can, on any run from the start of the daemon, make an application get a path outside the set it announced last, if and only if no set has a fingerprint twice and no two connections share one |
| ScriptedDaemon.HarmlessWithOneClientExactly | lua/selector.go:268-332 | for distinct fingerprints that belong to one remote each: the same if and only if there is one client for each remote |
| ScriptedDaemon.AnswerIsCurrent | lua/selector.go:284-287 | the same for one call, from the invariant |
| ScriptedDaemon.WithdrawnReturnsExactly | rpc/selector.go:242-245 | a script can make a client return a path outside its current set if and only if some address lists a fingerprint under which the client remembers one |
| RankedModel.RunKeepsRanking | cmd/daemon/simpledemo.lua:14-73 | in every run, whatever is announced: each list consists of paths of the set announced last, with as many for each fingerprint as that set has less one for each report since, and is sorted by the number of interfaces if the set has metadata throughout (or at most one path) |
| RankedModel.RunHoldsLiveSet | cmd/daemon/simpledemo.lua:30-73 | if the set announced last has distinct fingerprints, the list holds exactly that set without what was reported down since |
| RankedModel.PathDownLeavesNoneExactly | cmd/daemon/simpledemo.lua:58-67 | after any run, reporting a path down leaves none with its fingerprint if and only if at most one is listed, for the walk stops after the first |
| RankedModel.PathIsBest | cmd/daemon/simpledemo.lua:45-55 | after any run a connection gets a listed path of the set announced last, with the fewest interfaces of the list, or with the most if the preferences given last say scavenger, if the set has metadata throughout; nothing if and only if nothing is left of the set |
| RankedModel.PathIsBestOfLive | cmd/daemon/simpledemo.lua:45-55 | with distinct fingerprints it is the best of the live set for the preferences given last, and nothing if and only if no path is live |
| RankedModel.PathRaisesExactly | cmd/daemon/simpledemo.lua:45-55 | a call raises if and only if nothing was announced for the remote, or something is left of what was and the connection has no preferences |
| RankedModel.StoredIsLast | cmd/daemon/simpledemo.lua:30-43 | over every run the preferences kept for a connection are those given last since it was closed |
| RankedModel.AnnouncementRaisesExactly | cmd/daemon/simpledemo.lua:14-36 | an announcement raises if and only if its preferences are nil or one of two or more paths has no metadata |
| RankedModel.TwoPassesRankLexicographically | cmd/daemon/simpledemo.lua:14-27 | sorting by expiry and then, stably, by the number of interfaces ranks by the number first and by expiry among equals |
| RankedModel.StrikeFacts | cmd/daemon/simpledemo.lua:60-66 | removing the first path with a fingerprint keeps the order and takes away one such path and nothing else |
| RankedScheduler.Ranker.RankPaths | cmd/daemon/simpledemo.lua:14-27 | the two sorts in place yield a permutation, by expiry after the first and by the number of interfaces after the second, lexicographic if that is stable; unless one of two or more paths has no metadata, in which case the second raises |
| RankedScheduler.Ranker.Initialize | cmd/daemon/simpledemo.lua:30-36 | preferences are stored and the announced list replaces the old one and is ranked |
| RankedScheduler.Ranker.Refresh | cmd/daemon/simpledemo.lua:69-73 | the announced list replaces the old one and is ranked |
| RankedScheduler.Ranker.Path | cmd/daemon/simpledemo.lua:45-55 | the first or the last path, nothing for an empty list, an error for an unknown remote or connection |
| RankedScheduler.Ranker.PathDown | cmd/daemon/simpledemo.lua:58-67 | the walk removes the first path with the fingerprint and stops |
| CallStatistics.DiffKeepsExactly | cmd/daemon/bandwidth.lua:465-484 | the difference of two nested tables holds a number of the first at its place if and only if the second does not hold the same number there, and nothing else |
| CallStatistics.ReportsTelescope | cmd/daemon/bandwidth.lua:305-315 | the reports of any run add up: up to each report every call is printed once |
| CallStatistics.ReportExactly | cmd/daemon/bandwidth.lua:305-315 | a report names exactly what was called since the last one, and how often |
| CallStatistics.ComputeDiff | cmd/daemon/bandwidth.lua:465-484 | the recursion with its loop over the entries computes that difference, in tables that did not exist before |
| CallStatistics.Copy | cmd/daemon/bandwidth.lua:452-462 | the copy of a table holds the same tree and consists of tables that did not exist before |
| CallStatistics.CallCounters.DiffCallStats | cmd/daemon/bandwidth.lua:305-315 | a report prints the calls since the last one and keeps the counters in a table of its own, so that later calls do not change it |

## Left out

- SchedulerModel.Rate: the quotient for no elapsed time is 0 instead of the infinity or not-a-number of Lua; SchedulerAccounting.DepartsAfterHysteresis shows that a connection on a live path never divides by it, and in every state a run reaches from the empty tables a connection is on a live path.
- Scheduler.LoadAwareScheduler.Path: takes the clock readings of the passes it waits for, since the call need not end; SchedulerRecovery.EndsExactly says when it is bound to.
- LuaTables.TableSort: one particular sort stands for `table.sort`; callers only rely on its contract, and nothing is assumed about the order of equal elements or, for a comparison that is no order, about anything but the elements.
- RankedModel.TwoPassesRankLexicographically: about a stable sort, which the Lua implementation does not promise.
- Tables that contain themselves: the source's recursion does not end on them; keys and numbers are strings and integers.
- Floating-point rounding: rates, estimates and shares are real numbers.
- Which path wins when the comparison by bandwidth or round-trip time is no order (SchedulerFairness.ShareIsOrderExactly): the result depends on the sort.
- Balance of loads once connections are re-evaluated: a connection counts itself, and the bound of 1 is not kept.
- The order in which announced paths enter a list matters to no theorem; the sort by fingerprint is part of Scheduler.LoadAwareScheduler.Initialize only.
- Path objects that are nil pointers, and the other fields of a path table (source, destination, metadata of the load-aware scheduler's paths), which its script does not read.
- Scripts that raise: the daemon turns the error into an error result, on which the application ends; runs that go on instead are included.
- net/rpc, gob, sockets, logging and the Lua interpreter: a call delivers its message and returns.
- The forwarding of connection events other than SentPacket and UpdatedMetrics: it only counts calls.
- `cmd/daemon/stats_scavenger.lua`, `demo.lua`, `pathselection.lua`, `selector_with_stats.lua`, `simple.lua`: variants of the two scripts modelled.
- Properties, preconnections and endpoints of the transport interface: field copies and finite checks.
