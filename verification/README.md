# Verified models of the analysis daemon and its small algorithms

Dafny 4.11 models of the stateful core of this intrusion detection system: the correlation memory of
`analysisd`, its rule tree and matcher, its accumulator, and the small algorithms around them. Each file
models one part in the form the C code has: linked nodes and in-place updates are classes and methods,
and every method is proved against a function of the old state; the properties of that function are
lemmas. `dafny verify dfyconfig.toml` checks everything.

## What is modelled

**Correlation memory** (`Entities`, `LiveEvents`, `EventMemory`, `EventLoop`, `IgnoreTimes`). An accepted
event goes on a two-way linked list and on the sid list of its rule, or on every group list its rule is
marked with. When the memory is full the oldest events are freed; freeing deletes *the remembered node*
of a sid list, but blindly *the oldest node* of each group list. `EventMemory.Valid` is the invariant
that makes this right: every list equals the events in memory that are marked with it, oldest first, each
as often as it is marked. `EventLoop.ReadLoop` joins the matcher and the memory and accounts for the
owner of every event.

**Searches** (`Evidence`, `Searches`, `SearchOptions`, `Correlations`). The three `Search_Last*` loops
refine one declarative search, and over any run of stores, evictions and searches the same evidence is
not counted twice. `Correlations` runs the memory and the three searches together and shows that every
list, and the event list, follows such a run; `SearchOptions` says what a search counts in terms of the
fields of the events.

**Rule tree** (`Forests`, `RuleTree`, `RuleList`, `Levels`, `RuleWalks`). The pure tree is in `Forests`;
the linked `next`/`child` nodes are in `RuleTree`, where a ghost shape ties the pointers to a pure tree.
The walks extend child lists while they walk them, and rules are shared between nodes.

**Matcher and alert books** (`RuleMatch`, `AlertBooks`). The recursive matcher returns the first result
in the order *children, parent, next sibling*, and the hourly counter always equals the hits of the
different rules in the tree.

**Accumulator** (`Accumulation`, `Arrivals`, `Accumulator`). A keyed store with expiry and a periodic
purge; the purge is proved invisible by a simulation.

**Smaller pieces.** Base64 (section 4 of RFC 4648) over byte buffers (`Base64`); the hourly averages and
their alarms (`HourlyStats`, `HourlyCounters`); the agents' key file (`KeyFile`, `KeyRemovals`,
`KeyRuns`) and the first-time-seen store (`Fts`), both read in chunks of at most 255 characters
(`LineReader`); the server rotation of the agent (`ServerRotation`). `CStrings` and `Sequences` hold
shared helpers.

## What the proofs found

- A rule that sits in two tree nodes is registered twice by `OS_MarkGroup`, so each of its events is stored
  twice and counts twice in `Search_LastGroups`; `LiveEvents.ExpectedRepeatsIff` and
  `EventLoop.ReadLoop.GroupListHoldsPerNode` say exactly when and how often.
- Declared levels survive loading exactly under `Levels.Restorable`: with accuracy, 99 turns into 0, and
  a level of 100 or more is divided again at a second node; without accuracy, level 0 stays 99 and a level
  of 100 or more is divided.
- An `if_sid` text that is empty or ends in a separator also adds the rule below the root of its category,
  and a walk for one id leaves a sibling list at its first hit; the exact conditions are
  `RuleLists.TrailingSeparator` and `Forests.GraftSidReachesAll`.
- The hourly average stays within 33 of a bound on the counts without noisy days and within 81 with them,
  and both numbers are reached.
- The threshold of the hourly alarms never falls with the average exactly when the lower limit is at most one
  above the upper one, or the percentage is 0 (`HourlyCounters.ThresholdMonotoneIff`).
- Removing an agent keeps the line breaks of the key file exactly when its line has room for the tombstone.
  From a shorter line the tombstone runs into the lines behind it, and the file keeps all numbers exactly when
  every number on a line it swallows also stands on another one (`KeyRemovals.RemovalKeepsNumbersIff`).
- On a file with an unfinished last line the program never hands a number out twice exactly when the least free
  number, appended to that line, is still read as that number: `0` does no harm, `x` or `5 x` does
  (`KeyRuns.NeverReusedIff`).
- A first-time-seen key of exactly 255 characters comes back from the file with an additional empty key.
- A decoded alert whose rule has level 0, or is within its ignore time, is neither stored nor freed
  (`EventLoop.ReadLoop.FateOf`).
- The accumulator's purge is invisible in all runs from a start at time t exactly when t is positive
  (`Accumulation.PurgeIsInvisibleIff`).
- `_max_freq` is the largest *frequency* of the rules, but `OS_AddEvent` compares it with *seconds*
  (`src/analysisd/rules.c:1654`, `src/analysisd/eventinfo_list.c:79`); `LiveEvents.EvictedExactly` says exactly
  which events that a rule's timeframe could still use are lost by that.

## Model

| member | source | states |
|---|---|---|
| EventMemories.EventMemory.constructor | src/analysisd/eventinfo_list.c:24-32 | the empty memory satisfies the invariant for any size of 9 or more |
| EventMemories.EventMemory.PushNode | src/analysisd/eventinfo_list.c:43-68 | the new event becomes the newest; the links stay well formed both ways and the counter stays one behind the length |
| EventMemories.EventMemory.UnlinkOldest | src/analysisd/eventinfo_list.c:79-90 | the oldest node is cut off and its event handed out, links and counter staying consistent |
| EventMemories.EventMemory.EvictOldest | src/analysisd/eventinfo_list.c:79-90 | one eviction drops exactly the oldest event, frees it, and leaves every list equal to what the remaining events require |
| EventMemories.EventMemory.EvictLoop | src/analysisd/eventinfo_list.c:79-90 | the loop ends with the newest event still there, having removed the oldest events up to the stop point |
| EventMemories.EventMemory.AddEvent | src/analysisd/eventinfo_list.c:43-109 | the memory is the old one and the new event, without a prefix of none or at least ten oldest events; the length stays within maxsize + 1; evicted events are freed |
| EventMemories.EventMemory.Remember | src/analysisd/analysisd.c:1007-1030 | accepting an event registers it on its lists, stores it, and keeps the whole invariant of links, lists and freed events |
| EventMemories.EventMemory.ListsFollowMemory | src/analysisd/eventinfo.c:670-681 | in every valid state each list is the live events marked with it, oldest first, with multiplicity, and holds no freed event |
| EventMemories.Register | src/analysisd/analysisd.c:1007-1030 | a new event is appended to its sid list or, as often as they occur, to its group lists, and the remembered sid node is the right one |
| EventMemories.FreeEventinfo | src/analysisd/eventinfo.c:670-681 | freeing the oldest event removes all its copies from all lists and nothing else, although group lists are cut blindly at their oldest node |
| EventMemories.DeleteFromGroups | src/analysisd/eventinfo.c:674-681 | the group branch, with a list that occurs several times in the array |
| EventMemories.DeleteSidNode | src/analysisd/eventinfo.c:670-673 | the sid branch: the remembered node is the first of its list |
| LiveEvents.SurvivorsAreRecent | src/analysisd/eventinfo_list.c:79 | when times do not decrease, every event left after an eviction is within maxFreq of the new one |
| LiveEvents.EvictedExactly | src/analysisd/eventinfo_list.c:79 | with times in order, a full memory drops exactly the ten oldest events and those older than maxFreq; so which events a rule's timeframe could still use are lost |
| EventLoop.ReadLoop.SidListHoldsItsEvents | src/analysisd/analysisd.c:1007-1016 | in every reachable state the sid list of a rule holds exactly the events in memory that fired it, once each, oldest first |
| EventLoop.ReadLoop.GroupListHoldsPerNode | src/analysisd/analysisd.c:1017-1029 | an event in memory occurs in a group list once for every tree node of its rule if the rule's group matches, and not at all otherwise |
| EventLoop.ReadLoop.constructor | src/analysisd/analysisd.c:865-1051 | with the tree loaded and marked and the memory empty, the loop starts in a valid state |
| LiveEvents.ExpectedRepeatsIff | src/analysisd/rules_list.c:390-401 | a group list holds each event at most once if and only if no live event's rule is marked with it twice |
| LiveEvents.ExpectedDrop | src/analysisd/eventinfo.c:670-681 | FIFO: dropping the oldest events drops a prefix of every list |
| EventLoop.ReadLoop.ProcessEvent | src/analysisd/analysisd.c:872-1051 | every received event ends stored, freed or, only for a skipped decoded alert, lost; books, lists and ownership stay consistent |
| EventLoop.ReadLoop.ReadEvent | src/analysisd/analysisd.c:872-1051 | the same turn with the use of the rule recorded; the time stamps of the rules and what was stored are explained by the record |
| IgnoreTimes.UsesLieApart | src/analysisd/analysisd.c:903-918 | over any run with positive non-decreasing times, two uses of a rule lie at least its ignore time apart |
| IgnoreTimes.NotSkipped | src/analysisd/analysisd.c:903-918 | an event whose rule has a level and no use within its ignore time before is not skipped |
| IgnoreTimes.UsedIff | src/analysisd/analysisd.c:903-918 | both together, as an equivalence |
| IgnoreTimes.LevelsDecide | src/analysisd/analysisd.c:898-929 | a rule of level 0 stores no event, one with a level and without ignore time skips none, and a used rule's event is stored unless the ignore file objects |
| EventLoop.ReadLoop.Use | src/analysisd/analysisd.c:898-1032 | level 0, ignore time and ignore file decide whether the matched rule's event is remembered |
| EventLoop.ReadLoop.Skip | src/analysisd/analysisd.c:898-918 | the skip test and the exact new ignore time stamp |
| EventLoop.ReadLoop.FindRule | src/analysisd/analysisd.c:876-896 | a decoded alert brings its rule; any other event gets the first match of the tree |
| EventLoop.ReadLoop.CleanUp | src/analysisd/analysisd.c:1043-1051 | exactly the events without a rule are freed, and every received event has one fate |
| Searches.SearchLastSids | src/analysisd/eventinfo.c:25-185 | succeeds if and only if more than `frequency` stored events count before the search must stop, returns the one that exceeds it, marks three events, and fills `last_events` with the first hits |
| Searches.SearchLastGroups | src/analysisd/eventinfo.c:190-351 | the same over a group list, where the last hit is not noted |
| Searches.SearchLastEvents | src/analysisd/eventinfo.c:357-493 | the same over the event list itself, newest first |
| Searches.CountSids | src/analysisd/eventinfo.c:47-180 | the counting loop refines the declarative scan |
| Searches.CountGroups | src/analysisd/eventinfo.c:212-346 | the counting loop refines the declarative scan |
| Searches.CountEvents | src/analysisd/eventinfo.c:373-491 | the counting loop refines the declarative scan |
| Searches.NotedAllAre | src/analysisd/eventinfo.c:160-166 | the 12 slots hold the logs of the first eleven hits in order and then a NULL, the rest untouched |
| Searches.MarkThree | src/analysisd/eventinfo.c:175-178 | only the current, the last counted and the newest stored event change their marks |
| SearchOptions.SidCounts | src/analysisd/eventinfo.c:47-158 | a search through a list stops at the newest event that is too old or marked with the level, and counts exactly those newer ones that share or differ in each field the rule asks for |
| SearchOptions.AnyCounts | src/analysisd/eventinfo.c:376-459 | the same through the event list, with the decoder type and the regular expression |
| SearchOptions.SidEvidence | src/analysisd/eventinfo.c:62-145 | all evidence of a successful search has the fields the rule asks for |
| SearchOptions.AnyEvidence | src/analysisd/eventinfo.c:390-452 | the same for the event list |
| Evidence.ScanIsCounted | src/analysisd/eventinfo.c:45-60 | the recursive scan equals the hits between the newest event and the first one that stops the search |
| Evidence.EvidenceIsDistinct | src/analysisd/eventinfo.c:190-351 | on a list without repeats the counted events are different |
| Evidence.DistinctEvidenceIff | src/analysisd/rules_list.c:390-401 | no search can count an event twice if and only if no event is stored twice |
| Evidence.StepKeepsClosed | src/analysisd/eventinfo.c:53-60 | evidence that a search cannot reach stays out of reach after any step |
| Evidence.EvidenceIsUsedOnce | src/analysisd/eventinfo.c:53-60 | over any run, two successful searches count different events unless the later one is at a higher level |
| Evidence.SearchRaises | src/analysisd/eventinfo.c:53-60 | a search never lowers a mark |
| Evidence.MarksAfter | src/analysisd/eventinfo.c:175-178 | which stored events a search marks, and with what |
| Evidence.CountsAgainIff | src/analysisd/eventinfo.c:58-60 | the same search directly after a successful one counts the same evidence again if and only if its level is higher |
| Correlations.MemoryStep | src/analysisd/eventinfo_list.c:43-109 | for the event list and for every other list, storing and evicting are two steps of the run model |
| Correlations.SearchStep | src/analysisd/eventinfo.c:175-178 | a search is the search step of what it looks through, and for everything else a step that only raises marks |
| Correlations.Correlation.Remember | src/analysisd/analysisd.c:1007-1032 | an accepted event extends the run by a store and an eviction |
| Correlations.Correlation.SearchSids | src/analysisd/eventinfo.c:25-185 | the search extends the run and returns what the run model counts |
| Correlations.Correlation.SearchGroups | src/analysisd/eventinfo.c:190-351 | the same for a group list |
| Correlations.Correlation.SearchEvents | src/analysisd/eventinfo.c:357-493 | the same for the event list |
| Correlations.Correlation.NothingCountedTwice | src/analysisd/eventinfo.c:53-60 | however the memory and the three searches are called, two successful searches of one list count different events unless the later one is at a higher level |
| Entities.OSList.AddData | src/shared/list_op.c:228-284 | appends at the end |
| Entities.OSList.DeleteOldestNode | src/shared/list_op.c:122-143 | drops the first node, or nothing |
| Entities.OSList.DeleteThisNode | src/shared/list_op.c:146-181 | drops the first occurrence of the node |
| Entities.OSHash.Lookup | src/shared/hash_op.c:231-258 | the stored data, or none |
| Entities.OSHash.Add | src/shared/hash_op.c:175-225 | 1 and no change for a known key, 2 and the new entry otherwise |
| Entities.OSHash.Update | src/shared/hash_op.c:144-168 | 0 for an unknown key, 1 and the new data otherwise |
| Entities.OSHash.Delete | src/shared/hash_op.c:261-293 | the entry is removed and its data returned |
| Forests.InsertIsStable | src/analysisd/rules_list.c:214-221 | a sorted sibling list stays sorted, and equal levels stay in insertion order |
| Forests.GraftAfterInsert | src/analysisd/rules_list.c:115-120 | walking a child list that just received the new leaf gives the same tree as walking it first |
| Forests.GraftAddsExactly | src/analysisd/rules_list.c:66-96 | if_group and if_level add exactly one leaf below every matching node and none below any other or at the top, and leave the rest of the tree unchanged |
| Forests.GraftKeepsSorted | src/analysisd/rules_list.c:66-96 | every sibling list at every depth stays sorted |
| Forests.GraftSidAdds | src/analysisd/rules_list.c:50-68 | one if_sid id adds at least one leaf if it is in the tree and nothing otherwise, the rest unchanged |
| Forests.GraftSidPlaces | src/analysisd/rules_list.c:50-68 | the new leaves hang below nodes with that id, one each |
| Forests.GraftRootPlaces | src/analysisd/rules_list.c:106-114 | the new leaf is among the children of that root, and nothing else changes |
| Forests.GraftSidReachesAll | src/analysisd/rules_list.c:50-68 | the rule hangs below all nodes with that id if and only if none is skipped behind another one |
| Forests.LoadedTreeIsSorted | src/analysisd/rules_list.c:205-257 | after any sequence of loads every sibling list at every depth is non-increasing in level |
| Forests.LoadedTreeIsStable | src/analysisd/rules_list.c:214-221 | after any sequence of loads, equal levels are in the order in which their rules were loaded, in every sibling list |
| Forests.BatchesInOrder | src/analysisd/rules_list.c:214-221 | the same for rules that are loaded one after the other |
| Forests.LoadAside | src/analysisd/rules_list.c:130-202 | a step for a rule changes nothing outside the nodes of that rule |
| Forests.EarlierRulesStay | src/analysisd/rules_list.c:130-202 | after any sequence of loads, the tree without the rules loaded from some step on is the tree before that step: nothing is lost, duplicated or moved |
| Forests.EarlierBatchesStay | src/analysisd/rules_list.c:130-202 | the same for rules that are loaded one after the other, each with all its walks |
| Forests.LoadChangesIff | src/analysisd/rules_list.c:37-127 | a walk changes the tree if and only if it finds a parent |
| RuleTree.InsertRule | src/analysisd/rules_list.c:205-257 | the pointer walk and the middle insertion give the sorted insertion, with one new node and all old ones kept |
| RuleTree.AddMatching | src/analysisd/rules_list.c:37-127 | the recursion over lists it extends terminates and gives the graft; the code says whether any node matched, and with `inherit` a rule without a context takes over those of its parents in the order of the walk |
| RuleTree.AddToNode | src/analysisd/rules_list.c:66-120 | one turn: insertion below the node, then the walk over the extended child list |
| RuleTree.AddBelowSid | src/analysisd/rules_list.c:37-127 | the walk for one id of if_sid gives the sid graft; the code says whether the id was found; category and context afterwards are those its parents hand on, one after the other |
| RuleTree.ContextIsFirst | src/analysisd/rules_list.c:60-62 | a rule keeps the `last_events` it has, otherwise it shares those of the first parent with any, or has none |
| RuleTree.CategoryIsLast | src/analysisd/rules_list.c:52-55 | the category of a rule below several parents of one id is that of the last one |
| RuleTree.SidAtNode | src/analysisd/rules_list.c:50-120 | one turn of that walk; the new rule takes over the category of its parent, and its context if it has none |
| RuleTree.FindCategory | src/analysisd/rules_list.c:101-105 | the walk stops at the first root of the category |
| RuleTree.FirstRootIs | src/analysisd/rules_list.c:101-105 | which root that is |
| RuleTree.AddByCategory | src/analysisd/rules_list.c:101-114 | one leaf below the first root of the category, or no change and code 0 |
| RuleLists.TrailingSeparator | src/analysisd/rules_list.c:138-161 | the ids read from an if_sid text contain 0 if and only if the text is empty, ends in a separator, or writes an id 0 |
| RuleLists.IdsOfText | src/analysisd/rules_list.c:138-161 | numbers written with commas and spaces between them are read back in order |
| RuleLists.RuleList.AddRule | src/analysisd/rules_list.c:260-265 | one insertion at the top level |
| RuleLists.RuleList.AddToRule | src/analysisd/rules_list.c:37-127 | the tree changes by exactly the step for the arguments, and the code says whether a parent was found; which category and context the rule has afterwards |
| RuleLists.RuleList.AddBelowSids | src/analysisd/rules_list.c:138-161 | the loop did one step for each id read, in order, up to the first without a parent; it exits there, or at a bad character, and not otherwise |
| RuleLists.RuleList.AddChild | src/analysisd/rules_list.c:130-202 | if_group hangs a new rule below exactly the nodes whose group the word matches, if_level below those of at least a hundred times the level, otherwise below the first root of its category; below a group it shares the first context in the order of the walk; success exactly if there is one; when the rule is rejected or the process exits; which steps if_sid takes |
| RuleLists.RuleList.TreeIsSorted | src/analysisd/rules_list.c:205-257 | the linked tree of any valid list is sorted at every depth |
| RuleLists.RuleList.TreeIsStable | src/analysisd/rules_list.c:205-257 | and its equal levels are in load order |
| RuleLists.RuleList.NothingLost | src/analysisd/rules_list.c:130-202 | and without the rules added since some step it is the tree of that time |
| Levels.RestoredExactly | src/analysisd/rules.c:2041-2052 | the declared level comes back after n visits if and only if it is restorable |
| Levels.EncodedOrder | src/analysisd/rules.c:297-311 | the encoded order is level 0 first, then descending level, rules without accuracy last |
| RuleWalks.SetLevels | src/analysisd/rules.c:2041-2069 | every rule is decoded once per node it sits in, and the result is the number of nodes |
| RuleWalks.LevelsRestored | src/analysisd/rules.c:2041-2069 | a shared rule gets its declared level back if and only if it is restorable for its number of nodes |
| RuleWalks.DoesRuleExist | src/analysisd/rules.c:2074-2101 | true if and only if some node at any depth carries the id |
| RuleWalks.MarkGroup | src/analysisd/rules_list.c:372-414 | each matching rule gets the list once for every node it sits in, appended to what it had; for a new list that is the number of its marks; sid and group lists stay apart |
| RuleWalks.OtherMarksStay | src/analysisd/rules_list.c:390-401 | marking one list keeps the number of marks with every other |
| RuleWalks.MarkedPerParent | src/analysisd/rules_list.c:390-401 | a rule that if_group or if_level added below n matching nodes is marked n times with each list |
| RuleWalks.MarkId | src/analysisd/rules_list.c:339-369 | exactly the rules with the id have a list afterwards, no two share one, none is a group list, and the searching rule points to one of them |
| RuleWalks.MarkIdHere | src/analysisd/rules_list.c:346-359 | one node of that walk |
| RuleMatch.FirstResult | src/analysisd/analysisd.c:1612-1641 | a result is the rule at the first path, children before parents, on which all rules match and that may alert |
| RuleMatch.NoResult | src/analysisd/analysisd.c:1612-1641 | without a result there is no such path |
| RuleMatch.MatcherIsFirst | src/analysisd/analysisd.c:1612-1641 | the matcher returns the first alerting path's rule, and something if and only if there is one |
| AlertBooks.RootsResultIsFirst | src/analysisd/analysisd.c:872-896 | the loop over the roots returns the rule of the first alerting path below a root of the category, and something if and only if there is one |
| AlertBooks.Analysisd.CheckIfRuleMatch | src/analysisd/analysisd.c:1059-1642 | refines the tree function, and raises exactly one counter pair if and only if the result is not NULL |
| AlertBooks.Analysisd.MatchEvent | src/analysisd/analysisd.c:872-896 | the loop over the roots of the event's category keeps the books balanced |
| AlertBooks.Analysisd.PrintRule | src/analysisd/analysisd.c:1647-1654 | a rule with hits is printed with them and cleared |
| AlertBooks.Analysisd.LoopRule | src/analysisd/analysisd.c:1645-1665 | all rules of a subtree are printed at most once and cleared, however they are shared |
| AlertBooks.Analysisd.LoopRoots | src/analysisd/analysisd.c:1712-1715 | the same for the whole tree |
| AlertBooks.Analysisd.DumpLogstats | src/analysisd/analysisd.c:1668-1727 | a dump prints each rule with hits once, its lines sum to the printed hourly total, and all counters are zero afterwards; a failed dump changes nothing |
| AlertBooks.PrintedIsCleared | src/analysisd/analysisd.c:1645-1665 | what is printed and what remains sum to what was there |
| AlertBooks.PrintedLine | src/analysisd/analysisd.c:1647-1654 | a printed line gives the hour, and the id, the level and the hits of its rule, which has no other line |
| AlertBooks.TotalTake | src/analysisd/analysisd.c:1638-1639 | the sum over distinct rules does not depend on the order in which they are taken |
| Accumulation.PurgeIsInvisible | src/analysisd/accumulator.c:216-271 | for every run with a non-decreasing positive clock, the events returned with and without purging are equal |
| Accumulation.PurgeIsInvisibleIff | src/analysisd/accumulator.c:216-271 | from the start of the program at time t, the purge is invisible in every run with a non-decreasing clock if and only if t is positive |
| Accumulation.PurgeIsVisible | src/analysisd/accumulator.c:123-131 | for every other t, a run of 200 calls from the start that shows the difference |
| Accumulation.PurgesWhen | src/analysisd/accumulator.c:216-260 | when a purge comes and what it keeps |
| Accumulation.StoredIsFirstUsable | src/analysisd/accumulator.c:120-211 | a stored field is the first value of usable length since the last gap of more than 120 s of its key |
| Accumulation.ReturnedEvent | src/analysisd/accumulator.c:132-165 | a returned event keeps its own non-empty fields and takes the stored first usable value otherwise |
| Accumulation.EveryReturnedField | src/analysisd/accumulator.c:75-271 | in every run with a positive, non-decreasing clock, purging included, each field of each returned event is what the earlier calls with the same key say |
| Arrivals.KeyedIff | src/analysisd/accumulator.c:88-118 | which events have no entry |
| Arrivals.SameKeyIff | src/analysisd/accumulator.c:110-118 | two events whose parts can be told apart share an entry exactly when host name, decoder and id are all equal |
| Arrivals.SpacesCanCollide | src/analysisd/accumulator.c:110-114 | with spaces in two of the parts, different events can share an entry |
| Arrivals.EveryArrivalReturns | src/analysisd/accumulator.c:75-271 | in every run with a positive non-decreasing clock, each returned field is the event's own, or comes from the earlier events of the same host, decoder and id |
| Arrivals.FirstUsableIs | src/analysisd/accumulator.c:322-327 | the first usable value is the first of 1 to 80 characters |
| Arrivals.SinceGapIs | src/analysisd/accumulator.c:123-131 | the events since the last gap of more than 120 seconds |
| Accumulation.KeysAreIndependent | src/analysisd/accumulator.c:103-118 | the entry of a key depends on the calls for that key only |
| Accumulators.Accumulator.Accumulate | src/analysisd/accumulator.c:75-213 | refines one call of the pure accumulator: the new store, the counters and the returned fields |
| Accumulators.Accumulator.AccumulateCleanUp | src/analysisd/accumulator.c:216-271 | the counters, and a walk that deletes exactly the expired entries |
| Accumulators.Accumulator.FillEvent | src/analysisd/accumulator.c:135-165 | the seven replacements |
| Base64.RoundTrip | src/addagent/b64.c:45-175 | decoding an encoding gives back every byte sequence |
| Base64.GroupRoundTrip | src/addagent/b64.c:65-97 | one group of one to three bytes, with its padding |
| Base64.FilteredRoundTrip | src/addagent/b64.c:128-133 | the same through the alphabet filter |
| Base64.NoiseIgnored | src/addagent/b64.c:128-133 | characters outside the alphabet do not change what is decoded |
| Base64.EncodingIsText | src/addagent/b64.c:177-193 | an encoding contains alphabet characters only, and no NUL |
| Base64.DigitsAreAlphabet | src/addagent/b64.c:177-193 | the digits are the 64 characters of table 1 in section 4 of RFC 4648, in its order, and the padding is '=' |
| Base64.SextetsAreBits | src/addagent/b64.c:78-81 | the four digits are the 24 bits of three bytes, six at a time from the left |
| Base64.AlphabetIsKept | src/addagent/b64.c:214-224 | the filter keeps those characters and the padding |
| Base64.OutputFits | src/addagent/b64.c:58 | the encoding and its NUL fit the allocated buffer, and fill it exactly when n is 1 modulo 3 |
| Base64.BufferRoundTrip | src/addagent/b64.c:45-175 | the same for the buffers the two routines leave behind |
| Base64.EncodeBase64 | src/addagent/b64.c:45-100 | the buffer holds the encoding and zeros; no write leaves it |
| Base64.DecodeBase64 | src/addagent/b64.c:106-175 | the buffer holds the decoding of the alphabet characters and zeros; NULL exactly for a missing or empty string |
| Base64.KeepAlphabet | src/addagent/b64.c:128-133 | the filter loop |
| HourlyStats.AverageStaysBounded | src/analysisd/stats.c:127-160 | over any number of days the average stays within 33 of a bound on the counts, or within 81 if days can have three alarms |
| HourlyCounters.AveragesStayWithin | src/analysisd/stats.c:119-289 | the same for all hours over any run of counted events and midnights, when no hour ever has more than m events |
| HourlyStats.OrdinaryBoundIsReached | src/analysisd/stats.c:127-160 | 33 is reached from an empty record |
| HourlyStats.NoisyBoundIsReached | src/analysisd/stats.c:127-160 | 81 is reached with three alarms a day |
| HourlyStats.OrdinaryDayGrows | src/analysisd/stats.c:155-159 | an ordinary update is at least five above the smaller of count and average |
| HourlyStats.LearnedIs | src/analysisd/stats.c:127-160 | an hour without events keeps its average; the first events set it; otherwise it is the weighted mean, rounded down, and 5 or 25 more |
| HourlyCounters.Counters.UpdateHour | src/analysisd/stats.c:119-176 | one midnight of the run model: the new averages, cleared counts and alarms; the printed total of the day, and files equal to the averages |
| HourlyCounters.Counters.LearnHour | src/analysisd/stats.c:134-175 | one turn of the loop |
| HourlyCounters.Counters.PrintTotals | src/analysisd/stats.c:88-93 | the total is the number of events counted since the last update |
| HourlyCounters.Counters.CheckHour | src/analysisd/stats.c:225-289 | one counted event of the run model: the count, and an alarm exactly as the alarm automaton raises it |
| HourlyCounters.Counters.constructor | src/analysisd/stats.c:364-391 | a restart reads back the averages and loses the counts of the day |
| HourlyCounters.RaisedExactly | src/analysisd/stats.c:225-289 | over a day, an event raises an alarm if and only if its hour is over the threshold, fewer than three alarms were raised, and its stretch of the hour had none |
| HourlyCounters.AlarmState | src/analysisd/stats.c:234-242 | never more than three alarms a day, and what the flags mean after any day |
| HourlyCounters.ThresholdInOrder | src/analysisd/stats.c:102-116 | with the limits in order the allowance is between them and the threshold grows with the average |
| HourlyCounters.ThresholdMonotoneIff | src/analysisd/stats.c:102-116 | a higher average never lowers the threshold if and only if the lower limit is at most one above the upper one, or the percentage is 0 |
| HourlyCounters.AllowanceIs | src/analysisd/stats.c:102-116 | the allowance above the average is the lower limit, the upper limit, or the percentage rounded down and one more, and when it is which |
| HourlyCounters.Counters.PassedFrom | src/analysisd/stats.c:244-247 | the count from which an average is passed |
| HourlyCounters.Counters.AlarmFrom | src/analysisd/stats.c:244-286 | with enough days learned and no reason to be silent, the alarm comes with exactly that count |
| KeyFile.KeyStore.MapIDToBitArray | src/addagent/validate.c:24-63 | a bit is set if and only if its number occurs at the start of a line |
| KeyFile.SetBit | src/addagent/validate.c:20-22 | one bit is set, no other changes |
| KeyFile.KeyStore.AddNewAgent | src/addagent/validate.c:65-132 | an automatic id is the least free number, failing exactly when none is free or the file is missing; one line is appended |
| KeyFile.LeastFreeIs | src/addagent/validate.c:86-101 | the least free number is the only one the search can return |
| KeyFile.LineIsNumbered | src/addagent/validate.c:94-126 | the appended line is read back with its number, whatever the name and address |
| KeyFile.LineIsReadBack | src/addagent/validate.c:119-126 | id, name, address or "any", and key are read back from the appended line in that order |
| KeyFile.KeyStore.IDExist | src/addagent/validate.c:303-351 | found if and only if a line has that id, with the offset of the first one |
| KeyFile.KeyStore.RemoveAgent | src/addagent/validate.c:134-193 | the file is overwritten at that offset only, and only if the id exists |
| KeyFile.RemovalBuriesOneLine | src/addagent/validate.c:189-193 | with room, one line changes; it keeps id, length and newline and is skipped by readers; all other lines are unchanged |
| KeyFile.RemovalKeepsLinesIff | src/addagent/validate.c:189-193 | the length of the file and its line breaks are kept if and only if the id and the tombstone end before the end of the line |
| KeyRemovals.RemovalReads | src/addagent/validate.c:189-193 | after any removal the chunks before the line are read as they were, then one chunk with the id, then the rest of the file |
| KeyRemovals.TakenAfterAnyRemoval | src/addagent/validate.c:189-193 | for every file: which numbers are in it after a removal |
| KeyRemovals.RemovalSwallowsExactly | src/addagent/validate.c:189-193 | when the line that the tombstone ends in is read in one piece, a number is kept if and only if a line that is not swallowed carries it |
| KeyRemovals.RemovalKeepsNumbersIff | src/addagent/validate.c:189-193 | no free number is taken, and none is freed if and only if every number on a swallowed line also stands on another one |
| KeyRuns.SoundAfter | src/addagent/validate.c:65-193 | every call keeps the file in complete lines with room |
| KeyRuns.NeverReused | src/addagent/validate.c:65-193 | over any run of additions and removals no number is handed out twice, from any file with room in its lines and a good end, which a complete last line always is |
| KeyRuns.NeverReusedIff | src/addagent/validate.c:65-193 | for every unfinished end: no run hands a number out twice if and only if the least free number reads on behind that end |
| KeyRuns.SecondNumber | src/addagent/validate.c:86-126 | of two automatic additions behind an unfinished line the second gets another number if and only if the first one reads on, room or not |
| KeyRuns.MergedNumber | src/addagent/validate.c:43-60 | what number is read from an unfinished line with a new line appended |
| KeyRuns.WrittenFilesAreSound | src/addagent/validate.c:65-193 | every file written by calls from an empty one is sound |
| FirstTimeSeen.Fts.Check | src/analysisd/fts.c:226-295 | returns 1 exactly when it adds one new key to store and file, changing neither on 0 |
| FirstTimeSeen.Fts.ThreeSimilar | src/analysisd/fts.c:255-273 | the loop over the list finds whether three recent patterns are similar |
| FirstTimeSeen.Fts.Load | src/analysisd/fts.c:93-111 | the store holds exactly the keys of the file |
| FirstTimeSeen.HowClosedMatch | src/os_regex/os_regex_str.c:36-54 | the length of the common start |
| FirstTimeSeen.SamePatternIff | src/analysisd/fts.c:236-245 | patterns that fit are equal exactly when the decoder and every requested field are |
| FirstTimeSeen.PartIs | src/analysisd/fts.c:236-245 | the parts of a pattern are the fields the decoder asks for |
| FirstTimeSeen.KeyIs | src/analysisd/fts.c:255-268 | a pattern is cut exactly when it is from an IDS and three recent ones share a long enough start with it |
| FirstTimeSeen.RecentAreLast | src/analysisd/fts.c:276-277 | in every reachable state the list holds the last keys that IDS events put on it |
| FirstTimeSeen.AddedOnce | src/analysisd/fts.c:247-295 | a run adds each key once, and only keys that were not there |
| FirstTimeSeen.AddedToFile | src/analysisd/fts.c:288-292 | the file receives exactly the added keys, in order |
| FirstTimeSeen.FiresAtFirstOccurrence | src/analysisd/fts.c:247-295 | a pattern that is not from an IDS fires if and only if it was neither loaded nor added before |
| FirstTimeSeen.PlainPatternsAreAdded | src/analysisd/fts.c:247-295 | without IDS events the keys are the loaded ones and the patterns seen |
| FirstTimeSeen.FloodsAreCutShort | src/analysisd/fts.c:251-277 | in every reachable state no recent pattern is similar to three older ones of the list |
| FirstTimeSeen.ReloadAfterRun | src/analysisd/fts.c:93-111 | what a reload gives after any run of newline-free patterns |
| FirstTimeSeen.ReloadRebuildsIff | src/analysisd/fts.c:93-111 | no key is lost, and the reload equals the store if and only if no added key has 255 characters or the empty key is there anyway |
| ServerRotation.Agent.ConnectServer | src/client-agent/start_agent.c:16-90 | dials in turn up to the first answer, for any sequence of dial results |
| ServerRotation.Agent.AwaitAck | src/client-agent/start_agent.c:121-170 | the wait ends with the first acknowledgement, or the first error after more than five sleeps |
| ServerRotation.EndsWaitIff | src/client-agent/start_agent.c:122-135 | a wait ends with an acknowledgement, or with an error behind at least six errors or empty replies |
| ServerRotation.SilentServer | src/client-agent/start_agent.c:122-135 | a server from which nothing comes is given up with the seventh error |
| ServerRotation.EmptyReplies | src/client-agent/start_agent.c:124-135 | empty replies never end a wait, but they count for the next error |
| ServerRotation.Agent.StartAgent | src/client-agent/start_agent.c:93-195 | whatever is answered, every dial goes to the next server in turn; it returns only connected and when the last reply read is an acknowledgement |
| ServerRotation.Agent.Live | src/client-agent/start_agent.c:16-195 | over the agent's whole life the servers dialled are 0, 1, ..., n-1, 0, 1, ... |
| ServerRotation.EveryServerIsDialled | src/client-agent/start_agent.c:46-87 | any n dials in a row reach every server |

## Left out

- Overwrite rules (`src/analysisd/rules_list.c:268-336`): they change a level in place without moving the node.
- The conditions of one rule (`src/analysisd/analysisd.c:1079-1604`): a predicate on rules; the searches that run inside it are modelled on their own.
- The regular expression, address, word and category matchers: uninterpreted predicates. MD5 and random numbers: a parameter.
- Weekly statistics: the weekly branch of the alarm check is modelled, the weekly update is not.
- CDB lists, the ignore file (its answer is a parameter), active responses, alert output, configuration parsing, and the decoders.
- Allocation failures, and failures to open a file except where a member names them.
- Overflow of times, counters and `atoi`: numbers are unbounded, except the bytes of base64 and the words of the bit array.
- Times of day and sleeps: the clock is a parameter and back-off times are not modelled.
- The raising of `_max_freq` and the minimum of 2048 for the memory size: the memory takes any size of at least 9 and any frequency.
- RuleInfo: the lists a rule is marked with do not change while events are in memory, as in the program, where marking ends before the first event.
- EventLoop.ReadLoop.ProcessEvent: begins at the rule loop; the date change, the decoders and the duplicate test before it are not part of it.
- Entities.OSList.AddData: without a size limit; the links of its nodes are a sequence, and `currently_size`, which `OSList_DeleteOldestNode` does not lower, is not kept; the limit of the first-time-seen list is a function of its own.
- Entities.OSHash: rows and hash values are not modelled; a walk visits the keys in an arbitrary order.
- RuleLists.RuleList.AddToRule: the three kinds of search are separate walks, where the source has one loop that tests its constant arguments at every node.
- Arrivals.EveryArrivalReturns: for events of which the same two parts of the key contain no space; `Arrivals.SpacesCanCollide` shows why.
- FirstTimeSeen.SamePatternIff: for patterns that are not cut and words without spaces, other than the location.
- RuleLists.RuleList.AddBelowSids: for an id 0 in the text, it does not say which root is chosen; the rule's category is then that of the parent found last.
- RuleLists.RuleList.AddChild: the same for an if_sid. The category and the context after several ids are said id by id, by AddToRule.
- AlertBooks.Analysisd.CheckIfRuleMatch: the conditions of a rule are a pure predicate, without the marks that a search inside them changes.
- Accumulators.Accumulator: logging and the failing returns of the hash functions, which cannot occur without allocation failures.
- KeyFile.KeyStore: models the default build (without `REUSE_ID`) and one key file; a NUL byte in the file, and the agent information and counters that a removal also deletes, are not modelled.
- KeyRuns.NeverReused: for files in which every line with an id has room for its tombstone, as in all files the program writes; for other files `KeyRemovals.RemovalKeepsNumbersIff` says which single removals free numbers.
- KeyRemovals.RemovalSwallowsExactly: for a merged line that one `fgets` reads; `KeyRemovals.TakenAfterAnyRemoval` is for all files.
- FirstTimeSeen.HowClosedMatch: not for two empty strings, for which the C loop reads behind their ends; patterns are never empty.
- KeyRuns.SoundAfter: the added lines must fit one buffer and contain no newline, which the callers' checks on name, address and id give.
- ServerRotation.Agent: what the network does is a finite sequence, so a call that would go on forever ends as waiting.
