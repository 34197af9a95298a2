# Verified models of Symbrowse

Symbrowse drives a browser for agents. Most of it is plumbing around Chrome, but several parts are
algorithms or protocols of their own. This project models those parts in Dafny 4.11 and proves what
they promise, over every input, every run and every interleaving:

- the injection scanner's Aho-Corasick automaton and its index of style rules;
- stable element refs, the paths and ordinals behind them, and the diff of two snapshots;
- the launch of a browser session, with its waiters and tabs;
- the ownership lifecycle of a session, and approval of commands out of band;
- the two glob matchers, content boundaries, the form runner, the per-host pacer, and the cycle check
  over a dependency map.

Code that changes objects in place is modelled by classes and loops, each proved against a
specification function; the properties are proved about that function. Protocols with a lock are
state machines whose steps are the locked sections and the calls made between them.

`dafny verify dfyconfig.toml` checks the whole project.

## Layout

| file | what it holds |
|---|---|
| `Words.dfy`, `AhoCorasick.dfy` | suffixes and patterns; the trie, its fail links and the search |
| `Declarations.dfy`, `StyleIndex.dfy` | declarations of style rules; descendant selectors, the bucketed rule index and its lookup |
| `SnapshotPaths.dfy`, `SnapshotTrees.dfy`, `InsertionSorting.dfy` | paths and ordinals of accessibility nodes; the insertion sort that short child lists go through |
| `Signatures.dfy`, `RenderedPaths.dfy` | what a subtree's signature says of its shape; what paths and ordinals say of the tree |
| `RefModel.dfy`, `RefOutcomes.dfy`, `StableRefs.dfy` | refs as a state machine on values; how far the outcome of a snapshot is fixed; the registry and service objects |
| `StructuralKey.dfy`, `SnapshotDiff.dfy`, `Snapshots.dfy` | structural keys and the diff of two snapshots |
| `SessionLaunch.dfy`, `SessionRuntime.dfy` | the launch protocol; the runtime object whose locked sections are its steps |
| `Lifecycle.dfy` | the ownership journal and the manager that writes it |
| `Approval.dfy` | prompts, waiters and the decision gate |
| `Globs.dfy` | both glob matchers and what relates them |
| `Boundary.dfy` | wrapping and parsing content boundaries |
| `FormRunner.dfy`, `Pacing.dfy` | form submission over a logged driver; pacing |
| `DependencyCycle.dfy` | the depth-first cycle check |
| `Options.dfy`, `Sorting.dfy`, `Text.dfy` | optional values, sorting and string helpers |

## Where the code does not do what one would expect

- The rule index folds attribute names to lower case when it looks up buckets, but the check of one
  selector part does not. `UpperCaseKeyFindsTooMuch` shows an element for which a rule is found
  that does not apply to it, and `FoundIffApplies` says exactly for which elements lookup is right.
  The HTML parser lower-cases attribute names, so no scanned page has such an element.
- The branch that discards a freshly launched browser because tabs appeared meanwhile is never
  taken: `SingleFlight` proves it unreachable.
- A structural key can be both added and removed in one epoch. `AddedAndRemovedIffTwins` says that
  this happens exactly when two vanished and two new elements have that key, and
  `RenamedCousinsAreTwins` gives two snapshots of a list where it happens.
- Names are meant to be left out of structural keys, but a name can close its own bracket early.
  `NameLeaksIntoKey` gives the names that put text of their own into the key, `NameVanishesIff` the
  exact condition on a name, and `StripMeaning` what is left of a path: no bracket stays exactly
  when the brackets are balanced.
- A structural key writes a role and a path with a bar between them. Roles without a bar can be read
  back (`EqualKeysIff`); with one, elements of different roles can have one key
  (`BarInRoleConfuses`).
- A subtree's signature stands for its shape only as long as no role or name has a parenthesis or a
  comma in it: `SignatureIff` and `ParenthesisConfuses`. Ids are meant to decide the order of
  siblings only between equal shapes, and do so under that condition (`IdsDecideOnlyTies`).
- The pacer's slots are the earliest possible ones exactly when the clock is far enough from the
  zero time, which is what a host that was never seen counts as its last slot:
  `EarliestIffClockStarted`.
- A wrapped text parses back exactly when the origin is not empty and has no line break:
  `RoundTripIff`.
- A ref that was already buried as removed when the page navigates is not retired and can come back;
  `RetiredIffNavigatedWhileLive` says exactly which refs are retired. `RemovedRefOutlivesNavigation`
  gives a run in which one comes back, and `ComebackHappens` shows that this run exists.
- When two elements share a key, which of them is shown depends on map order;
  `SnapshotIsDeterministicIff` proves a single outcome exactly when such elements all have ref names
  and are alike.
- An element without a ref name makes the code pass over its key. If that key is current, its ref is
  dropped without a tombstone: `SoundIffNothingPassedOver`. The renderer names all elements.
- The comparison of sibling nodes is not transitive when a child is missing (`ConsistentIff`), and
  then the placements depend on the order in which the children are listed: `ChildOrderMattersIff`.
  That theorem is about insertion sort, which is how Go's stable sort treats lists of up to twenty.
  The renderer keeps only known children.
- The glob compiled for asserts treats `?` as a literal and lets `*` stop at a slash, so the wait
  matcher accepts more. Only the wait matcher has a size cap: a pattern or a value over the cap is
  one it rejects and the assert matcher may accept (`LongValuesTellApart`). `AgreeOnValueIff` and
  `AgreeOnPatternIff` say exactly when the two agree, cap included.

## Model

| member | source | states |
|---|---|---|
| Words.LongestSuffixIsLongest | internal/injection/scan.go:491-500 | the fail word the links are compared with is a suffix, and no longer suffix is in the trie |
| Words.LongestPatternIsLongest | internal/injection/scan.go:501-503 | the output word the nodes are compared with is a pattern ending here, and no longer one ends here |
| Words.SuffixOfExtension | internal/injection/scan.go:376-394 | the longest suffix after one more letter depends only on the longest suffix before it, so one node is enough state |
| Words.ChaseFail | internal/injection/scan.go:492-495 | when the extension of a node is missing, following its fail link loses no candidate suffix |
| Words.PatternAtSuffix | internal/injection/scan.go:501-503 | patterns ending at a word are those ending at its longest suffix in the trie, so inheriting an output is right |
| AhoCorasick.Descend | internal/injection/scan.go:468-475 | one letter of insertion adds exactly that word to the trie, keeps all other nodes, and reuses an existing child |
| AhoCorasick.Spell | internal/injection/scan.go:467-475 | spelling a pattern adds exactly its prefixes and ends at the pattern's own node |
| AhoCorasick.Insert | internal/injection/scan.go:466-479 | inserting a pattern spells exactly the prefixes of all patterns so far and marks the pattern's node, leaving nothing linked |
| AhoCorasick.BuildTrie | internal/injection/scan.go:464-479 | for every pattern list the trie spells exactly the prefixes of the patterns, each marked at its own node |
| AhoCorasick.SpelledWords | internal/injection/scan.go:466-475 | a word is in the trie exactly when it is empty or a prefix of some pattern |
| AhoCorasick.FailTarget | internal/injection/scan.go:492-500 | the fail-chasing loop ends, and at the node of the longest proper suffix of the child's word |
| AhoCorasick.LinkChild | internal/injection/scan.go:491-503 | linking one child extends the set of correctly linked nodes by that child and changes no other |
| AhoCorasick.UnlinkedAreLonger | internal/injection/scan.go:481-506 | breadth first: a node not yet linked spells a longer word than the node being visited, and while one is left the work is not done |
| AhoCorasick.VisitRoot | internal/injection/scan.go:481-485 | the root's children, visited in any order, fail to the root and are queued |
| AhoCorasick.VisitChildren | internal/injection/scan.go:488-505 | the children of one node, visited in any order, are linked and queued, and the traversal invariant is kept |
| AhoCorasick.Link | internal/injection/scan.go:481-506 | for every order of the child maps every node ends up with the fail link to its longest proper suffix in the trie and the longest pattern ending there as output |
| AhoCorasick.Compile | internal/injection/scan.go:464-509 | for every pattern list compilation gives the complete automaton |
| AhoCorasick.Move | internal/injection/scan.go:382-388 | a search step from the node of the longest suffix read goes to the node of the longest suffix after the letter, and its loop ends |
| AhoCorasick.EarliestMeaning | internal/injection/scan.go:376-394 | the reference search finds nothing exactly when no pattern ends anywhere, and otherwise the longest pattern ending at the earliest end |
| AhoCorasick.OccursIffEnds | internal/injection/scan.go:376-394 | a non-empty pattern occurs somewhere in the text exactly when it ends somewhere in it |
| AhoCorasick.MatchPattern | internal/injection/scan.go:376-394 | for every text the result is empty exactly when no pattern occurs in the normalised text, and otherwise the longest pattern ending at the earliest position where any ends; a missing automaton finds nothing |
| AhoCorasick.CompileAndMatch | internal/injection/scan.go:376-509 | end to end: for every pattern list and text, compiling and searching finds nothing exactly when no non-empty pattern is a substring of the normalised text, and otherwise the longest pattern ending at the earliest end |
| StyleIndex.PlaceableIffPlacement | internal/injection/scan.go:710-736 | selector parts can be placed on the ancestors, in order and strictly higher each, exactly when the recursive search finds a place |
| StyleIndex.NearestMatchSuffices | internal/injection/scan.go:715-734 | taking the nearest matching ancestor never loses a placement |
| StyleIndex.SelectorPartsMatch | internal/injection/scan.go:710-736 | the greedy climb succeeds exactly when there are parts and some placement of them exists |
| StyleIndex.AddRuleBuckets | internal/injection/scan.go:556-566 | filing a rule keeps every rule in the bucket of its rightmost part and in no other |
| Declarations.FirstDeclarationWins | internal/injection/scan.go:547-555 | a property has a value exactly when some declaration gives it one, and then the first one counts |
| Declarations.Collect | internal/injection/scan.go:547-555 | the loop over the raw declarations builds that map |
| Declarations.PaddedDeclaration | internal/injection/scan.go:621-632 | a property and a value, with any white space around them and a colon between, are read as the lower-case property and the value |
| Declarations.NoDeclaration | internal/injection/scan.go:621-632 | without a colon, or with only white space on one side of the first one, nothing is read |
| StyleIndex.NewStyleRuleIndex | internal/injection/scan.go:531-569 | for every sheet the index holds one rule for each selector with a part, in strictly increasing order, filed under its rightmost part only; its parts are the selector's words, and a property has the value of its first declaration there or none |
| StyleIndex.Candidates | internal/injection/scan.go:575-592 | the numbers collected from the buckets are exactly those of rules whose rightmost part is a candidate for the element |
| StyleIndex.Matching | internal/injection/scan.go:571-606 | lookup returns, in rule order, exactly the candidate rules whose selector can be placed; none for a missing node or an empty index |
| StyleIndex.FoundIffApplies | internal/injection/scan.go:571-606 | lookup agrees with the plain meaning of every selector exactly when no attribute whose name needs folding makes a stray candidate |
| StyleIndex.LowerCaseKeysAreHarmless | internal/injection/scan.go:576-589 | elements whose attribute names are in lower case meet that condition |
| StyleIndex.UpperCaseKeyFindsTooMuch | internal/injection/scan.go:571-606 | an element with an upper-case attribute name gets a rule that does not apply to it |
| StyleIndex.LookupIsFilter | internal/injection/scan.go:571-606 | under that condition lookup is the plain filter of all rules, in order |
| SnapshotPaths.SignatureIgnoresOrder | internal/engine/stable_refs.go:257-273 | the signature of a subtree, also of one with cycles or missing children, does not depend on the order of any child list |
| SnapshotPaths.NormalizedIff | internal/engine/stable_refs.go:62-64 | two texts are normalised alike exactly when they have the same words, and normalising keeps the words |
| Signatures.SignatureIff | internal/engine/stable_refs.go:257-273 | for all graphs whose roles and names have no parenthesis or comma, two subtrees have one signature exactly when they have one shape: the same segments, the same multisets of shapes below, the same cycles and missing children |
| Signatures.SortKeyIff | internal/engine/stable_refs.go:253-255 | likewise two children tie in the comparison exactly when they have one shape |
| Signatures.ParenthesisConfuses | internal/engine/stable_refs.go:257-273 | with a parenthesis in a role, a node with one child and a node with two have one signature |
| SnapshotPaths.ChildLeqTotal | internal/engine/stable_refs.go:222-233 | any two children compare, and only equal ids compare both ways, whether known or missing |
| SnapshotPaths.ConsistentIff | internal/engine/stable_refs.go:222-233 | the comparison is transitive on a child list exactly when no missing child stands, by id, between two known ones that compare the other way round |
| SnapshotPaths.SortedChildrenIgnoreOrder | internal/engine/stable_refs.go:221-233 | any two sorts give rearranged graphs the same sorted children wherever the comparison is consistent |
| SnapshotPaths.AssignSnapshotPath | internal/engine/stable_refs.go:216-243 | for every sort, the in-place recursion leaves in the nodes exactly the placements of the pure assignment; unknown ids and missing children are skipped |
| SnapshotPaths.AssignSnapshotPaths | internal/engine/stable_refs.go:207-214 | the same for the whole root list, skipping unknown roots |
| SnapshotPaths.PathsIgnoreChildOrder | internal/engine/stable_refs.go:207-273 | permuting child lists of any nodes at any depth, and using another sort, changes no node's path and no ordinal, if the comparison is consistent on the child lists the roots lead to |
| SnapshotPaths.KnownChildrenIgnoreOrder | internal/engine/stable_refs.go:207-273 | so it does for every acyclic graph whose children are all known, which is what the renderer builds |
| SnapshotTrees.PathsFollowTree | internal/engine/stable_refs.go:207-243 | on every forest, also below a selected element that has a parent, a root's path is its own segment and its ordinal its position, and the path of every node below extends its parent's path by its segment, with its position among the sorted siblings as ordinal |
| SnapshotTrees.RenderedRootsAreForest | internal/engine/snapshot.go:110-126 | both kinds of root list, the nodes without parents and the one selected node, are roots of a forest |
| SnapshotPaths.InsertionSortIsSort | internal/engine/stable_refs.go:221-233 | insertion sort with this comparison permutes every child list, and orders those on which the comparison is consistent |
| SnapshotTrees.ChildOrderMattersIff | internal/engine/stable_refs.go:216-243 | on a forest, with insertion sort, the placements are independent of the order of all child lists exactly when no missing child stands between known siblings that compare the other way round, anywhere below the roots |
| SnapshotTrees.OthersKeepTheirPlaces | internal/engine/stable_refs.go:207-243 | nodes that no root leads to are left alone |
| RenderedPaths.PathSpellsAncestors | internal/engine/stable_refs.go:207-251 | on every forest the path of a node spells, from the root down, the role and the bracketed name of each ancestor and of the node, with spaces collapsed |
| RenderedPaths.StructureSpellsRoles | internal/engine/snapshot_diff.go:208-222 | stripped of names that vanish, the path of a rendered node spells just the roles from the root down |
| RenderedPaths.SiblingOrder | internal/engine/stable_refs.go:221-240 | of two known siblings the one with the smaller sort key has the smaller ordinal, and with equal keys the one with the smaller id |
| RenderedPaths.IdsDecideOnlyTies | internal/engine/stable_refs.go:221-273 | so ids decide the ordinals of siblings only when the siblings have one shape |
| StableRefs.StableRefRecord.SetTombstone | internal/engine/stable_refs.go:156-171 | a first tombstone records key, ref, role, name and reason; a later one only replaces the reason |
| StableRefs.StableRefRegistry.Entomb | internal/engine/stable_refs.go:156-173 | burying a key buries its current record and makes the key no longer current; a key without one changes nothing |
| StableRefs.StableRefRegistry.Invalidate | internal/engine/stable_refs.go:175-184 | everything current is buried with the reason, for good exactly on navigation |
| StableRefs.StableRefRegistry.InstallKey | internal/engine/stable_refs.go:126-133 | a key gets its old ref back unless that was retired, and otherwise the next number |
| StableRefs.StableRefRegistry.Pick | internal/engine/stable_refs.go:108-125 | the data shown is that of named elements, in key order, for every key of the snapshot except possibly the key of an element without a ref name |
| StableRefs.StableRefRegistry.Sweep | internal/engine/stable_refs.go:137-141 | the final cleanup drops exactly the current entries that were not handed out |
| StableRefs.StableRefRegistry.Apply | internal/engine/stable_refs.go:91-145 | for every snapshot the registry objects change as the model says, and the new refs are returned with their data |
| StableRefs.StableRefRegistry.ResolveRef | internal/engine/stable_refs.go:186-196 | resolving on the objects agrees with resolving on the model |
| StableRefs.NavigationService.ApplyStableSnapshot | internal/engine/stable_refs.go:66-78 | taking any snapshot sets the ref map to what was handed out, and keeps it equal to the registry's live part unless a current key is passed over |
| StableRefs.NavigationService.InvalidateSnapshotRefs | internal/engine/stable_refs.go:80-89 | invalidation is a step of the service: it empties the ref map, starts a new epoch and buries the live refs |
| StableRefs.NavigationService.ResolveInteractionTarget | internal/engine/interaction.go:173-199 | a ref leads to a node exactly when the ref map has it, with that map's node ids, and is stale exactly when it was issued but is not in the map |
| RefModel.RefNameInjective | internal/engine/stable_refs.go:147-154 | different numbers never give the same ref |
| RefModel.BuryEachIsBuryKeys | internal/engine/stable_refs.go:99-103 | burying keys one after the other, in any order, buries exactly that set |
| RefModel.SnapshotSetsLive | internal/engine/stable_refs.go:91-145 | after a snapshot the refs handed out are exactly the live ones, one for each key of the snapshot, each with data of its own key |
| RefOutcomes.SnapshotIsDeterministicIff | internal/engine/stable_refs.go:108-136 | a snapshot, with or without nameless elements, has one outcome, whatever the map order, exactly when elements that share a key all have ref names and are alike |
| RefOutcomes.EachCanBeShown | internal/engine/stable_refs.go:113-135 | each of the named elements that share a key is the one shown in some outcome |
| RefOutcomes.CanBePassedOver | internal/engine/stable_refs.go:113-135 | the key of an element without a ref name has no handed-out ref in some outcome, even if a named element has it too |
| RefOutcomes.SoundIffNothingPassedOver | internal/engine/stable_refs.go:91-145 | every outcome hands out exactly the live refs of a sound registry exactly when no element without a ref name has a current key |
| RefOutcomes.PassedOverStaysAlive | internal/engine/stable_refs.go:123-141 | otherwise the cleanup can drop a ref that stays alive without being handed out |
| RefOutcomes.NothingPassedOverIsSound | internal/engine/stable_refs.go:137-141 | under that condition the final cleanup deletes nothing |
| RefOutcomes.NamedSnapshotIsStep | internal/engine/stable_refs.go:66-145 | for snapshots whose elements all have ref names, what the code does is exactly the step of the model |
| RefOutcomes.ComebackHappens | internal/engine/stable_refs.go:91-184 | for every element there is a run that shows it, drops it, navigates and shows it again |
| RefOutcomes.RemovedRefOutlivesNavigation | internal/engine/stable_refs.go:91-184 | in every such run the element's ref is gone after the drop and the navigation, and comes back afterwards |
| RefModel.SnapshotBuriesMissing | internal/engine/stable_refs.go:92-104 | a live ref whose key the snapshot lacks is buried as removed and not for good |
| RefModel.SnapshotKeepsRef | internal/engine/stable_refs.go:126-136 | a ref that is not retired is live again, under the same key, exactly when the snapshot has its key |
| RefModel.InvalidationBuriesLive | internal/engine/stable_refs.go:175-184 | after an invalidation nothing is live, and exactly the refs that were live get the reason |
| RefModel.RunKeepsInv | internal/engine/stable_refs.go:66-196 | in every reachable state refs below the counter are exactly the issued ones, live records are exactly the current ones, and the service's ref map is the live part |
| RefModel.RefKeepsItsKey | internal/engine/stable_refs.go:91-196 | over every run a ref stays bound to its key, its number is never reissued, and a retired record never changes |
| RefModel.RetiredIffNavigatedWhileLive | internal/engine/stable_refs.go:156-184 | a ref is retired exactly when some navigation happened while it was live |
| RefModel.NavigationRetiresForGood | internal/engine/stable_refs.go:127-184 | a ref live at a navigation is stale in every later state |
| RefModel.KeyGetsItsRefBack | internal/engine/stable_refs.go:126-136 | between navigations a key that reappears gets its old ref |
| RefModel.ResolveMeaning | internal/engine/stable_refs.go:186-196 | in every reachable state a ref is unknown exactly when never issued, alive exactly when the ref map has it, with that data, and stale otherwise |
| RefModel.LiveAreTheLatest | internal/engine/stable_refs.go:66-89 | right after a snapshot the live refs show exactly that snapshot's keys and data, and after an invalidation there are none |
| RefModel.SameEpochIff | internal/engine/stable_refs.go:80-89 | in every run two states are in one epoch exactly when no invalidation lies between them |
| StructuralKey.SnapshotStructuralKey | internal/engine/snapshot_diff.go:208-222 | the shrinking loop ends with the role, the path stripped of bracket pairs, and the ordinal |
| StructuralKey.EqualKeysEqualOrdinals | internal/engine/snapshot_diff.go:221 | elements with equal keys have equal ordinals, whatever their roles and paths |
| StructuralKey.EqualKeysIff | internal/engine/snapshot_diff.go:208-222 | for roles without a bar, keys are equal exactly when roles, stripped paths and ordinals are |
| StructuralKey.BarInRoleConfuses | internal/engine/snapshot_diff.go:221 | a bar in a role gives elements of different roles and paths one key |
| StructuralKey.StripMeaning | internal/engine/snapshot_diff.go:208-222 | stripping removes all brackets exactly when they are balanced, and then leaves exactly the text outside them |
| StructuralKey.NameVanishesIff | internal/engine/snapshot_diff.go:208-222 | a name leaves no trace in the key of any path around it exactly when, in its brackets, it is closed and leaves nothing outside |
| StructuralKey.BalancedNamesVanish | internal/engine/snapshot_diff.go:208-222 | every name with balanced brackets vanishes, and so does the unbalanced `][`, so balance is not the exact condition |
| StructuralKey.NameLeaksIntoKey | internal/engine/snapshot_diff.go:208-222 | a name such as `a]/link[b` puts its own text into the key although the path stays balanced |
| StructuralKey.NamesDoNotMatter | internal/engine/snapshot_diff.go:208-222 | a path whose names all vanish strips to its roles |
| SnapshotDiff.MatchingIsOneToOne | internal/engine/snapshot_diff.go:138-202 | what the diff matches is one-to-one between refs of the two snapshots |
| SnapshotDiff.MatchShared | internal/engine/snapshot_diff.go:152-162 | refs that both snapshots have are matched with themselves, and listed as changed exactly when they differ |
| SnapshotDiff.IndexGone | internal/engine/snapshot_diff.go:167-172 | the index of vanished refs has exactly their structural keys, in any traversal order |
| SnapshotDiff.PairRest | internal/engine/snapshot_diff.go:166-186 | the remaining refs are paired by structural key, each vanished ref once, the first new ref by name for every key |
| SnapshotDiff.DiffSnapshots | internal/engine/snapshot_diff.go:138-206 | added, removed and changed are exactly the unmatched later, the unmatched earlier and the differing matched refs, each in order, and sizes balance; a shared ref is changed exactly when name, state, value or visibility differ; a pair matched by key is always changed, has one ordinal and, unless a role has a bar, one role and stripped path |
| SnapshotDiff.DiffConserves | internal/engine/snapshot_diff.go:138-202 | the earlier refs less the removed ones are as many as the later refs less the added ones |
| SnapshotDiff.SamePlaceIsPaired | internal/engine/snapshot_diff.go:166-186 | on the same page, when a vanished and a new element have one role, stripped path and ordinal, an element in that place is paired with a new one whose ref comes no later |
| SnapshotDiff.AddedAndRemovedIffTwins | internal/engine/snapshot_diff.go:166-202 | a key is both added and removed in one epoch exactly when two vanished and two new refs have that key |
| SnapshotDiff.RenamedCousinsAreTwins | internal/engine/snapshot_diff.go:166-202 | renaming the equal-placed buttons of two list items reports one key as both added and removed, however the diff matches them |
| SessionLaunch.StepKeepsInv | internal/daemon/navigation.go:489-619 | every step of every thread keeps the protocol's invariant |
| SessionLaunch.RunKeepsInv | internal/daemon/navigation.go:489-619 | the invariant holds in every state of every interleaving |
| SessionLaunch.SingleFlight | internal/daemon/navigation.go:489-611 | at most one thread launches for a session, and no launched browser is ever discarded |
| SessionLaunch.WaitersAreServed | internal/daemon/navigation.go:501-509 | every waiter waits for a launch of its session that is still registered or already done |
| SessionLaunch.NoDoubleCloseNoLeak | internal/daemon/navigation.go:541-619 | no channel is closed twice, and every running engine is registered or in the hands of the thread that launched it |
| SessionLaunch.TabsNeverVanish | internal/daemon/tabs.go:79-181 | once a session has tabs it keeps some and the same engine for ever, and its active index stays in range |
| SessionLaunch.StepLowers | internal/daemon/navigation.go:489-611 | every step other than a new call lowers a bound on the work left, so the retry loop ends |
| SessionLaunch.CallsEnd | internal/daemon/navigation.go:489-611 | without new calls every run is finite, with an explicit bound on its length |
| SessionLaunch.SomebodyCanMove | internal/daemon/navigation.go:501-509 | no deadlock: while a call is unfinished some thread can step without a cancellation |
| SessionLaunch.AllSettled | internal/daemon/navigation.go:541-619 | once all calls have ended no launch is registered, every channel was closed exactly once, and every running engine is registered |
| SessionRuntime.NavigationRuntime.LookUp | internal/daemon/navigation.go:490-543 | the first locked section is the protocol's look step: it serves the active tab, joins the launch under way, refuses, or registers a new launch |
| SessionRuntime.NavigationRuntime.FinishLaunchLocked | internal/daemon/navigation.go:613-619 | only the registered launch is removed and its channel closed once |
| SessionRuntime.NavigationRuntime.Withdraw | internal/daemon/navigation.go:546-551 | a failed launch is withdrawn as the protocol's give-up step |
| SessionRuntime.NavigationRuntime.Register | internal/daemon/navigation.go:575-592 | the second locked section is the protocol's publish step: it registers the browser with its first tab, or uses a tab that is there and asks to discard the browser |
| SessionRuntime.NavigationRuntime.BrowserForSession | internal/daemon/tabs.go:186-198 | reading the engine is a step of its own and yields the registered one |
| SessionRuntime.NavigationRuntime.AppendTab | internal/daemon/tabs.go:92-97 | the new tab is appended and becomes active, and no other session changes |
| SessionRuntime.NavigationRuntime.TabSwitch | internal/daemon/tabs.go:103-129 | switching succeeds exactly for an index in range, and only the active index changes |
| SessionRuntime.NavigationRuntime.TabClose | internal/daemon/tabs.go:133-173 | with the given index, or by default the active one, a tab is closed exactly when there is more than one and the index is in range; then exactly that tab is returned and gone, the others keep their order, and the active index stays or becomes the last; other sessions and refused closes change nothing |
| DependencyCycle.Walker.Visit | docs/rust-port/validate.py:33-42 | a visit that succeeds finishes the node and all it reaches and leaves the active path as it was; one that fails names a node on a cycle; the recursion ends |
| DependencyCycle.Walker.CheckAll | docs/rust-port/validate.py:108-110 | visiting all items succeeds exactly when the graph is acyclic, and then every item is done |
| Lifecycle.LegalExtends | internal/session/lifecycle.go:275-289 | appending an allowed entry keeps the journal legal and replays as one more change |
| Lifecycle.InactiveIsFinal | internal/session/lifecycle.go:216-254 | an inactive session never changes again in any legal journal |
| Lifecycle.SomebodyIsInControl | internal/session/lifecycle.go:81-213 | in every legal journal every session has a name and a control id that are not blank |
| Lifecycle.DelegatedByHandoff | internal/session/lifecycle.go:142-159 | delegated control comes from a handoff with no claim or takeover since |
| Lifecycle.UserByHandoffAndClaim | internal/session/lifecycle.go:142-185 | user control comes from a handoff followed by a claim, with no takeover since the handoff, and the control id is the one the claim recorded, which is the claimant's |
| Lifecycle.AgentByCreationOrTakeover | internal/session/lifecycle.go:81-213 | agent control comes from the creation or a confirmed takeover with no handoff or claim since |
| Lifecycle.AccessAfterClaimNeedsTakeover | internal/session/lifecycle.go:127-213 | agent access after a claim requires a later confirmed takeover by that agent |
| Lifecycle.LiveSession.Mutate | internal/session/lifecycle.go:142-254 | the fields change exactly as replaying the entry changes the session |
| Lifecycle.Manager.Append | internal/session/lifecycle.go:284-289 | an entry is in the journal exactly when the journal took it |
| Lifecycle.Manager.CreateSession | internal/session/lifecycle.go:81-97 | refused as invalid exactly for a blank id or control id, as existing exactly for a known id; else journaled first, and then the session is active under this agent; the sessions stay the replay of the history, and a failure changes nothing |
| Lifecycle.Manager.Change | internal/session/lifecycle.go:275-282 | a change happens exactly when its entry was taken, and the sessions stay the replay of the history, with or without a journal |
| Lifecycle.Manager.HandoffSession | internal/session/lifecycle.go:142-159 | refused in turn as inactive, as not this agent's, and for a blank reason, exactly then; else the session is delegated with this reason and the entry says so; a failure, also of the journal, changes nothing |
| Lifecycle.Manager.ClaimSession | internal/session/lifecycle.go:162-185 | refused in turn for a blank human id, as inactive, as claimed already, and as not delegated, exactly then; else the session and the entry are the claimant's, under user control |
| Lifecycle.Manager.TakeoverSession | internal/session/lifecycle.go:189-213 | refused in turn for a blank agent id, as inactive, and without confirmation, exactly then; agent control is left as it is; else the asking agent is in control and the reason is cleared |
| Lifecycle.Manager.CompleteSession | internal/session/lifecycle.go:216-234 | refused as inactive or to anyone but the one in control, exactly then; else the session is inactive with this decision to keep and this time, and its control stays |
| Lifecycle.Manager.TimeoutSession | internal/session/lifecycle.go:238-254 | refused as inactive or as not delegated, exactly then; else the session is inactive, the entry is unconfirmed, and the caller gets a timeout |
| Lifecycle.Manager.CheckAgentAccess | internal/session/lifecycle.go:127-138 | access is granted exactly to the controlling agent of an active session, and each refusal has its exact reason |
| Globs.StarStep | internal/engine/navigation.go:446-473 | the recurrence for `*` is right for the inductive meaning of patterns |
| Globs.LetterStep | internal/engine/navigation.go:446-473 | the recurrence for `?` and letters is right |
| Globs.StarRow | internal/engine/navigation.go:457-462 | one row for `*` says which prefixes of the value match one more symbol |
| Globs.LetterRow | internal/engine/navigation.go:463-469 | one row for another symbol likewise |
| Globs.MatchGlob | internal/engine/navigation.go:446-473 | the two-row table accepts exactly the values within the size cap that match the pattern |
| Globs.BytesByCodePoint | internal/engine/navigation.go:449-451 | the size the cap looks at counts one to four bytes for a character, by its code point |
| Globs.GlobToRegex | internal/flows/runner.go:606-632 | the loop builds the anchored compilation of the pattern |
| Globs.CompiledParses | internal/flows/runner.go:606-632 | the compiled expression parses, and into one atom for each glob symbol; quoting loses nothing |
| Globs.CompilePreservesMeaning | internal/flows/runner.go:606-632 | the compiled expression accepts exactly the values the glob means |
| Globs.AssertImpliesWait | internal/flows/runner.go:606-632 | every value the assert matcher accepts matches the same pattern in the wait matcher's sense, the cap apart |
| Globs.MeaningsAgreeOnValueIff | internal/flows/runner.go:606-632 | the two meanings agree on a value, for every pattern without `?`, exactly when it has no slash and no line break |
| Globs.MeaningsAgreeOnPatternIff | internal/flows/runner.go:606-632 | the two meanings agree on a pattern, for every value, exactly when it has neither `*` nor `?` |
| Globs.AgreeOnValueIff | internal/engine/navigation.go:446-473 | on a value within the size cap the two matchers agree, for every pattern within the cap that has no `?`, exactly when the value has no slash and no line break |
| Globs.LongValuesTellApart | internal/engine/navigation.go:449-451 | on a value over the cap that lacks a slash or a line break the matchers differ for the pattern `*` or for `**` |
| Globs.AgreeOnPatternIff | internal/engine/navigation.go:446-473 | the two matchers agree on a pattern, for every value of any size, exactly when it has neither `*` nor `?` and is within the cap |
| Approval.Manager.Create | internal/oob/oob.go:60-75 | a new prompt has a number that was never used and is pending, and no other prompt changes |
| Approval.Manager.Get | internal/oob/oob.go:78-86 | a prompt can be read exactly when its number was issued, since none is ever removed |
| Approval.Manager.Finish | internal/oob/oob.go:124-139 | finishing succeeds exactly for a known pending prompt, then changes only its status, to the one given, and otherwise changes nothing |
| Approval.StepKeepsInv | internal/oob/oob.go:124-181 | every step keeps the invariant, and prompts only grow and never leave a terminal status |
| Approval.RunKeepsInv | internal/oob/oob.go:124-181 | the invariant holds in every state of every interleaving |
| Approval.OneFinishPerPrompt | internal/oob/oob.go:124-139 | at most one finish of a prompt ever succeeds |
| Approval.TerminalIsFinal | internal/oob/oob.go:124-139 | a prompt with a terminal status never changes again |
| Approval.FirstFinishCounts | internal/oob/oob.go:124-139 | the first finish of a prompt sets its status for good |
| Approval.AllowedOnlyWithReason | internal/daemon/oob_runtime.go:83-134 | a command is allowed only if the guard, or without one the local policy, said allow, or said confirm and the prompt of this very call is completed; never after a guard failure |
| Approval.AnswerMatchesDecision | internal/daemon/policy_runtime.go:91-115 | for every run, in terms of what was asked: an unclassified command reports no decision, the guard's word is reported as it is, a failing guard reports deny, and only without a guard the local decision; the decider is the guard, the policy, or the human who confirmed; allowed exactly on allow or a confirmation by the human |
| Approval.BasisIsRequested | internal/daemon/oob_runtime.go:104-124 | a call decides on what its own request said |
| Approval.GuardIsNotOverruled | internal/daemon/policy_runtime.go:97-111 | a call whose guard denies or fails is never allowed and never asks the human, whatever the local policy |
| Approval.CancelledOrTimedOutDenies | internal/daemon/oob_runtime.go:83-134 | a cancelled or timed-out prompt never allows |
| Approval.LostExpiryRaceDenies | internal/oob/oob.go:144-181 | in every run a waiter that goes to expire its prompt is refused for ever, whether the expiry takes effect or the prompt was finished first, even by a completion that stands |
| Approval.CancelledWaitDenies | internal/oob/oob.go:164-181 | in every run giving up the wait refuses the call for ever, even if the prompt is completed later |
| Approval.PromptIsAsked | internal/daemon/oob_runtime.go:83-98 | the prompt of a call was made by that call, with the time and timeout it gave |
| Approval.PollOutcome | internal/oob/oob.go:144-181 | a waiter that polls a completed prompt is allowed and one that polls any other finished prompt is refused, for good; a pending prompt expires exactly when it has a timeout and creation time plus timeout is past |
| Approval.ReturnedIsFinal | internal/daemon/oob_runtime.go:83-134 | an answer once given never changes |
| Boundary.WrapText | internal/injection/boundary.go:55-66 | start marker, content and end marker, with the content as it is and one line break added only if it does not end in one |
| Boundary.ParseText | internal/injection/boundary.go:72-96 | parsing takes the first start marker with the expected nonce and the first end marker after it |
| Boundary.FramedIsParsed | internal/injection/boundary.go:72-96 | with a first start marker and a first end marker after it, parsing returns just the lines between |
| Boundary.ParsedIsFramed | internal/injection/boundary.go:72-96 | parsing succeeds only then |
| Boundary.MarkerRoundTrip | internal/injection/boundary.go:50-52 | a marker line parses back to its nonce and origin |
| Boundary.MarkerContainsNonce | internal/injection/boundary.go:99-116 | a line read as a marker contains the nonce read from it, and its origin is not empty |
| Boundary.RoundTrip | internal/injection/boundary.go:55-96 | for content without the nonce and a proper origin, parsing a wrapped text, also behind other lines, returns the same boundary and the content itself, or the content less its one final line break |
| Boundary.ParsedOrigin | internal/injection/boundary.go:72-116 | no parsed boundary has an empty origin or one with a line break |
| Boundary.RoundTripIff | internal/injection/boundary.go:55-96 | the round trip works exactly for non-empty origins without line breaks |
| Boundary.FrontMatterMeaning | internal/daemon/fetch_injection.go:68-75 | front matter is there exactly when it is opened at the start and closed later, and it ends with the first close |
| Boundary.NoteMeaning | internal/daemon/fetch_injection.go:76-82 | a note is there exactly when it opens the text and an empty line follows, and it ends with the first one |
| Boundary.SplitMarkdownPrefix | internal/daemon/fetch_injection.go:66-84 | prefix and body together are the input, and the prefix is exactly the front matter and the note after it; it is empty or ends a line |
| Boundary.WrapFetchMarkdown | internal/daemon/fetch_injection.go:61-64 | front matter and note come first unchanged, and exactly the rest is wrapped |
| Boundary.MarkdownRoundTrip | internal/daemon/fetch_injection.go:61-84 | wrapped markdown parses back to its part after front matter and note, itself or less its one final line break |
| FormRunner.Fail | formflow/runner.go:209-226 | a failing run reads the URL and the text, takes a screenshot, and fills and clicks nothing |
| FormRunner.DetectBlock | formflow/runner.go:229-239 | an unreadable text or markup is an interaction failure, and otherwise the detector's verdict on the two gives the code: captcha, bot wall or no problem |
| FormRunner.FillFields | formflow/runner.go:110-143 | without a problem every field was tried once in order, required ones were found, and the skipped names are exactly the optional ones not found |
| FormRunner.SubmitForm | formflow/runner.go:68-204 | for every driver the log is a proper run for the result: no click, with the code the last events before the evidence account for, or one click between an unblocked opening with all fields tried and a settling that accounts for the code; an invalid specification, and only that, touches nothing |
| FormRunner.ClickHappensOnce | formflow/runner.go:68-204 | in a proper run a click is the only one, on the submit element, right after a successful screenshot, after the page was found unblocked, some field and every required field was filled; never with a missing field or invalid specification |
| FormRunner.SuccessMeans | formflow/runner.go:160-204 | a success means that the submit click worked, that the contracted URL was reached if there is one, and that the page was then read and found clear |
| Pacing.Pacer.Wait | formflow/pacer.go:52-67 | the sleep ends at the slot the specification grants to this call |
| Pacing.HostsAreIndependent | formflow/pacer.go:52-67 | the slots of a host depend only on its own arrivals |
| Pacing.SlotsAreSpaced | formflow/pacer.go:52-67 | slots of one host are at least as many intervals apart as calls, and none is before its arrival |
| Pacing.HostSlotsAreSchedule | formflow/pacer.go:52-67 | the slots of a host respect arrivals, call order and spacing |
| Pacing.SlotsAreEarliest | formflow/pacer.go:52-67 | no schedule that starts after the zero time gives any call an earlier slot |
| Pacing.EarliestIffClockStarted | formflow/pacer.go:52-67 | the slots are the earliest of all schedules exactly when the first arrival is an interval past the zero time |

## Left out

- SnapshotPaths.AssignSnapshotPath: asks that the graph has no cycle, because the recursion has no guard and would not end on one.
- Refs in the tree text: replacing them goes one by one in map order and is a renaming only when old and new names do not overlap.
- Ref keys: how a key is computed from role, name and path; refs need only that it is some text, and two elements may share one.
- Runs of refs take snapshots whose elements all have ref names, as the renderer makes them; for one snapshot of any other kind `SoundIffNothingPassedOver` says what can happen.
- Root order: the comparison of mixed numeric and other ids is not consistent, so the root list is given.
- Overwriting the ref map without the registry, which one internal helper does.
- Closing the runtime while launches are under way; it is taken to be the last thing that happens.
- Tab labels and the parsing of tab names, the map of browser contexts, the count of tabs in the session registry, and restoring saved state after a launch.
- Restoring ownership sessions from a journal, and reconnecting.
- Result payloads, notifiers and the overlay of prompts; wall-clock time, which is a parameter.
- The text normalisation in front of the search and Unicode case folding; tags and attribute names fold as ASCII.
- Regular expressions beyond what the glob compiler emits, and invalid UTF-8.
- The heuristics that recognise a captcha, a bot wall or a form, which are parameters of the form runner, and the messages and evidence of its results.
- Overflow of durations in the pacer.
- Browser engines, fetching, parsers, command line, configuration, storage, encryption and policy tables: input and output, wrappers, or single-branch facts.
