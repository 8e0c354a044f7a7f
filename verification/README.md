# Verified model of the cache-aware router and its trace replay

The router sends requests to workers by longest shared prefix: a radix tree remembers, per worker ("tenant"),
which texts that worker has seen, answers prefix queries, and is kept within a size budget by least-recently-used
eviction.  Around it a trace importer turns recorded conversations into a load trace, and a replayer sends that
trace to the router and accounts for every request.  This project models those three parts in Dafny and proves
what they promise, for every input, every run and every interleaving that the model has.

How it is laid out:

* **The tree on values** (`RadixTree` to `RadixGuarantees`).  A node is addressed by the string that leads to it,
  which splits do not change.  Every step of the router's code (register, add a leaf, split, attach, touch,
  detach, charge) is a function on such trees.  `Lang(n, t)` is the set of strings tenant `t` holds, `Keys` the
  non-empty ones, and `WF` the invariant: links agree with addresses, a tenant at a node is at its parent, every
  non-root node has a tenant, every count equals `|Keys|`, every access time is below the epoch.
* **The tree on the heap** (`RadixHeap`).  Classes `Node` and `Tree` with parent and child references, updated in
  place as the router does it.  Every method is proved against the value-level functions through `Abs()`.
* **Whom a match answers with** (`RadixAffinity`).  Every node remembers a tenant, which splits copy and matches
  set; the value-level node has that memory as a field.
* **Concurrent inserts** (`RadixThreads`, `RadixProgress`, `RadixRecency`).  Each insert is a thread whose turns are
  the locked steps of the loop; a run is any schedule of turns.
* **Whole histories** (`RadixHistory`).  Any sequence of inserts, alone or racing each other, matches, evictions and
  removals from the empty tree on, with other trees of the process drawing epochs in between; each public method of the
  heap tree is one such operation.
* **Text** (`Utf8Text`).  The byte-level helpers with their ASCII fast paths, over the grammar of section 4 of
  RFC 3629.
* **Ring and rendezvous hashing** (`HashRing`), **arrival times** (`VanDerCorput`), **block ids** (`BlockChain`),
  **imported rows** (`CodexTrial`, `Names`), **the load ladder** (`AdmissionLadder`, `ImportedIds`,
  `ImportedArrivals`), **loading and grouping** (`TraceLoader`), **prompts** (`Prompts`, `ReplaySession`,
  `ImportedSessions`) and **the replay's ledger of rows** (`ReplayLedger`, `ReplayWhole`), which is a state machine
  whose events are dispatch, completion and skip in any order, stopped anywhere.

Where a promise does not hold of the code as it stands, the model keeps the code and the exact condition is proved:

* An effective prompt has the recorded input length if and only if no earlier turn of the session had an input but
  recorded no output: one token is always requested, so such a turn adds one (`LengthAsRecorded`,
  `SilentTurnLengthens`).
* A turn's prompt carries the previous prompt and its real output, whatever the engine answers, if and only if some
  conversation is recorded before it; with an empty record the real output can be forgotten (`CarriesHistoryIff`).
* A turn that did not finish is looked up in the starts file by its chat id, and a row found there is copied, session
  and turn included.  With a shared chat id a turn that was never offered can so be called cancelled, under the name of
  another turn, and be left without a row of its own (`SharedIdLosesRow`).  One row per turn of each session, and right
  labels, hold in every run if and only if chat ids are distinct (`OneRowPerTurnIff`, `LabelsRightIff`, and for the
  trace as loaded `LedgerRightIff`); the number of rows is right in any case.
* An imported session takes a range of consecutive chat ids, from its first kept turn to its last.  Ids are unique in
  the trace, and so the ledger of its replay is right in every run, if and only if these ranges are apart
  (`ImportedIdsUniqueIff`, `ImportedLedgerRightIff`).  They are apart within the strides (`StridesFitApart`), and without
  replicas for any number of trials of up to 1000 turns (`OneReplicaApart`).  A trial of 1001 turns, and 10,001 trials
  imported twice, repeat an id (`TurnStrideOverrun`, `ReplicaStrideOverrun`).
* Raising `sessions` admits a superset if and only if the new value is absent, zero, or at least what was admitted
  before.  Zero means "all", so going from zero to one can shrink the trace (`AdmitsMoreIff`, `ZeroIsEverything`).
* A match on a tree without tenants answers with the name `empty`.  A match leaves every tenant's strings alone if and
  only if the root has a tenant or the epoch it draws is not a multiple of eight; otherwise that name enters the root,
  uncounted (`MatchEffectWF`, `FirstMatchEnters`).  The next eviction takes it off again (`EvictionBounds`).

## Model

| member | source | states |
|---|---|---|
| `RadixThreads.InterleavedInserts` | router/src/tree.rs:362-527 | After any schedule in which all inserts finish, a tenant holds exactly what it held before and every prefix of every text inserted for it: nothing is lost to a race, nothing else appears |
| `RadixThreads.ScheduleIrrelevant` | router/src/tree.rs:362-527 | Any two complete schedules of the same inserts end with the same strings and the same character count for every tenant |
| `RadixThreads.Run` | router/src/tree.rs:393-520 | The whole invariant (links, tenant closure, exact counts, bounded access times, every thread's position valid) holds after every prefix of every schedule |
| `RadixThreads.RunExplains` | router/src/tree.rs:393-520 | At every moment of every schedule the strings of a tenant are the initial ones and what the threads have carried so far, no more and no less |
| `RadixThreads.StepKeeps` | router/src/tree.rs:393-526 | One locked step of one insert keeps the invariant, adds exactly the prefixes up to the node it reached, and only grows the tree under the other threads |
| `RadixThreads.OthersUndisturbed` | router/src/tree.rs:393-526 | Whatever step one insert takes, splits and new leaves included, the node at which another insert is standing stays valid for it |
| `RadixProgress.OwnTurnsFinish` | router/src/tree.rs:393-526 | A thread that gets as many turns as its text has characters, and three more, is finished whatever the others do |
| `RadixProgress.AlwaysCompletable` | router/src/tree.rs:393-526 | Inserts never block each other: whatever interleaving has happened so far, some continuation finishes all of them |
| `RadixThreads.FinishMeaning` | router/src/tree.rs:362-527 | An uninterrupted insert ends well-formed, adds exactly the prefixes of its text for its tenant, leaves every other tenant's strings alone, and leaves the newest access time at the text's node |
| `RadixTree.Routed` | router/src/tree.rs:230-250 | From local link facts alone: below any node, the child under the next character leads to every deeper node on that path |
| `RadixTree.AncestorHolds` | router/src/tree.rs:495-505 | A tenant at a node is at every node above it |
| `RadixInsert.SplitAtChar` | router/src/tree.rs:167-192 | The two halves concatenate to the text, keep their cached counts right, and the first has the requested number of characters or all of them |
| `RadixInsert.SplitWF` | router/src/tree.rs:435-482 | Splitting a node keeps the invariant and changes no tenant's strings |
| `RadixInsert.AddLeafWF` | router/src/tree.rs:398-423 | A new leaf keeps the invariant, and its tenant gains exactly the prefixes of the leaf's string |
| `RadixInsert.AttachWF` | router/src/tree.rs:470-505 | Joining a tenant to a node keeps every count exact, whether or not the tenant was there, and adds only that node's prefixes |
| `RadixInsert.NewKeys` | router/src/tree.rs:404-505 | The strings a tenant gains at a node it was not at number exactly the characters on the edge into it: the amount the code adds to its count |
| `RadixHeap.Tree.constructor` | router/src/tree.rs:345-360 | A new tree is valid, owns only fresh objects and is the empty tree at whatever epoch the process has reached |
| `RadixHeap.Tree.DrawnElsewhere` | router/src/tree.rs:218-227 | Epochs drawn by other trees from the shared counter leave the tree valid and its contents as they are |
| `RadixHeap.Tree.SplitChild` | router/src/tree.rs:435-470 | The in-place split of a child by re-linking is the value-level split, access times and memory copied, with all other nodes untouched |
| `RadixHeap.Tree.HangLeaf` | router/src/tree.rs:398-418 | Linking a fresh leaf in place is the value-level new leaf, which remembers the tenant it was made for |
| `RadixHeap.Tree.Iteration` | router/src/tree.rs:393-520 | One pass of the loop on the heap is exactly one walking step of the thread model, with the same continuation |
| `RadixHeap.Tree.Insert` | router/src/tree.rs:362-527 | The tenant gains exactly the prefixes of the text, no other tenant changes, the text is its most recent, every prefix nobody held before is from now on answered with this tenant, and the tree stays valid |
| `RadixHeap.Tree.PrefixMatchTenantState` | router/src/tree.rs:653-685 | The length found is the longest prefix of the text that the tenant holds, and the node returned is the one on whose edge it ends |
| `RadixHeap.Tree.PrefixMatchTenantCharCount` | router/src/tree.rs:649-651 | The longest prefix of the text that the tenant holds, without changing the tree |
| `RadixHeap.Tree.PrefixMatchTenant` | router/src/tree.rs:630-646 | The returned prefix is the longest the tenant holds; if the tenant is at the deciding node, that becomes its most recent, and otherwise nothing changes |
| `RadixHeap.Tree.PrefixMatchWithCounts` | router/src/tree.rs:531-619 | No tenant holds a longer prefix than the length returned, the tenant named holds it and is the one remembered where it ends, if that one is still there; afterwards it is remembered; in one epoch of eight it becomes its tenant's most recent, otherwise no access time changes; all strings stay if and only if the root has a tenant or the epoch is not such a one |
| `RadixHeap.Tree.PickTenant` | router/src/tree.rs:570-599 | The remembered tenant if it is still there, otherwise a tenant of the node, otherwise the name `empty`; the answer is remembered and nothing else changes |
| `RadixMatch.LongestUnique` | router/src/tree.rs:653-685 | A text has one longest held prefix, so the walks have one right answer |
| `RadixMatch.MatchEffectWF` | router/src/tree.rs:601-607 | A match keeps the invariant and every non-empty string; it keeps all strings if and only if the tenant it names is at the node or the epoch drawn is not a multiple of eight |
| `RadixMatch.MatchRefreshes` | router/src/tree.rs:601-607 | Pair by pair: one epoch in eight gives the tenant answered with that epoch at its node, later than everything of that tenant off the way to it; no other access time of anybody ever changes |
| `RadixMatch.TouchIsNewest` | router/src/tree.rs:636-642 | A refreshed node is later than everything of its tenant off the way to it |
| `RadixMatch.FirstMatchEnters` | router/src/tree.rs:578-607 | The first match on a new tree puts the uncounted name `empty` at the root exactly if its epoch is a multiple of eight |
| `RadixDetach.DetachKeeps` | router/src/tree.rs:768-781 | Taking a tenant off its leaf, and pruning a deserted node, keeps links and tenant closure and removes that one pair only |
| `RadixDetach.LeavesLang` | router/src/tree.rs:760-781 | What the tenant loses is exactly the strings ending on the edge into that leaf |
| `RadixDetach.LeavesCount` | router/src/tree.rs:760-766 | The loss equals the characters of the leaf's text, the amount the count is charged |
| `RadixEvict.RunKeeps` | router/src/tree.rs:738-807 | In every eviction, after every pop, the tree is well-formed, every queue entry is current, and every leaf of an over-budget tenant is in the queue |
| `RadixEvict.EvictionBounds` | router/src/tree.rs:710-807 | When the queue is drained every tenant counts at most the budget, the tree is well-formed, and every tenant still at the root is counted |
| `RadixEvict.EvictionIsLRU` | router/src/tree.rs:738-781 | The leaf taken is never newer than any leaf of any tenant then over budget, including leaves uncovered during the run |
| `RadixEvict.RecheckNeverFails` | router/src/tree.rs:747-758 | In an eviction of its own, every popped entry is still a leaf of its tenant |
| `RadixEvict.WithinBudgetUntouched` | router/src/tree.rs:738-758 | A tenant within budget keeps every string and its count through the whole eviction |
| `RadixEvict.NeverOvertrims` | router/src/tree.rs:738-781 | A tenant's count is what it was, or giving its last victim back would put it over budget: eviction stops as soon as it may |
| `RadixEvict.ChargeIsExact` | router/src/tree.rs:760-766 | The saturating subtraction never saturates: a leaf's characters are at most its tenant's count |
| `RadixEvict.RunsAreBounded` | router/src/tree.rs:738-807 | An eviction ends: it has at most as many pops as the first queue has entries and twice the tenant-node pairs of the tree together |
| `RadixEvict.NewestSurvives` | router/src/tree.rs:738-807 | A text within the budget that was accessed later than everything of its tenant off the way to it is still so at every point of an eviction |
| `RadixHeap.Tree.Gather` | router/src/tree.rs:712-730 | The queue holds each leaf of each tenant once, with its access time, and nothing else |
| `RadixHeap.Tree.LeafOf` | router/src/tree.rs:689-708 | Exactly the tenants at the node that are at none of its children |
| `RadixHeap.Tree.Evict` | router/src/tree.rs:760-806 | One eviction detaches the tenant, charges its count, and queues the parent exactly if it has become a leaf of that tenant |
| `RadixHeap.Tree.EvictTenantBySize` | router/src/tree.rs:710-807 | The loop on the heap is a drained run of the value-level eviction from the old tree to the new one, so all of the above holds of it; every tenant ends within the budget |
| `RadixRemove.AdvanceKeeps` | router/src/tree.rs:847-882 | The queue of a removal is at all times exactly the tenant's leaves, each once, and every step leaves fewer tenant-node pairs |
| `RadixRemove.RemovalComplete` | router/src/tree.rs:815-886 | Once the queue is empty the tenant is nowhere, every other tenant holds what it held, and the invariant is back |
| `RadixHeap.Tree.RemoveTenant` | router/src/tree.rs:815-886 | The tenant has no string and no count left; every other tenant keeps its strings, its nodes and its access times |
| `RadixWalk.ExploredAll` | router/src/tree.rs:821-844 | The stack walk visits every node of the tree |
| `RadixWalk.TextsAreKeys` | router/src/tree.rs:897-920 | Adding up the text lengths of a tenant's nodes counts each of its strings exactly once |
| `RadixHeap.Tree.GetUsedSizePerTenant` | router/src/tree.rs:897-920 | The recount equals the incremental counts for every tenant, and is the same map exactly when the tenants at the root are the counted ones |
| `RadixGuarantees.InsertedSurvives` | router/src/tree.rs:710-807 | A text no longer than the budget, inserted just before an eviction, is held after it, whatever else the tree holds |
| `RadixRecency.StepKeepsNewest` | router/src/tree.rs:393-526 | No step of another tenant's insert, a split of the text's own node included, makes a text less recent |
| `RadixRecency.RacerIsRecent` | router/src/tree.rs:393-526 | An insert that races only other tenants' inserts ends with its text most recent, under every schedule, however much the others still do |
| `RadixRecency.InsertTimes` | router/src/tree.rs:404-526 | Of all access times an insert sets one: its text gets the epoch it draws; where the tenant newly passes the time is zero, the upper part of a split has the times of the lower, and all others stay |
| `RadixHistory.RecentSurvives` | router/src/tree.rs:362-886 | A text accessed by an insert, alone or in a race, by a match in an epoch that counts, or by a match for its tenant, is held in full after any further history that is not its tenant's own: other tenants' inserts, races, matches and removals, matches on the way to it, and any number of evictions it fits |
| `RadixGuarantees.EvictionSettles` | router/src/tree.rs:710-807 | A second eviction with the same budget changes no tenant's strings |
| `RadixGuarantees.InsertRaisesMatch` | router/src/tree.rs:362-527 | After an insert the tenant's longest match of any text is the larger of what it was and the overlap with the inserted text |
| `RadixHistory.HistoryWF` | router/src/tree.rs:362-886 | After any sequence of inserts (alone or interleaved), matches, evictions and removals the whole invariant holds |
| `RadixHistory.NothingInvented` | router/src/tree.rs:362-886 | Whatever such a history does, a non-empty string held for a tenant is a prefix of a text inserted for that tenant after it was last removed |
| `RadixHistory.NothingForgotten` | router/src/tree.rs:362-886 | As long as nothing was evicted the converse holds too: the tree holds exactly those prefixes |
| `RadixHistory.MatchIsBestOverlap` | router/src/tree.rs:531-685 | Then a tenant's match is the largest common prefix of the query with any text inserted for the tenant since it was last removed |
| `RadixHistory.OpMoves` | router/src/tree.rs:362-886 | Each operation keeps the invariant; it adds to a tenant only what it inserts for it, only a removal of the tenant erases, and only an eviction may lose anything else |
| `RadixHistory.EvictionOnlyTakes` | router/src/tree.rs:738-807 | An eviction never puts a tenant at a node where it was not |
| `RadixAffinity.StepAnswers` | router/src/tree.rs:393-526 | No step of any insert, of whatever tenant, splits included, changes whom a prefix is answered with |
| `RadixAffinity.RaceAnswers` | router/src/tree.rs:393-526 | Nor does any schedule of racing inserts |
| `RadixAffinity.FirstInserterRemembered` | router/src/tree.rs:398-423 | Every prefix of an inserted text that nobody held before is answered with its first inserter |
| `RadixAffinity.OnlyInserterAnswers` | router/src/tree.rs:570-599 | In a tree that held nothing, every match after the first insert answers with its tenant |
| `RadixAffinity.OpAnswers` | router/src/tree.rs:362-886 | No operation changes whom a prefix is answered with, as long as that tenant holds it: eviction and removal leave the memory of the remaining nodes alone |
| `RadixAffinity.EvictionRemaining` | router/src/tree.rs:768-781 | Nodes that remain after an eviction hang where they hung and remember whom they remembered |
| `RadixAffinity.FirstInserterAnswers` | router/src/tree.rs:362-886 | Over whole histories: once a tenant has inserted a prefix nobody held, every match that ends with that prefix answers this tenant, for as long as it holds it and whatever else happens |
| `RadixAffinity.InsertedTextAnswers` | router/src/tree.rs:362-886 | A text that nobody held, once inserted, is matched to its end and answered with its inserter, for as long as that tenant holds it, whatever else happens |
| `RadixAffinity.MatchesAgree` | router/src/tree.rs:531-619 | Two matches that end with the same prefix answer the same, if the first answer held it all the while |
| `RadixAffinity.MatchAffinity` | router/src/tree.rs:570-599 | A match answers with whoever is remembered for the matched prefix, and its answer is remembered for it from then on |
| `Utf8Text.DecodeEncode` | router/src/tree.rs:127-162 | Decoding inverts encoding for every string, and every encoding is well-formed |
| `Utf8Text.EncodeDecode` | router/src/tree.rs:127-162 | Every well-formed byte text is the encoding of what it decodes to, so no overlong form is admitted |
| `Utf8Text.AdvanceMeaning` | router/src/tree.rs:92-110 | Both branches skip the same whole characters: what is left encodes the string without its first n characters |
| `Utf8Text.TakeMeaning` | router/src/tree.rs:115-123 | The bytes taken encode exactly the first n characters, or all of them |
| `Utf8Text.SharedCharsMeaning` | router/src/tree.rs:311-316 | Comparing character by character counts the longest common prefix |
| `Utf8Text.SharedMeaning` | router/src/tree.rs:289-307 | The ASCII fast path on bytes gives the longest common prefix in characters, whatever follows the ASCII part |
| `Utf8Text.SharedOnBytes` | router/src/tree.rs:289-307 | The same for all well-formed bytes, not only encodings written down here |
| `Utf8Text.AdvanceOnBytes` | router/src/tree.rs:92-110 | Advancing cuts on a character boundary: the rest is well-formed and decodes to the remaining characters |
| `Utf8Text.SplitMeaning` | router/src/tree.rs:167-192 | The byte-level split gives two texts with right cached counts that concatenate to the original |
| `HashRing.BuildRing` | router/examples/simulate_consistent_hash.rs:84-94 | A hash position belongs to the last worker with a virtual node there, and to nobody if there is none |
| `HashRing.RingIsAllNodes` | router/examples/simulate_consistent_hash.rs:84-94 | Every virtual node of every worker has its position on the ring, and every position belongs to a worker with a node there |
| `HashRing.Lookup` | router/examples/simulate_consistent_hash.rs:116-123 | The owner of the first position at or after the key, wrapping round to the smallest position |
| `HashRing.RingMinimalDisruption` | router/examples/simulate_consistent_hash.rs:84-123 | Removing a worker moves only the keys it owned, also when virtual nodes collide |
| `HashRing.NewWorkerOnlyClaims` | router/examples/simulate_consistent_hash.rs:84-123 | Adding a worker moves a key to that worker or not at all |
| `HashRing.Rendezvous` | router/examples/simulate_consistent_hash.rs:124-134 | The last of the workers with the highest score |
| `HashRing.RendezvousMinimalDisruption` | router/examples/simulate_consistent_hash.rs:124-134 | Removing a worker that was not chosen leaves the choice, ties included |
| `VanDerCorput.Compute` | python/repro/trace/codex_import.py:204-210 | The loop computes the binary digits of its argument mirrored at the point |
| `VanDerCorput.MirrorRange` | python/repro/trace/codex_import.py:204-210 | The value lies in [0, 1) |
| `VanDerCorput.StratumOf` | python/repro/trace/codex_import.py:204-210 | Of 2^m equal strata, rank k falls into the one numbered by its low m bits reversed |
| `VanDerCorput.OneArrivalPerStratum` | python/repro/trace/codex_import.py:204-210 | Every aligned block of 2^m consecutive ranks has exactly one value in each of the 2^m equal parts of [0, 1), for every m |
| `VanDerCorput.OnTheGrid` | python/repro/trace/codex_import.py:204-210 | The ranks below 2^m have exactly the multiples of 2^-m as values |
| `AdmissionLadder.StratifiedArrivals` | python/repro/trace/codex_import.py:383-388 | In a stratified import every aligned block of 2^m admitted sessions has exactly one arrival in each of the 2^m equal parts of the time from the start of the pre-roll to the end of the span |
| `AdmissionLadder.FirstArrivalsOnGrid` | python/repro/trace/codex_import.py:383-388 | The first 2^m sessions arrive exactly at the starts of these parts, in bit-reversed order |
| `AdmissionLadder.UniformArrival` | python/repro/trace/codex_import.py:385-388 | Without stratification a session arrives where its own draw, numbered by replica and trial, says, whoever else is admitted |
| `AdmissionLadder.ArrivalsInSpan` | python/repro/trace/codex_import.py:383-388 | Either way every arrival is between the start of the pre-roll and the end of the span |
| `ImportedArrivals.FirstTurnAtArrival` | python/repro/trace/codex_import.py:286-320 | A first turn in the trace is at the rounded arrival of its session |
| `ImportedArrivals.StratifiedRows` | python/repro/trace/codex_import.py:383-397 | In the trace of a stratified import, of every aligned block of 2^m sessions that start in it exactly one has its first row at an arrival in each of the 2^m equal parts of the time |
| `BlockChain.CanonicalHead` | python/repro/trace/codex_import.py:218-231 | The shared head's ids depend on nothing but their position, and the digest returned is the one its last id comes from |
| `BlockChain.BlockHashes` | python/repro/trace/codex_import.py:234-260 | One id per whole block: the canonical ones for the head, then a chain over the block, the salt and everything before it |
| `BlockChain.SharedPrefixSharesIds` | python/repro/trace/codex_import.py:234-260 | Contexts that agree on their first m blocks have the same first m ids |
| `BlockChain.GrowthExtendsIds` | python/repro/trace/codex_import.py:234-260 | Appending tokens to a context only appends ids |
| `BlockChain.EqualIdsEqualTokens` | python/repro/trace/codex_import.py:234-260 | Short of collisions, two ids past the head, at any two positions of any two contexts, are equal if and only if the positions and the salts are the same and the contexts have the same tokens from the head up to there: a diverged prefix never collides |
| `BlockChain.SameIdsIff` | python/repro/trace/codex_import.py:234-260 | Short of collisions two contexts have the same first m ids if and only if they have the same tokens from the head up to there and, past the head, the same salt |
| `BlockChain.HeadIsChained` | python/repro/trace/codex_import.py:218-231 | The head is a chain: what follows a changed step of it is changed all the way |
| `CodexTrial.ReplicasApart` | python/repro/trace/codex_import.py:234-260 | Short of collisions a replica has no block id in common with another replica or the trial itself past the canonical head, at any positions, even with equal tokens |
| `Names.SessionNameInjective` | python/repro/trace/codex_import.py:281-282 | The session name determines trial and replica |
| `CodexTrial.TrialRows` | python/repro/trace/codex_import.py:271-341 | The rows are those of the turns not cropped, in order; what each row has is stated by the lemmas that follow |
| `CodexTrial.RowClock` | python/repro/trace/codex_import.py:286-332 | A row is at the arrival and the sum of all think and service times before it, rounded; it names the turn before as its parent and has the rounded think time in between |
| `CodexTrial.ComesNext` | python/repro/trace/codex_import.py:298-306 | From one turn to the next it is the think time and the service time of the turn before |
| `CodexTrial.KeptIff` | python/repro/trace/codex_import.py:308-314 | A turn has a row if and only if it does not come before time zero or pre-roll is replayed |
| `CodexTrial.RowsLinked` | python/repro/trace/codex_import.py:286-341 | Every row of a session but the first is the next turn after the row before it, names that row as its parent and has the think time drawn for it |
| `CodexTrial.FirstRowAtArrival` | python/repro/trace/codex_import.py:286-320 | A session that does not arrive before zero, or whose pre-roll is replayed, has a row for every turn, the first at its rounded arrival |
| `CodexTrial.CropIsSuffix` | python/repro/trace/codex_import.py:308-314 | Cropping the turns before time zero leaves a suffix of the session, from the first turn not before zero on, and the kept rows are the ones an uncropped import would give |
| `CodexTrial.KeptFromFirst` | python/repro/trace/codex_import.py:308-314 | The rows of a session are those of its turns from the first kept one to the last |
| `CodexTrial.ImportedContainsHistory` | python/repro/trace/codex_import.py:271-341 | Every kept row's input contains the kept conversation before it, which is what the replayer relies on |
| `CodexTrial.LaterTurnExtendsIds` | python/repro/trace/codex_import.py:316-319 | The ids of a turn are a prefix of the ids of every later turn of the trial |
| `CodexTrial.ChatIdsDistinct` | python/repro/trace/codex_import.py:294-295 | Within the strides a chat id determines replica, trial and turn |
| `AdmissionLadder.Import` | python/repro/trace/codex_import.py:357-397 | The trace is the stable sort, by time and chat id, of the rows that the import of each of the first `keep` trials and replicas of the admission order gives |
| `AdmissionLadder.TraceInOrder` | python/repro/trace/codex_import.py:397 | The trace is in the order of time, and at one time in the order of chat ids |
| `AdmissionLadder.PoolMembers` | python/repro/trace/codex_import.py:357-358 | The pool is every trial in every replica |
| `AdmissionLadder.AdmittedCount` | python/repro/trace/codex_import.py:368 | As many sessions are admitted as there are, or as a limit other than zero says |
| `AdmissionLadder.LeastDrawsAdmitted` | python/repro/trace/codex_import.py:361-368 | The sessions admitted are those of the lowest replicas and, within a replica, those with the least draws |
| `AdmissionLadder.OrderNests` | python/repro/trace/codex_import.py:361-367 | The admission order with fewer replicas is a prefix of the order with more |
| `AdmissionLadder.SelectionNests` | python/repro/trace/codex_import.py:367-369 | A smaller rung's selection is the larger rung's selection restricted to its keys, in the same order |
| `AdmissionLadder.LadderNests` | python/repro/trace/codex_import.py:357-397 | A smaller rung's whole trace is the larger rung's trace with the other sessions deleted: same rows, same arrival times, same order |
| `AdmissionLadder.RaisingKnobsNests` | python/repro/trace/codex_import.py:357-397 | In the knobs a caller turns: with no fewer replicas, and a limit that is absent, zero or no smaller than what was admitted, the smaller written trace is the larger one restricted, by session name, to its sessions, in the same order |
| `AdmissionLadder.AdmitsMoreIff` | python/repro/trace/codex_import.py:361-368 | With no fewer replicas, everything admitted before is admitted again if and only if the new limit is absent, zero, or at least the number admitted before |
| `ImportedIds.ImportedIdsUniqueIff` | python/repro/trace/codex_import.py:294-295 | No two rows of an imported trace, cropped or not, share a chat id if and only if the id ranges of its sessions, from the first kept turn to the last, are apart |
| `ImportedIds.StridesFitApart` | python/repro/trace/codex_import.py:74-80 | Within the strides the ranges are apart |
| `ImportedIds.OneReplicaApart` | python/repro/trace/codex_import.py:74-80 | Without replicas they are apart for any number of trials, if no trial has more than 1000 turns |
| `ImportedIds.OverrunRepeats` | python/repro/trace/codex_import.py:294-295 | In a full import, a session whose ids run into the first id of another one makes the trace repeat an id |
| `ImportedIds.TurnStrideOverrun` | python/repro/trace/codex_import.py:77 | An import of a 1001-turn trial and another trial repeats an id |
| `ImportedIds.ReplicaStrideOverrun` | python/repro/trace/codex_import.py:80 | 10,001 one-turn trials have unique ids imported once and repeat an id imported twice |
| `AdmissionLadder.KeepGrows` | python/repro/trace/codex_import.py:368 | Exactly when a rung admits at least as many sessions as another: the limit is absent or zero, or large enough |
| `AdmissionLadder.ZeroIsEverything` | python/repro/trace/codex_import.py:368 | A limit of zero admits more than a limit of one |
| `StableSort.SortFilter` | python/repro/trace/codex_import.py:397 | Filtering a stably sorted sequence is stably sorting the filtered one |
| `StableSort.SortIsStable` | python/repro/trace/codex_import.py:397 | Elements that tie come out of the sort in the order they went in |
| `TraceLoader.LoadTrace` | python/repro/trace/loader.py:33-57 | As many rows as the limit allows, each with the session given, or the one reached through the latest earlier row with the parent's id |
| `TraceLoader.JoinsParent` | python/repro/trace/loader.py:20-30 | A row without a session of its own is in the session of its latest parent row, wherever that came from |
| `TraceLoader.ConversationIsOneSession` | python/repro/trace/loader.py:20-57 | A conversation of any length, each turn the child of the turn before, is one session, named after its first turn |
| `TraceLoader.GroupBySession` | python/repro/trace/loader.py:60-69 | Each session once, in the order of their first rows; its group is its own rows sorted stably by turn and time |
| `TraceLoader.GroupInOrder` | python/repro/trace/loader.py:67-68 | Within a group turns come in their order, and rows of one turn in the order of time |
| `TraceLoader.GroupingConserves` | python/repro/trace/loader.py:60-69 | The groups together have as many turns as the trace has rows |
| `Prompts.PromptBuilder.HashIdToTokenIds` | python/repro/replayer/prompts.py:26-34 | Whether cached or not, the block is the first 512 draws of the generator seeded with the id |
| `Prompts.PromptBuilder.BuildPromptTokenIds` | python/repro/replayer/prompts.py:37-45 | The prompt is the one the record determines, token by token as `PromptToken` states, whatever the cache held |
| `Prompts.PromptShape` | python/repro/replayer/prompts.py:37-45 | A prompt has the recorded length and starts with the expansion of every id that fits |
| `Prompts.PromptToken` | python/repro/replayer/prompts.py:37-45 | Every token: within the blocks the draw at its place from the generator seeded with its block's id, after them from the one seeded with the chat id |
| `Prompts.BlocksSharedIff` | python/repro/replayer/prompts.py:26-45 | Where the generator tells seeds apart, two prompts share their first m blocks if and only if their ids do |
| `Prompts.ContextsShareSoPromptsShare` | python/repro/replayer/prompts.py:26-45 | Contexts with the same first m blocks replay as prompts with the same first m blocks, through hashing and expansion |
| `Prompts.PromptsShareIff` | python/repro/replayer/prompts.py:26-45 | Both directions: short of collisions prompts share their first m blocks if and only if the contexts have the same tokens from the head up to there and, past the head, the same salt, so a replay shares no more prefix than its source |
| `ImportedSessions.RowsShareIff` | python/repro/trace/codex_import.py:316-326 | The same from the conversations of two imported turns to the prompts replayed for them |
| `ReplaySession.RunTurns` | python/repro/replayer/replay.py:339-438 | The prompts sent are, turn by turn, those determined by the records, the answers and the window |
| `ReplaySession.OverlongIff` | python/repro/replayer/replay.py:402-405 | A turn is skipped exactly if its prompt leaves no room for the output it asks for, of at least one token |
| `ReplaySession.NextPrompt` | python/repro/replayer/prompts.py:48-73 | After a turn that fitted and was answered, if the recorded prompt contains a recorded conversation: previous prompt, real output, new input; in every other case the recorded prompt, cold |
| `ReplaySession.PromptsCarryHistory` | python/repro/replayer/replay.py:388-395 | In a session that goes well every prompt starts with the previous prompt and its real output, given that some conversation is recorded before it |
| `ReplaySession.ForgetsWithoutRecord` | python/repro/replayer/prompts.py:69-70 | Without one there are answers that the next prompt does not carry |
| `ReplaySession.CarriesHistoryIff` | python/repro/replayer/prompts.py:69-73 | Over all answers and windows: the prompt carries the previous prompt and its real output if and only if some conversation is recorded before it |
| `ReplaySession.EffectiveLength` | python/repro/replayer/replay.py:380-433 | A prompt exceeds the recorded length by the number of earlier turns with an input and no recorded output |
| `ReplaySession.LengthAsRecorded` | python/repro/replayer/replay.py:404-407 | A prompt has the recorded length if and only if no earlier turn was such a turn |
| `ReplaySession.SilentTurnLengthens` | python/repro/replayer/replay.py:404-407 | Two turns for which the second prompt is one token too long |
| `ImportedSessions.GroupIsSession` | python/repro/trace/loader.py:60-69 | After import, loading and grouping a session's group is exactly its kept rows in turn order, and a session without kept rows has none |
| `ImportedSessions.ImportedPrompts` | python/repro/replayer/replay.py:380-433 | So every imported session as replayed has the prompt lengths and the carried history stated above |
| `ReplayLedger.RunOK` | python/repro/replayer/replay.py:339-438 | In every state of every run the sink holds per session exactly its ended turns in order, and a turn is in the starts file exactly if it was offered |
| `ReplayLedger.LedgersTell` | python/repro/replayer/replay.py:339-438 | In every run both ledgers are a record of its events: the sink says who ended, how and in which order, a failed request as failed; the starts file says who offered which turn, in which order |
| `ReplayLedger.Settle` | python/repro/replayer/replay.py:521-541 | The rows returned are the finished ones session by session and then one per unfinished turn: a copy of the last start with its request id, called cancelled, or else a skipped row; the sink receives exactly the latter |
| `ReplayLedger.ReadStarts` | python/repro/replayer/replay.py:522-527 | Reading the starts file back keeps the last start of every request id |
| `ReplayLedger.LengthCheckHolds` | python/repro/replayer/replay.py:547 | Wherever a run is stopped, the number of rows is the number of turns |
| `ReplayLedger.OneRowPerTurn` | python/repro/replayer/replay.py:521-541 | With distinct chat ids, wherever a run is stopped, the output has exactly one row per turn of each session, in turn order, with its chat id |
| `ReplayLedger.OneRowPerTurnIff` | python/repro/replayer/replay.py:521-541 | Every run has one row per turn of each session if and only if chat ids are distinct |
| `ReplayLedger.SessionRowsShaped` | python/repro/replayer/replay.py:530-538 | With distinct chat ids a session's rows are finished ones, then at most one cancelled, then only skipped ones |
| `ReplayLedger.SessionRowsTell` | python/repro/replayer/replay.py:415-430 | With distinct chat ids the ended rows of a session in the final output have, turn by turn, the outcomes its events had |
| `ReplayLedger.StartedHasTerminalRow` | python/repro/replayer/replay.py:181-192 | Every request in the starts file has a row with its request id that says completed or cancelled; with distinct chat ids it is the row of that turn |
| `ReplayLedger.SharedIdLosesRow` | python/repro/replayer/replay.py:530-538 | For any two turns that share a chat id there is a run in which one of them, never offered, is called cancelled, and no row of the output is its own |
| `ReplayLedger.LabelsRightIff` | python/repro/replayer/replay.py:530-538 | Labels are right in every run if and only if chat ids are distinct |
| `ReplayWhole.RequestIds` | python/repro/replayer/replay.py:455-456 | Every chat id of the trace has a request id, that of the last row with it, and different chat ids have different ones |
| `ReplayWhole.PlanCoversTrace` | python/repro/replayer/replay.py:458-460 | Grouping and reordering sessions loses and duplicates no turn |
| `ReplayWhole.SessionsByStart` | python/repro/replayer/replay.py:459-460 | Sessions are started in the order of their first turns |
| `ReplayWhole.AssertionNeverFails` | python/repro/replayer/replay.py:441-561 | From the loaded trace to the final assertion: wherever the replay is stopped, as many rows as the trace has records |
| `ReplayWhole.LedgerRightIff` | python/repro/replayer/replay.py:441-541 | For any loaded trace: in every run each turn has exactly one row of its own and is labelled right, if and only if no two rows of the trace share a chat id |
| `ReplayWhole.ImportedLedgerRightIff` | python/repro/replayer/replay.py:441-541 | For an imported trace, loaded and grouped: in every run each turn has exactly one row of its own and is labelled right, if and only if the id ranges of the imported sessions are apart |
| `ReplayWhole.ImportedLedgerRight` | python/repro/replayer/replay.py:441-541 | Ranges that are apart are enough for a trace loaded up to any limit |

## Left out

- Races other than insert against insert: matches, eviction and removal are modelled one at a time; the router documents them as approximate under concurrency.
- The atomicity of an insert's steps: each pass of the loop, done under one map entry's lock, is one step; the moments inside it are not interleaved.
- DashMap sharding and iteration order, the hasher, lock types and memory reclamation: a map is a `map`, an arbitrary tenant is any tenant.
- Integer widths in the tree: counters, epochs and character counts are unbounded; the process-wide epoch counter is a field of the tree that other trees may advance between operations, not within a race.
- The binary heap: the queue is a bag from which an oldest entry is taken; which of several equally old entries comes first is left open, so the results hold for every choice.
- The interning of tenant names, the pretty printer, `get_tenant_char_count` and the legacy `prefix_match` wrapper: they would add only easy members.
- The tree walk is written once and used by eviction, removal and recount, where the source writes it three times.
- Floating point: arrival times, timestamps and think times are reals; rounding to microseconds is a parameter that only has to be a function.
- BLAKE2b, SHA-256, the ring's hash, the random generators, think-time draws and service times: functions given from outside; what a result needs of them is in its hypotheses.
- EqualIdsEqualTokens: assumes, of the finitely many inputs of the two chains compared, that no two give the same id and none the digest the chains start from, because 62-bit ids cannot be injective on all inputs; ReplicasApart, SameIdsIff, PromptsShareIff and RowsShareIff assume the same.
- TrialRows: the messages of a trial come in pairs, as the source's indexing demands; tokenization and the import statistics are left out.
- BlocksSharedIff: assumes that the generator gives the different ids compared different blocks, as seeds it cannot tell apart would give the same prompt; so do PromptsShareIff and RowsShareIff.
- CropIsSuffix: assumes that think and service times are not negative, as the source's clamped draw and its durations are; so do ImportedContainsHistory, ImportedIdsUniqueIff, GroupIsSession and what uses them.
- Text-mode prompts, the prefill-only and no-realized-prefix switches, sleeping, semaphores and HTTP: when a turn is dispatched and what comes back is any choice of the run.
- Sessions that end by an exception other than cancellation, the summary file and the metrics' contents beyond session, turn, chat id and outcome.
- The ring simulator's statistics, session ids and ownership report.
- The router's servers, service discovery, other policies, middleware and WASM host, the engine-side scripts and the analysis tools.
