# Translator, modelled in Dafny

This project models the core of the C# library *Translator*. The library converts a value
that is tagged with one key (a language, a unit) into a value tagged with another key. Callers
register translation rules between pairs of keys. A query searches the registered rules,
depth first, for a chain of rules from the source key to the target key. It removes cyclic
detours from the chain it finds, then applies each step's transform to the input value in turn.

The library is generic over a key type `TKey` and a value type `TValue`, and so is the model
(`K` and `V`).

- `wrappers.dfy` (`Wrappers`): `Option` and `Result`, plus the two faults the engine can
  raise on non-null keys, rules and collections:
  - `DuplicateBucket`: `Dictionary.Add` on a key pair that already has a bucket;
  - `NullEquation`: a null `ValueB` delegate was invoked.
- `rules.dfy` (`Rules`): the three rule kinds (`Translation`, `DirectTranslation` and
  `ForwardOnlyTranslation`) as one datatype `Rule`, with the four public constructors.
  - Transforms are Dafny arrows `V -> V`.
  - A null delegate is `None`.
  - `Eligible`, `HitMatches` and `NextValue` are the search's per-rule tests.
- `mirror.dfy` (`Mirror`): `Swap`, the reverse edge of a rule.
- `rule_graph.dfy` (`RuleGraph`): the translator's dictionary of dictionaries of rule
  buckets, and the registration operations `Add` and `AddRange`.
- `search.dfy` (`Search`): the recursive `Finder` as two mutually recursive functions.
  - `Find` handles one key.
  - `Explore` runs the loop over that key's neighbours.
  - The set of travelled key pairs is threaded into and out of every call, because the
    source shares one set across the whole search and never removes from it.
- `collapsing.dfy` (`Collapsing`): the detour-removal loop of `TryTranslation`.
  - `Collapsed` is a reference definition.
  - `Collapse` is the loop, proved equal to it.
- `translator.dfy` (`Translator`): `TryTranslation`, which searches, collapses, then folds
  `ValueB` over the input value. It also holds the end-to-end properties:
  - soundness of a translation;
  - a well-formed graph of constructor-built rules never faults;
  - mirror symmetry;
  - forward-only irreversibility.
- `samples.dfy` (`Samples`): the word rules of the console sample, registered with one
  `AddRange`, and the queries the sample runs against them, each computed exactly.
- `detour.dfy` (`SharedVisited`): a five-key graph, built by `AddRange` from five rules on an
  empty translator, on which the search misses a gated path that exists. This is a consequence
  of the never-undone travelled set.

Modelling decisions:

- **Transforms.** A rule's delegates are Dafny functions; a null delegate is `None`. The only
  null the library makes is the `ValueA` of a forward-only rule. Plain rules hold `Option`s so
  that `Swap` stays total on a forward-only rule, a case the library never reaches: `Swap` is
  internal and `AddRange` filters forward-only rules out before swapping. A stored rule with a
  null `ValueB` could only come from a caller passing null, which is left out below.
- **Rule equality.** Rules hold functions, so they are compared only in proofs. The
  reference-identity distinctions of .NET are not modelled.
- **Enumeration order.** The translator's dictionaries and hash sets are only ever added to.
  The model therefore enumerates them in insertion order:
  - `Graph.order` records, for each source key, the order in which its target buckets were
    created;
  - each bucket is a sequence in insertion order.
- **Direction of `ValueB`.** The engine applies `ValueB` when it steps from `KeyA` to `KeyB`
  (`src/Translator/Translator.cs:66`), and the sample relies on that. The doc comments of the
  `Translation` constructor describe the two delegates the other way round. The model follows
  the code.
- **No hop budget.** `TranslatorSettings.MaximumPathTraversal` is never read by the search, so
  the model has no depth cutoff. The search terminates because every recursive call marks a
  new key pair of the graph as travelled (measure: `Pairs(g) - visited`).
- **Shared path list.** `Finder` passes one path list down the recursion. The list is written
  only on the way back out of a success, so returning a fresh path value is equivalent.
- **`AddRange` failures.** `AddRange` groups the rules and their mirrors by key pair and calls
  `Dictionary.Add` for every pair. The model returns `Failure(DuplicateBucket)` exactly when
  some pair already has a bucket; otherwise it inserts the rules and mirrors in order.
- **Query result.** `TryTranslation` returns a `Result` of an `Answer`, which holds the found
  flag, the steps and the `out` value. `default(TValue)` is a parameter.
- **Null delegate.** Invoking a null delegate is `Failure(NullEquation)`. It cannot happen in
  a well-formed graph built from the public constructors (`ApplicableNeverFaults`,
  `AddRangeApplicable`).

## Model

| member | source | states |
|---|---|---|
| Rules.NewTranslation | src/Translator/Translation.cs:20-30 | the plain constructor stores both keys as given, and its `ValueA`/`ValueB` apply exactly the given delegates |
| Rules.NewSeededTranslation | src/Translator/Translation.cs:40-47 | the seeded constructor keeps the keys, and for every x gives `ValueA(x) = valueA(x, seed)` and `ValueB(x) = valueB(x, seed)` |
| Rules.NewDirectTranslation | src/Translator/DirectTranslation.cs:13-22 | a Direct rule keeps the keys and stores both literals; its delegates return the literal whatever the input |
| Rules.NewForwardOnlyTranslation | src/Translator/ForwardOnlyTranslation.cs:8-13 | a forward-only rule keeps the keys, is matched on keys alone (every value may use it and it keeps the running value), has no `ValueA`, and its `ValueB` is the supplied transform |
| Rules.MatchingPolicy | src/Translator/Translator.cs:96-98 | a non-Direct rule is matched on keys alone and passes the value on unchanged; a Direct rule is matched only by its own literal |
| Mirror.Swap | src/Translator/TranslationExtensions.cs:5-10 | the mirror exchanges the keys, keeps Direct/non-Direct and is never forward-only; for Direct it exchanges the literals (so its `ValueB` returns the original `DirectValueA`), otherwise it exchanges the delegates |
| Mirror.SwapInvolution | src/Translator/TranslationExtensions.cs:5-10 | swapping twice restores keys, literals and delegates; a rule other than a forward-only one comes back identical |
| RuleGraph.NeighboursHomed | src/Translator/Translator.cs:107-108 | in a well-formed graph every rule enumerated from a key's buckets leaves that key and sits in the bucket of its own key pair |
| RuleGraph.InsertBucket | src/Translator/Translator.cs:32-35 | inserting a rule appends it to the bucket of its own pair and changes no other bucket |
| RuleGraph.InsertAllBuckets | src/Translator/Translator.cs:17-35 | inserting a sequence of rules appends to each bucket exactly that pair's rules, in order, and creates exactly the buckets of pairs that occur |
| RuleGraph.InsertWellFormed | src/Translator/Translator.cs:23-35 | insertion keeps the enumeration order listing each target key once and keeps every bucket homed on its pair |
| RuleGraph.InsertAllWellFormed | src/Translator/Translator.cs:17-36 | a sequence of insertions keeps the graph well formed |
| RuleGraph.NothingCollidesWithEmpty | src/Translator/Translator.cs:8 | a freshly constructed translator has no buckets, so no rule can collide with one |
| RuleGraph.CollidesOwn | src/Translator/Translator.cs:34 | a batch collides exactly when one of its rules' pairs already has a bucket |
| RuleGraph.CollidesMirrors | src/Translator/Translator.cs:17-20 | the mirrors of a batch collide exactly when some rule that is not forward-only has its reversed pair already bucketed |
| RuleGraph.AddRangeFails | src/Translator/Translator.cs:15-37 | for non-null rules and keys, `AddRange` throws exactly when some rule's own pair, or the reversed pair of a rule that is not forward-only, already has a bucket |
| RuleGraph.AddRangeBuckets | src/Translator/Translator.cs:15-37 | a successful `AddRange` keeps the graph well formed, leaves existing buckets untouched, and fills each new pair with that pair's rules and mirrors in order |
| RuleGraph.AddRegisters | src/Translator/Translator.cs:10-13 | `Add(t)` stores `t` under [KeyA][KeyB] and, unless `t` is forward-only, its mirror under [KeyB][KeyA]; a forward-only rule between distinct keys leaves the reverse bucket as it was |
| Search.FirstHit | src/Translator/Translator.cs:92-105 | the direct-hit scan returns the first position in the exact bucket whose rule passes the direct-hit test, or reports that none does |
| Search.Find | src/Translator/Translator.cs:76-140 | the search only ever adds travelled pairs, and only pairs of the graph; it is found exactly when its path is non-empty |
| Search.Explore | src/Translator/Translator.cs:107-136 | the neighbour loop only ever adds travelled pairs of the graph; it is found exactly when its path is non-empty |
| Search.FindSound | src/Translator/Translator.cs:90-133 | in a well-formed graph a found path is a chain from fromKey to toKey of graph rules, gated on the running value, and every step but the last travels a distinct pair newly marked during the search |
| Search.ExploreSound | src/Translator/Translator.cs:107-136 | the same soundness for the neighbour loop: an eligible rule whose pair was fresh, prepended to a sound path from its target |
| Search.FindNesting | src/Translator/Translator.cs:76-140 | the `Finder` frames a call opens nest, failed branches included, at most one deeper than the key pairs not yet travelled |
| Search.ExploreNesting | src/Translator/Translator.cs:107-136 | the frames the neighbour loop opens nest no deeper than the key pairs not yet travelled, since each tried neighbour first marks a fresh pair |
| Search.FindDepth | src/Translator/Translator.cs:76-140 | from a fresh search, `Finder` frames nest at most one deeper than the graph has travelable key pairs, whether or not anything is found |
| Search.FoundPathShort | src/Translator/Translator.cs:113-127 | a found path has at most one step more than the graph has travelable key pairs, since every step but the last travels a distinct fresh pair |
| Search.DirectHitWins | src/Translator/Translator.cs:92-103 | when the exact bucket holds a rule the value may use, the search answers with one step, the first such rule, and marks nothing travelled |
| Search.NoBucketsNotFound | src/Translator/Translator.cs:90 | a key without buckets reaches nothing and marks nothing |
| Collapsing.ReturnFrom | src/Translator/Translator.cs:53-63 | the inner scan finds the first later step that ends where the current step starts, or reports that none does |
| Collapsing.LoopBack | src/Translator/Translator.cs:53-63 | the inner loop at the head of the remaining path: the first loop-back position, or none |
| Collapsing.Collapsed | src/Translator/Translator.cs:51-64 | after collapsing no step starts at a key that a later step ends at, and the result is a subsequence of the found path |
| Collapsing.CollapsedChain | src/Translator/Translator.cs:51-64 | a chain collapses to a chain with the same ends, or to nothing only when it starts where it ends |
| Collapsing.CollapsedKeeps | src/Translator/Translator.cs:51-64 | a path without loop-backs is left unchanged |
| Collapsing.CollapsedIdempotent | src/Translator/Translator.cs:51-64 | collapsing a collapsed path removes nothing |
| Collapsing.Collapse | src/Translator/Translator.cs:51-64 | the nested loops with `RemoveRange` and `i--` compute exactly the collapsed path and leave no loop-back |
| Translator.TryTranslation | src/Translator/Translator.cs:39-74 | a failed query answers `(false, [], default)`; a found one answers a path without loop-backs; for non-null keys and delegates that do not throw, the only fault is a null delegate |
| Translator.FoldAppend | src/Translator/Translator.cs:66 | folding `ValueB` over a concatenation folds the first part, then the second from where the first left off |
| Translator.FoldDirect | src/Translator/Translator.cs:66 | a non-empty path of Direct steps translates any input to the last step's `DirectValueB` |
| Translator.FoldApplicable | src/Translator/Translator.cs:66 | a path whose rules all carry a `ValueB` folds without meeting a null delegate |
| Translator.TryTranslationSound | src/Translator/Translator.cs:39-73 | in a well-formed graph a found translation is a chain of graph rules from fromKey to toKey (or nothing, when fromKey equals toKey), its value is the fold of their `ValueB` over the input, and it is found exactly when the search is |
| Translator.ApplicableNeverFaults | src/Translator/Translator.cs:66 | when every stored rule carries a `ValueB`, a query never faults |
| Translator.AddRangeApplicable | src/Translator/Translator.cs:15-37 | registering constructor-built rules keeps every stored rule carrying a `ValueB`, mirrors included |
| Translator.StoredRuleTranslates | src/Translator/Translator.cs:92-103 | a stored rule the value may use translates its own key pair in exactly one step |
| Translator.RegisteredForward | src/Translator/Translator.cs:17-35 | after a successful `AddRange`, every registered rule is in the bucket of its own key pair |
| Translator.RegisteredBackward | src/Translator/Translator.cs:17-35 | after a successful `AddRange`, the mirror of every rule that is not forward-only is in the bucket of the reversed key pair |
| Translator.MirrorSymmetry | src/Translator/Translator.cs:17-21 | after `AddRange`, each registered rule translates forward in one step for any value it accepts, and each one that is not forward-only translates back in one step for any value its mirror accepts |
| Translator.ForwardOnlyNeverReversed | src/Translator/ForwardOnlyTranslation.cs:3-13 | in any well-formed graph, after registering a forward-only rule from `a` to a distinct `b`, every `b`-to-`a` step of any found answer was already stored under `b`-to-`a` before, so the new rule never serves a reverse query |
| Translator.ForwardOnlyIrreversible | src/Translator/ForwardOnlyTranslation.cs:8-13 | adding a forward-only rule from `a` to a distinct key `b` without rules of its own leaves every query from `b` to `a` not found |
| Samples.WordsRegister | samples/ConsoleSample/Program.cs:31-35 | the five word rules register on an empty translator and build the written-out graph, which is well formed |
| Samples.EnglishToGerman | samples/ConsoleSample/Program.cs:66-74 | "hello" and "goodbye" translate English to German in one direct step, to "hallo" and "auf wiedersehen" |
| Samples.HelloToSpanish | samples/ConsoleSample/Program.cs:82 | "hello" translates English to Spanish through German and Italian, to "hola" |
| Samples.HolaToEnglish | samples/ConsoleSample/Program.cs:90 | "hola" translates Spanish to English along the three mirrors, to "hello" |
| Samples.YoNotFound | samples/ConsoleSample/Program.cs:98 | "yo" from Spanish to English is not found and answers the default value |
| SharedVisited.SharedVisitedMissesPath | src/Translator/Translator.cs:113-127 | because a failed branch leaves its pairs travelled, the well-formed graph `AddRange` builds from five rules on an empty translator holds a gated chain from one key to another that the search does not find |

## Left out

- Samples.WordsRegister: the sample overrides a `Translations` property that `Translator.cs` does not declare, so how the word rules reach the translator is not shown. The model registers them with one `AddRange` on an empty translator.
- The measurement rules of the console sample: they use `double` arithmetic, and floating point is not modelled. The console output is not modelled either.
- `TranslatorSettings.MaximumPathTraversal`: no code reads it, so there is no depth cutoff.
- The `StackOverflowException` warning: stack exhaustion is a runtime resource limit. Instead, the model states that recursion nests at most one frame deeper than the graph has travelable key pairs, failed branches included (`Search.FindDepth`).
- `AddRange` partial insertion: when `Dictionary.Add` throws, the groups already added stay in the source's dictionary. The model returns a failure and no graph.
- `AddRange` duplicates: `Union` drops a rule object passed twice in one call (reference equality). The model keeps both copies.
- Hash ordering: the model uses insertion order for the dictionaries and hash sets, because nothing is ever removed from them. It does not model hashing.
- Null arguments and throwing delegates: a null key, a null rule or a null collection makes .NET throw (src/Translator/Translator.cs:17-29 and 90-92). A delegate that throws propagates from the `Aggregate` at src/Translator/Translator.cs:66. In the model, keys and rules are never null and transforms are total functions.
- Null delegates from callers: passing null to the public constructors is not modelled (`NewTranslation` takes total functions). The null `ValueA` that `ForwardOnlyTranslation` creates is modelled.
- Mutable list operations: the shared mutable path list and `RemoveRange` are modelled as values.
- Concurrency: not modelled.
- Translator.MirrorSymmetry: states symmetry only for one-step translations of registered rules. No general path-reversal theorem is claimed, because the shared travelled set makes the search incomplete (`SharedVisited.SharedVisitedMissesPath`). A multi-step reverse path may therefore go unfound.
- Search.FindSound: states soundness only. The search is not complete for the same reason, and no completeness property is claimed.
