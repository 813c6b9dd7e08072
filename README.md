# acts_as_dag, modelled in Dafny

acts_as_dag stores a directed acyclic graph of ActiveRecord records in two tables:

- the **link table**, one `(parent, child)` row per direct edge, where a row with no parent
  is the *root sentinel* that marks the child as a root;
- the **descendant table**, one `(ancestor, descendant, distance)` row per path of real
  links, with a self row `(n, n, 0)` for every record.

`link` adds the cross product of the parent's ancestor rows and the child's descendant
rows. `unlink` deletes the block of rows from the parent's ancestors to the child's
descendants. The current and older engines then rebuild that block with a depth-first
walk from every record left without a real parent. On top of the engine sits a *name
classifier*, `plinko` and `reorganize`. It moves each category below the categories whose
names its own name strictly extends, e.g. "big totem pole" below "totem pole".

The repository holds three iterations of the engine. Each one is modelled separately,
with its own semantics:

| module | file | what it is |
|---|---|---|
| `Wrappers` | wrappers.dfy | `Option` |
| `Collections` | collections.dfy | elements and distinctness of sequences, least and greatest of a set |
| `Graph` | graph.dfy | the two tables as sets, paths, the headline invariant `Exact` (a row is in the table exactly when a real path of that length justifies it), the link rule `Cross`, the unlink rule `Repaired` |
| `Words` | words.dfy | names as word sequences; Ruby's `a & b` and `a - b` on them; `unique_name_portion` |
| `CurrentDag` | current_dag.dfy | the current engine `ActsAsDAG`, as a class `Dag` owning the node set and the two tables |
| `Deprecated` | deprecated.dfy | the classifier built on the current engine (`plinko`, `plinko_multiple`, `reorganize`) |
| `LegacyDag` | legacy_dag.dfy | the older engine in `lib/acts_as_dag.rb`, with its own `plinko` and `reorganize` |
| `ActsDag` | acts_dag.dfy | the oldest engine, `ActiveRecord::Acts::DAG`. It keeps one row per pair, and its `unlink` does not rebuild |

Every engine operation is a method on a `Dag` object. The single-step operations
(`link`, `unlink`, the hooks, the closure updates, `unroot`, `reset_hierarchy`)
state the new contents of the tables they modify as a function of the old ones. The
operations built from other operations (`DestroyLinks`, `AddParents`, `RemoveParents`,
`make_root`, `parents=` and the classifier) state which links change and how, and that the
descendant table stays exact. Each operation keeps `Valid()`: the tables mention only
known records, and the real links are acyclic, which is a precondition wherever a link
is added. Each keeps the engine's exactness invariant whenever it held before the call.
For the oldest engine that invariant is the weaker `PairExact`.

## Model

| member | source | states |
|---|---|---|
| Graph.LinkKeepsExact | lib/acts_as_dag/acts_as_dag.rb:311-318 | if the table is exact and the new link keeps the graph acyclic, adding the cross product of the parent's ancestor rows and the child's descendant rows gives exactly the table of the new graph |
| Graph.UnlinkRepairsExact | lib/acts_as_dag/acts_as_dag.rb:335-384 | deleting the ancestors(parent) × descendants(child) block and then rebuilding it from the parentless records of that block gives exactly the table of the graph without the link |
| Graph.RebuiltSound | lib/acts_as_dag/acts_as_dag.rb:368-384 | every row the depth-first rebuild writes from a path stack is justified by a real path |
| Graph.RebuiltComplete | lib/acts_as_dag/acts_as_dag.rb:368-384 | the rebuild writes a row for every real path that ends below the walk's starting path |
| Graph.AddNodeKeepsExact | lib/acts_as_dag/acts_as_dag.rb:262-265 | a new record with only its sentinel and its self row keeps the table exact |
| Graph.AddLinkAcyclic | lib/acts_as_dag/acts_as_dag.rb:276-295 | a link from `x` to `o` keeps the graph acyclic when `o` does not already reach `x` |
| CurrentDag.LinkError | lib/acts_as_dag/acts_as_dag.rb:276-280 | `link` fails exactly when the parent has no id, the child has no id, or the two have different classes; each error is reported exactly when its check is the first of the three, in that order, to fail |
| CurrentDag.RequestedLink | lib/acts_as_dag/acts_as_dag.rb:281-285 | the link row `link` looks for names the child, and has a parent exactly when one was given |
| CurrentDag.AcyclicLinksPass | lib/acts_as_dag/acts_as_dag.rb:391-395 | no link of an acyclic table fails the self-reference validation |
| CurrentDag.ExceptRoot | lib/acts_as_dag/acts_as_dag.rb:270-272 | keeps exactly the real records of the list, and is shorter exactly when the root placeholder was in it |
| CurrentDag.ExceptRootAppend | lib/acts_as_dag/acts_as_dag.rb:270-272 | dropping the root keeps the order of the rest: it distributes over concatenation, keeps a real id and drops the root |
| CurrentDag.Dag.constructor | lib/acts_as_dag/acts_as_dag.rb:4-8 | an engine with the given `allow_root_and_parent` option and class, and empty tables |
| CurrentDag.Dag.InitializeDag | lib/acts_as_dag/acts_as_dag.rb:262-265 | find-or-create of the self row and of the sentinel: each is added only when the record has no descendant row (resp. no parent link) at all, so on an exact table a second call changes nothing |
| CurrentDag.Dag.Create | lib/acts_as_dag/acts_as_dag.rb:102 | a new record gets its sentinel and self row, and exactness is kept |
| CurrentDag.Dag.LinkRecords | lib/acts_as_dag/acts_as_dag.rb:276-295 | error outcomes leave both tables alone; an existing link is a no-op; a self link fails validation; otherwise the link is added, the sentinel is removed when a parent is given and `allow_root_and_parent` is off, the cross product is added, and exactness is kept |
| CurrentDag.Dag.UpdateTransitiveClosureForNewLink | lib/acts_as_dag/acts_as_dag.rb:297-319 | adds exactly the cross product, nothing when the parent is the sentinel |
| CurrentDag.Dag.JoinAll | lib/acts_as_dag/acts_as_dag.rb:311-318 | the outer loop over ancestor rows adds their cross product with the descendant rows |
| CurrentDag.Dag.JoinRows | lib/acts_as_dag/acts_as_dag.rb:312-317 | the inner loop adds one ancestor row joined with every descendant row |
| CurrentDag.Dag.Unlink | lib/acts_as_dag/acts_as_dag.rb:323-333 | a nil child fails; otherwise exactly the named link is deleted, the closure is repaired only when a real link was deleted, and exactness is kept |
| CurrentDag.Dag.UpdateTransitiveClosureForDestroyedLink | lib/acts_as_dag/acts_as_dag.rb:335-361 | a destroyed sentinel leaves the closure alone; a destroyed real link replaces the block by its rebuild |
| CurrentDag.Dag.RebuildFrom | lib/acts_as_dag/acts_as_dag.rb:353-360 | the rebuild from each starting record adds exactly the rows of `RebuiltFrom` |
| CurrentDag.Dag.RebuildSubtreeLinks | lib/acts_as_dag/acts_as_dag.rb:368-384 | the recursive walk with its copied path stack adds exactly the rows of `Rebuilt`; it terminates because the stack is a simple path |
| CurrentDag.Dag.StampPath | lib/acts_as_dag/acts_as_dag.rb:373-378 | one row from every record of the stack down to its last record, with the distance along the stack |
| CurrentDag.Dag.MakeRoot | lib/acts_as_dag/acts_as_dag.rb:216-224 | removes every real parent unless `allow_root_and_parent` is set, then the record is a root; exactness is kept |
| CurrentDag.Dag.Unroot | lib/acts_as_dag/acts_as_dag.rb:226-228 | deletes only the sentinel; the record's real parents and the closure are unchanged |
| CurrentDag.Dag.RemoveParents | lib/acts_as_dag/acts_as_dag.rb:216-224 | destroys the links from the given parents, keeping exactness |
| CurrentDag.Dag.AddParents | lib/acts_as_dag/acts_as_dag.rb:141 | saves a link from each given parent, keeping exactness |
| CurrentDag.Dag.SaveParentLink | lib/acts_as_dag/acts_as_dag.rb:141 | one saved link runs the new-link hook, so the closure stays exact and the record reaches nothing new |
| CurrentDag.Dag.SetParents | lib/acts_as_dag/acts_as_dag.rb:133-150 | `parents=`: the record's real parents become the listed ids; it is a root when nil is listed or, with `allow_root_and_parent` off, when it has no parent; listing the record itself fails after the removals; no other record's links change |
| CurrentDag.Dag.InitializeAll | lib/acts_as_dag/acts_as_dag.rb:125-127 | gives every listed record its sentinel and self row |
| CurrentDag.Dag.ResetHierarchy | lib/acts_as_dag/acts_as_dag.rb:118-128 | as written: deletes every link and row naming a listed record and re-initialises them; exact only when every record is reset |
| CurrentDag.Dag.ResetHierarchyRepaired | lib/acts_as_dag/acts_as_dag.rb:118-128 | corrected reset: the same links, and a closure that stays exact |
| CurrentDag.Dag.DestroyLinks | lib/acts_as_dag/acts_as_dag.rb:330 | destroying links one at a time through the destroy hook keeps exactness |
| CurrentDag.ResetAllExact | lib/acts_as_dag/acts_as_dag.rb:118-128 | resetting every record yields an exact table |
| CurrentDag.ResetIsolatedExact | lib/acts_as_dag/acts_as_dag.rb:118-128 | resetting records that no real link touches keeps an exact table exact |
| CurrentDag.PartialResetLeavesStaleRow | lib/acts_as_dag/acts_as_dag.rb:118-128 | on the chain 0 → 1 → 2, resetting only 1 leaves the row (0, 2, 2) though no path remains |
| CurrentDag.ChainExact | lib/acts_as_dag/acts_as_dag.rb:297-319 | the three-record chain with its six rows is exact and acyclic |
| CurrentDag.Dag.IsRoot | lib/acts_as_dag/acts_as_dag.rb:208-210 | `root?`: the record has its root sentinel; the definition, used by `MakeRoot`, `Unroot` and `Plinko` to state the sentinel they leave |
| CurrentDag.Dag.IsLeaf | lib/acts_as_dag/acts_as_dag.rb:212-214 | `leaf?`: the record has no children; its meaning on an exact table is `LeafIffNoDescendants` |
| CurrentDag.Dag.LeafIffNoDescendants | lib/acts_as_dag/acts_as_dag.rb:212-214 | on an exact table, a record is a leaf exactly when its only descendant row is its self row |
| CurrentDag.Dag.DistanceTo | lib/acts_as_dag/acts_as_dag.rb:200-205 | the least distance among the rows joining the two records either way, or none when no row joins them |
| CurrentDag.Dag.DistanceIsShortest | lib/acts_as_dag/acts_as_dag.rb:200-205 | on an exact table the distance exists exactly when a real path joins distinct records, and it is the length of the shortest such path |
| CurrentDag.Dag.Lineage | lib/acts_as_dag/acts_as_dag.rb:191-198 | ancestors and descendants of the record, never the record itself |
| CurrentDag.Dag.LineageIsRelatives | lib/acts_as_dag/acts_as_dag.rb:191-198 | on an exact table, the lineage is exactly the records that reach it or that it reaches |
| Words.Without | lib/acts_as_dag/deprecated.rb:111 | Ruby's `xs - ys`: exactly the words of `xs` not in `ys`, never longer |
| Words.Intersect | lib/acts_as_dag/deprecated.rb:118-122 | Ruby's `xs & ys`: exactly the shared words, without repetitions |
| Words.Extends | lib/acts_as_dag/deprecated.rb:111 | the array-operator test, written as in the source; its meaning is `ExtendsIsStrictSuperset` |
| Words.CommonWordCount | lib/acts_as_dag/deprecated.rb:118-122 | the number of shared words, at most the length of the first name; its meaning is `CommonWordCountIsShared` |
| Words.ExtendsIsStrictSuperset | lib/acts_as_dag/deprecated.rb:104-112 | the array-operator test holds exactly when one word set strictly contains the other |
| Words.CommonWordCountIsShared | lib/acts_as_dag/deprecated.rb:118-122 | the count of shared words is the size of the intersection of the word sets, and symmetric |
| Words.UniquePortion | lib/acts_as_dag/deprecated.rb:91-100 | nil exactly when every word occurs in some parent's name; otherwise exactly the words in no parent's name |
| Words.UniqueNamePortion | lib/acts_as_dag/deprecated.rb:91-100 | the deleting loop over the parents' words computes `UniquePortion` |
| Deprecated.ShouldDescendFrom | lib/acts_as_dag/deprecated.rb:104-112 | `should_descend_from?(current, other)` as written: different records and the array-operator test; its meaning is `ShouldDescendIsStrictSuperset` |
| Deprecated.MatchingWordCount | lib/acts_as_dag/deprecated.rb:118-122 | `matching_word_count`: the size of `other`'s words `&` `current`'s; its meaning is `MatchingWordCountIsShared` |
| Deprecated.Candidates | lib/acts_as_dag/deprecated.rb:60 | the subtree members that `other` should descend from |
| Deprecated.Best | lib/acts_as_dag/deprecated.rb:64 | the candidates with the greatest matching word count; `BestNonEmpty` and `PlacementsAreBest` state what it holds |
| Deprecated.Placements | lib/acts_as_dag/deprecated.rb:58-64 | the parents `plinko` links `other` under: the best candidates when it should descend, none otherwise; see `PlacementsAreBest` |
| Deprecated.Group | lib/acts_as_dag/deprecated.rb:19 | one word-count group: exactly the records of the list with that count, in list order |
| Deprecated.ByWordCount | lib/acts_as_dag/deprecated.rb:81 | `group_by(word_count).sort`, flattened; its meaning is `ByWordCountPermutes`, `ByWordCountAscends` and `ByWordCountKeepsGroups` |
| Deprecated.ShouldDescendIsStrictSuperset | lib/acts_as_dag/deprecated.rb:104-112 | `should_descend_from?(current, other)` holds exactly when the records differ and `other`'s words strictly contain `current`'s; never both ways, never for a record and itself |
| Deprecated.MatchingWordCountIsShared | lib/acts_as_dag/deprecated.rb:118-122 | the number of distinct shared words, symmetric, and bounded by both names |
| Deprecated.TotemPoleExample | lib/acts_as_dag/deprecated.rb:104-122 | "totem pole" and "big totem pole" share two words; the longer extends the shorter and not the reverse |
| Deprecated.BestNonEmpty | lib/acts_as_dag/deprecated.rb:64 | the top-scoring group is empty exactly when there are no candidates |
| Deprecated.PlacementsAreBest | lib/acts_as_dag/deprecated.rb:60-64 | every chosen parent is in the subtree, qualifies, and has the top score, and all have the same score; on an exact table, whenever `should_descend_from?` holds there is at least one |
| Deprecated.Plinko | lib/acts_as_dag/deprecated.rb:56-76 | returns true exactly when there are placements; adds exactly those as parents of `other` and changes no other record's links; `other` stays a root only as `allow_root_and_parent` allows; exactness is kept |
| Deprecated.AddParentUnder | lib/acts_as_dag/deprecated.rb:68 | `other.add_parent(new_parent)`: one more real parent, sentinel as the option says, exactness kept |
| Deprecated.AddParentsUnder | lib/acts_as_dag/deprecated.rb:66-72 | the loop over the chosen parents adds exactly them |
| Deprecated.PlinkoInGroup | lib/acts_as_dag/deprecated.rb:56-76 | when no placement lies below `other`: `other`'s parents become its old ones plus exactly the placements, each from a record it should descend from, and no other link changes; a climbing group stays climbing; on an exact table, placed exactly when it should descend, and then `current` reaches it |
| Deprecated.PlacementsOutOfReach | lib/acts_as_dag/deprecated.rb:60-68 | in a climbing group no placement of a member lies below it |
| Deprecated.PlacementsAreTargets | lib/acts_as_dag/deprecated.rb:58-64 | on an exact table the subtree `plinko` searches is exactly what `current` reaches by real links, so the placements are the targets read off the link table |
| Deprecated.PlacementWithin | lib/acts_as_dag/deprecated.rb:66-68 | adding only parents that `other` should descend from, and touching no other link, is a placement confined to `other` |
| Deprecated.PlinkoChecked | lib/acts_as_dag/deprecated.rb:84 | one `plinko` of `plinko_multiple`: refused with `ClosesCycle`, changing nothing, exactly when one of its placements lies below the record, which a climbing group rules out; after a pass the record's parents are its old ones plus exactly the placements; on an exact table `current` reaches the record when it should descend |
| Deprecated.PlinkoMultiple | lib/acts_as_dag/deprecated.rb:80-88 | places only the records that should descend from `current`, each under records it extends; a failure names a record and a placement below it in the final tables; with climbing links it always passes and keeps them climbing; on an exact table after a pass `current` reaches every record that should descend from it, and, when no record is listed twice, each record's parents are its old ones plus what `plinko` from `current` gives on the table as it stood at that record's turn (`PlacedInTurn`) |
| Deprecated.PlinkoEach | lib/acts_as_dag/deprecated.rb:82-87 | the loop over the records in word-count order, with the same guarantees, including the per-record parent formula `PlacedInTurn` |
| Deprecated.PlinkoEachEnd | lib/acts_as_dag/deprecated.rb:82-87 | one turn of the loop: the first record's placement and the per-record formula for the rest give the formula for the whole list |
| Graph.ReachedWithinIsReach | lib/acts_as_dag/deprecated.rb:66-68 | the level-by-level search that `PlinkoChecked` runs before linking finds, on an acyclic graph, exactly the records reached from its start |
| Graph.ReachedWithinMeets | lib/acts_as_dag/deprecated.rb:66-68 | the search meets a set exactly when the start reaches one of its records |
| Deprecated.ByWordCountPermutes | lib/acts_as_dag/deprecated.rb:81 | the grouping by word count is a permutation of its input |
| Deprecated.ByWordCountAscends | lib/acts_as_dag/deprecated.rb:81 | the groups come in ascending word count |
| Deprecated.ByWordCountKeepsGroups | lib/acts_as_dag/deprecated.rb:81 | each group keeps the input order of its members |
| Deprecated.GroupsFromSorted | lib/acts_as_dag/deprecated.rb:19 | the groups from a given count upward ascend by word count |
| Deprecated.TryRoots | lib/acts_as_dag/deprecated.rb:30-33 | plinkoes a category into every root; suitable exactly when some root took it, and otherwise nothing changed and no root qualifies; on an exact table the category ends below every root it should descend from, and a category without children gets as new parents exactly the union, over the roots, of what `plinko` from each root gives on the table it started from (`RootTargets`) |
| Deprecated.RootTargetsOf | lib/acts_as_dag/deprecated.rb:30-33 | trying no root gives no parent; trying a list of roots gives the first root's targets plus what the others give |
| Deprecated.RootTargetsOne | lib/acts_as_dag/deprecated.rb:30-33 | a single root gives exactly what `plinko` from it gives |
| Deprecated.PlaceGroup | lib/acts_as_dag/deprecated.rb:25-39 | one word-count group: the categories left without a parent are returned, every other one got a parent, none returned belongs under a root, and on an exact table every category ends below every root it should descend from; when the group starts parentless and childless, each category's parents are the union over the roots of what `plinko` gives on the table as it stood at its turn (`ParentsAtTurn`) |
| Deprecated.PlaceGroupsFrom | lib/acts_as_dag/deprecated.rb:24-46 | the groups in ascending count: the root list grows, stays ascending, and is exactly the parentless categories; shorter records keep their parents; on an exact table every category of a later group ends below every final root with fewer words that it should descend from, and, when the later groups start childless, each of their categories has as parents the union, over the final roots with fewer words, of what `plinko` gives on the table at its turn: the longer groups and the rest of its own group not yet placed (`PlacedByPlinko`) |
| Deprecated.GroupReached | lib/acts_as_dag/deprecated.rb:24-46 | after one group, its records lie below the final roots with fewer words they should descend from, those roots having been in the list when the group was tried |
| Deprecated.GroupParents | lib/acts_as_dag/deprecated.rb:24-46 | one more group: the group's turn-by-turn placement and the parent formula from `w + 1` words on give the formula from `w` words on |
| Deprecated.FirstGroupParents | lib/acts_as_dag/deprecated.rb:19-20 | the shortest group keeps its no parents, which is what the formula gives it, since no root is shorter |
| Deprecated.PlaceByWordCount | lib/acts_as_dag/deprecated.rb:19-46 | the shortest group starts the root list, which ends as exactly the parentless categories, ascending, none below a shorter root; on an exact table every category lies below every root with fewer words it should descend from, and, when every category starts childless, each category's parents are given by `PlacedByPlinko` |
| Deprecated.Reorganize | lib/acts_as_dag/deprecated.rb:12-47 | nothing happens on empty input; links of other records are untouched; every parent of a category is one it should descend from; roots are the parentless categories, include the shortest group and ascend by word count; with the reset as written, when every record is reorganized the table ends exact, no root belongs under a shorter one, every category lies below every root with fewer words it should descend from, and each category's parents are exactly the union, over the final roots with fewer words, of what `plinko` from that root gives on the table as it stood at the category's turn (`PlacedByPlinko`) |
| Deprecated.ResetIsolates | lib/acts_as_dag/deprecated.rb:17 | after the reset every category is a parentless root, and none has children |
| Deprecated.ReachesClimb | lib/acts_as_dag/deprecated.rb:58-68 | links made by placement climb strictly in word sets, so every reach grows the word set |
| Deprecated.CandidatesOutOfReach | lib/acts_as_dag/deprecated.rb:60-68 | no chosen parent is below `other`, so placement keeps the graph acyclic |
| Deprecated.ChainReached | lib/acts_as_dag/deprecated.rb:60 | in a chain of names, each with every word of the one before and more, at the `i`th record's turn the first record reaches exactly the records before it |
| Deprecated.ChainBest | lib/acts_as_dag/deprecated.rb:60-64 | of the records before the `i`th, the one just before shares the most words with it and is the only best placement |
| Deprecated.ChainRoots | lib/acts_as_dag/deprecated.rb:30-44 | once the records before the `i`th have their parents, the first record is the only root shorter than the `i`th |
| Deprecated.ChainParents | lib/acts_as_dag/deprecated.rb:12-47 | after a full reorganize of a chain, each record's only parent is the one before it, and the first has none |
| Deprecated.ChainLine | lib/acts_as_dag/deprecated.rb:12-47 | after a full reorganize of a chain, each record is the only child of the one before it, the last has no child, and the first alone is a root |
| Deprecated.TotemChain | spec/deprecated_spec.rb:6-10 | "totem", "totem pole", "big totem pole", "big model totem pole", "big red model totem pole" form a chain |
| Deprecated.ReorganizedTotemPoles | spec/deprecated_spec.rb:28-44 | from what `Reorganize` ensures of reorganizing the five records: totem's children are exactly totem pole, totem pole's big totem pole, big totem pole's big model totem pole, big model totem pole's big red model totem pole; big red model totem pole has none, and totem is the only root |
| LegacyDag.ShouldDescendFrom | lib/acts_as_dag.rb:195-201 | `a.should_descend_from?(b)` as written, the array-operator test on the two names; its meaning is `ShouldDescendIsStrictSuperset` |
| LegacyDag.Candidates | lib/acts_as_dag.rb:135 | the descendants that `other` should descend from, which `detect` chooses among |
| LegacyDag.NewParents | lib/acts_as_dag.rb:131-145 | the candidates with the greatest matching word count against the top record, the ones `detect` can return first; see `NewParentsAreBest` |
| LegacyDag.ShouldDescendIsStrictSuperset | lib/acts_as_dag.rb:195-201 | `a.should_descend_from?(b)` holds exactly when `a`'s words strictly contain `b`'s, never both ways, and agrees with the later classifier |
| LegacyDag.BigTotemPole | lib/acts_as_dag.rb:195-201 | "big totem pole" descends from "totem pole" and not the reverse |
| LegacyDag.LinkNodes | lib/acts_as_dag.rb:249-283 | a missing id fails, a self link fails validation, and neither touches the tables; otherwise the link is added, the sentinel always removed, and the cross product added, even for a link that already existed; exactness is kept |
| LegacyDag.Unlink | lib/acts_as_dag.rb:287-319 | a nil child fails; otherwise the named link is deleted; a nil parent leaves the closure alone; a real parent replaces the block by its rebuild even when no link was deleted; exactness is kept |
| LegacyDag.ExactUnique | lib/acts_as_dag.rb:325-348 | the exact table of a graph is unique, so the rebuild and the cross product agree with any other way to compute it |
| LegacyDag.InitializeLinks | lib/acts_as_dag.rb:234-236 | the sentinel is added |
| LegacyDag.InitializeDescendants | lib/acts_as_dag.rb:238-240 | the self row is added; on an exact table it is already there |
| LegacyDag.ResetHierarchy | lib/acts_as_dag.rb:67-75 | every link replaced by a sentinel per record and every row by a self row, which is exact |
| LegacyDag.NewParentsAreBest | lib/acts_as_dag.rb:131-145 | every candidate parent is a descendant that `other` extends, with the top matching-word count; on an exact table there is one whenever `other` extends the top record |
| LegacyDag.Plinko | lib/acts_as_dag.rb:131-145 | places only a record that extends the top one; on an exact table it does place it, the top record then reaches it, a placed record lies below some record of `NewParents`, and nothing that was reached is lost |
| LegacyDag.LinkStep | lib/acts_as_dag.rb:249-283 | an `add_parent` under a record with a smaller word set keeps links climbing and loses no reach |
| LegacyDag.UnlinkStep | lib/acts_as_dag.rb:287-319 | a `remove_child` keeps links climbing |
| LegacyDag.ResetClimbs | lib/acts_as_dag.rb:67-75 | after the reset every record is a root and links trivially climb |
| LegacyDag.Snapshot | lib/acts_as_dag.rb:96-102 | an association loaded into a list: every member exactly once |
| LegacyDag.Reorganize | lib/acts_as_dag.rb:91-127 | with no sibling that should descend from another nothing changes; otherwise links keep climbing, no reach is lost, roots stay exactly the parentless records, exactness is kept, and on an exact table every sibling ends below every sibling it should descend from |
| LegacyDag.ReorganizeEach | lib/acts_as_dag.rb:106-118 | the outer loop: on an exact table, every current record ends above every sibling that should descend from it, with the same guarantees as `Reorganize` |
| LegacyDag.ReorganizeAgainst | lib/acts_as_dag.rb:107-117 | the inner loop: on an exact table, the current record ends above every sibling that should descend from it |
| LegacyDag.ReorganizePair | lib/acts_as_dag.rb:108-116 | one pair: nothing unless the sibling should descend from the current one; otherwise the sibling leaves the parent and is plinkoed, and on an exact table ends below the current record |
| LegacyDag.ReorganizeAll | lib/acts_as_dag.rb:78-86 | after the reset and the reorganisation the table is exact, links climb, roots are exactly the parentless records, and every record lies below every record it should descend from |
| ActsDag.SaveRow | lib/active_record/acts/dag.rb:270-285 | a row is saved only when no row for its pair exists |
| ActsDag.SaveLink | lib/active_record/acts/dag.rb:237-258 | the validation rejects a self link; a duplicate link is found and replaced; otherwise the link is stored |
| ActsDag.InitializeLinks | lib/active_record/acts/dag.rb:107-110 | the sentinel is added, keeping the pair invariant |
| ActsDag.InitializeDescendants | lib/active_record/acts/dag.rb:112-115 | the self row is added unless its pair is present; on a pair-exact table nothing changes |
| ActsDag.LinkNodes | lib/active_record/acts/dag.rb:122-175 | a missing id fails and touches nothing; self links and existing links are skipped; otherwise the link is added, the sentinel removed, the cross product saved pair by pair, and `PairExact` kept |
| ActsDag.SaveCross | lib/active_record/acts/dag.rb:155-174 | the nested save loop grows the table by at most the cross product and covers all its pairs |
| ActsDag.SaveJoin | lib/active_record/acts/dag.rb:156-173 | the inner loop for one ancestor row |
| ActsDag.LinkKeepsPairExact | lib/active_record/acts/dag.rb:149-174 | saving the cross product pair by pair keeps one justified row per joined pair |
| ActsDag.Unlink | lib/active_record/acts/dag.rb:179-205 | a nil child fails; the named link is deleted; a nil parent deletes no rows; a real parent deletes exactly the block, with no rebuild |
| ActsDag.UnlinkPairExactIff | lib/active_record/acts/dag.rb:193-204 | after the block delete the table is still pair-exact exactly when no deleted pair is still joined by a remaining path |
| ActsDag.DiamondPairExact | lib/active_record/acts/dag.rb:122-175 | the diamond 0 → {1, 2} → 3 with its nine rows is pair-exact |
| ActsDag.DiamondLosesRow | lib/active_record/acts/dag.rb:199-204 | unlinking 1 → 3 from the diamond deletes the pair (0, 3) though 0 still reaches 3 through 2 |
| ActsDag.UnlinkRebuilt | lib/active_record/acts/dag.rb:179-205 | corrected unlink: the block deletion followed by the rebuild of the later engines, saved pair by pair |
| ActsDag.SaveAll | lib/active_record/acts/dag.rb:270-285 | saving a set of rows pair by pair grows the table by at most them and covers their pairs |
| ActsDag.UnlinkRebuiltPairExact | lib/active_record/acts/dag.rb:179-205 | the corrected unlink keeps `PairExact` |

## Left out

- ActiveRecord plumbing: the generated link and descendant classes, `has_many` and `scope`
  SQL, `link_conditions`, association caches, `reload` and `clear_association_cache`.
  The tables are plain sets, and hooks are explicit method calls.
- The re-initialisation on `saved_change_to_id?` in the current engine's new-link hook.
  Ids never change in the model.
- SQL result ordering (`distance DESC/ASC`, the `lineage` ordering). Queries return sets.
- `sort_by(&:name)` in the classifier. The record lists arrive in the order the caller
  gives, and ties are left in that order.
- `garbage_collect` in both older engines. It depends on an `events` association that is
  not part of this model.
- Logging, `puts`, benchmarks, and the `parents_have_changed` and `children_have_changed`
  flags.
- Transactions and concurrency. Each operation is atomic.
- Cycles longer than a self link. The source does not detect them, so acyclicity of the
  new link is a precondition of the engine operations that add links.
  - `Deprecated.Reorganize` meets it: after its reset every link into the categories
    climbs (`Deprecated.Climbing`: a child's word set strictly contains its parent's).
  - `Deprecated.PlinkoMultiple` checks each placement first (see its line below).
  - The older engine's classifier requires climbing links (see the `LegacyDag` lines below).
- Deprecated.PlinkoMultiple: where a placement would close a cycle, the source links
  anyway and leaves a cyclic graph. The model cannot hold that graph, so it stops with
  `Fail(ClosesCycle)` and keeps the placements made so far. What the source does after
  that point is not captured. With climbing links this case cannot arise, and the model
  then always passes. `Deprecated.PlinkoChecked` and `Deprecated.PlinkoEach` share this
  behaviour.
- Deprecated.PlinkoMultiple: the per-record parent formula (`PlacedInTurn`) is stated only
  on an exact table and for a list in which no record appears twice. A repeated record is
  plinkoed again on a table that already holds its first placement, which the formula does
  not describe.
- Deprecated.PlinkoEach: the same restriction of `PlacedInTurn` as `Deprecated.PlinkoMultiple`.
- Deprecated.TryRoots: the parent formula is stated only for a category without children.
  `Deprecated.PlaceGroup` and `Deprecated.PlaceGroupsFrom` likewise state theirs only for
  categories that start without parents or children. `reorganize`'s reset leaves every
  category in that state, so `Deprecated.Reorganize` is not affected.
- Deprecated.Reorganize: returns the final root list. `reorganize` returns nil on empty
  input and otherwise the value of the groups' `each`, which no caller uses.
- Deprecated.Reorganize: performs the reset as written, so a reorganization of only some
  records can leave stale descendant rows (see Findings). Those rows also feed the
  subtree that `plinko` searches. So exactness, and the placement guarantees that rest on
  it, are stated only for a reorganization of every record, which is the source's
  default argument. For a partial reorganization the model promises the link-level
  guarantees only.
- LegacyDag.Plinko: requires every real link of the graph to climb. The source accepts
  any acyclic graph. On a graph with hand-made links its `add_parent` can close a cycle,
  which the tables cannot hold. So only graphs whose links the classifier made are
  covered. `LegacyDag.ReorganizeAll` establishes this with its reset.
- LegacyDag.Reorganize: the same climbing precondition as `LegacyDag.Plinko`, for the same reason.
- LegacyDag.ReorganizeEach: the same climbing precondition as `LegacyDag.Plinko`.
- LegacyDag.ReorganizeAgainst: the same climbing precondition as `LegacyDag.Plinko`.
- LegacyDag.ReorganizePair: the same climbing precondition as `LegacyDag.Plinko`.
- The `metadata` argument of the oldest engine's `link`
  (lib/active_record/acts/dag.rb:122). It copies extra attributes onto the new link and
  descendant rows (lines 132 and 171). Rows carry no attributes beyond their ids and
  distance, so it is dropped.
- Ruby's `String#split`. Names arrive already split into words.
- Raised exceptions become `Fail` outcomes that leave the tables unchanged. A nil parent
  passed to the oldest engine's `link` (a `NoMethodError` in Ruby) is reported as
  `ParentHasNoId`.
- The oldest engine's swallowed save exceptions. Saves are modelled as succeeding.
- `replace` and `find_duplicate` are not part of this model. Their effect is taken from the
  comments beside them: an existing row for the same pair (same link) is found and
  nothing new is stored.
- Duplicate rows are collapsed. `find_or_create` and `find_or_initialize` are set inserts.
  The older engine's `new` plus `save!` of an already present triple would store a second
  identical row in a table without a unique index; the model stores one.
- The thin wrappers `add_parent`, `add_child`, `remove_child` and `remove_parent` call
  `link` and `unlink` with their arguments in order, so they have no members of their own.
  `Deprecated.AddParentUnder` models the one the classifier uses.
- `children=` mirrors `parents=` from the other side. Only `SetParents` is modelled.
- The older and oldest engines have no `allow_root_and_parent` option and no class check.
  They ignore those fields of the shared `Dag` object.
- The five-name `reorganize` example (spec/deprecated_spec.rb:28-44) is derived from the
  guarantees of `Deprecated.Reorganize` by `Deprecated.ReorganizedTotemPoles`, for any
  starting table. No concrete starting table is built, and the method is not applied to one.
- LegacyDag.Plinko, LegacyDag.Reorganize, ReorganizeEach, ReorganizeAgainst and
  ReorganizePair: these members take a `fuel` bound, because `plinko` and `reorganize` call
  each other with no measure the source provides.
  - When the fuel runs out, `LegacyDag.Plinko` still links the record, but skips the
    nested `reorganize` of the new parent's children.
  - Every guarantee they state holds for every fuel, including placement and
    `LegacyDag.ReorganizeAll`'s "every record below every record it should descend from".
  - What a small bound leaves unmodelled is the extra rearrangement that deeper nested
    calls would make. Each such call moves a child of the new parent that should descend
    from one of its siblings off that parent and down below the sibling.
- LegacyDag.Plinko: `detect` picks the first of the top-scoring descendants in the
  association's order. The model lets any one of them be picked.
- ActsDag.SaveAll: the member saves the rebuilt rows in an order the model leaves open,
  not in the depth-first order of the walk. Because saving deduplicates by pair, the
  distance kept for a pair may differ.
  - `PairExact` holds either way, and it does not constrain the distance beyond a real
    path of that length.
- Loops whose iterations call other methods on the tables are written as recursion on the
  records still to visit. This covers `JoinAll`, `SaveCross`, `AddParentsUnder`,
  `PlinkoMultiple`, `TryRoots`, `PlaceGroup` and `PlaceGroupsFrom`.
- Where the code and the documented behaviour differ, the model follows the code.
  - In the current engine, losing the last real parent does not re-create the record's
    sentinel. Only `parents=` and `make_root` add it.
  - The current engine's `unlink` repairs the closure only when a link row was actually
    destroyed, because the repair runs in the destroy hook. The older engine's `unlink`
    uses `delete_all` and always repairs when a parent is given.

## Findings

| source | as written | input that shows it | evidently intended | confidence | as-written member | corrected member |
|---|---|---|---|---|---|---|
| lib/acts_as_dag/acts_as_dag.rb:118-128 | `reset_hierarchy(categories)` deletes the rows naming the listed records with `delete_all`, which runs no destroy hook, so paths through them are never repaired | chain 0 → 1 → 2 with its exact table, reset [1]: the row (0, 2, 2) survives though 0 no longer reaches 2 | resetting part of the graph leaves an exact descendant table | not executed | CurrentDag.PartialResetLeavesStaleRow (of CurrentDag.Dag.ResetHierarchy) | CurrentDag.Dag.ResetHierarchyRepaired |
| lib/active_record/acts/dag.rb:199-204 | `unlink` deletes the ancestors(parent) × descendants(child) block and rebuilds nothing | diamond 0 → 1 → 3, 0 → 2 → 3; unlink 1 → 3: the only row for (0, 3) is deleted though 0 → 2 → 3 remains | every pair still joined by a path keeps its row | not executed | ActsDag.DiamondLosesRow (of ActsDag.Unlink) | ActsDag.UnlinkRebuiltPairExact (of ActsDag.UnlinkRebuilt) |
