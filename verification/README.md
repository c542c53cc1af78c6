# CSrankings alias and record reconciliation, in Dafny

This project models `util/clean-csrankings.py`, the CSrankings maintenance script. The script reconciles two tables:

- the DBLP alias table (`dblp-aliases.csv`): rows of alias and canonical name;
- the faculty table (`csrankings.csv`): rows of name, affiliation, homepage and Google Scholar id.

The script runs these passes in order:

1. It groups the alias rows by canonical name and records, for every alias, the name of its last row.
2. It walks the alias graph from every canonical name. The walk keeps the edges it meets first and flags every alias it meets again. It then deletes the group of the canonical name of every flagged alias.
3. It prunes the groups where neither the name nor any alias has a record.
4. It writes the alias table back, sorted by name.
5. Existence propagation: it shares record objects between names and their aliases.
6. It fills in missing scholar ids from aliases and canonical names.
7. It makes homepages consistent within each group.
8. It reports inconsistent affiliations and scholar ids.
9. It groups names by scholar id and reports ids shared by names the alias table does not account for.
10. It writes the faculty table back, sorted by name, with trailing `/` stripped from homepages.

## How the model is built

- **Tables.** Python dicts are iterated in insertion order. A table is therefore a `Tables.Dict`: the list of keys in insertion order plus the map from key to value.
- **Shared records.** Lines 130 and 135 store one record object under two names. Later writes at lines 151 and 161 are seen through both names. The records therefore live in an `array<Record>` store, and `csrankings` maps each name to a slot of that store (`Records.Index`).
- **Passes.** Each loop of the script is a method with its loop and invariants. It is proved equal to a functional definition of the same pass, such as `Cycles.CycleFree`, `Pruning.Pruned`, `Propagation.Propagated`, `Backfill.Backfilled` or `Homepages.Homepages`. The properties the script promises are lemmas about those definitions.
- **The whole script.** `Pipeline.Clean` runs the methods in the script's order, and `Pipeline.Reconciled` is its functional counterpart.
- **Errors.** The lookup of line 147 raises a Python `KeyError` when a name's canonical name has no record. It is modelled as the outcome `KeyError(key)`, which stops the script.
- **Output.** The text the script prints becomes returned values:
  - the flagged aliases;
  - the names reported as inconsistent;
  - the clashes.

  The two files it writes become lists of rows.

## Behaviour the code has and its comments do not promise

The model follows the code in each of these cases, and a lemma shows the behaviour.

- **Propagation is not idempotent** (`Propagation.PropagationNotIdempotent`). The comments at lines 123, 126 and 128 say the pass adds every missing alias. When the canonical name has no record, lines 133-136 add only the name, as the comment at line 132 says. The name's other aliases without records get one only on a second run.
- **The canonical name's scholar id always wins** (`Backfill.ParentOverrides`). The test at line 147 compares a record with a string, so it is always true. A name that is itself an alias always takes its canonical name's scholar id, even the `NOSCHOLARPAGE` sentinel. That discards a real id the alias scan had found only when some name is both a kept canonical name and an alias, which needs an alias listed under two canonical names. When each alias is listed under one name, no kept canonical name is an alias (`Pipeline.KeptNamesAreNotAliases`), so the scan and the overwrite never meet.
- **The canonical name can keep the placeholder homepage** (`Homepages.NameKeepsPlaceholder`). The comment at line 153 says the pass fixes inconsistent home pages. In the code, `page` is a local variable, so the canonical name's own record keeps the placeholder unless an alias shares that record (`Homepages.SharedRecordTakesHomepage`).
- **The clash count can hide a clash** (`Checks.UnrelatedAliasHidesClash`). The count at lines 198-202 subtracts the aliases of every listed name, whether or not those aliases are among the names sharing the id.
- **Cycle removal also drops groups that are not on a cycle** (`CycleScenarios.ChainOfTwo`). Any alias met a second time is flagged, including the alias of a chain `c → b → a` when `b` is also a canonical name.
- **Cycle removal can leave a cycle** (`CycleScenarios.SharedAliasKeepsCycle`). The comment at line 72 says the pass removes any cycle. When an alias is listed under two canonical names, line 60 keeps only its last name, and lines 93-97 delete that group instead of the group on the cycle. For rows `(a, b)`, `(b, a)`, `(a, x)` and `(b, y)` the groups `b: [a]` and `a: [b]` survive.

## Model

| member | source | states |
|---|---|---|
| AliasTable.Grouped | util/clean-csrankings.py:55-59 | every group is nonempty, and every alias listed under `n` comes from a row `(a, n)` |
| AliasTable.Reverse | util/clean-csrankings.py:60 | every alias in `aliasToName` maps to a name it has a row with |
| AliasTable.LoadAliases | util/clean-csrankings.py:51-60 | the loading loop builds the grouping `Grouped` and the reverse map `Reverse`, whose meaning the next rows state |
| AliasTable.GroupedLists | util/clean-csrankings.py:55-59 | `aliases[n]` lists exactly the aliases of the rows named `n`, in row order, and no list is empty |
| AliasTable.GroupedMembers | util/clean-csrankings.py:55-59 | `n` is a key iff some row names it, and `a` is in `aliases[n]` iff the row `(a, n)` exists |
| AliasTable.AliasesOfMembers | util/clean-csrankings.py:55-59 | the reference list of a name's aliases holds exactly the aliases of the rows for that name |
| AliasTable.ReverseLastRow | util/clean-csrankings.py:60 | `aliasToName` is defined exactly for the aliases of the rows, and maps each to the name of its last row |
| AliasTable.AliasesKnown | util/clean-csrankings.py:55-60 | every alias in a group has an `aliasToName` entry; when each alias is listed under one name, that entry is the group's name |
| Records.Indexed | util/clean-csrankings.py:64-70 | every slot the faculty table maps a name to is a slot of the record store |
| Records.LoadRecords | util/clean-csrankings.py:64-70 | a fresh store holds one record per row, in row order, and the table maps names to their slots |
| Records.IndexedLastRow | util/clean-csrankings.py:67-70 | a name has a record iff some row carries it, and the record is that of the last such row |
| Cycles.Visit | util/clean-csrankings.py:78-88 | `visit_aliases` terminates, because it recurses only on a newly marked alias; marks and flags only grow, and the walk stays within the table's aliases |
| Cycles.VisitAliases | util/clean-csrankings.py:78-88 | the recursive method computes the same marks, kept edges and flags as `Visit` |
| Cycles.VisitFrom | util/clean-csrankings.py:81-88 | the walk over the rest of a group only adds marks and flags, and stays within the table's aliases |
| Cycles.Roots | util/clean-csrankings.py:90-91 | the walks from the first `k` canonical names stay within the table's aliases |
| Cycles.CycleFree | util/clean-csrankings.py:72-97 | a name keeps its group iff the walk kept one for it and it is not `aliasToName[ca]` for a flagged `ca`; a kept group is the one the walk built |
| Cycles.FindCycles | util/clean-csrankings.py:74-91 | the loop over all canonical names yields the kept table and flags of the traversal from every root in order |
| Cycles.DropGroups | util/clean-csrankings.py:93-97 | the kept table loses exactly the groups `aliasToName[ca]` of the flagged aliases |
| Cycles.RemoveCycles | util/clean-csrankings.py:72-97 | cycle removal yields the cycle-free table and the set of flagged aliases |
| Cycles.VisitSound | util/clean-csrankings.py:78-88 | a walk keeps only input edges, keeps each alias once and only when marked, never shrinks a kept list, and marks every alias of the root it starts from |
| Cycles.RootsSound | util/clean-csrankings.py:90-91 | after the walks from all roots the invariant holds, and every alias of a marked canonical name is marked |
| Cycles.VisitFlags | util/clean-csrankings.py:81-88 | when a canonical name is marked during a walk, or its first alias was already marked, its first alias is flagged |
| Cycles.RootsFlags | util/clean-csrankings.py:81-91 | every canonical name that the walks mark has its first alias flagged |
| Cycles.CycleFreeEdges | util/clean-csrankings.py:78-97 | each group left is nonempty and lists aliases its name had in the input; each alias is in one group only, and once there |
| Cycles.WholeGroups | util/clean-csrankings.py:78-97 | when each alias is listed under one name, a group left has exactly the aliases it had in the input |
| Cycles.NoChains | util/clean-csrankings.py:72-97 | when each alias is listed under one name, no alias left is also a canonical name left: no name → alias → name chain survives |
| CycleScenarios.TwoCycle | util/clean-csrankings.py:72-97 | for rows `(a, b)` and `(b, a)` both groups are deleted |
| CycleScenarios.ChainOfTwo | util/clean-csrankings.py:78-97 | for rows `(b, c)` and `(a, b)` the walk from `b` meets `a` again, so only the group `c: [b]` is left |
| CycleScenarios.SharedAliasKeepsCycle | util/clean-csrankings.py:55-97 | for rows `(a, b)`, `(b, a)`, `(a, x)` and `(b, y)` the walk flags `a` and `b`, but the groups deleted are `x` and `y`, so the cycle `b: [a]`, `a: [b]` is left |
| Cycles.NoAliasKept | util/clean-csrankings.py:72-97 | when no group is empty and `aliasToName` maps every listed alias to the name that lists it, no alias of the table keeps a group after cycle removal |
| Pruning.HasRecordMeans | util/clean-csrankings.py:103-107 | the alias search finds a record iff some alias of the list has one |
| Pruning.AnyHasRecord | util/clean-csrankings.py:103-107 | the loop with its `break` answers the same as the search |
| Pruning.Pruned | util/clean-csrankings.py:99-110 | exactly the groups whose name or some alias has a record remain, each unchanged, and no group is added |
| Pruning.Prune | util/clean-csrankings.py:100-110 | the deleting loop computes the pruned table |
| Pruning.PrunedShape | util/clean-csrankings.py:100-110 | pruning keeps each alias in one group only and keeps aliases distinct from canonical names |
| Propagation.FirstPresent | util/clean-csrankings.py:133-136 | the alias found is one of the list that has a record |
| Propagation.FirstPresentIsFirst | util/clean-csrankings.py:133-136 | the alias `FirstPresent` finds is the first, in list order, that has a record; when none is found, no alias has one |
| Propagation.PropagateName | util/clean-csrankings.py:125-136 | one group's step keeps the table well formed; its effect is stated by `PropagateNameShares` |
| Propagation.Propagated | util/clean-csrankings.py:124-136 | the pass over the first `k` groups keeps the table well formed; its effect is stated by `PropagatedEffect` |
| Propagation.AddMissingAliases | util/clean-csrankings.py:127-130 | the inner loop computes the table with the name's absent aliases added |
| Propagation.AddAliasesEffect | util/clean-csrankings.py:127-130 | in `AddAliases`, the table after the inner loop, existing keys keep their records, every absent alias gets the name's record, and no other key is added |
| Propagation.AdoptRecord | util/clean-csrankings.py:131-136 | the loop with its `break` computes the table with the name given its first present alias's record |
| Propagation.PropagateExistence | util/clean-csrankings.py:123-136 | the pass over all groups computes the propagated table |
| Propagation.PropagateNameShares | util/clean-csrankings.py:124-136 | for one group: a present name's aliases all become keys, absent ones with the name's record; an absent name gets the first present alias's record, or nothing changes |
| Propagation.PropagatedEffect | util/clean-csrankings.py:123-136 | no existing key is reassigned, every new key is a name or alias of a group, and no new record object is created |
| Propagation.PropagationReaches | util/clean-csrankings.py:123-136 | after the pass a present name's aliases are all keys, and a name with a record or an alias with one is a key |
| Propagation.PropagationShares | util/clean-csrankings.py:123-136 | when aliases are in one group only and are not canonical names, an absent alias shares its name's record and an absent name shares its first present alias's record |
| Propagation.PropagationNotIdempotent | util/clean-csrankings.py:131-136 | for `n: [a, b]` with only `a` present, one pass leaves `b` without a record and a second pass gives it one |
| Pipeline.PropagatedInStore | util/clean-csrankings.py:130-135 | after propagation every name still maps to a stored record |
| Backfill.LastScholarPage | util/clean-csrankings.py:143-145 | the alias scan computes the id of the last alias with a real id |
| Backfill.LastScholarIsLast | util/clean-csrankings.py:143-145 | the id of the scan `LastScholar` is the sentinel or an id from the store; it is real iff some alias has a real id, and it is then that of the last such alias |
| Backfill.BackfillName | util/clean-csrankings.py:140-151 | one name's step fails iff its record holds the sentinel and its canonical name has no record, and the error names that key; on success it writes only the name's own slot |
| Backfill.Backfilled | util/clean-csrankings.py:139-151 | the pass keeps the store's size, and a `KeyError` names a key the table lacks |
| Backfill.BackfillScholars | util/clean-csrankings.py:138-151 | the pass either completes with the backfilled store or stops with the `KeyError` of the functional pass |
| Backfill.ParentWins | util/clean-csrankings.py:146-148 | for every input, a name with the sentinel whose canonical name has a record ends with that record's scholar id, whatever the alias scan found |
| Backfill.ScanFills | util/clean-csrankings.py:142-151 | for every input, a name with the sentinel that is no alias ends with the scholar id of its last alias with a real one |
| Backfill.NothingToFill | util/clean-csrankings.py:140-151 | a name whose id is real, or that is no alias and has no alias with a real id, leaves the store unchanged |
| Backfill.BackfilledStops | util/clean-csrankings.py:139-148 | once a lookup fails, no later name changes the outcome |
| Backfill.BackfilledFills | util/clean-csrankings.py:139-151 | only records holding the sentinel are written, only with a real id already in the store, and only their scholar id changes |
| Backfill.BackfilledError | util/clean-csrankings.py:146-148 | a failing lookup is for a name without a record that is the canonical name of some name with a record |
| Backfill.AliasFills | util/clean-csrankings.py:140-151 | a name with the sentinel takes its alias's real id |
| Backfill.ParentOverrides | util/clean-csrankings.py:143-151 | the canonical name's sentinel replaces the id the alias scan found, so nothing is written |
| Homepages.FixAlias | util/clean-csrankings.py:158-161 | one alias step writes only that alias's slot and only its homepage, and a real `page` stays as it is |
| Homepages.FixName | util/clean-csrankings.py:155-161 | one name's step changes records only in their homepage |
| Homepages.Homepages | util/clean-csrankings.py:154-161 | the pass keeps the store's size and changes records only in their homepage |
| Homepages.FixAliasHomepages | util/clean-csrankings.py:157-161 | the inner loop computes the scanned store and the final `page` |
| Homepages.FixHomepages | util/clean-csrankings.py:153-161 | the pass over all names computes the reconciled store |
| Homepages.FixAliases | util/clean-csrankings.py:157-161 | the scan over one name's aliases keeps the store's size and changes records only in their homepage |
| Homepages.FixAliasesConverge | util/clean-csrankings.py:157-161 | `page` changes at most once, from the placeholder to a real homepage; each written record gets the final `page`, only its homepage changes, and it is the record of an alias of the list |
| Homepages.FixAliasesAgree | util/clean-csrankings.py:155-161 | when the name's homepage is real, every alias record of the group ends with that homepage |
| Homepages.HomepagesChangeOnlyAliases | util/clean-csrankings.py:153-161 | across the pass a record keeps its value or changes only its homepage, to a real one, and it is the record of a listed alias |
| Homepages.NameKeepsPlaceholder | util/clean-csrankings.py:155-161 | a name with the placeholder whose alias has a separate real homepage keeps the placeholder |
| Homepages.SharedRecordTakesHomepage | util/clean-csrankings.py:155-161 | when an alias shares the name's record, the record takes the homepage another alias had |
| Checks.FlagInconsistent | util/clean-csrankings.py:163-177 | each check reports the names of the functional check and writes no record |
| Checks.MismatchReports | util/clean-csrankings.py:167-169 | one group's scan prints only the group's own name |
| Checks.Inconsistent | util/clean-csrankings.py:163-177 | only names with a record and an alias group are reported |
| Checks.MismatchReportsCount | util/clean-csrankings.py:167-169 | within one group the name is printed once per alias whose record differs |
| Checks.MismatchesExist | util/clean-csrankings.py:167-169 | some alias's field differs iff the number of mismatches is positive |
| Checks.InconsistentCounts | util/clean-csrankings.py:164-169 | over the first `k` names each name is reported as often as its aliases' records differ from its own, and only if it is among those names |
| Checks.InconsistentExactly | util/clean-csrankings.py:163-177 | a name is reported iff it has a record, a group, and an alias whose record's field differs from its own |
| Checks.GroupScholars | util/clean-csrankings.py:185-193 | the grouping loop computes the functional grouping |
| Checks.ScholarGroupsExact | util/clean-csrankings.py:185-193 | the sentinel gets no list; each list is nonempty without repeats, and a name is in the list of `sch` iff its record has `sch` |
| Checks.ScholarGroups | util/clean-csrankings.py:185-193 | the grouping is a well-formed table without the sentinel, and every list is nonempty |
| Checks.Total | util/clean-csrankings.py:197-201 | `total` is the number of names minus the aliases the table lists for them |
| Checks.ClashReports | util/clean-csrankings.py:195-203 | every clash reported is an id of the grouping with its full list of names, which has more than one name |
| Checks.ReportClashes | util/clean-csrankings.py:195-203 | the reporting loop computes the functional report |
| Checks.ClashReportsExact | util/clean-csrankings.py:195-203 | an id is reported iff its list has more than one name and `total` is at least two (the test `Clashes`) |
| Checks.NoAliasesClash | util/clean-csrankings.py:195-203 | two or more names without alias groups sharing an id are always reported |
| Checks.UnrelatedAliasHidesClash | util/clean-csrankings.py:198-202 | an alias of one name that is not among the names sharing the id still cancels the clash |
| Output.BelowTotal | util/clean-csrankings.py:117 | any two names are ordered one way or the other by `Below`, the order `sorted` uses |
| Output.BelowTrans | util/clean-csrankings.py:117 | the name order is transitive |
| Output.BelowAntisymmetric | util/clean-csrankings.py:117 | names ordered both ways are equal |
| Output.Sort | util/clean-csrankings.py:117 | sorting yields a sorted permutation of its input |
| Output.SortKeys | util/clean-csrankings.py:117 | the sorted keys of a table list each key once, in increasing order, and nothing else |
| Output.WriteGroup | util/clean-csrankings.py:118-120 | the rows of one name are its aliases in list order |
| Output.WriteAliases | util/clean-csrankings.py:112-120 | the writing loop produces the functional alias file |
| Output.WriteNames | util/clean-csrankings.py:117-120 | the loop over the names writes the rows of each name in the order given |
| Output.AliasOutput | util/clean-csrankings.py:113-120 | the rows written for each name hold exactly its group, in order, and a name without a group has no rows |
| Output.AliasRowsAliases | util/clean-csrankings.py:117-120 | in the written file a name's rows hold exactly its group, in order |
| Output.AliasOutputRoundTrip | util/clean-csrankings.py:112-120 | reading the written alias file back gives the same groups, with the names in sorted order |
| Output.RStrip | util/clean-csrankings.py:251 | the result is a prefix of the homepage that does not end in `/` |
| Output.RStripStrips | util/clean-csrankings.py:251 | the stripped homepage does not end in `/`, and the original is it followed by slashes only |
| Output.RStripIdempotent | util/clean-csrankings.py:251 | stripping twice is stripping once |
| Output.WriteRecords | util/clean-csrankings.py:241-253 | the writing loop produces the functional faculty file |
| Output.RecordOutputRows | util/clean-csrankings.py:243-253 | the file has one row per name, in sorted order, each carrying that name's record |
| Output.RecordOutput | util/clean-csrankings.py:243-253 | the faculty file has one row per name, and the names of its rows strictly increase |
| Output.RecordOutputRoundTrip | util/clean-csrankings.py:241-253 | reading the written faculty file back gives the same names with the same records, homepages stripped |
| Pipeline.CleanAliases | util/clean-csrankings.py:51-110 | the alias table after cycle removal and pruning is a well-formed table |
| Pipeline.Reconciled | util/clean-csrankings.py:123-253 | a `KeyError` names a key the propagated table lacks; otherwise the faculty file has one row per name, every name reported as inconsistent is a kept canonical name with a record, and every clash has more than one name |
| Pipeline.Clean | util/clean-csrankings.py:49-253 | the script writes the sorted cycle-free alias table, reports the flagged aliases, and ends in the reconciliation or its `KeyError` |
| Pipeline.CleanAliasesShape | util/clean-csrankings.py:72-110 | when each alias is listed under one name, the table kept has nonempty groups, each alias once, and no alias that is a canonical name |
| Pipeline.LinkedCoversAliases | util/clean-csrankings.py:99-136 | after propagation every kept canonical name has a record, and so has every alias of a name that had one in the file |
| Pipeline.KeptNamesAreNotAliases | util/clean-csrankings.py:55-110 | when each alias is listed under one name, no kept canonical name is an alias, so the scan of lines 143-145 and the overwrite of lines 146-148 never apply to the same name |
| Pipeline.LinkedShares | util/clean-csrankings.py:123-136 | when each alias is listed under one name, propagation over the kept table shares records as its groups say |

## Left out

- `find_fix` (lines 28-47) is not modelled. It calls a web search and filters the result with regular expressions, a foreign call. Only the link check below calls it.
- The link check (lines 205-237) is not modelled. It does network I/O, exception handling and a random shuffle. Because `count = 0` at line 207, the list of names to check is empty and the loop never runs, so records pass unchanged from the checks to the output.
- Random seeding (lines 20-22) is not modelled; only the link check uses it.
- CSV reading and writing is not modelled: headers, quoting, encodings and extra columns. Each file is a list of rows with the columns the script uses.
- Dict iteration order: Python 2, which the script's imports suggest, gives no fixed order. The model fixes insertion order, the order of Python 3.7 and later.
- Name order: under Python 2 the names are byte strings, and `sorted` compares them byte by byte; under Python 3 it compares code points. For UTF-8 text the two orders agree, since UTF-8 preserves code-point order. `Output.Below` is that order on Dafny characters, each character standing for one code point. `Output.Sort` is an insertion sort; on distinct keys it yields the same sequence as any correct sort.
- `Cycles.RemoveCycles` returns the set of flagged aliases rather than the printed lines. An alias met again several times is printed several times but flagged once.
- `Checks.FlagInconsistent` returns the printed names; the message text is not modelled.
- `Checks.ReportClashes` returns the scholar id and the names of each clash; the message text is not modelled.
- `Backfill.BackfillScholars` stops at the first `KeyError`. Only the name of the missing key is returned, not the traceback.
- The script does not check that every alias is listed under one canonical name. The lemmas that need it (through `SingleName` or `Cycles.Consistent`) require it explicitly.
- Cycles.Visit: `visit_aliases` recurses once per newly marked alias, so in Python an alias chain longer than the recursion limit (about 1000 frames by default) raises `RecursionError`. The model has no depth bound and runs such chains to the end.
- Propagation.PropagateName and Propagation.Propagated state only that the table stays well formed. What they add is stated by `PropagateNameShares`, `PropagatedEffect`, `PropagationReaches` and `PropagationShares`.
- `Pipeline.Clean` does not state how the store evolves in place; it states the values the script writes and reports.
