# surql-go: migrations, cache and deployment

A model of the parts of surql-go that keep state, compile one thing into another, or run concurrently, with
proofs of what they keep.

- **Version graph** (`order`, `version_forest`, `version_search`, `version_graph`). A forest of schema versions
  with parent pointers and sorted child lists, as a class over heap nodes. Adding extends the parent map by one
  entry; removing contracts it: children move to their grandparent. Ancestors, descendants and shortest paths
  are loops proved against that map.
- **Statements** (`schema`). A schema is a map from objects to bodies. DEFINE overwrites, REMOVE deletes, and
  REMOVE TABLE takes the table's fields, indexes and events with it.
- **Squashing** (`optimizer`, `squash_safety`, `squash`, `squash_acceptance`). The three-pass optimiser, what its
  greedy pairing is, exactly what it leaves, and exactly which scripts mean the same after it and are still accepted
  statement by statement; the merged up and down scripts.
- **Differences** (`diff`, `diff_engine`, `diff_meaning`, `diff_runs`, `diff_statements`, `diff_order`). The
  statements that take a database's tables to the declared ones and back, which these are, exactly when they do,
  and that the database accepts each of them.
- **Migration files** (`text`, `migration_file`, `migration_round_trip`, `migration_exact`, `migration_splice`,
  `migration_scripts`, `migration_parse`). Printer, parser, the script splitter, and exactly which contents
  survive being written and read.
- **Executor** (`execution`, `executor`, `execution_safety`, `execution_runs`, `execution_limits`,
  `execution_clock`, `execution_histories`). Migrating up, down and back to a version when any call to the database
  may fail, from histories that are a prefix of the files and from any others. The history is written after the
  commit and outside it.
- **Deployment** (`parallel`, `rollout`, `rollout_exact`, `interleaving`, `coordinator`, `coordinator_exact`).
  The bounded parallel strategy in every interleaving, the sequential, rolling and canary strategies as
  deployments in some order, deployments that take turns migration by migration, the coordinator's rollback, and
  what a failed deployment leaves behind.
- **Cache** (`lru`, `lru_lifetime`, `linked_list`, `memory_cache`, `invalidation`, `cache_lifetime`,
  `cache_manager`). A linked ring and a map that refine a move-to-front list with expiry, runs of two caches of
  different size, exactly how long a value can be fetched, and the table index above it.
- **Watcher** (`event_queue`, `watcher`). The drop-oldest queue in every interleaving and the debouncing
  dispatcher.
- **Record ids** (`record_id`). Printing and parsing.

Loops and objects that change in place are methods and classes; each is proved against a function or a relation
of its inputs and old state, and the properties are lemmas about that.

What the database or the environment decides is a parameter: a `Turn` says where a migration fails and how much
time it takes, a `Visit` says whether an environment can be reached. A statement the database refuses is one
that fails.

## Where the code and its description differ

- The graph's `Path` is documented to return an empty slice for unknown versions and returns nil; both are the
  empty sequence here.
- The optimiser is documented to drop only pairs with no net effect. It changes the outcome when a DEFINE is
  repeated before its REMOVE, when REMOVE TABLE implicitly removes what an earlier DEFINE made, and for
  unrecognised objects, which share one key (`SquashSafety.OptimisationIsFaithful` says exactly when the final
  schema is the same). Even where it is, the optimised script can be refused: a table defined again after its
  field keeps only its later DEFINE (`SquashAcceptance.RedefinedTableIsRefused`; `OptimisedIsAccepted` is the
  exact condition).
- The third pass of the optimiser is described as using the fields that the first pass removed; it also uses
  those of the second (`SquashSafety.OrphanRuleExact`).
- The squashed down script reverses the statements inside each migration, unlike rolling the migrations back one
  by one (`Squash.MergedDownIsFaithful`), and can be refused for it (`SquashAcceptance.MergedDownIsAccepted`).
- A difference leaves a table's mode and same-named indexes and events as they are, and undoing a dropped table
  restores it without its parts (`DiffMeaning.UpReachesCode`, `DiffMeaning.DownUndoesUp`). Both speak of a schema
  that holds the database's tables; `DiffMeaning.SomeSchemaHolds` says that every list of tables has one.
- A generated script is cut at every semicolon, also inside an event's expression, whose validation refuses a
  semicolon only before a space or a comment or at the end (`MigrationSplice.StatementSurvives` says exactly which
  statements come out whole).
- Parallel deployments of two environments that lead to one database can interleave and leave a schema that no order
  of whole deployments leaves (`Interleaving.SharedDatabaseEndsAsNoOrder`); without a shared database the
  interleaving does not matter (`Interleaving.InterleavingIsAnyOrder`).
- The count that invalidating a table returns includes keys that were no longer in the cache
  (`CacheManagers.CountIsDropped`), and a cache key that starts with the prefix shares its entry with the key
  that follows the prefix (`Invalidation.BuildKeyCollisions`).
- Script splitting joins lines with spaces, so a comment behind a statement becomes the beginning of the statement
  that follows; the generated file then loses that (`MigrationSplice.CommentAfterStatement`,
  `MigrationSplice.GeneratedFileIs`).
- A pair of carriage return and newline inside a statement is read back as a newline; a carriage return by itself
  survives (`MigrationExact.RoundTripIsExact`).
- The line that squashing adds goes into the description when that ends in the up marker, and the file can no
  longer be read (`MigrationSplice.SplicingIsHarmless`).
- A rollback plan holds every file between its ends, also one merged late that was never applied
  (`ExecutionHistories.RollbackPlanIs`), whose down script then runs; migrating up again would apply that file
  (`ExecutionHistories.UpRecordsEveryFile`).
- A rollback plan made earlier leaves a gap in the history once newer migrations have been applied
  (`ExecutionLimits.StalePlanKeepsPrefix`), and rolling back follows the recorded times, which a clock set back
  turns against the version order (`ExecutionClock.ClockDecidesWhatIsUndone` and
  `ExecutionClock.ClockDecidesRollback` are the exact conditions).
- An environment named twice in a deployment is deployed to twice. The later attempt fails, and if its result is
  the last of the name, that replaces the successful one and the rollback passes the environment over
  (`Coordinator.RepeatedNameEscapes`; `Coordinator.SuccessIsUndoneIfLast` is the exact condition, for whatever
  environments the names are looked up to, by `Coordinator.LookedAgree`).

## Model

| member | source | states |
|---|---|---|
| Order.LessIsLexical | pkg/surql/migration/executor.go:427-451 | versions compare by the code of the first character in which they differ, and one that another begins with comes before that |
| Order.SearchStrings | pkg/surql/migration/versioning.go:504-514 | binary search finds the first element that is not below the given one |
| Order.InsertSorted | pkg/surql/migration/versioning.go:504-514 | the result is strictly sorted and holds the old elements and the new one, once |
| Order.RemoveFromSlice | pkg/surql/migration/versioning.go:518-525 | the first occurrence goes; a sorted list stays sorted and loses exactly that element |
| VersionForest.ContractKeepsForest | pkg/surql/migration/versioning.go:265-309 | moving the children of a removed version to their grandparent keeps the graph acyclic |
| VersionForest.AncestorsAfterContract | pkg/surql/migration/versioning.go:265-309 | after a removal, every survivor's ancestors are the old ones with the removed version left out |
| VersionForest.AncestorsAfterExtend | pkg/surql/migration/versioning.go:224-257 | adding a version changes no other version's ancestors |
| VersionForest.AncestorsOfNew | pkg/surql/migration/versioning.go:224-257 | the new version's ancestors are its parent's and then its parent |
| VersionForest.AncestorsClimb | pkg/surql/migration/versioning.go:415-431 | ancestors are root first, each the parent of the next |
| VersionForest.ContractCommutes | pkg/surql/migration/versioning.go:265-309 | removing two versions in either order gives the same graph |
| VersionForest.ContractUndoesExtend | pkg/surql/migration/versioning.go:224-309 | removing a version just added restores the graph |
| VersionGraphs.ShapeDeterminesGraph | pkg/surql/migration/versioning.go:190-210 | parent pointers determine every child list: two well-formed graphs with the same parents are the same |
| VersionGraphs.VersionGraph.Add | pkg/surql/migration/versioning.go:224-257 | all error cases; otherwise exactly one parent entry is added, the root only if there was none, and the graph stays well formed |
| VersionGraphs.VersionGraph.Remove | pkg/surql/migration/versioning.go:265-309 | an unknown version is refused; otherwise the graph is the contraction, stays well formed, and a non-empty graph has a parentless root |
| VersionGraphs.VersionGraph.Path | pkg/surql/migration/versioning.go:364-411 | a path is returned exactly if both versions are in one tree; it has no repeats and no walk is shorter |
| VersionGraphs.VersionGraph.GetAncestors | pkg/surql/migration/versioning.go:415-431 | the ancestors of the parent map, for every reachable graph |
| VersionGraphs.VersionGraph.GetDescendants | pkg/surql/migration/versioning.go:438-472 | lists exactly the versions that have the given one as ancestor, each once, in order of depth |
| Optimizer.GreedyIsUnique | pkg/surql/migration/squash.go:358-377 | the pairing of the first pass is the only one in which each DEFINE takes the first free REMOVE of its object behind it |
| Optimizer.NothingSkipped | pkg/surql/migration/squash.go:358-377 | no DEFINE and later REMOVE of one object are both left with the REMOVE untaken and the DEFINE unpaired |
| Optimizer.PendingIsSurplus | pkg/surql/migration/squash.go:358-377 | a DEFINE of an object is left before a position exactly if some stretch up to it has more DEFINEs than REMOVEs |
| Optimizer.CountIsExact | pkg/surql/migration/squash.go:349-469 | the kept and the removed statements add up to the script |
| Optimizer.OptimisedIsNormal | pkg/surql/migration/squash.go:349-469 | in the result no DEFINE precedes a REMOVE of its object and no key is defined twice |
| Optimizer.OptimisingTwiceIsOptimisingOnce | pkg/surql/migration/squash.go:349-469 | a second run changes nothing and removes nothing |
| Squash.OptimizeStatements | pkg/surql/migration/squash.go:349-469 | the three loops compute the optimised script and the number of statements removed |
| SquashSafety.OptimisationIsFaithful | pkg/surql/migration/squash.go:349-469 | the optimised script leaves the same schema, from a given one, exactly if every object is safe, which is decided by counting DEFINEs and REMOVEs |
| SquashAcceptance.OptimisedIsAccepted | pkg/surql/migration/squash.go:349-469 | for every script, the optimised one is accepted exactly if each statement that is kept finds what it needs: a part its table, defined before it by a kept DEFINE or there and not removed, and a REMOVE its object |
| SquashAcceptance.OptimisedIsWhatRemains | pkg/surql/migration/squash.go:349-469 | by positions of the original: a REMOVE remains unless some stretch before it defines its object more often than it removes it, of each object the last DEFINE if that is so at the end, an UPDATE unless its field is defined and later removed or defined again, everything else; in the same order |
| SquashSafety.AlternatingIsSafe | pkg/surql/migration/squash.go:349-469 | scripts of recognised objects, each defined at most once between removals, keep their meaning if what they define first and later remove is absent at the start and every part they define before they remove its table has a REMOVE of its own; what is there may be removed, defined again and removed again |
| SquashAcceptance.AlternatingIsAccepted | pkg/surql/migration/squash.go:349-469 | and from the same states they stay accepted exactly if no table is defined again behind a part of it that stays, unless it is there from the start |
| SquashAcceptance.RedefinedTableIsRefused | pkg/surql/migration/squash.go:396-424 | DEFINE TABLE, DEFINE FIELD, DEFINE TABLE is accepted and means the same once optimised, but begins with the field then and is refused |
| SquashSafety.RepeatedDefineIsUnsafe | pkg/surql/migration/squash.go:358-394 | DEFINE, DEFINE, REMOVE of one field leaves the field behind |
| SquashSafety.RemovedTableIsUnsafe | pkg/surql/migration/squash.go:358-377 | a field defined before its table is removed outlives it |
| SquashSafety.UnrecognisedDefinesAreUnsafe | pkg/surql/migration/squash.go:384-424 | of two unrecognised objects only the last defined is kept |
| SquashSafety.OrphanRuleExact | pkg/surql/migration/squash.go:426-460 | the third pass follows its description exactly for fields cancelled by the first pass or defined at most once |
| Squash.FilterMigrationsByVersion | pkg/surql/migration/squash.go:238-256 | the loop selects by version and sorts |
| Squash.SelectionIsSorted | pkg/surql/migration/squash.go:238-256 | what is selected is ordered by version, and holds of each version from one bound to the other, both included, all the files in their order, and nothing else |
| Squash.SelectionIsTheRange | pkg/surql/migration/squash.go:238-256 | from files in version order exactly the range is selected, in order |
| Squash.MergedDownIsFaithful | pkg/surql/migration/squash.go:155-166 | the merged down script leaves the schema that rolling back one by one leaves, from every state, exactly if in the last-run migration to touch each object the first and the last such statement leave the same of it |
| SquashAcceptance.MergedDownIsAccepted | pkg/surql/migration/squash.go:155-166 | the merged down script is accepted exactly if each statement finds what it needs: the nearest statement behind it in its own script to touch that defines it, else the first such statement of the nearest newer migration does, else it was there |
| Squash.ReversedDownIsUnsafe | pkg/surql/migration/squash.go:155-166 | removing and redefining an object in one down script ends removed once squashed |
| SquashAcceptance.ReversedDownIsRefused | pkg/surql/migration/squash.go:155-166 | so removing a field and then its table is accepted as written and refused once squashed |
| Squash.SquashMigrations | pkg/surql/migration/squash.go:105-208 | every error case, and otherwise the merged and optimised scripts, the count and the versions |
| DiffEngine.DiffParts | pkg/surql/migration/diff.go:134-272 | added, dropped and modified parts in their order, or an error exactly if one that is involved does not pass validation |
| DiffEngine.DiffTables | pkg/surql/migration/diff.go:97-127 | all four cases of a missing or present table |
| DiffEngine.DiffSchemas | pkg/surql/migration/diff.go:357-409 | new tables, gone tables, then common ones by name, or an error exactly if something involved does not render |
| DiffEngine.GenerateMigrationFromDiffs | pkg/surql/migration/generator.go:152-196 | forward statements in order, backward ones in reverse order of differences, and the three errors |
| DiffMeaning.SchemaDiffsAims | pkg/surql/migration/diff.go:357-409 | for every object, what all statements about it leave of it, forwards and backwards |
| DiffMeaning.UpReachesCode | pkg/surql/migration/diff.go:97-272 | running the forward statements on a database that holds its tables reaches the declared ones exactly if common tables agree on mode and on same-named indexes and events |
| DiffMeaning.DownUndoesUp | pkg/surql/migration/diff.go:666-854 | running forwards and then backwards restores the database exactly if no dropped table had fields, indexes or events |
| DiffRuns.UpRunsClean | pkg/surql/migration/diff.go:357-409 | no forward statement removes what is not there or defines a part of a missing table |
| DiffRuns.DownRunsClean | pkg/surql/migration/generator.go:179-185 | nor does any backward statement, after the forward ones |
| DiffStatements.DifferencesAre | pkg/surql/migration/diff.go:97-409 | exactly which differences there are, for all lists of tables: those of new, gone, and common tables, part by part |
| DiffOrder.DifferencesComeInOrder | pkg/surql/migration/diff.go:357-409 | new tables in the order of the code, gone ones in that of the database, common ones by name; within a table first itself, then fields, indexes and events, of each what is added, dropped and modified |
| DiffOrder.AddedInOrder | pkg/surql/migration/diff.go:146-156 | parts are added in the order of the new table |
| DiffOrder.DroppedInOrder | pkg/surql/migration/diff.go:158-168 | parts are dropped in the order of the old table |
| DiffOrder.ModifiedInOrder | pkg/surql/migration/diff.go:170-191 | fields are modified by name |
| DiffStatements.RendersIfPartsDo | pkg/surql/migration/diff.go:357-409 | there is an error exactly if some part that is to be written does not pass validation |
| DiffStatements.BackfillsAreNewDefaults | pkg/surql/migration/diff.go:721-744 | going forwards rows are filled in exactly for the new fields with a default, with that default, right behind the DEFINE of the field; going backwards none are |
| DiffStatements.ModelessIsSchemafull | pkg/surql/migration/diff.go:666-678 | once there, a table that the code declares without a mode is schemafull, any other has its mode |
| DiffStatements.LastPartCounts | pkg/surql/migration/diff.go:134-142 | of parts that share a name the last one counts |
| DiffStatements.LastTableCounts | pkg/surql/migration/diff.go:357-366 | of tables that share a name the last one counts |
| MigrationFiles.RenderMigrationContent | pkg/surql/migration/generator.go:266-298 | the builder's loops write the rendered text |
| MigrationFiles.ParseMigrationContent | pkg/surql/migration/discovery.go:193-257 | the loops compute the parse, with the first error met |
| MigrationParses.RepeatedMarkerIsRefused | pkg/surql/migration/discovery.go:193-227 | of any text, the first line that repeats a marker decides the error |
| MigrationParses.ParseEndsIn | pkg/surql/migration/discovery.go:193-257 | otherwise a text can be read exactly if it has both markers, up first; the error says which is missing, or that they are the wrong way round; read are the header above and the two sections |
| MigrationParses.LastDescriptionCounts | pkg/surql/migration/discovery.go:243-251 | of several descriptions the last counts, and other lines do not |
| MigrationParses.LastListCounts | pkg/surql/migration/discovery.go:243-251 | likewise for dependencies |
| MigrationParses.ListsJoin | pkg/surql/migration/discovery.go:297-316 | a list of dependencies is cut at its commas, its entries are trimmed and blank ones dropped |
| MigrationParses.SectionIsPieces | pkg/surql/migration/discovery.go:263-293 | the statements of any section are its kept lines, as they are, cut at every semicolon |
| MigrationParses.SectionsJoin | pkg/surql/migration/discovery.go:263-293 | the statements of two stretches of a section follow each other, if the last line kept of the first ends in a semicolon |
| MigrationParses.SectionIsOneStatement | pkg/surql/migration/discovery.go:263-293 | kept lines without a semicolon are one statement, newlines and all |
| MigrationParses.CommentsChangeNothing | pkg/surql/migration/discovery.go:263-293 | blank lines and comments change nothing, wherever they stand |
| MigrationFiles.SplitStatements | pkg/surql/migration/discovery.go:263-293 | drops blank and comment lines, then cuts at semicolons |
| MigrationExact.WrittenIsReadBack | pkg/surql/migration/generator.go:266-298 | well-formed contents are read back as written if the text has no pair of carriage return and newline |
| MigrationExact.RoundTripIsExact | pkg/surql/migration/discovery.go:193-315 | any contents are read back as written exactly if they are well formed and the text has no pair of carriage return and newline |
| MigrationSplice.SplitScriptStatements | pkg/surql/migration/generator.go:226-260 | the loops compute the statements of a script |
| MigrationSplice.ScriptStatementIs | pkg/surql/migration/generator.go:226-260 | every statement is one line with its one semicolon at the end, and a file keeps it exactly if it does not start like a comment |
| MigrationSplice.GeneratedFileIs | pkg/surql/migration/generator.go:222-260 | from a file generated from any scripts, exactly the statements are read that do not start like a comment |
| MigrationSplice.GeneratedFileReads | pkg/surql/migration/generator.go:222-260 | so it is read back as written exactly if no statement starts like a comment and the description is a trimmed line |
| MigrationSplice.CommentAfterStatement | pkg/surql/migration/generator.go:226-260 | a comment behind a statement becomes a statement |
| MigrationScripts.ScriptIsPieces | pkg/surql/migration/generator.go:226-260 | the statements of any script are its kept lines, joined by spaces and cut at every semicolon |
| MigrationScripts.ScriptsJoin | pkg/surql/migration/generator.go:226-260 | two scripts, one below the other, give the statements of the first and then those of the second, if the last line kept of the first ends in a semicolon |
| MigrationScripts.LinesAreOneStatement | pkg/surql/migration/generator.go:226-260 | the kept lines of a script without semicolons are one statement, joined by spaces |
| MigrationScripts.TwoLinesOneStatement | pkg/surql/migration/generator.go:226-260 | so two such lines are one statement |
| MigrationScripts.BlankLinesChangeNothing | pkg/surql/migration/generator.go:226-260 | blank lines and comments before, behind and between lines change nothing |
| MigrationScripts.WrittenFileIs | pkg/surql/migration/generator.go:266-298 | the text of a file, marker by marker, and that it is read back |
| MigrationScripts.BareFileIs | pkg/surql/migration/generator.go:266-298 | without description and dependencies no header is written |
| MigrationScripts.NoBlankLines | pkg/surql/migration/generator.go:266-298 | statements are put on lines of their own without a blank line between them, whether or not they end in a newline |
| MigrationSplice.StatementSurvives | pkg/surql/migration/generator.go:226-260 | a statement comes out of its script as the one statement it was exactly if it is a trimmed line whose one semicolon is its last character and that does not start like a comment |
| MigrationSplice.SplicingIsHarmless | pkg/surql/migration/squash.go:577-600 | for any terminated statements, well formed or not, what is read or the error met is the same with the squashed-from line, unless the description ends in an up marker: then the file cannot be read |
| Executor.ExecuteMigration | pkg/surql/migration/executor.go:70-157 | statements reach the schema only through the commit; the history is written after it and may fail by itself |
| Executor.ValidateMigrationSet | pkg/surql/migration/executor.go:465-505 | the issues found are exactly the repeated versions, missing dependencies and migrations without statements; there are none exactly if the set is valid |
| Executor.GetAppliedMigrationsOrdered | pkg/surql/migration/executor.go:298-313 | the applied versions by time and then by version, which is one list |
| Executor.MigrateUp | pkg/surql/migration/executor.go:165-217 | database, statuses and success are those of the specification, for every fault |
| Executor.MigrateDown | pkg/surql/migration/executor.go:225-277 | likewise, newest first, stopping at a failure or a missing file |
| Executor.CreateRollbackPlan | pkg/surql/migration/rollback.go:134-204 | files above the target and not above the newest applied one, newest first, and the errors |
| Executor.ExecuteRollback | pkg/surql/migration/rollback.go:211-244 | undoes the plan in its order up to the first failure and counts what it undid |
| Executor.ExecuteMigrationPlan | pkg/surql/migration/executor.go:371-403 | the plan's order going up and its reverse, made in place, going down |
| ExecutionHistories.RunEnds | pkg/surql/migration/executor.go:70-157 | any list of migrations run from any database, up or down: it stops at the first that fails, has no version or, going up, one recorded already; history with its times, schema, clock and statuses are determined by that |
| ExecutionHistories.PendingIsUnrecorded | pkg/surql/migration/executor.go:427-451 | for every disk and history, what is pending are exactly the files whose version is not recorded, in version order, late ones included; with a number of steps the first that many |
| ExecutionHistories.UpRuns | pkg/surql/migration/executor.go:165-217 | going up is refused only for an invalid set or an unreadable database, a dry run does nothing, and anything else runs what is pending |
| ExecutionHistories.InvalidExactlyIf | pkg/surql/migration/executor.go:465-505 | a set is invalid exactly if two files share a version, a file has no statements, or one depends on a missing version |
| ExecutionHistories.UpRecordsEveryFile | pkg/surql/migration/executor.go:165-217 | after success without a number of steps the version of every file is recorded, and nothing that was is lost or changed |
| ExecutionHistories.DownRuns | pkg/surql/migration/executor.go:225-277 | from any history, going down undoes the versions recorded last, latest first, each by the last of its files, up to the first that fails or has no file; it is refused only for no steps or an unreadable database |
| ExecutionHistories.RollbackPlanIs | pkg/surql/migration/rollback.go:134-204 | when there is no plan; otherwise it starts from the version recorded last and holds every file above the target up to there, newest first, also one that was never applied |
| ExecutionSafety.RecordedAre | pkg/surql/migration/executor.go:298-313 | when the history is a prefix of the files, the order of application is the version order |
| ExecutionSafety.PlanIs | pkg/surql/migration/rollback.go:166-180 | the plan holds exactly the recorded files after the target, newest first |
| ExecutionRuns.HistoryStaysAPrefix | pkg/surql/migration/executor.go:165-277 | after any commands with any failures, the recorded versions are the first files and their times do not decrease with the version, as long as the clock does not go back |
| ExecutionRuns.DriftsByAtMostOne | pkg/surql/migration/executor.go:108-157 | after a command the schema is that of the recorded files, or of exactly one file more (up) or fewer (down, where the down scripts undo the up scripts), the latter exactly if a history write failed |
| ExecutionRuns.UpThenDownRestores | pkg/surql/migration/executor.go:195-276 | migrating up and rolling as many back restores the history, and the schema if the down scripts undo the up scripts |
| ExecutionLimits.StalePlanKeepsPrefix | pkg/surql/migration/rollback.go:211-244 | a plan executed later keeps the history a prefix exactly if it is empty, its first undoing fails, or nothing newer than the plan has been applied |
| ExecutionLimits.UpSessionsStayNear | pkg/surql/migration/executor.go:108-217 | after any number of migrations up with any failures, the schema is that of the recorded files or of exactly one file more |
| ExecutionClock.ClockDecidesWhatIsUndone | pkg/surql/migration/executor.go:225-276 | whatever times are recorded, undoing any number of migrations, with any failures, leaves a prefix exactly if each file left was recorded before each one undone, or at the same time; a success undoes as many as asked for, or all |
| ExecutionClock.ClockDecidesRollback | pkg/surql/migration/rollback.go:134-244 | whatever times are recorded, rolling back to a file leaves a prefix exactly if the file recorded last is not above it, or is the newest recorded, or its undoing fails |
| ExecutionLimits.MigratingUpAgainHeals | pkg/surql/migration/executor.go:195-215 | after an unrecorded commit, migrating up again brings schema and files together as soon as that file goes through |
| ExecutionLimits.MigratingDownAgainHeals | pkg/surql/migration/executor.go:250-276 | likewise down |
| ExecutionLimits.AgainIsAccepted | pkg/surql/migration/executor.go:108-157 | such a file can go through again exactly if each object that a statement of its script needs and no earlier one touches is there at the script's end, or is not touched by it |
| ExecutionLimits.DownAfterUnrecordedCommit | pkg/surql/migration/executor.go:250-276 | undoing older files after an unrecorded commit gives the schema of the files left exactly if the down scripts that run touch everything the unrecorded file changed |
| Parallel.Limit | pkg/surql/orchestration/strategies.go:248-254 | the bound is positive: the strategy's own if that is set, else the plan's, else five |
| Parallel.AtMostLimitInFlight | pkg/surql/orchestration/strategies.go:256-270 | at every point of every interleaving at most the limit hold the semaphore, and no environment is deployed to twice |
| Parallel.NeverStuck | pkg/surql/orchestration/strategies.go:256-270 | until the call has returned some step is possible |
| Parallel.EveryRunReturns | pkg/surql/orchestration/strategies.go:256-270 | a run of n environments stops after exactly 6n + 1 steps, having returned |
| Parallel.ResultsAreInPlanOrder | pkg/surql/orchestration/strategies.go:244-272 | on return every environment was deployed to once and slot i holds the result of environment i |
| Rollout.ExecuteOnEnvironment | pkg/surql/orchestration/strategies.go:68-145 | result and databases after one deployment, in all cases |
| Rollout.RunParallel | pkg/surql/orchestration/strategies.go:449-462 | with each deployment as one step, there is an order of all the environments such that results and databases are those of deploying one after another in that order; the results come in plan order |
| Interleaving.ParallelRunIsAnOrder | pkg/surql/orchestration/strategies.go:256-270 | the deploying steps of every run that returns are an order of all the environments, each once |
| Interleaving.InterleavingIsAnyOrder | pkg/surql/orchestration/strategies.go:256-270 | where no two environments share a database, deployments that take turns migration by migration, in any way, end in the databases and results of every order of whole deployments |
| Interleaving.SharedDatabaseEndsAsNoOrder | pkg/surql/orchestration/strategies.go:256-270 | two deployments of two migrations that define one object, to one empty database, can take turns so that the schema is that of no order of whole deployments |
| Rollout.OnlyReachedChange | pkg/surql/orchestration/strategies.go:68-145 | a database that no deployed environment leads to is as before |
| Rollout.OwnDatabaseIsExact | pkg/surql/orchestration/strategies.go:244-272 | where no other environment leads to its database, an environment's result and database do not depend on the order, and without a deployment to it the database is as before |
| Rollout.Sequential | pkg/surql/orchestration/strategies.go:195-208 | the first environments, deployed to in plan order, shared databases included, up to the first failure |
| Rollout.Rolling | pkg/surql/orchestration/strategies.go:310-363 | a prefix ending on a batch boundary, deployed to batch by batch in some order within each, every batch but the last successful, short only after a failure or cancellation |
| Rollout.CanaryCount | pkg/surql/orchestration/strategies.go:425-431 | the percentage rounded down, but at least one and, of two or more, at most half |
| RolloutExact.DeploymentIs | pkg/surql/orchestration/strategies.go:68-145 | a deployment that connects ends where running the migrations ends, is a success exactly if all of them go through, and counts those that do; a dry run and one that does not connect change nothing |
| RolloutExact.BatchesAreOfSize | pkg/surql/orchestration/strategies.go:314-360 | with a size set, the strategy's before the plan's, batches of that size follow each other and every failure lies in the last; it is short only after a failure or cancellation |
| RolloutExact.UnsetSizeIsOneByOne | pkg/surql/orchestration/strategies.go:314-360 | with no size set the environments follow one by one, and only the last result may be a failure |
| RolloutExact.OneByOneIsUnique | pkg/surql/orchestration/strategies.go:195-208 | results and databases of deploying one by one are determined: so, uncancelled, such a rolling deployment is a sequential one |
| RolloutExact.CanariesAreTheShare | pkg/surql/orchestration/strategies.go:401-445 | the canaries are the share that is set, the strategy's before the plan's or else ten percent; the others follow exactly if no canary fails |
| Rollout.Canary | pkg/surql/orchestration/strategies.go:401-445 | an out-of-range percentage is refused; a failed canary reaches only the first environments, and otherwise all are deployed to, the canaries first |
| Coordinator.DeployToEnvironments | pkg/surql/orchestration/coordinator.go:84-184 | refusals change nothing; otherwise the strategy went its course, as far and in an order as it may, and the results by name and the databases are rolled back exactly if wanted, real and something failed |
| CoordinatorExact.RefusedExactlyFor | pkg/surql/orchestration/coordinator.go:84-146 | the reasons for a refusal: no or unknown names, an unhealthy environment unless health is not asked for or the run is dry, an unknown strategy, a canary share that is set and out of range |
| CoordinatorExact.RolledBackExactlyIf | pkg/surql/orchestration/coordinator.go:163-182 | results and databases stay as the strategy left them unless rollback is wanted, the run is real and one failed |
| CoordinatorExact.DryRunChangesNothing | pkg/surql/orchestration/coordinator.go:84-184 | a dry run changes no database, and its results say what would be reached |
| CoordinatorExact.RollingGoesInBatches | pkg/surql/orchestration/coordinator.go:137-152 | with a batch size in the options, rolling is as above |
| CoordinatorExact.RollingGoesOneByOne | pkg/surql/orchestration/coordinator.go:137-152 | and without one it goes in order, one by one |
| CoordinatorExact.CanariesGoFirst | pkg/surql/orchestration/coordinator.go:137-152 | the canaries are the share in the options, or else ten percent |
| Coordinator.FailedDeploymentIsUndone | pkg/surql/orchestration/coordinator.go:84-239 | after a failed deployment with rollback, under every strategy, an environment that the rollback reaches has its old schema and history unless the deployment failed right there, which each strategy bounds; results say rolled back for a success and are absent where nothing was deployed |
| Coordinator.NoSuccessAfterFailure | pkg/surql/orchestration/coordinator.go:163-239 | and with every environment reachable no name is left as successful, repeated names included |
| Coordinator.RollBack | pkg/surql/orchestration/coordinator.go:212-239 | databases and results after undoing, in the order of the environments |
| Coordinator.MarksExactlyTheReached | pkg/surql/orchestration/coordinator.go:222-238 | a name is marked as rolled back exactly if it was successful and one of its environments could be reached |
| Coordinator.UndoesExactlyTheReached | pkg/surql/orchestration/coordinator.go:212-239 | every database, shared or not, runs all down scripts, last migration first, once for each name that leads to it, stands as successful and is reached, and is untouched if there is none |
| Coordinator.SuccessIsUndoneIfLast | pkg/surql/orchestration/coordinator.go:159-239 | in a failed deployment with rollback, repeated names and several names for one database included, a database deployed to with success is undone, once, exactly if the name it was deployed to by has no later result and some visit to that connects |
| Coordinator.OneSuccessPerDatabase | pkg/surql/orchestration/strategies.go:115-133 | of the environments that lead to one database at most one is deployed to with success, in whatever order |
| Coordinator.RollbackRestores | pkg/surql/orchestration/coordinator.go:231-234 | if nothing fails and the down scripts undo the up scripts, schema and history are as before the deployment |
| Coordinator.RepeatedNameEscapes | pkg/surql/orchestration/coordinator.go:159-180 | a sequential deployment to an environment named twice applies its migrations, is reported as failed, and leaves them in place |
| Lru.HitsStayHits | pkg/surql/cache/memory.go:68-188 | on every trace of operations and times, a hit in the smaller cache is the same hit in the larger |
| Lru.RunsStayIncluded | pkg/surql/cache/memory.go:68-188 | the smaller cache stays a subsequence of the larger, with no greater gap in size than in capacity |
| Lru.HitReturnsLastSet | pkg/surql/cache/memory.go:68-115 | a hit returns the value last set for the key, before its time is up |
| LruLifetimes.HitIsLive | pkg/surql/cache/memory.go:68-141 | a hit, or an Exists that finds something, goes back to the last Set of the key: its time is not up, and no operation since has deleted, cleared, matched or found it expired |
| LruLifetimes.LiveEntryHits | pkg/surql/cache/memory.go:68-141 | conversely such an entry is found, with its value, if fewer other keys have been touched since than the cache holds |
| LruLifetimes.ClearingIsCounted | pkg/surql/cache/memory.go:143-170 | clearing answers how many entries went; a malformed pattern is refused by a cache with entries, and changes nothing |
| Lru.EvictedIsOldest | pkg/surql/cache/memory.go:88-115 | an insertion evicts only when the cache is full and the key new, and only the entry touched longest ago |
| Lru.RunKeepsBounds | pkg/surql/cache/memory.go:88-188 | keys stay distinct and the capacity is never exceeded |
| LinkedLists.LinkedList.Remove | pkg/surql/cache/memory.go:183-188 | splicing out keeps the ring and removes exactly that element |
| LinkedLists.LinkedList.MoveToFront | pkg/surql/cache/memory.go:68-85 | the element comes first and the others keep their order |
| MemoryCaches.MemoryCache.Get | pkg/surql/cache/memory.go:68-85 | contents and answer are those of the list model; map, ring and size agree |
| MemoryCaches.MemoryCache.Set | pkg/surql/cache/memory.go:88-115 | likewise, with the eviction loop |
| MemoryCaches.MemoryCache.Exists | pkg/surql/cache/memory.go:128-141 | likewise; an expired entry is dropped |
| MemoryCaches.MemoryCache.ClearPattern | pkg/surql/cache/memory.go:155-170 | likewise; a malformed pattern removes nothing |
| Invalidation.BuildKeyIsIdempotent | pkg/surql/cache/manager.go:61-70 | prefixes are not stacked |
| Invalidation.BuildKeyCollisions | pkg/surql/cache/manager.go:61-70 | exactly which two keys share an entry |
| Invalidation.KeyPartsAreJoined | pkg/surql/cache/manager.go:61-70 | the parts of a key are joined by colons and are prefixed as one key |
| CacheLifetimes.EntriesAreRun | pkg/surql/cache/manager.go:73-217 | whatever is called, the manager's entries are those of a cache run with the corresponding operations |
| CacheLifetimes.FetchedIsRemembered | pkg/surql/cache/manager.go:73-217 | what is fetched is the value last stored under the key; it has lived no longer than asked for, or else the default, and was not discarded, cleared or invalidated since |
| CacheLifetimes.RememberedIsFetched | pkg/surql/cache/manager.go:73-217 | conversely such a value is fetched, if fewer other keys have been used since than the cache holds |
| Invalidation.IndexIsHistory | pkg/surql/cache/manager.go:93-217 | the table index holds exactly the associations made and not undone by a Delete or Clear |
| Invalidation.InvalidateTableIsExact | pkg/surql/cache/manager.go:180-196 | invalidating a table drops exactly the live entries associated with it |
| Invalidation.InvalidateTableIsComplete | pkg/surql/cache/manager.go:180-196 | no entry is left whose latest Set named the table, despite stale index entries |
| CacheManagers.CacheManager.InvalidateTable | pkg/surql/cache/manager.go:180-196 | state and count as specified |
| CacheManagers.CountIsDropped | pkg/surql/cache/manager.go:188-195 | the returned count is the number dropped exactly if every tracked key was live |
| EventQueue.NothingOvertakes | pkg/surql/migration/watcher.go:292-316 | in every interleaving with the dispatcher, the second attempt to send succeeds and events leave in the order offered |
| EventQueue.DroppedOnlyWhenFull | pkg/surql/migration/watcher.go:292-316 | an event is dropped only after a newer one found the queue full |
| Watcher.CollapseIsLatestInFirstOrder | pkg/surql/migration/watcher.go:404-422 | the batch has one event for each path, the latest, in the order the paths first came |
| Watcher.Ordered | pkg/surql/migration/watcher.go:353-363 | the flush's own deduplication changes nothing |
| Watcher.Dispatcher.Receive | pkg/surql/migration/watcher.go:394-436 | batch and map stay in step with the events since the last call |
| Watcher.Dispatcher.Flush | pkg/surql/migration/watcher.go:349-383 | one call with what the events since the last one collapse to, and none if there are none |
| Watcher.Dispatcher.Stop | pkg/surql/migration/watcher.go:385-403 | after stopping every event received is in exactly one call's segment |
| RecordIds.IntRoundTrip | pkg/surql/types/record_id.go:43-48 | every 64-bit number is parsed back |
| RecordIds.RecordIdRoundTrip | pkg/surql/types/record_id.go:127-177 | a valid record id is parsed back exactly if it is no string that reads as a 64-bit number; such a string comes back as that number |
| RecordIds.ParsedIsStable | pkg/surql/types/record_id.go:147-177 | whatever was parsed is parsed again from what it is printed as |
| RecordIds.AcceptedExactlyIf | pkg/surql/types/record_id.go:147-177 | a text is accepted exactly if before its first colon is a name, spaces aside, and something follows; otherwise the error says what is wrong |
| RecordIds.NoColonIsRefused | pkg/surql/types/record_id.go:147-154 | and is refused for lack of a colon exactly if it has none |
| RecordIds.ReadsAsNumberIf | pkg/surql/types/record_id.go:170-176 | an id is a number exactly if it is one of 64 bits written out, perhaps behind zeros and one sign |

## Left out

- The Redis cache, sessions, live queries, health checks, settings, the command line and the query builder.
- DiffEngine.DiffTables: does not model permissions, whose statements do not touch schema objects.
- DiffEngine.DiffSchemas: does not model edges, which have functions of their own and whose dropping has no
  backward script, nor buckets, which are single statements.
- DiffEngine.GenerateMigrationFromDiffs: does not model the text of a difference, which is cut at its semicolons;
  `MigrationSplice.StatementSurvives` says exactly which statements that leaves whole.
- DEFINE with IF NOT EXISTS and REMOVE with IF EXISTS, which are recognised too: such a DEFINE does not overwrite
  and such a REMOVE is not refused. No file that is generated from differences has them.
- The regular expressions that classify a statement; a statement here carries what they recognise, and an
  unrecognised one an identity of its own. Names that the tools compare without regard to case are one name here,
  and a field that no expression recognises belongs to no table.
- The data effect of UPDATE statements; they leave the schema alone.
- The file system, checksums, file names, git and JSON.
- Executor.CreateRollbackPlan: does not model the safety ratings and issues of a plan, which only the command
  line reads; nor are those of a squash modelled, except the one that refuses it.
- A commit or a history write that fails at the caller but took effect in the database.
- Histories with entries that cannot be decoded, which the code skips.
- Rollout.RunParallel: takes each deployment as one step; what interleaving changes is in `Interleaving`, where each
  migration is one step, its history write included.
- Coordinator.FailedDeploymentIsUndone: does not speak of an environment that shares its name or its database with
  another; `Coordinator.SuccessIsUndoneIfLast` and `Coordinator.UndoesExactlyTheReached` say what is undone there.
- Rollout.CanaryCount: the percentage is a real number, without floating-point rounding.
- Lru.HitsStayHits: the hit and miss counters are not part of the model.
- Watcher.Dispatcher.Flush: does not model the report channel or a checker that fails; neither changes which
  events are covered.
- Concurrent calls of the cache manager; its calls are one after another.
- The glob language of patterns, which is a predicate on keys, and `container/list`, whose ring is modelled as
  the cache uses it.
- Sorting inside the library: `StableSort` is insertion from the left.
