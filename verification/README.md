# Verified model of the agent-skills lifecycle

The repository resolves a set of packages, freezes the result into lock files, and swaps the resulting
installation into a target directory, so that a failure at any step can be undone. This project models
that core in Dafny and proves what it is for.

**Transactions.** `FileSystem` is the installation target: a map from paths to files and directories
inside a class whose primitives (rename, unlink, mkdir, copy, write, chmod) may fail at any call unless
the disk is declared `reliable`; a failing copy or removal may stop half way. `External`, `Installations`,
`Transactions`, `RollbackPoints`, `Recovery`, `Install`, `Rollback`, `Activation`, `UninstallState` and
`Uninstall` are the operations of `installation.py`, `activation.py` and `uninstall_local.py` on that disk.
`ByPath` says what they leave on disk path by path, apart from the functions that build the trees.
They keep the source's own bookkeeping (`movedExisting`, `movedNew`, `started`, …) and its recovery loops.
Each is proved in both directions: under arbitrary faults it loses nothing, and on a reliable disk, when
the checks it makes do not object, it reaches its goal. Uninstallation also runs beside outside processes
that create files at any moment; on an `exclusive` disk it has an exact result.
`Lifecycle` is the lock directory and the approved identities, as a state machine over the interleaved
steps of many processes that may crash.

**Resolution.** `Graphs` has walks, cycles, reachability and the state that every run of Kahn's
algorithm keeps; `GraphChecks` the LIFO and FIFO runs and the fixed-point loop of the validators;
`Packages`, `ClosureSearch` (in `Closure.dfy`), `PriorityOrder` and `Resolver` the resolver itself;
`PlanChecks` the checks of an install plan and the manifest rescan; `Agreement` shows that all of these
agree.

**Instruction rules.** `TextLines` models `str.splitlines` and `str.strip`; `Rules` and `RuleReading`
the parser and the merging with locks, deny-wins and replacement; `Instructions` and `Rereading` the composed
text and what it reads back as; `ComposedLines` what it says, from the lines of the fragments.

**Canonical JSON and migrations.** `Digits`, `Integers`, `Floats`, `FloatLayout`, `JsonText`,
`JsonValues`, `JsonPrinter` and `JsonLimits` are the Rust contracts crate; `JsonReader` is a reader of
RFC 8259, written apart from the printer, that reads its text back; `ValueGraphs` is the Python
limit check on live values, which may contain themselves. `MigrationPaths` and `Migrations` are the
migration registry. `Order` and `Wrappers` hold what the others share (total orders, the sort, `Option`).

Four outcomes deserve attention:

- *Rollback and operating-system litter.* Two rollbacks give every managed Skill and every package back
  without its `.DS_Store` files, which rollback points never record; `Rollback.SkillsComeBack` and
  `Rollback.PackagesComeBack` say that a Skill or package comes back whole exactly when it held none.
- *Fragment headers.* The manifest check accepts any non-empty fragment id, so an id with line breaks can
  bring rules of its own into the composed file (`Instructions.SomeIdHides`). Two promises are told apart.
  Reading the file gives the effective rules, each declared once and nothing else, exactly when no header
  contains a marker line (`Instructions.ComposedReadsBack`). It gives the same list of effective rules exactly
  when what precedes them in the file is readable and anticipates them: its rules first appear in the order of
  the list, from its beginning, and agree with the winners (`Rereading.RulesComeBackExactly`). A header
  may therefore repeat a rule (`Rereading.RepeatedRule`), but an id that hides a marker where no rule follows
  breaks both promises (`Instructions.HeaderCanBeMarker`, `Rereading.HiddenMarkerIsFatal`). Ids, scopes and
  digests on one line are always safe (`Instructions.OneLineHeader`).
- *Deactivation.* A lock that records `config.toml` passes its validation, but deactivation removes the file
  before it reads it again, so it can never succeed (`Activation.ApplySourceDeactivation`).
- *Migration reports.* The report of a migration passes the report check exactly when no version on its
  path and no change description is the empty string; the registry itself accepts such strings.

## Model

| member | source | states |
|---|---|---|
| External.SnapshotExternalState | src/agent_workflow/installation.py:1302-1356 | A snapshot is refused exactly when something in its scope is of an unsafe kind; otherwise it describes every declared file and every directory on the way to one, as they are. |
| External.PosixJoins | src/agent_workflow/installation.py:1302-1330 | Directories are recorded in the order of their POSIX text, the names joined by slashes. |
| External.ValidateExternalTargetState | src/agent_workflow/installation.py:1494-1518 | Accepts exactly the targets that match the record entry by entry. |
| External.RestoreDirectories | src/agent_workflow/installation.py:1437-1445 | Changes only directories of the scope, leaves the declared files alone, and succeeds whenever the disk is reliable and the changes were confined to the scope. |
| External.RestoreFiles | src/agent_workflow/installation.py:1446-1475 | Brings every declared file back or removes it, keeps all directories, and cannot fail on a reliable disk after confined changes. |
| External.SettleDirectories | src/agent_workflow/installation.py:1476-1491 | Afterwards every recorded directory has its mode and every directory that was absent is gone; the files stay. |
| External.NewDirectoryIsEmpty | src/agent_workflow/installation.py:1476-1491 | Children first: when the loop reaches a directory it must remove, everything below it has gone, so `rmdir` cannot fail for that reason. |
| External.RestoreExternalState | src/agent_workflow/installation.py:1434-1491 | Success means the target matches the record; whatever happens only the scope changes; it succeeds on a reliable disk after any confined change. |
| External.MatchingTreesAgree | src/agent_workflow/installation.py:1302-1518 | Two targets that match one record agree on the whole scope: the record determines the scope completely. |
| External.RestoreUndoes | src/agent_workflow/installation.py:1302-1518 | After any change inside the scope, a restored target that matches the snapshot is the target the snapshot was taken of. |
| External.SnapshotChangeRestore | src/agent_workflow/installation.py:1302-1518 | Snapshot, arbitrary changes in the scope, restore, validate: the target is exactly as before and is accepted. |
| Installations.CleanIsWhole | src/agent_workflow/installation.py:319-358 | A recorded tree is complete exactly when it holds none of the operating-system files that snapshots skip. |
| Installations.ReadRoots | src/agent_workflow/installation.py:1521-1655 | What is read from the managed roots of an installation is that installation: layout and reading are inverse. |
| Installations.ReadPoint | src/agent_workflow/installation.py:1521-1655 | What is read from a rollback point is the installation that was recorded, together with its external record. |
| Transactions.SwapRoots | src/agent_workflow/installation.py:1999-2005 | Wherever the swap stops, each root is untouched, away in the backup, or replaced by the staged one, and the two lists say which; on a reliable disk with every new root staged it does not stop. |
| Transactions.SwapIsRecoverable | src/agent_workflow/installation.py:1999-2034 | Every state the swap can stop in is one the recovery loops can undo. |
| Transactions.RemoveNew | src/agent_workflow/installation.py:2020-2029 | Only the listed roots are removed; every root whose removal did not fail itself is gone, whatever else failed. |
| Transactions.RestoreExisting | src/agent_workflow/installation.py:2030-2034 | Each listed root is at its place or still in the backup after every iteration; every root whose own return did not fail is back, whatever else failed. |
| Transactions.UndoSwap | src/agent_workflow/installation.py:2013-2041 | Without recovery errors every managed root is back; with errors every old root is at the target or in the backup, and no more roots are missing than operations failed; nothing else changes. |
| Transactions.EachHasFailed | src/agent_workflow/installation.py:2020-2034 | A root that is not as it was has a failed operation of its own, so an error with one root keeps no other root away. |
| Recovery.Recover | src/agent_workflow/installation.py:2013-2041 | Failing to restore external files does not stop the roots from coming back: on a reliable disk they all do, at every exit. |
| RollbackPoints.WriteRollbackPoint | src/agent_workflow/installation.py:1656-1716 | Writes only below its directory; on success the directory is exactly the point of the current installation, and the external record describes the target; it cannot fail on a reliable disk when the installation is readable and the external kinds are safe. |
| ByPath.PointByPath | src/agent_workflow/installation.py:1656-1716 | A directory is the rollback point of an installation exactly when it holds, path by path, the instructions, the three lock files, each locked Skill and package without `.DS_Store` files, the external record, and nothing else. |
| ByPath.RootsByPath | src/agent_workflow/installation.py:1521-1655 | The managed roots of an installation, told path by path, with modes and with nothing else in them. |
| ByPath.ReadableIsComplete | src/agent_workflow/installation.py:1521-1655 | An installation can be read exactly when its files and directories are there with the managed modes, and every Skill and package its lock names, `.system` apart. |
| Install.BuildStage | src/agent_workflow/installation.py:1930-1997 | Touches nothing outside the stage; on success the stage holds, path by path, the files of the bundle, the other Skills of the target, its own activation lock if it has one and none otherwise, and on request a rollback point; it fails only for a fault, a check that objects, or a rollback point that cannot be recorded. |
| Install.InstalledByPath | src/agent_workflow/installation.py:1930-1997 | The staged roots of a bundle are exactly these files: instructions, locks, each Skill and package of the bundle, each other Skill directory of the target, the target's `activation-lock.json` with its old content, the rollback point, and nothing else. |
| Install.Commit | src/agent_workflow/installation.py:1999-2011 | From a complete stage every fault point leaves a recoverable state; success leaves the staged roots in place, or what the handler made of exactly these; on a reliable disk only the handler or the final check can fail it. |
| Install.InstallBundle | src/agent_workflow/installation.py:1917-2046 | Refused exactly when not approved or when a rollback point would be lost, and then nothing changed. Installed: exactly the files of the bundle, the other Skills, the old activation lock and the rollback point, each at its path with its content and mode; or with a handler its effect on a tree with exactly these and nothing else changed. Failed: every managed root is as before. Incomplete: every old root is at the target or in the backup that was kept, and on a reliable disk all are at the target. External files as promised for each ending. A reliable disk and checks that do not object lead to Installed. |
| Rollback.RollbackInstall | src/agent_workflow/installation.py:1772-1869 | Declined exactly without approval, a complete installation or a complete point, each told path by path. Rolled back: every file of the point lies in the target, the point records what lay there, `.system` is where it was, and the recorded external files are current. Unchanged: roots and external files as before. Interrupted: every old root survives, and on a reliable disk is back. A reliable disk and changes confined to the recorded scope lead to rolled back. |
| Rollback.SwappedByPath | src/agent_workflow/installation.py:1772-1869 | After a rollback each path of instructions, Skills, packages and locks holds what the point held there, the new point records path by path what was replaced, and `.system` is unchanged. |
| Rollback.RollbackNeeds | src/agent_workflow/installation.py:1772-1800 | A rollback point is usable exactly when it can be read and records exactly what it holds. |
| Rollback.AfterOneRollback | src/agent_workflow/installation.py:1773-1869 | After one rollback target and point have traded places, `.system` apart. |
| Rollback.SecondRollbackIsReady | src/agent_workflow/installation.py:1772-1869 | After a rollback and the making of new working directories all that the way back needs is there: a complete point whose record is that of the tree before, and changes confined to its scope. |
| Rollback.TwoRollbacksAreTheIdentity | src/agent_workflow/installation.py:1773-1869 | Two rollbacks, each with working directories of its own, give back instructions, lock files, activation lock, the directory `.system` entry by entry, the recorded trees of Skills and packages, and every path outside roots and working directories; in between, the point holds what was replaced. |
| Rollback.SkillsComeBack | src/agent_workflow/installation.py:319-358 | After two rollbacks a managed Skill is what it was without operating-system files, and whole exactly when it had none. |
| Rollback.PackagesComeBack | src/agent_workflow/installation.py:319-358 | The same for every package. |
| Activation.AtomicWrite | src/agent_workflow/activation.py:113-125 | Whatever happens, only the declared file and missing directories on the way to it change; success leaves the file with content and mode; it cannot fail on a reliable disk with nothing of the wrong kind in its scope. |
| Activation.CreateProfiles | src/agent_workflow/activation.py:239-246 | A profile that was missing is written with its bytes and mode, by its first listing; one that was there is not touched; nothing else is. |
| Activation.ApplySourceActivation | src/agent_workflow/activation.py:180-273 | Any prefix changes only declared files, their directories and the activation lock, and leaves unconcerned declared files alone; success leaves all assets, configuration and lock in place and retired files gone, each missing profile holds its bytes and mode and each other one is unchanged, and the configuration keeps its mode; missing bytes, a changed recorded file or an unrecorded file in the way stop it before any change; with nothing to object to, a reliable disk leads to success. |
| Activation.ApplySourceDeactivation | src/agent_workflow/activation.py:320-350 | One recorded file that differs, or a configuration that cannot be rewritten, stops it before any change; success removes all recorded files and the lock and rewrites the configuration, which keeps its mode; any prefix stays in the declared scope; a lock that records the configuration never succeeds, and any other with matching files does on a reliable disk. |
| Activation.ActivateThenRecover | src/agent_workflow/activation.py:113-273 | Snapshot, any prefix of an activation, restore: every path outside the managed roots is exactly as before. |
| Activation.DeactivateThenRecover | src/agent_workflow/activation.py:113-350 | Snapshot, any prefix of a deactivation, restore: every path outside the managed roots is exactly as before. |
| UninstallState.RenameTracks | scripts/uninstall_local.py:561-710 | A rename that turns the locations of one progress into those of the next keeps every original entry intact where the progress says it is. |
| UninstallState.RenameIsTight | scripts/uninstall_local.py:561-710 | On an undisturbed target such a rename adds nothing that is not an original entry. |
| UninstallState.HousedMeans | scripts/uninstall_local.py:727-842 | Every entry found at home or in the backup says which original entry it is and whether it went away. |
| Uninstall.TakeAway | scripts/uninstall_local.py:561-726 | Everything up to final verification: success means verified removal with all survivors in place; undisturbed on a reliable disk only a check can fail it. |
| Uninstall.MoveRoots | scripts/uninstall_local.py:563-570 | Keeps track of which roots are away, against outside creation of paths at any moment; undisturbed on a reliable disk it moves them all. |
| Uninstall.MoveActivated | scripts/uninstall_local.py:600-631 | The same for activated files; success means all of them are away. |
| Uninstall.RewriteConfig | scripts/uninstall_local.py:635-674 | The original configuration is at its place or in the backup at every exit; it is written only after it is away. |
| Uninstall.LinkConfig | scripts/uninstall_local.py:649-674 | The rewritten configuration is never written over anything: a path that is taken stays as it is. |
| Uninstall.RestoreSystem | scripts/uninstall_local.py:676-710 | `.system` is at home or in the backup at every exit; success brings it home. |
| Uninstall.VerifyUninstalledState | scripts/uninstall_local.py:498-525 | Accepts exactly the uninstalled targets. |
| Uninstall.RecoverConfig | scripts/uninstall_local.py:749-788 | A configuration that someone else wrote in between stays as it is and is reported; without errors the original is back; undisturbed on a reliable disk there are no errors. |
| Uninstall.ClearConfig | scripts/uninstall_local.py:752-768 | Only the configuration this uninstallation wrote is removed. |
| Uninstall.RecoverActivated | scripts/uninstall_local.py:789-825 | Each activated file ends at its place or in the backup; without errors all are back; on a reliable disk, as long as parents stay, a file that is not back has its path taken, whatever happened to the others. |
| Uninstall.RecoverItem | scripts/uninstall_local.py:803-840 | A path that has been taken again stays as it is, and the original stays in the backup. |
| Uninstall.RecoverRoots | scripts/uninstall_local.py:826-842 | Each root ends at its place or in the backup; without errors all are back; on a reliable disk a root that is not back has its path taken, whatever happened to the others. |
| Uninstall.Recover | scripts/uninstall_local.py:727-847 | Without errors everything original is at its path; in any case it is there or in the backup, which still exists; on a reliable disk no error stops the rest: each root, the configuration and each activated file is whole at its path or its path is taken. |
| Uninstall.ExecuteUninstall | scripts/uninstall_local.py:528-868 | On every exit, under faults and outside creation of paths: verified removal with all survivors in place, or everything original in place, or everything original in place or in the kept backup. An incomplete recovery on a reliable disk leaves each root, the configuration and each activated file whole at its path unless that path is taken. Undisturbed, a removal leaves exactly the survivors, the rewritten configuration and the directory of `.system`; on a reliable disk it ends in removal or with the very tree it began with, and in removal when the plan fits. |
| Graphs.OrderedIsAcyclic | src/agent_workflow/package_lock.py:581-596 | A graph with a topological order has no cycle. |
| Graphs.StuckIsCyclic | src/agent_workflow/package_lock.py:581-596 | When every remaining node waits for another remaining one, the graph has a cycle. |
| Graphs.KahnStep | src/agent_workflow/package_lock.py:588-594 | Finishing any ready node and relaxing its targets in any order keeps the state of Kahn's algorithm, duplicate edges included. |
| Graphs.KahnVerdict | src/agent_workflow/package_lock.py:581-596 | With nothing ready left, all nodes are finished exactly when the graph is acyclic, and then they finished in topological order. |
| Graphs.ClosedIsReached | src/agent_workflow/package_lock.py:597-606 | A closed set of reached nodes that holds the start is the set of reached nodes. |
| GraphChecks.LockGraphIsAcyclic | src/agent_workflow/package_lock.py:581-596 | The last-in-first-out run accepts exactly the acyclic graphs. |
| GraphChecks.PlanGraphIsAcyclic | src/agent_workflow/contracts.py:736-751 | The first-in-first-out run, with repeated edges, accepts exactly the acyclic graphs. |
| GraphChecks.SelectedClosure | src/agent_workflow/package_lock.py:597-606 | The fixed-point loop computes exactly what is reached from the start. |
| GraphChecks.ValidateLockGraph | src/agent_workflow/package_lock.py:579-606 | Accepts exactly the locks whose edges are sorted, unique, inside, acyclic, and whose packages are all in the selected closure. |
| Packages.ClosureIsLeast | src/agent_workflow/installation.py:740-778 | The closure holds the selection, is closed under required dependencies, and is inside every such set. |
| Packages.KeysAreOrdered | src/agent_workflow/installation.py:808-809 | The order key orders the packages of a catalogue totally and strictly. |
| Packages.KeyOrderIsByKind | src/agent_workflow/installation.py:780-809 | The key orders by kind in the listed preference (core, discipline, platform, stack, adapter, runtime-config, then anything else), core itself first, and within a kind by id. |
| Packages.EndsIdentify | src/agent_workflow/contracts.py:544-572 | In a validated catalogue two dependencies with the same ends are the same dependency. |
| ClosureSearch.Search.Visit | src/agent_workflow/installation.py:740-775 | On success the package and all it requires are finished, after their own needs; a fault is one the catalogue really has, a reported cycle included. |
| ClosureSearch.Search.Follow | src/agent_workflow/installation.py:751-773 | The loop over a package's sorted needs gathers exactly the closure and the dependencies met on the way. |
| ClosureSearch.Search.Record | src/agent_workflow/installation.py:751-773 | The three mutable tables stay functions of the sequence of dependencies met. |
| ClosureSearch.ReasonsOfMembers | src/agent_workflow/installation.py:731-765 | A package has a reason exactly when the request grants it or a recorded required dependency names it. |
| ClosureSearch.ChainCloses | src/agent_workflow/installation.py:741-743 | Meeting a package that is being visited closes a cycle of required dependencies reached from the selection. |
| PriorityOrder.GreedyIsLeast | src/agent_workflow/installation.py:811-822 | Always taking the least ready node gives the lexicographically least topological order. |
| PriorityOrder.LeastIsGreedy | src/agent_workflow/installation.py:811-822 | Conversely, in the least order nothing that waits for no provider is smaller than what is placed before it. |
| PriorityOrder.Release | src/agent_workflow/installation.py:816-820 | Releasing the consumers of a finished package keeps the counters right and the queue sorted. |
| PriorityOrder.Arrange | src/agent_workflow/installation.py:799-822 | The order is complete exactly without a cycle, and then it is the lexicographically least topological order by order key. |
| Resolver.CheckRequest | src/agent_workflow/installation.py:708-728 | A refused request really has the reported fault; an accepted one has none of them. |
| Resolver.Gather | src/agent_workflow/installation.py:730-778 | Visiting the selection in order finishes exactly its closure; any fault is real. |
| Resolver.TakeOptionals | src/agent_workflow/installation.py:780-797 | Adds exactly the optional dependencies whose package is in the closure, in order, after checking their versions. |
| Resolver.FinishedIsAcyclic | src/agent_workflow/installation.py:740-775 | Packages that could finish one after the other form no required cycle. |
| Resolver.CyclesAreReported | src/agent_workflow/installation.py:701-829 | A cycle fault exists exactly when the dependencies inside the closure have a cycle. |
| Resolver.NothingIsWrong | src/agent_workflow/installation.py:701-829 | When every stage succeeds, no fault of any kind is there. |
| Resolver.Resolve | src/agent_workflow/installation.py:701-829 | Succeeds exactly when the request has no fault; the result is the closure in its least topological order, with its dependencies and reasons. |
| Resolver.PlacedByPreference | src/agent_workflow/installation.py:799-822 | In a resolution a package whose selected needs are all placed before some earlier package is of a later kind than that one, or of no earlier kind and has the larger id. |
| PlanChecks.CheckSelection | src/agent_workflow/contracts.py:1190-1210 | Accepts exactly the selections that name selected packages of the right kind. |
| PlanChecks.CheckDependencies | src/agent_workflow/contracts.py:1212-1252 | Accepts exactly distinct edges whose ends are selected, whose providers come first and whose versions satisfy. |
| PlanChecks.CheckReasons | src/agent_workflow/contracts.py:1253-1265 | Accepts exactly when each reason is backed and each required dependency is a reason. |
| PlanChecks.ValidatePlan | src/agent_workflow/contracts.py:1145-1265 | Accepts exactly the valid plans: core first, kinds and selections, edges, reasons. |
| PlanChecks.RescanManifests | src/agent_workflow/installation.py:629-642 | The rescan yields the sorted, unique list of all declared dependencies inside the plan, or a required one that is really missing. |
| Agreement.CoreIsFirst | src/agent_workflow/installation.py:799-822 | Core is first in every least topological order, when it needs nothing and nothing needs it. |
| Agreement.PlanCheckAccepts | src/agent_workflow/contracts.py:1145-1265 | The plan made from any resolution passes the plan check. |
| Agreement.LockCheckAccepts | src/agent_workflow/package_lock.py:579-606 | The lock made from any resolution passes the lock check. |
| Agreement.ResolveAndRescan | src/agent_workflow/installation.py:858-932 | The comparison of resolver and rescan never fails, for any catalogue and selection; planning fails exactly when a fault is there. |
| Agreement.ResolutionsAreAccepted | src/agent_workflow/installation.py:701-829 | Whatever the resolver returns, the plan check and the lock check accept. |
| Integers.CompareIsIntegerOrder | crates/agent-contracts/src/lib.rs:51-68 | Comparing by sign, length and digits is the order of the integers, of any size. |
| Integers.CompareIsTotalOrder | crates/agent-contracts/src/lib.rs:51-74 | The comparison is reflexive, connected, antisymmetric and transitive. |
| Integers.ReadIntegerMeans | crates/agent-contracts/src/lib.rs:82-104 | Exactly the integer texts are read, to the integer they denote, in normal form. |
| Integers.ReadIntegerIsExact | crates/agent-contracts/src/lib.rs:82-104 | Two texts read alike exactly when they denote the same integer. |
| Integers.MinusZeroIsZero | crates/agent-contracts/src/lib.rs:82-104 | `-0` and `0` are the same integer. |
| Floats.DecomposeKeepsValue | crates/agent-contracts/src/lib.rs:319-341 | The digits and exponent taken from a float's text have its exact value and sign. |
| Floats.NormalFormIsUnique | crates/agent-contracts/src/lib.rs:332-341 | Sign and value determine the digits and exponent. |
| FloatLayout.LayoutReadsBack | crates/agent-contracts/src/lib.rs:343-377 | Reading the laid-out text gives back the digits and exponent. |
| FloatLayout.PythonFloatKeepsValue | crates/agent-contracts/src/lib.rs:319-377 | The exact decimal value and the sign survive reformatting. |
| FloatLayout.PythonFloatIsIdempotent | crates/agent-contracts/src/lib.rs:319-377 | Reformatting a reformatted float changes nothing. |
| FloatLayout.PythonFloatIsExact | crates/agent-contracts/src/lib.rs:319-377 | Two floats are written alike exactly when sign and value agree. |
| FloatLayout.ExponentFormIsForExtremes | crates/agent-contracts/src/lib.rs:319-377 | Exponent form is used exactly for non-zero values outside 10^-4 <= x < 10^16; every text has a point or an exponent. |
| JsonReader.FloatReads | crates/agent-contracts/src/lib.rs:319-377 | A float is written in exponent form exactly outside 10^-4 <= x < 10^16, in either form with no digit that could be left out and a signed exponent of at least two digits, and a reader of section 6 of RFC 8259 finds its sign and exact value. |
| JsonReader.NumberReads | crates/agent-contracts/src/lib.rs:298-317 | Every printed number is read back by that reader: integers as their integer, floats as sign and value. |
| JsonText.EscapeIsReadable | crates/agent-contracts/src/lib.rs:261-296 | No escape sequence begins another one (section 7 of RFC 8259). |
| JsonReader.TextReadsBack | crates/agent-contracts/src/lib.rs:266-290 | A reader of section 7 of RFC 8259, with its eight two-character escapes, `\u` and surrogate pairs, reads every text back from its escaped form, character by character. |
| JsonReader.EscapesAreShortest | crates/agent-contracts/src/lib.rs:266-290 | Only quotation mark, backslash and controls are escaped, those with a short escape by it, all others by six characters with lower-case digits. |
| JsonText.QuotedIsReadable | crates/agent-contracts/src/lib.rs:261-296 | A quoted string can be read in one way only, whatever follows it. |
| JsonText.Readable | crates/agent-contracts/src/lib.rs:261-296 | A printed value followed by a delimiter can be read in one way only. |
| JsonValues.NumbersPrintExactly | crates/agent-contracts/src/lib.rs:298-317 | Two numbers print alike exactly when they mean the same; integers never collide with floats. |
| JsonValues.CanonIsMeaning | crates/agent-contracts/src/lib.rs:261-317 | Sorting keys and normalising numbers identifies exactly the values that mean the same. |
| JsonPrinter.TextIsMeaning | crates/agent-contracts/src/lib.rs:151-317 | Canonical JSON is unambiguous: two values have the same text exactly when they mean the same. |
| JsonPrinter.TextIsPrefixFree | crates/agent-contracts/src/lib.rs:151-317 | No canonical text begins another one. |
| JsonReader.CanonicalTextReadsBack | crates/agent-contracts/src/lib.rs:151-317 | A reader of the JSON grammar, written apart from the printer, reads the canonical text of any value back to what the value means; in every object the keys ascend. |
| JsonPrinter.SortThenCanon | crates/agent-contracts/src/lib.rs:280-293 | Sorting the entries by key before printing gives the sorted members. |
| Order.DictionaryOrder | crates/agent-contracts/src/lib.rs:281-283 | Keys and ids are compared as in a dictionary: a proper prefix first, and otherwise the first difference decides. |
| JsonPrinter.WriteCanonicalValue | crates/agent-contracts/src/lib.rs:261-296 | Succeeds exactly on finite values and appends exactly the canonical text, which a reader of JSON takes for the value. |
| JsonLimits.ErrorsAreDeserved | crates/agent-contracts/src/lib.rs:219-259 | A value is beyond the limits exactly when some limit error is there. |
| JsonLimits.LimitsInWords | crates/agent-contracts/src/lib.rs:159-259 | Within the limits are exactly the values that nest at most 512 containers and whose integers have at most 4300 digits. |
| JsonLimits.DigitsAreCounted | crates/agent-contracts/src/lib.rs:159-259 | What both checks count are the digits of the text, wherever they stand. |
| JsonLimits.IntegersAreBounded | crates/agent-contracts/src/lib.rs:159-259 | The text of an integer is refused exactly when the integer's size is at least 10^4300, and the error names its number of digits. |
| JsonLimits.ValidateValueLimits | crates/agent-contracts/src/lib.rs:219-259 | The explicit stack accepts exactly the values within the limits and reports an error that is there. |
| JsonLimits.ValidateLexicalLimits | crates/agent-contracts/src/lib.rs:159-217 | The mutable scanning loop computes the scan by recursion over the text. |
| JsonLimits.ScanQuoted | crates/agent-contracts/src/lib.rs:159-217 | The contents of a string never disturb the scan. |
| JsonLimits.ScanNumber | crates/agent-contracts/src/lib.rs:159-217 | A number is one token and its digits are counted once and whole. |
| JsonLimits.ScanSpace | crates/agent-contracts/src/lib.rs:159-217 | White space and commas between tokens are passed over, and they and closing brackets end a number. |
| JsonLimits.ScanTree | crates/agent-contracts/src/lib.rs:159-217 | Scanning a printed value finds its first error, or is back at the same depth behind it. |
| JsonLimits.NumbersJudgedAlike | crates/agent-contracts/src/lib.rs:298-317 | A number and its canonical text are judged alike. |
| JsonLimits.LimitsAgree | crates/agent-contracts/src/lib.rs:159-296 | The canonical form has an error exactly when the value is beyond the limits. |
| JsonLimits.ScannerAgrees | crates/agent-contracts/src/lib.rs:159-296 | The scanner's verdict on the canonical text is the verdict on the value. |
| JsonLimits.CanonicalJson | crates/agent-contracts/src/lib.rs:151-157 | Returns the canonical text exactly for finite values within the limits; a reader of JSON makes the value's meaning of it and leaves the final newline; the check of the bytes never fails after the check of the value. |
| ValueGraphs.CycleExceeds | src/agent_workflow/canonical_json.py:60-97 | A value that contains itself is within no limit. |
| ValueGraphs.ValidateValueGraph | src/agent_workflow/canonical_json.py:60-97 | With exit markers and the set of open containers, accepts exactly the values that unfold within the limits; shared parts are fine; what is reported is found below the value given: a container that contains itself, one beyond the depth limit, or an integer that is too long. |
| TextLines.SplitAtNewline | src/agent_workflow/installation.py:149-151 | Text up to a newline splits into lines independently of what follows. |
| TextLines.StripWithin | src/agent_workflow/installation.py:192-197 | Stripping a text adds no line: each line of the result is a line of the text or a stripped first or last one. |
| TextLines.CharactersByCode | src/agent_workflow/installation.py:146-197 | The characters at which lines end and those that count as white space, by code point. |
| ComposedLines.SplitCutsAtBreaks | src/agent_workflow/installation.py:146-146 | Splitting cuts a text at its line breaks, a carriage return with its newline counting as one, and loses nothing else. |
| ComposedLines.StripTakesSpace | src/agent_workflow/installation.py:197-197 | Stripping takes away all white space at both ends and nothing else. |
| Rules.TokensSpell | src/agent_workflow/installation.py:149-163 | Every source line is passed through in order or used up by one marker and bullet pair, and there is one way to read the lines. |
| ComposedLines.MarkerByShape | src/agent_workflow/installation.py:130-132 | A line is read as a marker with an id and an effect exactly when, stripped, it has the shape of the rule pattern with them. |
| ComposedLines.WholeIsBulleted | src/agent_workflow/installation.py:152-157 | Reading reaches the end exactly when the line below every marker starts with a hyphen after white space. |
| ComposedLines.RulesAreDeclared | src/agent_workflow/installation.py:158-171 | The declarations of a fragment are those of its markers, in order: content from the line below, lock, package and scope from the fragment. |
| ComposedLines.TextIsPassed | src/agent_workflow/installation.py:149-157 | Its text is the lines that are no marker and have none above them, in order. |
| Rules.RightAgain | src/agent_workflow/installation.py:162-196 | One more declaration fails exactly when it differs from a locked winner, and otherwise the winner keeps its closed form. |
| Rules.AcceptKeepsResolved | src/agent_workflow/installation.py:162-196 | The same for the whole table, positions included. |
| Rules.MergingIsRight | src/agent_workflow/installation.py:136-199 | Merging fails exactly when a declaration differs from a locked winner; otherwise each winner is the first deny if there is one, else the last declaration, at the position of its first appearance. |
| Rules.TraceIsRight | src/agent_workflow/installation.py:173-196 | Each trace entry names the declaration in force after its own declaration, and its decision follows from comparing that declaration with the one in force before: alike, a denial on either side, or replaced. |
| Rules.StandsAgain | src/agent_workflow/installation.py:175-191 | Which declaration is in force, package and scope included: the first locked one of its identity; else the first denial; else the first of the last ones that are alike. |
| Rules.LockedStays | src/agent_workflow/installation.py:177-180 | Once locked, a rule keeps its identity however many declarations follow. |
| Rules.FirstIdsInOrder | src/agent_workflow/installation.py:190-198 | A rule listed earlier appeared earlier. |
| RuleReading.ReadFragment | src/agent_workflow/installation.py:149-196 | The line loop over one fragment runs exactly its tokens. |
| RuleReading.ReadingIsMerging | src/agent_workflow/installation.py:136-199 | Reading succeeds exactly when every marker has its bullet and no declaration clashes, and then its state is that of the merging. |
| RuleReading.SortedRecords | src/agent_workflow/installation.py:198-199 | Sorting the winners by order lists them by first appearance. |
| RuleReading.ResolveInstructionRules | src/agent_workflow/installation.py:136-199 | The trace, effective rules and remaining text of all fragments, or the first fault. |
| Instructions.MarkerReadsBack | src/agent_workflow/installation.py:130-132 | A printed marker is one line and is read as the marker it prints. |
| Instructions.EachMarkerCounts | src/agent_workflow/installation.py:149-163 | When reading succeeds, each marker line is one declaration. |
| Instructions.ComposeInstructions | src/agent_workflow/installation.py:517-556 | Refuses duplicate fragment ids and unreadable fragments; otherwise every fragment was readable and the content is the composed file, whose text `ComposedLines.FileSays` gives. |
| ComposedLines.FileSays | src/agent_workflow/installation.py:529-548 | The composed file, from the lines of the fragments: the title, then for each fragment in order its header over the lines it passes on, without the blank lines and white space around them, and nothing for a fragment without such lines; then every effective rule in order, as marker and bullet. |
| ComposedLines.SectionLines | src/agent_workflow/installation.py:532-539 | The lines of a section are those of its header, the lines passed on, and a blank one. |
| ComposedLines.FileLines | src/agent_workflow/installation.py:529-548 | The lines of the file are the title, the sections' lines in order, and the rules. |
| Instructions.ComposedReadsBack | src/agent_workflow/installation.py:136-199 | Reading the composed text as one fragment declares the effective rules, each once and nothing else, and merges them in the same order, exactly when no fragment header brings in a marker line. |
| Instructions.OneLineHeader | src/agent_workflow/installation.py:532-539 | Headers of one-line ids, scopes and digests are safe. |
| Instructions.HidingIsUnsafe | src/agent_workflow/installation.py:532-539 | An id that hides a marker line makes its header unsafe. |
| Instructions.SomeIdHides | src/agent_workflow/contracts.py:476-484 | There is an id, allowed by the manifest check, that hides a marker line. |
| Instructions.HeaderCanBeMarker | src/agent_workflow/contracts.py:476-484 | With such an id even a fragment without rules is composed into text that does not read back. |
| Rereading.LastOnesWin | src/agent_workflow/installation.py:162-198 | Declarations that come last win, in their order, exactly when the earlier ones anticipate them: a beginning of the same list that agrees with it, by the rules of locks, denials and replacement. |
| Rereading.LockedMerges | src/agent_workflow/installation.py:177-180 | Where every declaration is locked, merging succeeds exactly when no rule is declared in two ways. |
| Rereading.TokensApart | src/agent_workflow/installation.py:149-163 | Lines that do not begin with a bullet are read apart from what precedes them. |
| Rereading.RulesComeBackExactly | src/agent_workflow/installation.py:136-199 | Resolving the composed text as one fragment returns the same effective (id, effect, content) list in the same order exactly when the part before the effective rules is readable and anticipates them. |
| Rereading.HiddenMarkerIsFatal | src/agent_workflow/contracts.py:476-484 | An id that hides a marker, in a fragment without rules, makes the list that comes back another one. |
| Rereading.RepeatedRule | src/agent_workflow/installation.py:162-198 | A rule declared twice in the same way wins as itself. |
| MigrationPaths.BuildRegistry | src/agent_workflow/migrations.py:31-42 | A registry exists exactly for edges without duplicates, self-loops or unsorted changes; each refusal names a defect that is there. |
| MigrationPaths.BeforeAtFirstDifference | src/agent_workflow/migrations.py:44-66 | A path comes before another if it is shorter or smaller at the first difference. |
| MigrationPaths.AlongPath | src/agent_workflow/migrations.py:55-63 | Every path to anywhere leads through something the search already knows at least as well, or through its next candidate. |
| MigrationPaths.FollowEdges | src/agent_workflow/migrations.py:55-63 | The inner loop keeps all found paths the least ones, and an arrival is the least path. |
| MigrationPaths.FindPath | src/agent_workflow/migrations.py:44-66 | Terminates; finds the lexicographically least among the shortest paths, and none only when there is none. |
| Migrations.ValidateReport | src/agent_workflow/contracts.py:2048-2095 | Accepts exactly the valid reports: linked steps, losslessness, digests. |
| Migrations.ReportIsValid | src/agent_workflow/migrations.py:85-117 | The report of a path is valid exactly when its versions and changes are non-empty strings. |
| Migrations.RunTransforms | src/agent_workflow/migrations.py:85-104 | Stops exactly at the first step with a missing, unrepeatable, misversioned or invalid result; otherwise the last document has the last version and is validated, and the steps are those of the path. |
| Migrations.Migrate | src/agent_workflow/migrations.py:68-117 | Ends at the requested version along the least path, or names a fault that is there; the report's steps have the versions, losslessness and changes of that path's edges; the report is valid exactly when versions and changes are non-empty; no path is reported only for an empty identity or when there is none. |
| Lifecycle.StepKeeps | src/agent_workflow/installation.py:79-114 | Every step of any process, a crash included, keeps the invariant. |
| Lifecycle.RunKeeps | src/agent_workflow/installation.py:79-114 | The invariant holds at every point of every interleaving. |
| Lifecycle.MutualExclusion | src/agent_workflow/installation.py:79-107 | At most one process is inside an operation, crashed ones included. |
| Lifecycle.CrashBlocks | src/agent_workflow/installation.py:79-107 | After a crash inside, no state ever changes again: nothing is changed and nobody gets in. |
| Lifecycle.StaleBlocks | src/agent_workflow/installation.py:79-107 | A lock whose removal failed blocks in the same way, and is the only lock with nobody inside. |
| Lifecycle.ApprovedIsReplaced | src/agent_workflow/installation.py:1763-1786 | Every commit replaced exactly the installation that holds the approved identities, which is the one the previous commit left; nothing could be said against it: no rollback point is lost, none is written of nothing. |
| Lifecycle.OneIdentityIsRefused | src/agent_workflow/installation.py:1909-1916 | Approving only one of the two lock identities is always refused. |
| Lifecycle.Operate | src/agent_workflow/installation.py:79-114 | Lock, check, change and unlock are steps of the machine; busy exactly when locked, refused exactly for an identity that is not the installed one or named alone, a rollback point that would be lost, has nothing to record or is not the approved one, or nothing to act on; done exactly otherwise unless the change fails, changed only when done, and unlocked exactly when the lock can be removed. |

## Left out

- File descriptors, `dir_fd` flags, symbolic links, inode identity and generated names: paths are looked up by name, and the directories `mkdtemp` makes exist when an operation starts.
- SHA-256: digests are compared by the content they identify; where a digest itself matters (migration reports) it is a parameter.
- Copies of external files inside a rollback point are part of its external record, and the digests in `rollback-point.json` are not modelled.
- The configuration script run by `_config_candidate` and the TOML rewriting of `_deactivated_config`: their output is an arbitrary content or a failure.
- Version ranges (`satisfies`) and the shortest digits of a float are parameters; the source's parsing of JSON and TOML and the regex engine are not part of this model, except the rule pattern, whose shape `ComposedLines.MarkerByShape` gives.
- Characters of JSON text stand for UTF-8 bytes; key order is the order of those bytes.
- `_validate_text_limits` of the Python side is the algorithm of `validate_lexical_limits` and is not repeated.
- InstallBundle: without a rollback point the changes of a failing handler outside the managed roots are not undone, and if restoring external files fails their recorded contents go with the new `.agent-skills`, as in the source; the contract promises external files only where the source does.
- InstallBundle: faults inside recovery are those of `OSError` and `ContractError`; others drop the backup in the source.
- InstallBundle: `_preflight_install`, plan validation, `_verify_staged_install` and `_is_managed_install` look at digests and schemas; they are the parameters `checks`.
- RollbackInstall: user Skills other than `.system` are not carried over, as in the source; two rollbacks therefore give back managed Skills and `.system` only.
- ExecuteUninstall: a fault after `skills` was made and before `.system` is in it leaves an incomplete recovery, as in the source; the contract promises conservation there.
- ExecuteUninstall: the dry run, partial uninstallation and the construction of the plan.
- ComposeInstructions: fragments come in their final order; sorting them by package, order and id is not modelled.
- ComposedReadsBack: package, scope and lock of the rules read back are those of the composed file.
- ValidatePlan: the selection, topology and reason part; shapes of versions, capability lists, core compatibility and provider metadata are not modelled.
- ValidateLockGraph: the graph part; the field checks of the lock are not modelled.
- Resolve: loading manifests and capability lists; `resolve_platform_selection` is represented by the assumption that selected platforms are installable platforms.
- RunKeeps: processes outside the protocol that remove the lock directory by hand, and dry runs, which take no lock.
- Migrate: `migrate_activation_lock`, one fixed edge and its transform.
- Upgrade planning, recipes, ledgers, `doctor.py`, `diff_package_locks`, version comparison: shallow or not shown.
