# Verification model of the platform release engine

This project models the release engine of the platform host in Dafny and proves
the guarantees it rests on: what survives a crash between any two durable
writes, what every run of deploys, rollbacks, retention passes and reconciler
ticks keeps true, and exactly when the small codecs beside it lose nothing.

`dafny verify dfyconfig.toml` checks everything.

## How the model is built

Code that changes host state step by step is imperative here too: the vhost and
htpasswd directories, the proxy, one transaction, the deploy engine, the
artefacts of a scope, the dashboards directory, the systemd directory and the
backup directory are classes whose methods change fields in loops, in the order
of the source. Each method is proved against a relation or function over plain
values (`NginxState.Transacted`, `NginxReconcile.Reconciled`, `Ledger.Deploys`,
`Deployment.DeploysJointly`, `Dashboards.Synced`, `Retention.RetainedDigests`, ...), and
the whole-run theorems are about sequences of those relations.

Every durable write is one atomic step with three endings (`Outcomes.Outcome`):
`Done`; `Raised`, a Python exception raised before or after the rename took
effect; and `Crashed`, the death of the process, after which no handler runs,
the lock is free and the disk stays as it is. Docker, compose, `nginx -t`,
reloads, migrations, dumps and systemctl are oracles that pick one of these
endings freely. An exception the source does not catch leaves what a crash
leaves, and is covered by the same cases.

So that no method meets its contract by giving up, every class has a constant
`calm`: on a calm machine no oracle fails and docker-gen prints the hosts that
run. Each operation is also proved to *complete* there whenever its own gate is
open: an admitted plan is committed, a deploy that proceeds ends deployed, a
pass leaves nothing to report but what some container holds. A second constant,
`mends`, says only that what undoes or records a failure works. Under it a
failed installation puts the files back, a failed activation the ownership, a
failed reload the configuration, and a failed attempt ends with containers and
proxy either untouched or back at the previous release (`Deployment.Mended`).

| file | what it models |
|---|---|
| `NginxState.dfy`, `NginxTransaction.dfy` | the fragment transaction: prepare, stage, activate, roll back, close; retire as the empty plan |
| `NginxReconcile.dfy`, `NginxRuns.dfy` | the background reconciler, and all interleavings of transactions and ticks |
| `NginxConfig.dfy` | which fragments a manifest produces |
| `Ledger.dfy`, `LedgerRuns.dfy` | records, the searches over them, and all runs of deploys and rollbacks on one scope |
| `Deployment.dfy` | one attempt step by step: ledger, dump, migration, containers, nginx |
| `ReleaseRuns.dfy` | all runs of all scopes' attempts together with the proxy they share |
| `Retention.dfy`, `RetentionRuns.dfy` | one retention pass, and all scopes' attempts and passes interleaved, with reboots and recovery |
| `RollbackConsole.dfy` | the console's rollback list and migration warning against the host's gate |
| `Dashboards.dfy` | the dashboard tree sync |
| `Sequences.dfy`, `TextMode.dfy`, `EnvFile.dfy` | the environment-file writer and reader |
| `ExportTimers.dfy` | export timer names and their reconciliation |
| `BackupEnvelope.dfy`, `BackupPruning.dfy` | the dump envelope, dump pruning and the console's prediction |

## Assumptions

- Timestamps written for one scope strictly increase and generated ids are new
  (`Ledger.Fresh`).
- Locks serialise their holders, so runs are sequences of locked operations; an
  operation that finds a lock taken changes nothing.
- The JSON codec is invertible and digests are collision free. A readable
  ownership file is its record; every other file is `Unreadable`.
- A reload that fails leaves the configuration nginx has loaded alone, and
  Docker refuses to remove an image a running container holds.
- Whole-run theorems about the ledger are about scopes that are never retired.
  A crash is the death of a process; a reboot, which empties the runtime
  secrets, is a step of `RetentionRuns` only.
- In `ReleaseRuns` an attempt is one step, taken where its transaction holds the
  nginx lock: everything else it touches belongs to its own scope, whose lock it
  holds throughout.
- Loops over `sorted(...)` pick elements in an arbitrary order, which covers the
  sorted one.

## What the proofs showed about the code

- **The reconcile digest can lie.** A deploy, or a tick that dies after its
  reload, leaves a new `default.conf` beside the old `.reconciled-state`. A later
  tick whose render equals the one the old digest was taken over, and which dies
  between writing `default.conf` and the reload, makes the next tick answer
  "unchanged" while nginx runs something else. `NginxRuns.StaleDigestLies` is the
  run with a deploy, `NginxRuns.TicksAloneCanLie` the run with ticks only.
  `StaleDigest` is the exact condition
  (`NginxReconcile.DigestSurvivesIffNotStale`); where nginx runs what is on the
  disk, the disk alone decides it (`StaleIsOnDisk`). A digest write that raises
  can lie in one more way (`RaisedDigestWriteCanLie`).
- **A dashboard text with a carriage return would be rewritten on every call**,
  because files are read in text mode; without one a second call is silent
  (`Dashboards.SecondCallIsSilentIff`, `CarriageReturnIsRewritten`). This is a
  property of the function: today's caller builds every text with `json.dumps`,
  which escapes control characters.
- **Environment values with a backslash before `t`, `r` or `n` do not survive**,
  because the reader unescapes `\t` before `\\`; neither do values with a line
  boundary the writer does not escape. All others do (`EnvFile.RoundTripIff`, `BackslashTComesBackAsTab`).
- **A one-letter project is accepted by the export timer's name and refused by
  its split** (`ExportTimers.SplitInvertsExportIff`,
  `OneLetterProjectIsNotSplit`). Deployed projects have two
  characters at least, because the ledger refuses shorter ones
  (src/platform_automation/release_ledger.py:30).
- **Other scopes' images are protected at the default depth**, five, not at the
  depth those scopes configured (`Retention.OfferedIffUnprotected`).
- **The migration warning of the console counts from the oldest record of a
  tag**, so it can name migrations up to the record the host would pick, but it
  never misses one after it (`RollbackConsole.WarningMissesNoMigration`).
- **The transaction's flags presume one activation or one rollback per block.**
  Staging again after a rollback, or a rollback of an *activated* plan that
  fails half-way, leaves flags that no longer describe the disk. The ghost field
  `spoiled` marks those two cases; `Deployment`, `ActivateCurrent` and
  `ReleaseDomains` are proved never to reach them.
- A crash after the ledger committed `deployed` and before the marker is removed
  leaves a deployed record under a marker; every later transaction refuses until
  an operator acts (`NginxRuns.MarkerFreezesEverything`).

## Model

| member | source | states |
|---|---|---|
| `NginxTransaction.Directory.AtomicWrite` | src/platform_automation/nginx_transaction.py:178-198 | a write replaces exactly one file, or raises or crashes with the file old or new |
| `NginxTransaction.Directory.Install` | src/platform_automation/nginx_transaction.py:379-397 | whatever happens only affected names change; on success they hold exactly what is wanted |
| `NginxTransaction.Directory.Restore` | src/platform_automation/nginx_transaction.py:453-466 | whatever happens only snapshot names change; on success each is byte for byte its snapshot, absent ones absent |
| `NginxTransaction.Directory.Claim` | src/platform_automation/nginx_transaction.py:583-615 | accepts exactly the records whose files all exist and that no other scope claimed |
| `NginxTransaction.Directory.RefusesPlanned` | src/platform_automation/nginx_transaction.py:617-640 | refuses exactly when some planned file is another scope's or unmanaged |
| `NginxTransaction.Directory.TakeSnapshots` | src/platform_automation/nginx_transaction.py:641-655 | records every affected file as it is, absence included |
| `NginxTransaction.ProxyHost.CollectOwners` | src/platform_automation/nginx_transaction.py:573-615 | accepts exactly the sound and disjoint registries that hold no misnamed file, and then knows exactly who owns what |
| `NginxTransaction.ProxyHost.RefusalsAreInadmissible` | src/platform_automation/nginx_transaction.py:616-640 | the two collision checks together are exactly inadmissibility of the plan |
| `NginxTransaction.ProxyHost.Prepare` | src/platform_automation/nginx_transaction.py:536-658 | succeeds if and only if no marker and no misnamed registry file is on the disk, ownership is sound and no planned file is another scope's or nobody's; writes nothing |
| `NginxTransaction.ProxyHost.RegenerateConfig` | src/platform_automation/nginx_transaction.py:702-721 | on success the installed configuration names every expected host and no removed one |
| `NginxTransaction.ProxyHost.ReloadNginx` | src/platform_automation/nginx_transaction.py:758-759 | success loads what is on the disk, failure keeps what was loaded |
| `NginxTransaction.Transaction.Stage` | src/platform_automation/nginx_transaction.py:358-377 | the marker is on the disk before any live file changes |
| `NginxTransaction.Transaction.RestoreFiles` | src/platform_automation/nginx_transaction.py:453-472 | on success fragments and htpasswd files are those the block found; always confined to the plan's names |
| `NginxTransaction.Transaction.RestoreMetadata` | src/platform_automation/nginx_transaction.py:676-684 | on success the whole ownership registry is the one the block found |
| `NginxTransaction.Transaction.InstallFragments` | src/platform_automation/nginx_transaction.py:379-406 | on success a name is in either directory exactly when the plan has it or it was there and not the scope's, with its bytes |
| `NginxTransaction.Transaction.RecordOwnership` | src/platform_automation/nginx_transaction.py:660-674 | on success the registry is the committed one, other scopes' files as they were |
| `NginxTransaction.Transaction.ActivationSteps` | src/platform_automation/nginx_transaction.py:415-422 | on success nginx serves exactly the committed tree; when it raises nginx loaded nothing new |
| `NginxTransaction.Transaction.Activate` | src/platform_automation/nginx_transaction.py:408-432 | all or nothing: activated and served, or raised with nothing new loaded |
| `NginxTransaction.Transaction.Rollback` | src/platform_automation/nginx_transaction.py:434-451 | success means restored: tree as found, nginx reloaded on it; failure keeps the flags; it succeeds where undoing works |
| `NginxTransaction.Transaction.Close` | src/platform_automation/nginx_transaction.py:536-549 | the marker goes only for an activated block that did not fail or a restored one, and every ending is one `Transacted` allows |
| `NginxTransaction.Transaction.CrashInsideIsTransacted` | src/platform_automation/nginx_transaction.py:358-472 | a crash at any point inside the block leaves the disk untouched, or the marker with changes confined to the plan |
| `NginxTransaction.ActivateCurrent` | src/platform_automation/nginx_transaction.py:551-555 | success commits the plan, name by name; a refused plan changes nothing; everything else restores or leaves the marker; on a calm machine every admitted plan is committed |
| `NginxTransaction.ReleaseDomains` | src/platform_automation/retire.py:124-131 | on success the scope owns nothing, and exactly its former hosts are released and no longer configured |
| `NginxTransaction.RestoringUndoes` | src/platform_automation/nginx_transaction.py:453-472 | putting back the affected keys undoes any change confined to them |
| `NginxTransaction.CollisionIsForeign` | src/platform_automation/nginx_transaction.py:617-640 | against exact claims a collision is exactly a file the scope does not own and that exists |
| `NginxState.OthersAreUntouched` | src/platform_automation/nginx_transaction.py:641-658 | the names an admitted plan touches contain no file of another scope |
| `NginxState.CommitKeepsOwnership` | src/platform_automation/nginx_transaction.py:574-674 | committing an admitted plan keeps every owned file present and owned once |
| `NginxState.CommitNameByName` | src/platform_automation/nginx_transaction.py:379-406 | read name by name: after a commit a file is there exactly when it is the plan's or was there and not owned by the scope, all bytes told, and the registry differs in the scope's record only |
| `NginxState.AdmissibleIffNotRefused` | src/platform_automation/nginx_transaction.py:617-640 | on a sound registry a plan is refused exactly when another scope owns a planned file or one lies there that nobody owns |
| `NginxState.CommittedServesThePlan` | src/platform_automation/nginx_transaction.py:408-422 | after a commit the configuration names the host of every planned fragment, and no host of a former one that the plan does not mention |
| `NginxState.HostsHaveOneOwner` | src/platform_automation/nginx_config.py:89-162 | with plans from manifests no two scopes share a host |
| `NginxState.EmptyPlanReleasesEverything` | src/platform_automation/retire.py:124-131 | the empty plan is always admissible, frees every file of its scope and keeps every other scope's |
| `NginxState.ScopeFileInjective` | src/platform_automation/nginx_transaction.py:212-213 | two scopes never share an ownership file although projects may contain two hyphens |
| `NginxRuns.EveryReachableStateIsSafe` | src/platform_automation/nginx_transaction.py:284-658 | in every reachable state without a marker all owned files exist, none is owned twice, and nginx runs the fragments on the disk |
| `NginxRuns.EveryReachableStateSeparatesHosts` | src/platform_automation/nginx_config.py:77-162 | and, for plans from manifests, no host is owned by two scopes |
| `NginxRuns.MarkerFreezesEverything` | src/platform_automation/nginx_transaction.py:516-549 | once a marker is left no transaction and no tick changes anything |
| `NginxRuns.ServedIsLastCommitted` | src/platform_automation/nginx_transaction.py:408-472 | without a marker every scope is served byte for byte by its last committed plan |
| `NginxRuns.LatestPlanIsTheLast` | src/platform_automation/nginx_transaction.py:408-472 | the last committed plan of a scope is that of its last step that committed |
| `NginxRuns.NothingIsLeftBehind` | src/platform_automation/nginx_transaction.py:379-406 | without a marker, a file that no scope owns was there at the start of the run and owned by nobody then |
| `NginxRuns.TickLoadsOnlyCommitted` | src/platform_automation/nginx_reconcile.py:73-115 | a tick that reloads does so without a marker and loads every scope's last committed plan, never a staged candidate |
| `NginxRuns.FreshDigestsStayTrue` | src/platform_automation/nginx_reconcile.py:79-112 | on runs whose ticks meet no stale digest the digest never lies about nginx |
| `NginxRuns.DigestsComeFromPasses` | src/platform_automation/nginx_reconcile.py:98-112 | over every run the recorded digest is the one found at the start or that of the render and the certificates of an earlier pass |
| `NginxRuns.UnchangedWasRecorded` | src/platform_automation/nginx_reconcile.py:87-97 | over every run a pass answers "unchanged" only for a render and certificates that were recorded before |
| `NginxRuns.StaleDigestLies` | src/platform_automation/nginx_reconcile.py:87-112 | a concrete run in which "unchanged" is reported while nginx runs another configuration |
| `NginxRuns.TicksAloneCanLie` | src/platform_automation/nginx_reconcile.py:87-112 | a run of ticks alone with the same end |
| `NginxRuns.DiskTestKeepsDigestsTrue` | src/platform_automation/nginx_reconcile.py:87-112 | on runs whose ticks pass the disk-only test the digest never lies |
| `NginxReconcile.Reconcile` | src/platform_automation/nginx_reconcile.py:73-119 | one pass by cases: busy, marker, lost race, unchanged, reloaded, or interrupted at one of its writes; on a calm machine a pass that compares completes, and one that fails after its first write and can undo leaves the configuration it found on the disk, and in nginx if that had been reloaded |
| `NginxReconcile.ReconcileWithRetries` | src/platform_automation/nginx_reconcile.py:122-143 | every attempt is one pass from the state it found under its own lock, whatever others did in between; all but the last lost the certificate race and changed nothing, and the last one is the answer |
| `NginxReconcile.ReconcilerLeavesTreesAlone` | src/platform_automation/nginx_reconcile.py:73-119 | fragments, ownership and marker never change, and a marker stops the pass |
| `NginxReconcile.SecondPassIsIdle` | src/platform_automation/nginx_reconcile.py:87-112 | after a pass that returned True an identical one returns False and writes nothing |
| `NginxReconcile.DigestHoldsRenderAndCertificates` | src/platform_automation/nginx_reconcile.py:87-112 | "unchanged" exactly when configuration and digest are those of this render and these certificates; a reload records them |
| `NginxReconcile.OtherCertificatesAreReloaded` | src/platform_automation/nginx_reconcile.py:87-112 | after a reload, a pass with another fingerprint never answers "unchanged" |
| `NginxReconcile.RefusedPassesChangeNothing` | src/platform_automation/nginx_reconcile.py:73-86 | a busy lock ends a pass quietly; a marker, a failed render or a lost race with an error; none writes |
| `NginxReconcile.UnchangedMeansLoaded` | src/platform_automation/nginx_reconcile.py:88-97 | while the digest is true, False for "unchanged" means nginx runs this very render |
| `NginxReconcile.DigestSurvivesIffNotStale` | src/platform_automation/nginx_reconcile.py:87-112 | a crash at any write keeps the digest true if and only if it was not stale |
| `NginxReconcile.StaleIsOnDisk` | src/platform_automation/nginx_reconcile.py:87-97 | where nginx runs what is on the disk, a stale digest is exactly one a look at the disk shows |
| `NginxReconcile.RaisedDigestWriteCanLie` | src/platform_automation/nginx_reconcile.py:98-112 | the same, exactly, for a pass whose digest write raises |
| `NginxConfig.AddDomain` | src/platform_automation/nginx_config.py:154-162 | a domain adds its host's file and, with a raw location, the location file, each with its own lines, and touches no other |
| `NginxConfig.GenerateVhostFragments` | src/platform_automation/nginx_config.py:77-164 | refuses exactly the lists with a host twice, compression without types or a raw snippet without permission, and gives a reason that applies; otherwise the names are the hosts and the location files of raw domains, each with its own lines |
| `NginxConfig.VhostFileReads` | src/platform_automation/nginx_config.py:94-152 | a host file part by part: header, settings, compression, the metrics guard on own domains only, guarded paths, raw snippet |
| `NginxConfig.GzipText` | src/platform_automation/nginx_config.py:109-129 | the compression lines: none, on with the types, or off |
| `NginxConfig.LocationFileReads` | src/platform_automation/nginx_config.py:156-162 | a location file is the header, its comment and the raw snippet |
| `NginxConfig.NextDomain` | src/platform_automation/nginx_config.py:89-141 | one more domain is refused exactly when it is not renderable or its host was seen |
| `NginxConfig.NextNames` | src/platform_automation/nginx_config.py:154-162 | a domain shares no file name with a domain of another host |
| `NginxConfig.NamesAreClosed` | src/platform_automation/nginx_config.py:154-162 | no location file comes without its host's file |
| `Ledger.LatestDeployed` | src/platform_automation/release_ledger.py:635-650 | a deployed record no other deployed record comes after, or nothing when there is none |
| `Ledger.LatestIsMaximal` | src/platform_automation/release_ledger.py:635-650 | updated last; then created last; then the greatest id |
| `Ledger.FindByTagIsNewest` | src/platform_automation/platform_cli.py:1136-1144 | the last record of the tag, or nothing when no record has it |
| `Ledger.SelectRollbackIsNewest` | src/platform_automation/platform_cli.py:1147-1165 | the last successful record of the tag, or refusal when there is none |
| `Ledger.FindByIdFinds` | src/platform_automation/platform_cli.py:1168-1176 | finds a record with the id exactly when there is one |
| `LedgerRuns.RecoveryAfterAttempt` | src/platform_automation/reboot_recovery.py:133-172 | prepared and rolled back keep the recovery choice, deployed moves it unless an earlier attempt is stuck, failed and deploying make it refuse |
| `LedgerRuns.NothingToRecoverIff` | src/platform_automation/reboot_recovery.py:142-145 | nothing to do exactly when every record is still prepared, the empty ledger included |
| `LedgerRuns.RecoversIff` | src/platform_automation/reboot_recovery.py:133-172 | on any ledger of attempts that did not overlap, a release is named exactly when it was deployed healthy, nothing is stuck, and what came after it only was prepared or went back to it |
| `LedgerRuns.RecoveryIsExactInEveryRun` | src/platform_automation/reboot_recovery.py:133-172 | over every run each of the three answers has its exact condition, in terms of the records' statuses alone |
| `LedgerRuns.RecoveryNamesTheRunningRelease` | src/platform_automation/reboot_recovery.py:133-172 | over every run, a release recovery names is the one whose containers run, and when it names none nothing runs |
| `LedgerRuns.AttemptKeepsRecovery` | src/platform_automation/platform_cli.py:1423-1579 | one attempt, failed or killed anywhere, keeps that truth |
| `LedgerRuns.TagNamesOneThing` | src/platform_automation/platform_cli.py:1774-1788 | over every run all records of a tag carry one image reference and one bundle |
| `LedgerRuns.DeployProceedsIff` | src/platform_automation/platform_cli.py:1775-1804 | an attempt is made exactly when the tag is new, or its newest record has this reference and bundle, is not stuck and is not the last deployed one |
| `LedgerRuns.RollbackProceedsIff` | src/platform_automation/platform_cli.py:3046-3069 | an attempt is made exactly when nothing is stuck, a healthy release runs under another tag, and the tag was deployed healthy once |
| `LedgerRuns.GatesAreExactInEveryRun` | src/platform_automation/platform_cli.py:1775-1804 | both, on every reachable ledger |
| `LedgerRuns.AttemptKeepsTags` | src/platform_automation/platform_cli.py:1179-1187 | comparing with the newest record of the tag is enough |
| `LedgerRuns.EveryReachableLedger` | src/platform_automation/platform_cli.py:1724-1960 | every reachable ledger is serial, with proven successes, true previous ids, functional tags, real rollback targets and a true recovery choice |
| `LedgerRuns.LedgerOnlyGrows` | src/platform_automation/release_ledger.py:349-472 | no later attempt rewrites an earlier record |
| `LedgerRuns.AttemptKeepsTargets` | src/platform_automation/release_ledger.py:224-273 | every rollback record points to an earlier success with the same image and bundle and requires no migration |
| `LedgerRuns.ProvenanceEndsAtADeploy` | src/platform_automation/release_ledger.py:224-273 | following rollback ids goes strictly back through successes and ends at a deploy with the same image and bundle |
| `LedgerRuns.AttemptKeepsPrevious` | src/platform_automation/platform_cli.py:1868-1875 | every record's previous release is the one that was current when it was written |
| `Deployment.RecordsOnlyMoveForward` | src/platform_automation/platform_cli.py:1325-1358 | over any trail of steps a record keeps place and identity, and its status and time move only forward |
| `Deployment.VerdictsAreProven` | src/platform_automation/platform_cli.py:1444-1579 | deployed implies a passed healthcheck and a migration done or not required, and the release ran when it was written; rolled back implies that the previous release ran when it was written |
| `Deployment.Engine.WriteReleaseRecord` | src/platform_automation/release_ledger.py:349-403 | appends the record, or changes nothing; an existing id is refused |
| `Deployment.Engine.UpdateReleaseState` | src/platform_automation/platform_cli.py:1325-1358 | replaces exactly the one record by its update, or nothing |
| `Deployment.Engine.PreMigrationBackup` | src/platform_automation/platform_cli.py:1467-1490 | an owned database goes on only after a dump; a failed dump ends the attempt as failed unless that write itself raised |
| `Deployment.Engine.RunMigration` | src/platform_automation/platform_cli.py:1492-1513 | runs the migration at most once, after the dump; its failure is recorded as failed unless that write itself raised |
| `Deployment.Engine.PrepareStart` | src/platform_automation/platform_cli.py:1457-1519 | no container is touched, success means the migration is done or not required, and a handled failure of this attempt is recorded as failed |
| `Deployment.Engine.StartAndActivate` | src/platform_automation/platform_cli.py:1521-1524 | success means the new containers run and the plan is activated |
| `Deployment.Engine.Undo` | src/platform_automation/platform_cli.py:1525-1571 | a handled failure is written as rolled back exactly when a previous release runs again and the proxy is restored, else as failed; where undoing works both are back, always |
| `Deployment.Engine.Switch` | src/platform_automation/platform_cli.py:1521-1579 | the ledger is committed while the nginx lock is held: deployed implies running and activated |
| `Deployment.Engine.ExecutePreparedRelease` | src/platform_automation/platform_cli.py:1423-1579 | record, containers and proxy settle together: deployed means the committed tree is live, rolled back the old one, a tree changed without a marker means deployed; a handled failure never leaves it deploying, and a failed dump leaves it failed with nothing touched |
| `Deployment.Engine.Attempt` | src/platform_automation/platform_cli.py:1908-1928 | either nothing happened, or one record more, jointly settled with the proxy, and outcome, events and verdict agree |
| `Deployment.Engine.RunDeploy` | src/platform_automation/platform_cli.py:1764-1960 | a refused tag changes nothing; success without a record reuses the running release; otherwise one attempt over the current release, jointly settled: the record is of the request's tag, image and bundle, a requested migration ran after its dump before it is deployed, and without one nothing is dumped or migrated; undisturbed it ends deployed, and a caught failure whose undo works leaves containers and proxy untouched or back at the previous release |
| `Deployment.DeployConcludes` | src/platform_automation/platform_cli.py:1457-1579 | a deploy's record carries the request's tag, whole image and bundle; deployed with a migration means it ran, after its dump where the database is owned, and before any container moved; without one there is no dump and no migration |
| `Deployment.RollbackConcludes` | src/platform_automation/platform_cli.py:3030-3164 | a rollback's record repeats image and bundle of the newest success of the tag, points to it, requires no migration, and nothing but containers is touched |
| `Deployment.MigrationsComeAfterDumps` | src/platform_automation/platform_cli.py:1467-1513 | every migration of an owned database has its dump before it, and containers that moved last had the migration before them |
| `Deployment.Engine.DeployGate` | src/platform_automation/platform_cli.py:1775-1804 | opens exactly when the tag is new, or names this image and bundle and is neither deploying nor the running release |
| `Deployment.Engine.RollbackGate` | src/platform_automation/platform_cli.py:3046-3069 | passes exactly when nothing is deploying, the scope is not retired, the current release is healthy and the target is a success other than it |
| `Deployment.Engine.RunRollback` | src/platform_automation/platform_cli.py:3030-3164 | a closed gate changes nothing; otherwise one jointly settled attempt with image and bundle of the newest success of the tag that, whoever owns the database and without a backup runner, never dumps and never migrates; success means a deployed record, and undisturbed it succeeds |
| `Deployment.PreviousIsFound` | src/platform_automation/platform_cli.py:1526-1529 | the lookup by previous id gives the very release the record was prepared over |
| `Deployment.NoDumpNothingHappens` | src/platform_automation/platform_cli.py:1467-1513 | without its own dump an owned, migrating attempt does nothing destructive, a failed dump is its last event, and containers move only after the migration |
| `Deployment.JointDeployIsBoth` | src/platform_automation/platform_cli.py:1423-1579 | a joint deploy is a deploy of the ledger and a transaction of the proxy |
| `Deployment.JointRollbackIsBoth` | src/platform_automation/platform_cli.py:3030-3164 | likewise a rollback |
| `ReleaseRuns.LedgerAndProxyAgree` | src/platform_automation/platform_cli.py:1423-1579 | over every run of all scopes' attempts, other scopes' transactions and ticks, without a marker the proxy serves each scope byte for byte the plan of the very attempt that made its latest deployed record, owned under that record's id, and owns nothing for a scope without one |
| `ReleaseRuns.RecoveryNamesTheServedRelease` | src/platform_automation/reboot_recovery.py:133-172 | a release recovery names is the one whose containers run and the one whose own plan the proxy serves |
| `ReleaseRuns.EveryReachablePlatform` | src/platform_automation/platform_cli.py:1423-1579 | every ledger with its containers, and the shared proxy, keep their invariants together in every such run |
| `ReleaseRuns.StepForScope` | src/platform_automation/platform_cli.py:1423-1579 | one step makes a scope's record and its plan live, or leaves ledger, files and ownership of the scope standing |
| `ReleaseRuns.OwnershipNamesOneRelease` | src/platform_automation/nginx_transaction.py:660-674 | without a marker the id in a scope's ownership file is that of its latest deployed record and no other |
| `Ledger.IdTextIsInjective` | src/platform_automation/release_ledger.py:246-246 | two ids are never spelled alike |
| `Ledger.IdTextIsHex` | src/platform_automation/release_ledger.py:246-246 | an id is spelled with exactly 32 lower-case hexadecimal digits, and they are its value |
| `Retention.SuccessfulReleases` | src/platform_automation/release_retention.py:63-74 | exactly the successful records |
| `Retention.SuccessfulAreNewestFirst` | src/platform_automation/release_retention.py:55-74 | in newest-first order |
| `Retention.RetainedImageDigests` | src/platform_automation/release_retention.py:77-100 | the loop with its early exit computes the specified list |
| `Retention.NewestDigestsKeepTheFront` | src/platform_automation/release_retention.py:77-92 | at most the depth, without duplicates, each kept digest met before anything left out |
| `Retention.RetentionKeepsTheNewest` | src/platform_automation/release_retention.py:77-100 | every success left out is older than some release of each kept digest |
| `Retention.RetentionHasNoDuplicates` | src/platform_automation/release_retention.py:77-100 | no digest twice, the current release's always among them |
| `Retention.RetentionIsBoundedByDepth` | src/platform_automation/release_retention.py:94-100 | when deployed implies healthy the extra append never fires and the depth is exact |
| `Retention.ProtectedImageDigests` | src/platform_automation/release_retention.py:143-175 | exactly the digests its own scope retains at its depth and those any other scope retains at five; an unreadable ledger aborts |
| `Retention.ProtectedIff` | src/platform_automation/release_retention.py:143-175 | a digest is protected exactly when its own scope retains it at its depth or some other scope retains it at five |
| `Retention.CollectReferences` | src/platform_automation/release_retention.py:194-200 | per digest the reference its first record used |
| `Retention.PlanRetention` | src/platform_automation/release_retention.py:178-213 | bundles of every success whose image is kept, and exactly the unprotected references |
| `Retention.OfferedIffUnprotected` | src/platform_automation/release_retention.py:165-206 | an image is offered exactly when its own scope does not retain it at its depth and no other scope retains it at five |
| `Retention.OfferedIsDisused` | src/platform_automation/release_retention.py:165-206 | whatever is offered was used by a record of the scope whose digest no ledger retains |
| `Retention.SparedKeepsRollbacks` | src/platform_automation/release_retention.py:178-206 | a success whose digest is retained loses neither bundle nor image, and no other scope's retained release loses its image |
| `Retention.ProtectedIsNotOffered` | src/platform_automation/release_retention.py:165-206 | no pass offers a reference whose digest some ledger keeps |
| `Retention.Artefacts.PruneStagedBundles` | src/platform_automation/release_retention.py:223-252 | removes or reports exactly the bundle-named directories that are not retained; only a reported one may be left in part |
| `Retention.Artefacts.PruneRuntimeSecrets` | src/platform_automation/release_retention.py:255-289 | removes or reports every release's secrets but the current one's; only reported ones may be left in part |
| `Retention.Artefacts.PruneImages` | src/platform_automation/release_retention.py:319-340 | removes or reports exactly the offered images, and none a container holds |
| `Retention.Artefacts.ApplyRetention` | src/platform_automation/release_retention.py:343-398 | a removed image has a digest no ledger retains, a retained success keeps bundle and image, current secrets and held images stay, everything else is gone or reported, and nothing but held images is reported on a calm machine; an unreadable ledger stops it before any removal |
| `RetentionRuns.LatestIsAlwaysAvailable` | src/platform_automation/release_retention.py:143-398 | whatever any scope's passes removed, each scope's latest deployed release keeps image and bundle, and its secrets unless the scope awaits recovery after a reboot |
| `RetentionRuns.AvailableBetweenReboots` | src/platform_automation/reboot_recovery.py:213-271 | from the start of a run, and after a reboot from the moment recovery selected a release, image, bundle and secrets are all there until the next reboot |
| `RetentionRuns.AwaitingMeansRebooted` | src/platform_automation/reboot_recovery.py:213-271 | only a reboot makes a scope await recovery |
| `RetentionRuns.RestoreFindsEverything` | src/platform_automation/platform_cli.py:1376-1398 | at any point of an attempt the previous release is in the list, its image and bundle are on the host, and its secrets unless the scope awaits recovery |
| `RetentionRuns.RetentionSparesOthers` | src/platform_automation/release_retention.py:143-175 | no pass takes another scope's latest image or one it has started |
| `RetentionRuns.EveryReachableFleet` | src/platform_automation/platform_cli.py:1679-1721 | the invariant behind these, in every interleaving of attempts, passes, stops, reboots and recoveries of all scopes |
| `RetentionRuns.BeginningIsAWrite` | src/platform_automation/release_ledger.py:349-403 | writing the prepared record is a step of these runs |
| `RetentionRuns.AttemptStepIsFleetStep` | src/platform_automation/platform_cli.py:1444-1579 | so is every later moment of the engine's trail: a start, another container change, an update or the commit |
| `RetentionRuns.AttemptIsAFleetPath` | src/platform_automation/platform_cli.py:1423-1579 | a whole attempt of the engine is a path of these steps |
| `RetentionRuns.DepthIsExact` | src/platform_automation/release_retention.py:77-100 | on reachable ledgers the retained list never exceeds the depth |
| `RollbackConsole.EligibleTargets` | src/platform_automation/operator/rollback.py:40-58 | the loop with its seen set lists exactly the first acceptable entry of each tag, in order |
| `RollbackConsole.TargetsHaveDistinctTags` | src/platform_automation/operator/rollback.py:40-58 | no tag is offered twice |
| `RollbackConsole.BlockedIffDeploying` | src/platform_automation/operator/rollback.py:31-32 | the console's block is the host's |
| `RollbackConsole.ListIsTheGate` | src/platform_automation/platform_cli.py:3046-3069 | a tag is listed exactly when the host's gate accepts it, with the record the host would pick |
| `RollbackConsole.ListIsExactInEveryRun` | src/platform_automation/operator/rollback.py:40-58 | so on every reachable ledger with nothing deploying |
| `RollbackConsole.ListReadOffTheRecords` | src/platform_automation/operator/rollback.py:40-58 | in terms of the records: a tag is listed exactly when it was deployed and another one runs, and shows tag, time and migration of its newest success |
| `RollbackConsole.PickedIsSelected` | src/platform_automation/platform_cli.py:1147-1165 | the entry the console picks for a tag is the host's selected record |
| `RollbackConsole.WarningMissesNoMigration` | src/platform_automation/operator/rollback.py:61-73 | the warning is the migrations after the host's record plus those since the tag's oldest record, exact when there are none of the latter |
| `RollbackConsole.NoMigrationIsMissed` | src/platform_automation/operator/rollback.py:61-73 | every migration that succeeded after the record the host would pick is named |
| `RollbackConsole.OnlyMigrationsAreNamed` | src/platform_automation/operator/rollback.py:61-73 | and every tag named is that of a migration that succeeded after the tag's first attempt |
| `Dashboards.DashboardRoot.CleanFolder` | src/platform_automation/metrics_export.py:430-442 | removes exactly what does not belong, the folder too when nothing is wanted in it |
| `Dashboards.DashboardRoot.Clean` | src/platform_automation/metrics_export.py:422-442 | strays and unwanted folders go, folders to leave alone stay, and each removal is reported |
| `Dashboards.DashboardRoot.WriteFolder` | src/platform_automation/metrics_export.py:446-457 | writes exactly the files that do not read right, and reports them |
| `Dashboards.DashboardRoot.Sync` | src/platform_automation/metrics_export.py:409-458 | the tree and the report of a whole call, for every starting tree and every wanted; a call ended by an error has moved items only towards that tree, and a calm machine ends none |
| `Dashboards.SyncedHoldsExactlyWhatIsWanted` | src/platform_automation/metrics_export.py:409-421 | wanted folders hold exactly their files, folders wanted as None are unchanged, nothing else is left |
| `Dashboards.SilentMeansRight` | src/platform_automation/metrics_export.py:409-421 | a call with nothing to report found the tree as it should be |
| `Dashboards.ReportedIff` | src/platform_automation/metrics_export.py:422-457 | each kind of report has its exact condition in terms of the tree and what is wanted |
| `Dashboards.SecondCallChangesNothing` | src/platform_automation/metrics_export.py:409-458 | a second call with the same wanted leaves the tree as it is |
| `Dashboards.TheNextCallFinishesTheJob` | src/platform_automation/metrics_export.py:409-458 | however far a call got before an error, the next whole call ends in the tree the first would have |
| `Dashboards.SecondCallIsSilentIff` | src/platform_automation/metrics_export.py:451-457 | and reports nothing if and only if no wanted text has a carriage return |
| `Dashboards.CarriageReturnIsRewritten` | src/platform_automation/metrics_export.py:451-457 | the smallest wanted text that is written on every call although nothing changes |
| `TextMode.TranslateIsIdentityIff` | src/platform_automation/metrics_export.py:452-453 | reading in text mode gives the text exactly when it has no carriage return |
| `TextMode.EndingsBecomeNewlines` | src/platform_automation/metrics_export.py:452-453 | each of the two other line endings reads as one newline |
| `TextMode.SplittingUndoesUnlines` | src/platform_automation/htpasswd.py:112-112 | splitting gives joined lines back when none holds a boundary |
| `EnvFile.EscapeIsOnePass` | src/platform_automation/runtime_secrets.py:104-110 | the writer's five replacements are one pass, character by character |
| `EnvFile.OneStage` | src/platform_automation/htpasswd.py:122-128 | each of the reader's first four replacements finishes one letter, taking along a backslash before it |
| `EnvFile.ReadingBackMangles` | src/platform_automation/htpasswd.py:120-129 | for every value, reading it back turns each `t`, `r`, `n` after a backslash into a control character and changes nothing else |
| `EnvFile.OnePassInverts` | src/platform_automation/runtime_secrets.py:104-110 | a single-pass unescape would give every value back |
| `EnvFile.ChainIsOnePassIff` | src/platform_automation/htpasswd.py:120-129 | the five replacements do its work exactly on values without such a pair |
| `EnvFile.RenderEnvFile` | src/platform_automation/runtime_secrets.py:96-124 | one line per name with the text of its scalar, refused exactly when some name is invalid or some value nested |
| `EnvFile.ReadEnvFile` | src/platform_automation/htpasswd.py:109-131 | the loop computes the map of the lines, the later line of a name winning |
| `EnvFile.LineParses` | src/platform_automation/htpasswd.py:112-130 | a rendered line gives its name and its mangled value |
| `EnvFile.PlainLineParses` | src/platform_automation/htpasswd.py:112-130 | an unquoted value is taken as it stands |
| `EnvFile.OtherLinesSayNothing` | src/platform_automation/htpasswd.py:112-119 | blank lines, comments and lines without an equals sign say nothing |
| `EnvFile.ReadBackMangles` | src/platform_automation/htpasswd.py:109-131 | a rendered document comes back with every value mangled and nothing added |
| `EnvFile.ScalarsComeBack` | src/platform_automation/runtime_secrets.py:96-124 | any document of scalars comes back with truth values as the words true and false, texts and numbers mangled |
| `EnvFile.RoundTripIff` | src/platform_automation/htpasswd.py:109-131 | a rendered document comes back unchanged if and only if no value has such a pair or an unescaped line boundary |
| `EnvFile.BackslashTComesBackAsTab` | src/platform_automation/htpasswd.py:120-129 | the smallest document that does not survive: backslash and `t` come back as backslash and tab |
| `ExportTimers.RPartition` | src/platform_automation/export_schedule.py:49-49 | splits at the last hyphen, or keeps everything in the last part |
| `ExportTimers.SplitInvertsExportIff` | src/platform_automation/export_schedule.py:41-58 | splitting an exported instance gives its parts back exactly for projects of two to 63 characters |
| `ExportTimers.OneLetterProjectIsNotSplit` | src/platform_automation/export_schedule.py:41-58 | the smallest exported instance that is not split |
| `ExportTimers.ExportInvertsSplit` | src/platform_automation/backup_schedule.py:42-77 | whatever splits is exported back to the same instance |
| `ExportTimers.ListedIffDropIn` | src/platform_automation/export_schedule.py:156-170 | an entry is listed under a name exactly when it is that job's drop-in |
| `ExportTimers.ScopesShareNoDropIn` | src/platform_automation/export_schedule.py:156-170 | no scope lists another's drop-in, even when one project name extends the other |
| `ExportTimers.Systemd.ExistingInstances` | src/platform_automation/export_schedule.py:156-170 | exactly the names of this scope's drop-ins |
| `ExportTimers.Systemd.EnableTimer` | src/platform_automation/export_schedule.py:173-190 | touches one job; success means override written and timer enabled, and no enabled timer is ever without its directory |
| `ExportTimers.Systemd.DisableTimer` | src/platform_automation/export_schedule.py:193-209 | touches one job; success means neither override nor enabled timer is left |
| `ExportTimers.Systemd.Reconcile` | src/platform_automation/export_schedule.py:233-286 | what is not reported as failed is as declared, a quiet pass leaves exactly the declared jobs, other scopes are never touched; on a calm machine only jobs with a bad name, a bad schedule or something in the way are reported |
| `ExportTimers.WantedIffAskedFor` | src/platform_automation/export_schedule.py:61-72 | a name is wanted with a schedule exactly when the database is the platform's and the last job of that name has it |
| `BackupEnvelope.SpacedDecimalIsRead` | src/platform_automation/backup_runtime.py:281-281 | the length the header writes is the length the readers parse |
| `BackupEnvelope.WrittenEnvelopeIsRead` | src/platform_automation/backup_runtime.py:274-328 | a header is written exactly for cards of at most 65536 bytes; splitting header plus dump gives the card and the exact offset, and the bounded head the same card |
| `BackupEnvelope.SplitWorksIff` | src/platform_automation/backup_runtime.py:284-328 | a file with the magic splits exactly when its header line ends within 49 bytes, names a length of at most 65536 that is there, and the card is JSON |
| `BackupEnvelope.SplitFollowsHeader` | src/platform_automation/backup_runtime.py:303-328 | the dump begins right after the card, which is given when it is an object |
| `BackupEnvelope.ReadersAgreeIff` | src/platform_automation/backup_runtime.py:576-640 | on any file, the split finds a card exactly when the head does and the header line ends in the first read |
| `BackupEnvelope.OldDumpsStartAtZero` | src/platform_automation/backup_runtime.py:300-301 | a dump without the magic splits at zero and cannot be imported |
| `BackupPruning.Backups.ListBackups` | src/platform_automation/backup_runtime.py:412-431 | exactly the stamps of the dumps, in ascending order |
| `BackupPruning.Backups.Prune` | src/platform_automation/backup_runtime.py:434-456 | the newest dumps stay, the older are removed or reported, and no other file is touched |
| `BackupPruning.Backups.CreateBackup` | src/platform_automation/backup_runtime.py:488-550 | a database not owned, no recipient, no password or an existing stamp is refused untouched; a failure removes nothing; a success keeps the newest dumps up to the limit, removes or reports the rest, and loses neither the new dump and its card where it is the newest nor any the console called safe |
| `BackupPruning.SafeMeansKept` | src/platform_automation/operator/console.py:2370-2382 | a "no" is right when the console knows the host's limit or the host was within it, whatever the new stamp |
| `BackupPruning.KeptIff` | src/platform_automation/operator/console.py:2370-2382 | after a newest dump exactly the positions the limit allows survive |
| `BackupPruning.YesMeansGoneOrOldest` | src/platform_automation/operator/console.py:2370-2382 | with the limit known, a "yes" is said exactly for a dump that the next one pushes out and for the oldest |
| `BackupPruning.LessIffFirstDifference` | src/platform_automation/backup_runtime.py:431-431 | stamps are ordered by their first difference |

## Left out

- Docker, compose, systemctl, sops, age, psql, ssh and pg_dump themselves: each is an oracle with a stated effect.
- File modes, owners, symbolic-link checks, fsync and temporary names: an atomic write, a rename and an unlink are single steps.
- JSON, YAML and JSON Schema: records are datatypes; a file the parser rejects is one case.
- Error texts and completed_at stamps of a record, and the text of warnings.
- NginxTransaction.ProxyHost.Prepare: does not refuse fragment and htpasswd files for their mode, owner or size; an ownership file refused for those is `Unreadable`.
- Basic-auth files as nginx opens them: it reads them per request, so a staged htpasswd file takes effect before the reload; `Loaded.auth` is what was there at the reload.
- NginxTransaction.Directory.RefusesPlanned: the order of the two refusals and their messages are not distinguished.
- `purge`, and the retired marker beyond the gate of a rollback: the retired check of `purge` runs before its lock, so no interleaving claim rests on it.
- Retired scopes in whole-run ledger theorems: a failed deploy of a retired scope restores the previous release and leaves the retired marker.
- What `nginx -t` tests: the test is an oracle that may stop an activation, and a reload is one of its own.
- Discovery of recovery scopes, and the ways writing the recovered secrets can fail: a recovery that fails is no step.
- The bundle check behind a rollback and a restore (`load_saved_release_request`): its failure is one of the oracle failures before the record is written.
- `metrics_guard`, `protected_paths` and the directive formatting of a domain: their lines are inputs of the fragment generator.
- The host names a manifest admits: the schema is not part of this model; hosts are taken to contain no underscore.
- EnvFile.RenderEnvFile: a number is its printed text; how the interpreter prints one is not modelled.
- BackupEnvelope.ReadersAgreeIff: the interpreter's limit on the number of digits of an integer is not modelled.
- Dashboards.DashboardRoot.Sync: the order of the report is not modelled.
- ExportTimers.Systemd.Reconcile: an entry of a job's name that is not a directory is never removed, by the code as by the model, so "as declared" is about override directories.
- The offsite store, SMTP exports, metrics text, argument parsing, menus and wizards, manifest and bundle validation, password hashing: input/output or long lists of independent checks.
