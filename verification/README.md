# Content sources: a verified model of the data access layer

The content-sources backend keeps repository configurations, their snapshots and their content
(packages, environments, module streams, advisories) in a relational store. This project models the
data access objects as operations on tables and proves what they promise: over every input, every
answer a query may give, and every run of the operations.

Queries without ORDER BY may answer in any order, and ORDER BY may break ties in any way; such queries
are predicates on their possible answers, or methods that pick an arbitrary order. A transaction with a
savepoint is a copy of the store. Row identifiers come from an unbounded supply and time is an integer
number of microseconds. Code that changes tables or fills lists in loops is a class or a method with
loops, proved against functions and predicates on the tables; the runs and whole-system results are
lemmas about those.

## What is proved

- **Scheduling** (`Scheduler`, `SchedulerCoverage`, `SchedulerRetry`). With a minimum of R runs a day, any
  R consecutive runs return every configuration, because the shares of R runs add up to more than the
  pool and picks are oldest first. A run names a configuration at most once (Red Hat: at most twice, and
  exactly when). With newcomers in the pool the promise can fail; how many runs are enough is an arithmetic
  condition on the numbers of newcomers and others, proved exact, and R + 1 runs always are. A
  snapshot task fails at most ten times in a row over every history, plus once for each time the reference
  to the task was cleared and once for each failure that was not counted, and that bound is reached. The
  chained condition of the query for failed configurations can be read two ways; the results hold
  for both.
- **Bulk operations** (`Savepoints`, `BulkCreate`, `BulkImport`, `BulkDelete`, `RepositoryConfigDao`). One
  savepoint loop, proved all-or-nothing once, carries creation, import and deletion. Creation adds exactly
  the requested rows. Repeating an import changes nothing, and is accepted again exactly when every
  imported row can be found again. Export followed by import changes nothing, and is accepted exactly when
  every exported row can be taken back. Deletion depends only on the set of identifiers, because its
  lookups read committed rows.
- **Publishing and visibility** (`Publishing`, `SnapshotDao`, `Visibility`, `SnapshotByDate`). Over every
  run, what is live and published belongs to a partner's upload repository; restoring a deleted snapshot
  keeps that exactly when a condition known beforehand holds. The visibility queries follow one
  plain rule; exactly when they agree, and when foreign viewers get nothing but published snapshots, is
  proved, and deleting a partner's configuration is what breaks it. What viewers are shown as the last
  snapshot is what the distribution serves over every run whose steps meet an exact condition. The origin
  filter commutes with masking exactly when no row is misfiled, and selection by date follows one plain
  rule and is monotone in the date.
- **Content synchronisation** (`Associations`, `RpmSync`, `RpmDao`, `EnvironmentSync`, `PackageGroupSync`,
  `ModuleStreamSync`). A package synchronisation is exact and independent of the batch size, and over every history of
  synchronisations and cleanups a repository has what it was last synchronised with. For environments,
  package groups and module streams exactness fails in general; the exact conditions are proved, and runs
  that end inexact are given.
- **Ledgers and small loops** (`Advisories`, `Errata`, `RpmNames`, `GpgKeys`, `Urls`).

## Where the code and its documentation differ

- The comments on `InsertForRepository` in pkg/dao/rpms.go:479-482 and pkg/dao/environments.go:222-225
  promise the number of rows new to the system; the code returns the number of new associations, and so
  does the model.
- The comment on failed configurations at pkg/dao/repository_configs.go:448-457 restricts retries to
  configurations with snapshots switched on; read literally, the chained OR at lines 459-470 does not.
  `Scheduler.GroupingsDiffer` says where the readings part.
- `FailedSnapshotLimit` (pkg/config/value_constraints.go:53) is documented as the number of retries before
  stopping. A snapshot task can fail without being counted: the handler returns early for a bad payload or
  a failed domain lookup, a failed lookup of the configuration increments no row, and an error of the
  increment itself is only logged (pkg/tasks/repository_snapshot.go:26-62); a task out of queue retries is
  finished as failed by the queue (pkg/tasks/queue/pgqueue.go:692-702). Such failures are retried without
  end: `SchedulerRetry.BoundIsReached`. A canceled handler returns no error, so its task can end as
  completed without the counter being reset (pkg/tasks/repository_snapshot.go:54-56); the bound covers that.
- The comments on `InsertForRepository` in pkg/dao/environments.go:222-225, pkg/dao/package_groups.go:216-219
  and pkg/dao/module_streams.go:247-250 promise that exactly the listed content remains. Runs that end
  otherwise are `EnvironmentSync.LoseAnEnvironment`, `EnvironmentSync.KeepAnUnlistedOne`,
  `PackageGroupSync.MistakeOneGroupForAnother` and `ModuleStreamSync.TwoInexactRuns`.
- `MinimumInterval` (pkg/dao/repository_configs.go:318-323) is documented to return all repositories that many
  times a day. The quota does not count repositories that were never snapshotted, so too many of them at
  once push others out of a day's runs: `SchedulerCoverage.AllReturnedIffEnough` says exactly how many are
  too many, and `SchedulerCoverage.NewcomersCanCrowdOut` gives runs for every case.
- `denyUnpublishedForeignPartnerAccess` (pkg/dao/snapshots.go:194-201) is documented to refuse foreign viewers
  an unpublished snapshot of a partner. A deleted configuration is not loaded with the snapshot, so once a
  partner's configuration is deleted anybody can fetch its unpublished snapshots:
  `Visibility.DeletingAPartnerRevealsItsSnapshots` is a run that ends so, and
  `Visibility.ForeignersGetOnlyPublishedExactly` says when it cannot happen.
- Single creation refuses the Lightwell organisations (pkg/dao/repository_configs.go:127-129); bulk creation
  does not, and neither does the model.
- The deletion task means to clear the reference to the last snapshot task (pkg/tasks/delete_snapshots.go:624)
  but passes the configuration's identifier where `UpdateLastSnapshotTask` expects the repository's
  (pkg/dao/repository_configs.go:1089-1096), so no row matches. The retry bound covers histories in which
  the reference is cleared.
- The masking comment at pkg/dao/repository_configs.go:1701-1702 promises the latest published snapshot; the
  code keeps the recorded last snapshot if it is published. `Visibility.ShownLastSnapshotIsDistributed` gives the
  exact condition under which both are the same, `Visibility.DoKeepsLastsExactly` what each operation does
  to it, and `Visibility.RestoringCanOutdateTheLast` a run that ends with the wrong one shown.

## Model

| member | source | states |
|---|---|---|
| `Savepoints.RunBulk` | pkg/dao/repository_configs.go:221-316 | the savepoint loop of all bulk operations commits the plain sequential result exactly when every item succeeds in order; otherwise the store is unchanged, there are no responses and one entry per item, each judged against the savepoint plus what was applied since the last failure |
| `Savepoints.SequentialWhileClean` | pkg/dao/repository_configs.go:230-315 | while nothing has failed the transaction is the sequential result, with one response per item |
| `Savepoints.SequentialOkExactly` | pkg/dao/repository_configs.go:230-315 | a list succeeds exactly when each item succeeds in the state the earlier ones left |
| `BulkCreate.CreateOneAdds` | pkg/dao/repository_configs.go:261-298 | one creation adds one configuration and at most the repository it needs, and keeps all unique keys and references |
| `BulkCreate.CreateOneAcceptsExactly` | pkg/dao/repository_configs.go:230-298 | a request is accepted if and only if, on its fields and the stored rows: its organisation is not reserved or blank, its name is given and free, its origin is external, blank or upload, uploads are snapshotted, its URL is not EPEL's, and it shares an unused repository or can have its own |
| `BulkCreate.CreateOneRefuses` | pkg/dao/repository_configs.go:235-269 | exactly the reserved organisations are not permitted, and every other check of the request alone makes it invalid |
| `BulkCreate.CreatedRowIsCustom` | pkg/dao/repository_configs.go:232-298 | a created row has the fields of its request, never belongs to the Red Hat or the community organisation, is external or upload, is not EPEL, and is snapshotted if it is an upload |
| `BulkCreate.CreationsAddExactly` | pkg/dao/repository_configs.go:199-316 | a successful list adds exactly one fresh configuration per request with its cleaned URL and origin, no unused repository, and leaves every old row alone |
| `RepositoryConfigDao.Dao.BulkCreate` | pkg/dao/repository_configs.go:199-219 | all-or-nothing: accepted exactly if each request is acceptable in turn, and then exactly the requested rows are added, field by field; otherwise an unchanged store and an error list of equal length with an error in it |
| `BulkImport.ImportOneAddsAtMostOne` | pkg/dao/repository_configs.go:1310-1465 | an import answers with an existing configuration and changes nothing, or finds none and adds one row, always snapshotted if it is an upload |
| `BulkImport.ImportOneAcceptsExactly` | pkg/dao/repository_configs.go:1320-1465 | a request is accepted if and only if an existing row answers it (of the community; of that name for uploads; at that URL otherwise), or its name is free and it has a place: uploads without a URL, others at a stored or acceptable one |
| `BulkImport.ImportOneRefuses` | pkg/dao/repository_configs.go:1327-1350 | not found is answered exactly for EPEL requests the community does not answer for, and community requests it does not answer are invalid |
| `BulkImport.ImportsAreKept` | pkg/dao/repository_configs.go:1310-1439 | a successful list only adds rows, keeps all keys, and leaves every request answered or its name taken |
| `BulkImport.ImportIsIdempotent` | pkg/dao/repository_configs.go:1310-1465 | repeating a successful import changes nothing, and is accepted exactly when no request's URL cleans to nothing |
| `BulkImport.NamelessUrlIsRefusedAgain` | pkg/dao/repository_configs.go:1385-1425 | a request whose URL cleans to nothing is imported once and refused the second time |
| `BulkImport.ExportAcceptedExactly` | pkg/dao/repository_configs.go:1282-1292 | an export is accepted exactly for distinct live identifiers of the organisation or a shared one |
| `BulkImport.ReimportOneChangesNothing` | pkg/dao/repository_configs.go:1310-1465 | importing an exported row for the same organisation never changes the store, and is accepted exactly for uploads, for external rows with a URL the community need not answer for, and for community and EPEL rows the community answers for |
| `BulkImport.ExportThenImportChangesNothing` | pkg/dao/repository_configs.go:1257-1308 | export and then import, in any order of the exported rows, leaves every table as it was, and is accepted exactly when each exported row can be taken back (Red Hat rows never are) |
| `BulkImport.CreateOneKeepsTidy` | pkg/dao/repository_configs.go:232-298 | creation keeps what export relies on: clean URLs and no uploads in shared organisations |
| `BulkImport.ImportOneKeepsTidy` | pkg/dao/repository_configs.go:1356-1432 | so does import for an organisation that is not shared |
| `RepositoryConfigDao.Dao.BulkImport` | pkg/dao/repository_configs.go:1294-1308 | import is all-or-nothing, accepted exactly if each request is acceptable in turn, and only ever adds rows |
| `BulkDelete.DeletionIsBySet` | pkg/dao/repository_configs.go:1219-1255 | the deletion loop marks exactly the listed rows and fails exactly when some lookup does |
| `BulkDelete.DeletionDependsOnSetOnly` | pkg/dao/repository_configs.go:1219-1255 | order and repetition of identifiers do not matter |
| `BulkDelete.MarkListed` | pkg/dao/repository_configs.go:1219-1255 | every listed row is marked and no other, or some identifier was not found, its entry says so, and the table is unchanged |
| `BulkDelete.RereadingAcceptsExactlyDistinct` | pkg/dao/repository_configs.go:1231 | if the lookup read the transaction instead of committed rows, repeated identifiers would be refused |
| `RepositoryConfigDao.Dao.BulkDelete` | pkg/dao/repository_configs.go:1195-1255 | accepted exactly if every identifier is a live row of the organisation; then exactly the listed rows become deleted and nothing else of any row changes, otherwise nothing |
| `Urls.CleanupIsIdempotent` | pkg/models/repository.go:103-113 | cleaning a URL twice is cleaning it once |
| `Urls.CleanupExactly` | pkg/models/repository.go:103-113 | a URL is white space, a core, slashes and white space, and cleans to the core with one slash, or to nothing without a core |
| `Urls.AcceptableExactly` | pkg/models/repository.go:76-100 | a URL is acceptable exactly if it parses and has no white space within |
| `Urls.Cleanup` | pkg/models/repository.go:103-113 | the stripping loop computes the cleaned URL |
| `Scheduler.DueAnswerIsDistinct` | pkg/dao/repository_configs.go:369-402 | the due list has no repetition, holds all stale configurations and no failed ones |
| `Scheduler.DueExactly` | pkg/dao/repository_configs.go:369-390 | without a minimum the due list holds exactly the live external and community configurations with snapshots on, passing the URL filter, that were never snapshotted or completed one queued 23 hours ago or earlier; a minimum only adds |
| `Scheduler.ExtraExactly` | pkg/dao/repository_configs.go:341-351 | what a minimum adds comes after those, has a completed snapshot, and is in the order of queueing, unknown times first |
| `Scheduler.OldestExtraFirst` | pkg/dao/repository_configs.go:341-351 | nothing that could be added and is left out was queued earlier than anything added |
| `Scheduler.MinimumExactly` | pkg/dao/repository_configs.go:328-339 | the minimum is one run's share, rounded down, of all configurations with snapshots on whose last task did not fail, and one more |
| `Scheduler.RunSizeExactly` | pkg/dao/repository_configs.go:391-401 | configurations are added only up to the minimum, and a run below it left none out |
| `Scheduler.RedHatDueExactly` | pkg/dao/repository_configs.go:410-446 | Red Hat's are due all together, exactly if one of them was never queued or was queued 45 minutes ago or earlier |
| `Scheduler.FailedExactly` | pkg/dao/repository_configs.go:458-477 | failed configurations are retried at once if Red Hat's or community ones, otherwise 23 hours after queueing and below ten failures, under either reading |
| `Scheduler.RunNamesEachAtMostOnce` | pkg/dao/repository_configs.go:479-517 | an unforced run names a configuration at most once; Red Hat's at most twice, and exactly when |
| `Scheduler.RunAnswerExists` | pkg/dao/repository_configs.go:479-517 | every unforced run has an answer |
| `SchedulerCoverage.QuotaCoversShare` | pkg/dao/repository_configs.go:328-339 | the minimum of a run is at least the share of the pool without its newcomers, and exactly that if nothing else is counted |
| `SchedulerCoverage.AnswerSize` | pkg/dao/repository_configs.go:376-402 | a run returns as many configurations as are stale or the minimum, whichever is more, or the whole pool |
| `SchedulerCoverage.LeftOutMeansOlderOnly` | pkg/dao/repository_configs.go:341-402 | a run that leaves a configuration out returned nothing queued later |
| `SchedulerCoverage.CoverageIsExact` | pkg/dao/repository_configs.go:369-402 | k runs return as many different configurations as rows, or the whole pool, and what is uncovered is older than all that is covered |
| `SchedulerCoverage.EnoughRunsReturnAll` | pkg/dao/repository_configs.go:318-402 | k runs that are enough for the newcomers at the start return everything, whatever else is counted or turns stale |
| `SchedulerCoverage.AllReturnedIffEnough` | pkg/dao/repository_configs.go:318-402 | while nothing turns stale and only the pool is counted, k runs return everything if and only if max(w, c/R+1) + (k-1)((c+w)/R+1) >= c+w, for w newcomers and c others |
| `SchedulerCoverage.EveryConfigurationIsReturned` | pkg/dao/repository_configs.go:318-402 | any R consecutive runs with minimum R return every configuration of a pool without newcomers, and any R+1 runs every configuration of any pool |
| `SchedulerCoverage.NewcomersCanCrowdOut` | pkg/dao/repository_configs.go:328-402 | for all numbers of newcomers and others there are R linked runs that return everything exactly if the condition holds |
| `SchedulerRetry.CounterIsExact` | pkg/dao/repository_configs.go:1055-1069 | over every history the counter of a row that is not deleted starts anew with each counted success and goes up by one with everything else that was counted |
| `SchedulerRetry.CounterCountsFailures` | pkg/dao/repository_configs.go:1055-1069 | it misses no more of the failures in a row than were not counted, and stays within ten plus the clearings and the tasks queued again |
| `SchedulerRetry.FailuresExactly` | pkg/dao/repository_configs.go:458-477 | the failures in a row are the tasks that ended failed since the last counted success |
| `SchedulerRetry.RetriesAreBounded` | pkg/dao/repository_configs.go:458-477 | a task of an external or upload configuration fails at most ten times in a row, plus once per clearing of its task reference and once per failure that was not counted, under either reading of the query |
| `SchedulerRetry.BoundIsReached` | pkg/tasks/repository_snapshot.go:26-62 | for every number of uncounted failures there is a history that reaches the bound, so without counting retries never stop |
| `SchedulerRetry.ClearingTheReferenceRestartsRetries` | pkg/dao/repository_configs.go:1072-1099 | at the limit a failed configuration is returned by no run; with its task reference cleared it is due at once |
| `SchedulerRetry.WhenFailedIsRetried` | pkg/dao/repository_configs.go:448-477 | a failed configuration is retried without limit if community, otherwise exactly below the limit and after a full interval |
| `Publishing.SetPartnerKeepsInv` | pkg/dao/repository_configs.go:2175-2198 | marking or unmarking a partner keeps the publishing invariant |
| `Publishing.PublishKeepsInv` | pkg/dao/snapshots.go:365-414 | publishing or unpublishing keeps it |
| `Publishing.DoKeepsInv` | pkg/dao/snapshots.go:37-493 | so does every other operation except restoration, deletion of configurations included |
| `Publishing.RunKeepsInv` | pkg/dao/snapshots.go:365-493 | over every run without restorations, live published snapshots belong to partners with upload repositories |
| `Publishing.InvExactly` | pkg/dao/snapshots.go:365-414 | the invariant on the stored rows: keys are stored, partners have upload repositories, what is live and published belongs to a partner |
| `Publishing.RestoringKeepsInvExactly` | pkg/dao/snapshots.go:495-506 | restoring a snapshot keeps the invariant exactly when it is unpublished or its configuration is still a partner |
| `Publishing.RestoringCanBreakInv` | pkg/dao/snapshots.go:495-506 | publish, delete, unmark, restore is a run that breaks it |
| `Publishing.RunKeepsStrongInv` | pkg/dao/snapshots.go:365-506 | in runs that unmark no partner the invariant survives restorations, for deleted snapshots too |
| `Publishing.PublishMakesFlagAccurate` | pkg/dao/snapshots.go:391-403 | right after a publish step the repository's public flag says whether a live published snapshot exists |
| `Publishing.SoftDeleteKeepsFlagExactly` | pkg/dao/snapshots.go:416-429 | deletion leaves the flag accurate exactly unless it removes the last published snapshot |
| `SnapshotDao.Dao.Create` | pkg/dao/snapshots.go:37-58 | a new snapshot of a stored configuration is unpublished and becomes the last one, and nothing else changes |
| `SnapshotDao.Dao.SetPartnerRepo` | pkg/dao/repository_configs.go:2175-2198 | not found exactly for unknown or deleted configurations, invalid exactly for others that are no uploads or are unmarked while publishing; otherwise only the flag changes, to the value given, and the invariant is kept |
| `SnapshotDao.Dao.HasPublishedSnapshot` | pkg/dao/partner_visibility.go:47-58 | whether a live published snapshot of the configuration exists |
| `SnapshotDao.Dao.UpdatePublishedStatus` | pkg/dao/snapshots.go:365-414 | each refusal exactly when: no live snapshot of that configuration, not a live configuration of the organisation, no partner; otherwise only the mark changes, and the public flag to whether anything live is published; the invariant is kept |
| `SnapshotDao.Dao.SoftDelete` | pkg/dao/snapshots.go:416-429 | marks the stored row and changes nothing else, keeps the invariant |
| `SnapshotDao.Dao.Delete` | pkg/dao/snapshots.go:431-442 | removes the stored row and sets references to it as a last snapshot to none, changes nothing else, keeps the invariant |
| `SnapshotDao.Dao.BulkDelete` | pkg/dao/snapshots.go:444-493 | accepted exactly if every identifier is a live snapshot; then exactly the listed rows become deleted, otherwise nothing changes |
| `SnapshotDao.Dao.ClearDeletedAt` | pkg/dao/snapshots.go:495-506 | restores the row and keeps the invariant exactly under the stated condition |
| `SnapshotDao.Dao.SoftDeleteConfiguration` | pkg/dao/repository_configs.go:1152-1179 | marks the organisation's configuration, keeps the invariant |
| `SnapshotDao.Dao.DeleteConfiguration` | pkg/dao/repository_configs.go:1181-1193 | removes the organisation's configuration unless snapshots refer to it, keeps the invariant |
| `SnapshotDao.Dao.UpdateLastSnapshot` | pkg/dao/repository_configs.go:1101-1117 | records a stored snapshot as the last one, and keeps recorded ones newest exactly if it is the newest of its configuration |
| `Visibility.VisibilityAgreement` | pkg/dao/snapshots.go:61-226 | for a configuration neither owned nor shared, listing and reading give exactly the live published snapshots, and so does fetching unless the configuration is deleted |
| `Visibility.ReadableExactly` | pkg/dao/snapshots.go:177-192 | owners read every live snapshot, as everybody does of the Red Hat and community organisations; others only what partners have published |
| `Visibility.ListExactly` | pkg/dao/snapshots.go:61-108 | who may list a configuration's snapshots, and exactly what is listed |
| `Visibility.FetchExactly` | pkg/dao/snapshots.go:194-226 | fetching a live snapshot is refused exactly to foreign viewers of what a live partner has not published, and gives the stored row |
| `Visibility.LatestExactly` | pkg/dao/snapshots.go:547-566 | the latest distribution serves a newest live snapshot of a live configuration, for partners a newest published one, and nothing only if there is none |
| `Visibility.ForeignersGetOnlyPublishedExactly` | pkg/dao/snapshots.go:177-226 | fetching gives a foreign viewer only published snapshots of a partner exactly when its configuration is not deleted or nothing is unpublished; reading exactly when it is not shared or nothing is |
| `Visibility.ListAndFetchAgreeExactly` | pkg/dao/snapshots.go:177-226 | listing and fetching agree on a foreign partner exactly when it is live and not shared, deleted and shared, or keeps nothing unpublished |
| `Visibility.DeletingAPartnerRevealsItsSnapshots` | pkg/dao/snapshots.go:194-226 | a run after which anybody fetches an unpublished snapshot of a deleted partner configuration |
| `Visibility.ApplyPartnerResponseOverrides` | pkg/dao/repository_configs.go:1703-1734 | the loop masks every foreign partner row in place, so that nothing of the owner's organisation, account or origin is left, and no other |
| `Visibility.OwnRowIsShownAsStored` | pkg/dao/repository_configs.go:1703-1734 | an owner's row, and any that is not a partner's, is shown as stored, its last snapshot while it is live |
| `Visibility.ShownLastSnapshotIsPublished` | pkg/dao/repository_configs.go:1712-1732 | the last snapshot shown to a foreign viewer is live and published, missing only if there is none, and the configuration's own exactly unless another's was recorded |
| `Visibility.ShownLastSnapshotIsDistributed` | pkg/dao/snapshots.go:553-566 | it is the snapshot behind the latest distribution if and only if the recorded last snapshot, where it is live and published, is the configuration's newest such one |
| `Visibility.DoKeepsLastsExactly` | pkg/dao/repository_configs.go:1101-1117 | each operation keeps recorded last snapshots newest if and only if it is orderly: creation and recording of the newest, and restoration of nothing newer |
| `Visibility.RunsShowTheDistributed` | pkg/dao/repository_configs.go:1701-1734 | after every run of orderly operations each foreign viewer is shown the snapshot the latest distribution serves |
| `Visibility.RestoringCanOutdateTheLast` | pkg/dao/snapshots.go:495-506 | delete the newest, record the one before, restore: a run after which the older one is shown |
| `Visibility.FilterAndMaskCommuteExactly` | pkg/dao/repository_configs.go:655-668 | filtering stored origins and then masking equals filtering displayed origins, for all origin lists, exactly when no row is misfiled |
| `Visibility.ListedExactly` | pkg/dao/repository_configs.go:611-619 | everybody lists their own live configurations, those of the reserved organisations, and partners that publish something |
| `Visibility.ListedRowsAreNotMisfiled` | pkg/dao/repository_configs.go:611-619 | no listed row is misfiled while partners are not shared organisations |
| `SnapshotByDate.ChosenFollowsRule` | pkg/dao/snapshots.go:587-629 | the three queries choose the newest readable snapshot at or before the date, else the oldest, however ties are broken |
| `SnapshotByDate.ChoiceExactly` | pkg/dao/snapshots.go:587-629 | that rule on the stored rows: of what was created up to the end of the second, the newest, and otherwise the oldest |
| `SnapshotByDate.OneChoicePerConfiguration` | pkg/dao/snapshots.go:587-629 | one choice for each requested configuration with anything readable, at most one for any |
| `SnapshotByDate.SelectionExists` | pkg/dao/snapshots.go:587-629 | the queries always have an answer |
| `SnapshotByDate.ChoiceIsMonotone` | pkg/dao/snapshots.go:587-629 | a later date never chooses an earlier snapshot |
| `SnapshotByDate.ForeignChoiceIsPublished` | pkg/dao/partner_visibility.go:24-32 | what a foreign viewer gets by date is live and published |
| `SnapshotByDate.IsAfterMeansNothingBefore` | pkg/dao/snapshots.go:632-680 | a choice marked as after means nothing readable at or before the date, if the instant lies before the compared midnight |
| `SnapshotByDate.MidnightExactly` | pkg/dao/snapshots.go:634-636 | the compared time is the midnight that ends the shown day |
| `SnapshotByDate.EasternDatesAreSafe` | pkg/dao/snapshots.go:634-636 | that holds for every date in UTC or east of it, at any time of day |
| `SnapshotByDate.IsAfterMisleadsOtherwise` | pkg/dao/snapshots.go:634-680 | for exactly the remaining dates, those west of UTC whose clock is within the offset of midnight, some store makes the mark misleading |
| `SnapshotByDate.FetchByDate` | pkg/dao/snapshots.go:632-684 | refused exactly unless all requested configurations are distinct and askable; one entry per request, matched by the plain rule |
| `Associations.Difference` | pkg/dao/rpms.go:581-593 | the entries of one list that are not in the other, in order |
| `Associations.DeleteUnneeded` | pkg/dao/rpms.go:596-623 | keeps exactly the listed associations of the repository and touches no other |
| `Associations.Relink` | pkg/dao/rpms.go:554-567 | afterwards the associations are exactly the listed rows, and the count is of the new ones |
| `RpmDao.BatchedLookup` | pkg/dao/rpms.go:534-552 | finds exactly the rows with listed checksums, for every batch limit of at least one |
| `RpmDao.FilteredConvert` | pkg/dao/rpms.go:661-680 | keeps the packages whose checksum is not excluded, in order |
| `RpmDao.InsertMissing` | pkg/dao/rpms.go:525-532 | inserts a row for each missing checksum once, keeping checksums unique |
| `RpmDao.Dao.InsertForRepository` | pkg/dao/rpms.go:483-568 | afterwards the repository's associations are precisely the stored packages with listed checksums, stored packages are unchanged, new ones are listed, checksums are unique, and the number of packages new to the repository is returned; a failed call changes nothing, and fails exactly for an unknown repository or an invalid package to be inserted |
| `RpmDao.Dao.OrphanCleanup` | pkg/dao/rpms.go:625-650 | removes exactly the packages no repository has |
| `RpmSync.SyncIsExact` | pkg/dao/rpms.go:479-568 | the repository has exactly the listed packages and no other repository changes |
| `RpmSync.CountIsNewContent` | pkg/dao/rpms.go:557-567 | the count is the number of listed checksums the repository did not have |
| `RpmSync.CleanupKeepsContent` | pkg/dao/rpms.go:625-650 | cleanup changes no repository's content |
| `RpmSync.ContentIsLastSynced` | pkg/dao/rpms.go:483-650 | over every history a repository has exactly what it was last synchronised with, and associations lead to stored packages |
| `EnvironmentSync.Dao.InsertForRepository` | pkg/dao/environments.go:226-292 | a successful call leaves just that; a failed one changes nothing, and fails exactly for an unknown repository or an environment to be inserted without id or name |
| `EnvironmentSync.KeysAfterSync` | pkg/dao/environments.go:226-332 | the repository has the stored environments whose id and name are both listed, if not together, and the listed ones whose id is not stored with a listed name |
| `EnvironmentSync.SyncIsExactIffUnambiguous` | pkg/dao/environments.go:226-332 | it has exactly the listed environments if and only if every stored one with a listed id and a listed name is listed, and every listed one whose id is stored with a listed name is stored |
| `EnvironmentSync.DistinctIdsSuffice` | pkg/dao/environments.go:238-254 | distinct listed ids and no crossed stored row make it unambiguous |
| `EnvironmentSync.SharedIdLosesAnEnvironment` | pkg/dao/environments.go:403-415 | of two listed environments with one id, the one not stored is lost |
| `EnvironmentSync.LoseAnEnvironment` | pkg/dao/environments.go:226-292 | two synchronisations after which a listed environment is not associated, for any two that share an id |
| `EnvironmentSync.KeepAnUnlistedOne` | pkg/dao/environments.go:226-292 | two synchronisations after which an unlisted environment is associated and a listed one is not |
| `EnvironmentSync.OthersKeepTheirs` | pkg/dao/environments.go:305-332 | no other repository's environments change |
| `EnvironmentSync.Dao.OrphanCleanup` | pkg/dao/environments.go:334-359 | removes exactly the environments no repository has |
| `ModuleStreamSync.Dao.InsertForRepository` | pkg/dao/module_streams.go:251-321 | succeeds exactly when no hash is listed twice; otherwise streams are stored and associations deleted, but none added |
| `ModuleStreamSync.SyncIsExactIff` | pkg/dao/module_streams.go:251-321 | the repository has exactly the listed streams if and only if the list is distinct and not empty, or it had them all already |
| `ModuleStreamSync.OthersKeepTheirs` | pkg/dao/module_streams.go:251-321 | no other repository's streams change, whatever the outcome |
| `ModuleStreamSync.TwoInexactRuns` | pkg/dao/module_streams.go:251-321 | an empty list leaves what the repository had, and a stream listed twice is not associated while what it had is removed |
| `PackageGroupSync.HashesAgreeExactly` | pkg/dao/package_groups.go:420-435 | groups without brackets in id and name, and with non-blank package names without blanks, share a hash exactly if they have the same packages and id and name read the same written together |
| `PackageGroupSync.SyncIsExactIff` | pkg/dao/package_groups.go:220-290 | the repository has exactly the listed groups if and only if any stored and listed groups that share a hash are both listed and both stored |
| `PackageGroupSync.OrdinarySyncIsExactIff` | pkg/dao/package_groups.go:220-290 | the same for such groups in terms of what can be read off them |
| `PackageGroupSync.OthersKeepTheirs` | pkg/dao/package_groups.go:303-333 | no other repository's groups change |
| `PackageGroupSync.MistakeOneGroupForAnother` | pkg/dao/package_groups.go:220-290 | two synchronisations after which the repository has a group that is not listed, for any two that share a hash |
| `PackageGroupSync.Dao.InsertForRepository` | pkg/dao/package_groups.go:220-290 | a successful call leaves the stored groups that share a hash with a listed one and the listed ones that share none with a stored one; a failed one changes nothing, and fails exactly for an unknown repository or a group to be inserted without id or name |
| `PackageGroupSync.FilteredConvertPackageGroups` | pkg/dao/package_groups.go:400-418 | keeps the groups whose hash is not excluded, in order |
| `Advisories.Dao.SyncForRepository` | pkg/dao/lightwell_advisory.go:60-111 | succeeds exactly when all inputs are valid and no key recurs within a batch of 100, and is a whole synchronisation or no change |
| `Advisories.SyncIsExact` | pkg/dao/lightwell_advisory.go:60-111 | a synchronisation leaves exactly the given keys and touches neither other repositories nor the ledger; an empty one changes nothing |
| `Advisories.SyncStoresLastInput` | pkg/dao/lightwell_advisory.go:84-97 | each key holds the last input given for it |
| `Advisories.Dao.ListUnnotifiedAdvisories` | pkg/dao/lightwell_advisory.go:113-136 | the stored keys of the repository that are not in the ledger |
| `Advisories.Dao.MarkAsNotified` | pkg/dao/lightwell_advisory.go:138-164 | adds the keys to the ledger, or nothing if one is invalid |
| `Advisories.LedgerIsWhatWasMarked` | pkg/dao/lightwell_advisory.go:138-164 | over every run a key is in the ledger exactly if it was there or has been marked since |
| `Advisories.MarkedIsNeverListed` | pkg/dao/lightwell_advisory.go:113-136 | a marked key is never listed as unnotified again, whatever is removed and synchronised again |
| `Advisories.NotifiedAtMostOnce` | pkg/dao/lightwell_advisory.go:60-164 | over every run a notification is sent at most once for a key if and only if it is marked between sending and the next listing that finds it stored |
| `Advisories.MarkingAtOnceSuffices` | pkg/external_repos/commands/sync_lightwell_advisories.go:121-182 | sending and then marking all that was listed, as the program does, sends at most once |
| `Errata.FetchTemplateErrataIds` | pkg/dao/rpms.go:1043-1071 | terminates for every page limit and returns the strictly sorted identifiers of the underlying list |
| `Errata.SortedListsAreUnique` | pkg/dao/rpms.go:1043-1071 | a strictly sorted list is determined by its elements, so the page limit does not matter |
| `Errata.LeqExactly` | pkg/dao/rpms.go:1043-1071 | the order is by code units: prefixes first, otherwise the first difference decides |
| `RpmNames.ExtractInvertsBuild` | pkg/dao/module_streams.go:209-217 | extraction inverts appending a dash-free version and release to any name |
| `RpmNames.ExtractSplitsOffVersionAndRelease` | pkg/dao/module_streams.go:209-217 | every text is left alone or is the extracted name with a dash-free version and release |
| `GpgKeys.ReadGpgKeys` | pkg/dao/repository_configs.go:2116-2137 | consecutive pieces, each holding the end marker once, at its end, with no marker left over; fails exactly for a missing text or one without a marker |
| `GpgKeys.CutsAreUnique` | pkg/dao/repository_configs.go:2116-2137 | there is only one such way to cut a text |

## Left out

- SQL, gorm and Postgres beyond sets of rows, unique keys, conflict clauses, savepoints and NULL comparisons; connection errors and concurrent sessions are not modelled.
- Two renderings of gorm are taken as given: creating an empty list is a no-op because a batch size is configured (pkg/db/db.go:76), and NOT IN over an empty list compares with NULL.
- Saving of associated structs by gorm when an upload configuration is imported (pkg/dao/repository_configs.go:1457-1463): the configuration is taken to refer to the repository created just before it.
- Fields that no branch depends on: versions, architectures, labels, GPG keys, descriptions of configurations and content, package counts of masked rows, import warnings, and the text of error messages.
- `url.ParseRequestURI` is a parameter; everything else about URLs is modelled.
- The in-place default of a request's origin, which the caller of a bulk operation could observe.
- Forced scheduling and manual snapshots started by users.
- Removal of notifications by the database when a repository configuration is purged: the ledger only grows here.
- Cleanup of unused package groups and module streams: as for packages and environments.
- Hashing and conversion of module metadata: hashes are given and not blank.
- Listing filters other than the origin filter, sorting and pagination of listings, templates, uploads, domains, tasks and metrics.
- Pulp, Candlepin, Redis, Kafka and the other clients, handlers, configuration and mocks.
- SchedulerCoverage.AllReturnedIffEnough: is stated for a fixed pool whose completed members were queued at known times and only change by being returned; newcomers that arrive during the runs, and failures of the snapshots taken, are not part of it.
