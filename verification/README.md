# gojellyfin, modelled and proved in Dafny

A model of the domain services of gojellyfin, a media server that learns its catalogue from Sonarr and
Radarr and keeps it in a relational store. The model follows the Go code of the services and the schema
their tables have; every result below is about all inputs, all reachable states or all runs.

What is modelled, module by module:

- **Catalogue synchronisation.** `Tables` gives each SQL statement of a refresh its effect on rows named by
  their natural keys. `Convergence` runs the jobs of a refresh as a protocol: one event a statement, jobs
  interleaved at will, attempts lost and retried between any two statements. `Handover` says when a refresh
  can complete at all, `Orders` which single pass does, `Retries` counts the eight attempts a job has, and
  `Renewals` reads the same answer again in the middle of a run. `SharedSource` interleaves the refreshes of two
  libraries bound to one source, `Leftovers` and `LeftoverRounds` a refresh with jobs an earlier answer left
  behind. `CatalogueStore` has the same statements on rows with drawn identifiers and foreign keys, proved to
  refine `Tables`. `Titles` and `Answers` build the titles from what the downloaders answer
  and show that they meet what the protocol asks; `Keys`, `Text`, `Paths` and `SourceRoots` supply the
  identities: keys, decimal numbers, cleaned paths and the disjoint roots of the downloaders; `Ownership`
  says which sources' refreshes leave each other's files alone. `StoredTitles` spells out the columns a completed
  refresh leaves, `Snapshots` what that means for a library in terms of what the downloader answered, and
  `SortNames` what the names sort by.
- **Item graph.** `Sweep` (the fixpoint over parent links), `ItemGraph` (the breadth-first subtree and the
  ancestor walk, on graphs with cycles), `Deletion` (the deletion with the cascades of the schema) and
  `Expansion` (folders expanded into playable items). `ItemsTable` projects the one items table of the store
  into the views these modules and the title locks have of it.
- **Playlists.** `PlaylistRows` has the rows and their refinement of plain sequences, over whole runs;
  `Playlists` has the service's transactions.
- **Playback.** `Playback` is the negotiation with a client's profiles and conditions, `Conditions` what each
  declaration means for a file, and `SourceChoice` the choice among an item's files.
- **State machines.** `TitleLocks` (scans, edits and identifications of one item), `QuickConnect` (requests
  under a clock) and `Jobs` (the deduplicating, retrying queue).

Services that change rows are classes whose methods are proved against functions of the old state; the
theorems are about those functions. A transaction is one method that changes nothing when refused, as
`internal/store/txhelper.go` lines 11-33 provide. Row identifiers, secrets and codes the program draws at
random, the clock, the collation order of names, the answers of the downloaders and of the metadata
provider, and the parsing of floating-point limits are parameters.

## What the code does not do

Each of these is something the code seems meant to do and does not. The lemmas named give a failing input and
the exact condition under which the code does it.

- A refresh need not converge. `item_sources` has a unique index on item and source beside the one on path,
  so two titles that exchanged files wait for each other on every retry (`SwappedFilmsNeverConverge`). A
  refresh can complete exactly when no ring of titles waits for itself (`FreshCompletesIff`).
- Without a ring a refresh can still fall short: a job is given up after eight lost attempts, and an attempt is
  lost whenever the parent is not stored yet or the file is refused. The first scan of a show can lose a season
  that way (`FirstScanCanGiveUp`), a swap under way a film (`EightRefusalsEndATitle`). No schedule gives
  a title up exactly when every parent is stored and nothing waits (`NoScheduleGivesUpIff`). Reading the answer again can write what
  was given up, exactly when there is no ring (`CompletesWithRenewalsIff`, `NextRefreshCompletesIff`).
- A refresh can complete and not hold its snapshot, because jobs of an earlier answer may still run after it has
  pruned: they file paths, set parents and add memberships that are no longer reported, and several can turn
  files round (`ThreeLeftoversHarm`). It holds it exactly under the condition of `HarmlessIff`.
- Deleting an item removes more than the live subtree it computes: the foreign key on the parent cascades
  to soft-deleted children and their rows (`SweptEpisodeLosesItsWatchState`, `TakesOnlyTheLiveSubtreeIff`).
- Deleting an item cascades to its playlist entries and leaves gaps in the sort orders. Adding numbers from
  the count and can then list the new entry before the last one (`CascadeThenAddMisplaces`,
  `AppendLandsLastIff`); moving takes an index for a sort order and can then do nothing
  (`CascadeThenMoveStays`) or make two other entries change places (`CascadeThenMoveCrosses`, `MoveRefinesIff`).
- The 32-bit subtraction of heights can wrap and prefer the smaller picture (`WrappedHeightsInvert`,
  `CompareIsBetterIff`). That takes a negative stored height: the column admits one, but ffprobe is not known
  to report any.
- The overlap check compares strings, so roots that are not clean slip through (`UntidyRootsSlipThrough`);
  it is right exactly when cleaning the roots first would not change its answer (`OverlapCheckIsRightIff`,
  `CleaningMakesTheCheckExact`).
- The roots of the downloaders are compared and their local directories are not, while a file row is unique by
  local path. Two sources with one local directory are accepted and take each other's rows
  (`OneLocalPathSlipsThrough`, `RowIsTaken`); their refreshes spare each other exactly when the local directories
  do not overlap (`SparesIffNoLocalPathShared`, `ShareLocalPathIff`).
- An identification that read an item before a user's edit and writes after it undoes the edit
  (`StaleIdentificationUndoesEdit`).
- The repository's `README.md` (lines 32-34) says the choice between copying and encoding is not yet driven by the
  client's declared profile; `internal/items/playback.go` does drive it from the profiles, and the model follows the code.

## Model

| member | source | states |
|---|---|---|
| `Convergence.RunTracks` | internal/sources/refresh.go:64-74 | In every run of the per-title jobs, interleaved statement by statement, crashed and retried at will, the store is a function of which writes have succeeded at least once |
| `Convergence.ApplyTracks` | internal/items/refresh.go:62-111 | One statement of one job, refused or not, keeps that closed form |
| `Convergence.CompletedHoldsTheSnapshot` | internal/sources/refresh.go:46-74 | When every title's job has finished, the source's files are exactly the reported paths, each held by its own title's live item under the reported parent, and the pair's keyed memberships are exactly the tagged titles |
| `Convergence.CompletedIsSynchronised` | internal/sources/refresh.go:46-74 | A completed run leaves every item, file and membership row as a schedule-free specification over the store it found says |
| `Convergence.SynchronisedIsUnique` | internal/sources/refresh.go:46-74 | That specification determines the final store |
| `Convergence.CompletedRunsAgree` | internal/sources/refresh.go:64-74 | Schedule independence: any two completed runs from one store end in the same store |
| `Convergence.RunsLeaveTheRestAlone` | internal/items/items.go:436-462 | At every moment of every run other memberships, other sources' unreported files, unreported items and the probe results of reported files are as they were |
| `Convergence.PrunedFiles` | internal/items/itemsources.go:199-222 | Pruning drops exactly the source's unreported paths, the empty answer included |
| `Convergence.PrunedMembers` | internal/items/items.go:436-462 | Pruning keeps of the pair's memberships the tagged keys and, when there is a key to compare with, every item without a key |
| `Convergence.RunsKeepMembersKeyed` | internal/store/migrations/20260814223544_item_key_and_source_paths.sql:3-5 | Where no membership is of an item without a key, every run keeps it so |
| `Convergence.CompletedHoldsExactlyTheTagged` | internal/items/items.go:436-462 | So a completed refresh leaves the pair's memberships exactly the tagged titles |
| `StoredTitles.CompletedRowIsTheScan` | internal/items/items.go:93-119 | After every completed run the row of each title is live and has exactly the answer's kind, index number, parent's index number, parent and file time |
| `StoredTitles.CompletedNewRow` | internal/items/items.go:93-104 | A title stored for the first time has the answer's names and year, no lock and no provider identifiers |
| `StoredTitles.CompletedKnownRow` | internal/items/metadata.go:132-148 | A title stored before takes the answer's names and year exactly while it is unidentified, unlocked and its title is not locked; its locks and identification stay |
| `StoredTitles.CompletedFileIsTheScan` | internal/items/itemsources.go:26-50 | The row of each reported file is its title's and the source's, with the answer's time and the probe it had |
| `StoredTitles.BaseIsTheLastElement` | internal/items/refresh.go:87-93 | A file is named by what follows the last slash of its path |
| `StoredTitles.BaseAtTheEdges` | internal/items/refresh.go:87-93 | Slashes at the end of a path do not count; the empty path and the root are named as the library names them |
| `SharedSource.TurnsTrack` | internal/sources/refresh.go:46-74 | Two refreshes of one answer for two libraries, their prunes (repeated on a retry) and all their jobs interleaved statement by statement: the store is a function of what each has got done at least once |
| `SharedSource.InterleavingsAgree` | internal/sources/refresh.go:46-74 | All completed interleavings of the two end in the same store |
| `SharedSource.InterleavedIsOneAfterTheOther` | internal/sources/refresh.go:46-74 | That store is the one that one completed refresh after the other leaves |
| `Leftovers.StepsStand` | internal/jobs/client.go:93-117 | Jobs an earlier refresh left running, wherever they are and however they are retried, interleaved with the newest refresh: where each filed path can be, which items are live under which parent and which memberships can exist, in every state of every run |
| `Leftovers.StepsSettle` | internal/store/entities/item_source.go:39-44 | Once all titles of a group that no earlier job leads out of have been filed, one of them has its own file in every state from there on |
| `Leftovers.LeftoversKeepTheSnapshot` | internal/sources/refresh.go:46-74 | Beside earlier jobs that agree with it and can turn no round of files, a refresh that completes leaves its own snapshot |
| `LeftoverRounds.HarmlessIff` | internal/sources/refresh.go:46-74 | Exactly: a completed refresh leaves its snapshot from every store the unique index admits and beside every schedule of the earlier jobs if and only if each earlier title has a file only if the newest answer has one under its key, has the parent and the tag reported now, and no files passed on in a round can have one of them set aside outside it |
| `LeftoverRounds.OneLeftoverIsHarmlessIff` | internal/sources/refresh.go:46-74 | For one earlier job the round cannot arise, and the other conditions are exact |
| `LeftoverRounds.ThreeLeftoversHarm` | internal/store/entities/item_source.go:39-44 | The failing input: three films whose files went round among them; each earlier job is harmless, and together they leave two films with each other's file after a refresh that completes |
| `Convergence.SharedSourceCommutes` | internal/sources/refresh.go:46-62 | Completed refreshes of two libraries, one after the other from one answer of their source, give the same store in either order |
| `Convergence.SecondRefreshOnlyJoins` | internal/sources/refresh.go:46-62 | The second of the two changes no item and no file |
| `Convergence.RefreshIsIdempotent` | internal/sources/refresh.go:46-74 | Repeating a completed refresh changes nothing |
| `Handover.RefusedIffWaiting` | internal/store/entities/item_source.go:39-44 | The unique index on item and source refuses a title's file exactly while its item still holds a path that another, not yet filed title now reports |
| `Handover.RingIsNeverFiled` | internal/store/entities/item_source.go:39-44 | Titles whose items can only hand their paths to each other are never filed, in any run with any number of retries |
| `Handover.CompletesIffNoRing` | internal/items/refresh.go:62-111 | Some schedule completes a refresh if and only if there is no such ring |
| `Retries.CompletesWithinAttemptsIff` | internal/jobs/jobs.go:120-133 | Seen from any state of a run with eight attempts a job, some continuation completes the refresh if and only if there is no ring and every title not yet written has an attempt left |
| `Retries.NoScheduleGivesUpIff` | internal/jobs/jobs.go:29-29 | Before the run: no schedule that loses fewer than eight attempts of each job to crashes gives a title up, if and only if in the store found every title's parent is stored and no title waits for another |
| `Retries.FirstScanCanGiveUp` | internal/items/refresh.go:128-139 | The failing input: on the first scan of a show nothing waits and nothing was swapped, yet eight attempts of a season before any of its series end the season's job |
| `Retries.FreshCompletesIff` | internal/jobs/jobs.go:120-133 | So a refresh that has not begun can complete within its attempts if and only if there is no ring |
| `Retries.GivenUpStaysUnfinished` | internal/jobs/jobs.go:29-29 | A title whose eight attempts are lost is not written by any continuation that does not enqueue it again |
| `Renewals.PruneAgainChangesNothing` | internal/sources/refresh.go:46-62 | A refresh of the same answer, read again in the middle of a run, prunes nothing that the run has written |
| `Renewals.RenewedJobs` | internal/jobs/client.go:93-117 | Enqueued again, a job under way goes on as it is and one that has ended begins afresh with all its attempts; what was written is not forgotten |
| `Renewals.CompletesWithRenewalsIff` | internal/jobs/client.go:93-117 | When titles whose jobs are over may be enqueued again, with fresh attempts, a refresh can complete from every state it reaches if and only if there is no ring |
| `Renewals.RenewedCompletionIsSynchronised` | internal/sources/refresh.go:46-74 | However often it is read again, a completed refresh leaves the store that one read once does |
| `Retries.EightRefusalsEndATitle` | internal/jobs/jobs.go:29-29 | The failing input: a film given a new file while a new film takes its old one, no ring, is given up after eight attempts before the other's first |
| `Retries.NextRefreshCompletesIff` | internal/sources/refresh.go:46-74 | However a refresh was cut short, the next one of the same answer can complete exactly when the first one could at its start |
| `Retries.WaitsAfter` | internal/store/entities/item_source.go:39-44 | In a partly refreshed store a title waits for another exactly if it did before and the other is not filed yet |
| `Retries.TriesAreARun` | internal/jobs/jobs.go:120-133 | What jobs with counted attempts reach, jobs with unlimited attempts reach too |
| `Orders.OrderCompletesIff` | internal/items/refresh.go:62-111 | Attempting each title once, parents first, writes all of them if and only if every title also comes after the one it waits for |
| `Handover.AttemptIsRefreshItem` | internal/items/refresh.go:62-111 | An uninterrupted attempt of the protocol is one call of RefreshItem, and succeeds exactly when nothing unfiled is waited for |
| `Handover.CompletedRefreshLeavesNoWaits` | internal/store/entities/item_source.go:39-44 | After a completed refresh no title waits for another, so repeating it can complete |
| `Orders.TwoPathsAreRefused` | internal/items/itemsources.go:26-50 | A title reporting two paths is refused from every store |
| `Handover.SwappedFilmsNeverConverge` | internal/store/entities/item_source.go:39-44 | The failing input: two films that exchanged files stay unfiled under every schedule |
| `CatalogueStore.Store.RefreshItem` | internal/items/refresh.go:62-111 | On identifier-numbered rows, one attempt has the outcome and the effect of the keyed specification, including what is left behind when it is refused; it enqueues probes for the files that need one, and an identification exactly for a written, unidentified item |
| `Tables.ProbedAgainIff` | internal/items/itemsources.go:224-230 | A reported file is probed again exactly when it is accepted and is new, was never probed, or changed since |
| `CatalogueStore.Store.SaveScanned` | internal/items/items.go:93-119 | Insert or update by key: revives a deleted row, touches title columns only while unclaimed, never renumbers |
| `CatalogueStore.Store.SaveSource` | internal/items/itemsources.go:26-50 | Upsert by path keeping the probe; fails, changing nothing, exactly on the item-and-source index |
| `CatalogueStore.Store.SaveMembership` | internal/items/items.go:380-406 | Adds the one membership, once |
| `CatalogueStore.Store.DeleteSourcesNotInPaths` | internal/items/itemsources.go:199-222 | Deletes exactly the stale files of the source |
| `CatalogueStore.Store.DeleteMembershipNotInKeys` | internal/items/items.go:436-462 | Deletes exactly the stale memberships of the pair, with SQL's three-valued NOT IN |
| `CatalogueStore.Store.ItemByKey` | internal/items/refresh.go:119-126 | Finds the row with the key, deleted or not, or reports that none has it |
| `CatalogueStore.Store.ParentOf` | internal/items/refresh.go:128-139 | No parent for the empty key, the named row otherwise, an error exactly when no row has the key |
| `CatalogueStore.Store.Refresh` | internal/sources/refresh.go:46-74 | Prunes files by every reported path and memberships by tagged keys, and enqueues every title in order |
| `CatalogueStore.NewestOf` | internal/items/refresh.go:141-150 | The loop answers the specification's latest time |
| `CatalogueStore.NewestIsTheMaximum` | internal/items/refresh.go:141-150 | That time belongs to one of the files and none is later; there is none only without files |
| `CatalogueStore.ClashShown` | internal/store/entities/item_source.go:39-44 | The index refuses numbered rows exactly when it refuses the rows they stand for |
| `Titles.Seasons` | internal/sources/titles.go:149-200 | Seasons in strictly ascending number, each followed by its episodes with a file in the root, in the order answered; empty exactly when there is no such episode |
| `Titles.SeasonsLoseNothing` | internal/sources/titles.go:149-200 | Picking any season's episodes back out of the list gives exactly those answered with a file in the root, in order |
| `Titles.SeriesTitles` | internal/sources/titles.go:100-147 | One piece a show, in order: nothing without an identifier or a file, else the series and then its seasons |
| `Titles.SeriesListsParentsFirst` | internal/sources/titles.go:126-143 | Every parent key is the key of an earlier title, and no title has two files |
| `Titles.MovieTitles` | internal/sources/titles.go:58-98 | One film on disk outside the root refuses the whole answer, even a film that would be skipped; otherwise the films with a file and an identifier, in order |
| `Titles.TagFilter` | internal/sources/titles.go:202-220 | Without a filter everything is tagged; with one, what has the id of the first tag of that name, case aside, and the answer is refused exactly when there is none |
| `Snapshots.MovieTitlesAre` | internal/sources/titles.go:58-98 | The titles of an answer are exactly the movies with a file in the root and an identifier, each column spelled out: key, tag, names, year, path and time |
| `Snapshots.MoviesInOrder` | internal/sources/titles.go:70-95 | They come in the order answered |
| `Snapshots.SeriesTitlesAre` | internal/sources/titles.go:100-200 | The titles of an answer are exactly, for each show with an identifier and an episode on disk in the root, the series, those episodes and their seasons, each column spelled out |
| `Snapshots.EpisodesInOrder` | internal/sources/titles.go:149-200 | Within a season the episodes come in the order answered |
| `Snapshots.RadarrLibraryHolds` | internal/sources/refresh.go:46-74 | After a completed refresh the library's keyed titles are exactly the movies of the answer with a file in the root, an identifier and tags the filter takes |
| `Snapshots.SonarrLibraryHolds` | internal/sources/refresh.go:46-74 | After a completed refresh they are exactly the series, seasons and episodes on disk of the shows whose tags the filter takes |
| `Snapshots.StoredMovieAsks` | internal/metadata/metadata.go:93-119 | From the row a completed refresh stored for a movie, the provider is asked about that movie |
| `Snapshots.StoredEpisodeAsks` | internal/metadata/metadata.go:93-119 | From the rows a completed refresh stored, the provider is asked about that very series, that season number and that episode number of it |
| `SortNames.SortNameIs` | internal/items/keys.go:68-73 | A name sorts by its words in lower case, one blank apart whatever parted them, without the article it starts with unless that is its only word |
| `SortNames.WordlessSortsEmpty` | internal/items/keys.go:68-73 | A name of nothing but blanks, dots and underscores sorts as nothing |
| `SortNames.PartingChars` | internal/items/keys.go:69-70 | Words are parted by dots, underscores and white space, and by nothing else |
| `SortNames.LowerIs` | internal/items/keys.go:72-72 | Lower case changes the 26 upper-case letters, each to its own, and no other character |
| `SortNames.TrimIs` | internal/items/playback.go:183-185 | White space comes off both ends and nowhere else |
| `SortNames.SeasonsSort` | internal/items/keys.go:52-54 | Seasons up to 9999 sort by name as they do by number |
| `SortNames.SeasonNumberReads` | internal/items/keys.go:52-54 | The number can be read back from the sort name of any season |
| `Answers.SeriesAnswerIsWellFormed` | internal/sources/titles.go:100-200 | When the shows with an identifier, their episode numbers and their files differ, the titles have pairwise distinct keys and paths and list parents first |
| `Answers.SonarrRefreshCompletesIff` | internal/sources/refresh.go:46-74 | So, from any store, a refresh of a Sonarr source can complete, within eight attempts a job, exactly when no ring of titles has swapped files |
| `Answers.RadarrRefreshCompletesIff` | internal/sources/refresh.go:46-74 | The same for a Radarr source, movies without an identifier aside |
| `Answers.TitleAsksForItself` | internal/metadata/metadata.go:93-119 | From the key, kind and index columns a scan wrote, identification asks the provider about that very series, season or episode, exactly when the identifier is positive |
| `Keys.KeysAreInjective` | internal/items/keys.go:14-28 | The four key printers are injective on all integers and never print each other's keys |
| `Keys.KeysAreNotEmpty` | internal/items/refresh.go:128-131 | No printed key is the empty string that stands for having no parent |
| `Keys.TmdbIDUndoesKey` | internal/items/keys.go:30-42 | The identifier is read back from every key exactly when it is positive |
| `Text.AtoiReads` | internal/items/keys.go:36-39 | Digits with or without a sign are read as their number, within 64 bits and no further |
| `Text.AtoiRefuses` | internal/items/keys.go:36-39 | Anything with another character than digits and one sign, and a sign alone, is refused |
| `Text.SplitUndoesJoin` | internal/items/keys.go:30-31 | Splitting at a separator undoes joining parts that lack it |
| `Text.AtoiUndoesDecimal` | internal/items/keys.go:36-39 | Reading a printed 64-bit number gives it back |
| `SourceRoots.LocalisesIff` | internal/sources/titles.go:230-237 | A reported path is accepted exactly when its cleaned segments extend the root's; the relative part is what lies below |
| `SourceRoots.LocalisedBelowLocalPath` | internal/sources/titles.go:230-237 | The local path is the local root followed by that relative part |
| `SourceRoots.LocaliseIsInjective` | internal/sources/titles.go:230-237 | Two paths reported to one source share a local path only if they name the same file |
| `Paths.OverlapsIffPrefix` | internal/sources/sources.go:214-221 | On clean absolute roots the string test is the prefix test on segments |
| `Paths.ShowKeepsSegments` | internal/sources/titles.go:236-236 | A cleaned path parses back to the segments it was printed from |
| `SourceRoots.BothAcceptIff` | internal/sources/titles.go:230-237 | Some path is accepted for two sources exactly when one root lies in the other |
| `SourceRoots.BothAcceptIffCleanedOverlap` | internal/sources/titles.go:230-237 | Whatever the roots, some path is accepted for two sources exactly when both roots are absolute and overlap once cleaned |
| `SourceRoots.OverlapCheckIsRightIff` | internal/sources/sources.go:214-221 | On absolute roots the check of a pair is right if and only if cleaning both roots first would not change its answer |
| `SourceRoots.CleaningMakesTheCheckExact` | internal/sources/sources.go:192-212 | In a named, absolute configuration no reported path belongs to two sources exactly when its cleaned roots would be accepted; the check as written is right exactly when it answers the same |
| `SourceRoots.ShareNoPathIff` | internal/sources/sources.go:192-212 | No reported path belongs to two sources of a configuration exactly when no two of its cleaned roots overlap |
| `SourceRoots.OverlapCheckIsExact` | internal/sources/sources.go:214-221 | On clean roots the check refuses a pair exactly when they would share a reported path |
| `SourceRoots.AcceptedRootsShareNoPath` | internal/sources/sources.go:192-212 | In an accepted configuration of clean roots no reported path belongs to two sources |
| `SourceRoots.UntidyRootsSlipThrough` | internal/sources/sources.go:214-221 | The failing family: /a/../b beside /b is accepted and both own the same files |
| `SourceRoots.ShareLocalPathIff` | internal/sources/titles.go:230-237 | Two sources can be given one local path, and so one file row, exactly when one cleaned local directory lies in the other, steps up out of a relative one aside |
| `SourceRoots.ShareLocalPathIffCleanedOverlap` | internal/sources/titles.go:230-237 | For absolute directories: exactly when the overlap check, handed the cleaned local paths, would refuse them |
| `SourceRoots.ShareNoFileIff` | internal/sources/sources.go:192-212 | No file row is fought over by two sources of a configuration exactly when no two local directories overlap that way |
| `SourceRoots.OneLocalPathSlipsThrough` | internal/sources/sources.go:192-221 | The failing family: the roots /a and /b with one local directory are accepted side by side and are given the same local paths |
| `Ownership.SeriesReportOwn` | internal/sources/titles.go:202-237 | Whatever Sonarr answers, every path of its titles is one the source can place |
| `Ownership.MoviesReportOwn` | internal/sources/titles.go:58-98 | So is every path of the titles of whatever Radarr answers |
| `Ownership.RunsKeepOwn` | internal/sources/refresh.go:46-74 | Over every run, the files held under a source stay ones it can place, for the refreshed source and for every other |
| `Ownership.RunsSpareOthers` | internal/items/itemsources.go:26-50 | When two sources share no local path, every run of a refresh of the one, finished or not, leaves every file row of the other as it was |
| `Ownership.SparesIffNoLocalPathShared` | internal/items/itemsources.go:26-50 | And only then: the refreshes of one source spare the files of the other if and only if no local path is shared |
| `Ownership.RowIsTaken` | internal/items/itemsources.go:26-50 | The failing input: a film reported where another source's file is takes its row |
| `SourceRoots.Roots` | internal/sources/sources.go:192-212 | Accepts exactly the configurations whose roots are named and pairwise apart |
| `SourceRoots.Registry.Update` | internal/sources/sources.go:132-190 | All or nothing, refused for the roots or for the first entry refused in its turn; on success sources and bindings are those of the last entry of each listed url and no others, and stored roots are pairwise apart |
| `SourceRoots.NothingRefusedIff` | internal/sources/sources.go:149-186 | No entry is refused exactly when each, in its turn, names a valid variable, a free name and each library once |
| `SourceRoots.Registry.Bind` | internal/sources/sources.go:171-185 | Replaces one source's bindings by the configured ones; refused exactly when a library is listed twice |
| `SourceRoots.StoredIsDisjoint` | internal/sources/sources.go:132-190 | Rows stored from an accepted configuration, one a url, are pairwise apart |
| `Sweep.Table.SweepUnreachable` | internal/items/items.go:479-513 | Terminates; deletes the disturbed live playable items without a file and then exactly the least set of folders closed under having children and all of them deleted; with nothing disturbed it does nothing |
| `Sweep.Table.Sweep` | internal/items/sweep.go:20-27 | The same with every live item disturbed; no live folder is left with children but no live one |
| `Sweep.EarlyReturnIsRightIff` | internal/items/items.go:480-482 | Called with no items, returning early is the fixpoint if and only if no live folder has children but no live one |
| `Sweep.JobSweepsToTheFixpoint` | internal/items/sweep.go:20-27 | From the job the early return never shows: the result is always the least fixpoint, with no such folder left |
| `Sweep.LeastIsUnique` | internal/items/items.go:493-512 | That least set is unique |
| `Sweep.AnyOrderSweepsTheSame` | internal/items/items.go:493-512 | Deleting eligible folders one at a time, in any order, until none is left reaches the same tree |
| `Sweep.SweepTwiceIsOnce` | internal/items/items.go:479-513 | A second sweep of the same items is a no-op |
| `Sweep.SweepKeepsDeletionDownward` | internal/items/items.go:479-513 | From a tree where no deleted item has a live child, the sweep keeps that if and only if no item it deletes for want of a file keeps a live child |
| `Sweep.LeavesSweepSafely` | internal/items/items.go:479-513 | So it is kept when playable items have no children |
| `Sweep.SweepJobOutcome` | internal/items/sweep.go:20-27 | After the job a film or episode lives exactly if it has a file, and a folder exactly if it is childless or has a live child |
| `ItemGraph.Subtree` | internal/items/delete.go:50-64 | Terminates on every parent graph, cycles included; lists without duplicates exactly what the root reaches through live children |
| `ItemGraph.Ancestors` | internal/items/items.go:164-196 | Terminates on every graph; lists distinct live ancestors up to a root or a repetition, and fails exactly at a deleted parent |
| `ItemGraph.AncestorsAreSubtreeRoots` | internal/items/items.go:183-195 | Duality: for live x and any other a, a is among the ancestors exactly when x is in the subtree of a, cycles included |
| `ItemGraph.ClosedIsReached` | internal/items/delete.go:50-64 | A closed set of reached items holding the root is everything reached |
| `Deletion.Database.DeleteItem` | internal/items/delete.go:17-48 | Leaves no file, stream, image or user-data row of any item below the root and changes no other such row |
| `Deletion.Cascade` | internal/store/entities/item.go:54-56 | The cascade from the root, followed through live and deleted children and cycles, removes exactly what it reaches |
| `Deletion.TakesOnlyTheLiveSubtreeIff` | internal/items/delete.go:50-64 | What disappears is the live subtree if and only if no soft-deleted item hangs from it |
| `Deletion.OthersKeepTheirRowsIff` | internal/items/delete.go:17-48 | Items outside the live subtree keep all their rows if and only if the same condition holds |
| `Deletion.SweptEpisodeLosesItsWatchState` | internal/store/entities/item.go:54-62 | The failing input: deleting a season loses the watch state of an episode swept earlier |
| `Deletion.RemovalKeepsReferences` | internal/items/delete.go:17-48 | Every remaining row still refers to a remaining item or file |
| `Expansion.Shelf.Expand` | internal/playlists/playlists.go:403-437 | Answers the specification's depth-first leaves of the items asked for, in order, whenever the recursion returns |
| `Expansion.ReturnsIffNoLoop` | internal/playlists/playlists.go:439-463 | The recursion returns if and only if no folder reached from the items asked for lies below itself |
| `Expansion.HeightsExistIffReturns` | internal/playlists/playlists.go:439-463 | The heights the specification asks for exist exactly when the recursion returns |
| `ItemsTable.RunsKeepNested` | internal/items/refresh.go:62-83 | Over every run of a refresh, items keyed as scans key them keep the kind their key names, every parent is present, and a folder ranks below its parent (season below series) |
| `ItemsTable.SeriesAreTitled` | internal/sources/titles.go:100-200 | Whatever Sonarr answers, its titles are keyed, typed and parented that way |
| `ItemsTable.MoviesAreTitled` | internal/sources/titles.go:58-98 | So are the titles of whatever Radarr answers |
| `ItemsTable.NestedStoreReturns` | internal/playlists/playlists.go:439-463 | So on a store whose folders are nested by kind every expansion returns |
| `ItemsTable.ScanIsRescan` | internal/items/metadata.go:132-148 | The refresh's upsert does to the title columns what a scan does under the locks |
| `ItemsTable.ViewsShow` | internal/items/items.go:164-196 | The graph shows each row's own kind, parent and deletion, the shelf its kind, parent and index number |
| `ItemsTable.StoreParentsExist` | internal/items/items.go:164-196 | A store whose foreign keys hold is a graph the ancestor walk accepts |
| `Expansion.ExpansionIgnoresHeight` | internal/playlists/playlists.go:403-463 | The termination measure does not show in the answer |
| `Expansion.FolderExpandsToItsLeaves` | internal/playlists/playlists.go:439-463 | A folder expands to exactly the non-folders some chain of folders leads to |
| `Expansion.ExpansionIsDepthFirst` | internal/playlists/playlists.go:403-463 | The recursion emits what an explicit depth-first stack walk emits, in the same order |
| `Expansion.LowerIndexComesFirst` | internal/playlists/playlists.go:439-463 | Of two children of which one sorts first, by index number and then by sort name, all its leaves come before all of the other's |
| `Expansion.NotAfterIsTheOrder` | internal/playlists/playlists.go:439-446 | Children are ordered by index number, those without one last, and by sort name among equals; any children can be put in that order |
| `Expansion.ExpansionIsPlayable` | internal/playlists/playlists.go:403-437 | Only films, episodes, audio, audio books, trailers, videos and playlists are ever answered |
| `Expansion.ExpansionDistributes` | internal/playlists/playlists.go:403-437 | Expansion distributes over concatenation |
| `Expansion.ExpansionHasNoFolders` | internal/playlists/playlists.go:403-437 | No folder and no unknown item is ever answered |
| `Expansion.ExpansionIsIdempotent` | internal/playlists/playlists.go:403-437 | Expanding an expansion changes nothing |
| `PlaylistRows.EveryRunMirrors` | internal/playlists/playlists.go:222-315 | Over every run of adding, removing, moving and replacing, each playlist's sort orders are 0 to n-1 and its listing is what the same run does to plain sequences |
| `PlaylistRows.StepMirrors` | internal/playlists/playlists.go:222-315 | One call on any playlist keeps that, for it and for all others |
| `PlaylistRows.MoveRefines` | internal/playlists/playlists.go:267-315 | On a dense playlist the range shift is remove-at then insert-at, in both directions, and no other playlist changes |
| `PlaylistRows.AppendRefines` | internal/playlists/playlists.go:465-477 | On a dense playlist numbering from the count is concatenation |
| `PlaylistRows.RemoveRefines` | internal/playlists/playlists.go:245-265 | From any sort orders, removal is filtering and ends dense |
| `PlaylistRows.RenumberRestores` | internal/playlists/playlists.go:479-490 | From any sort orders, renumbering ends dense and shows the same order |
| `PlaylistRows.ReplaceRefines` | internal/playlists/playlists.go:146-191 | Replacing the items shows exactly the new entries, dense |
| `PlaylistRows.SortedIsUnique` | internal/playlists/playlists.go:391-401 | The order by sort order and identifier is determined |
| `PlaylistRows.AppendLandsLastIff` | internal/playlists/playlists.go:222-243 | From any sort orders, gaps and ties included, added entries are listed last and in order if and only if every entry has a lower order than the count, or that order and a lower identifier than the first new one |
| `PlaylistRows.SpreadAppendsLastIff` | internal/playlists/playlists.go:222-243 | When no two orders agree, that is: the playlist is dense, or one entry stands at the count and the drawn identifier wins the tie |
| `PlaylistRows.BelowCountIffDense` | internal/playlists/playlists.go:222-243 | When no two orders agree, all are below the count exactly when the playlist is dense |
| `PlaylistRows.MoveLists` | internal/playlists/playlists.go:267-315 | From any sort orders: when no two other entries change places, and none is tied with an entry moved to the order it has, a move shows the others in their order with the moved one behind those ahead of its new order |
| `PlaylistRows.MoveRefinesIff` | internal/playlists/playlists.go:267-315 | From any sort orders, gaps and ties included: a move is remove-at then insert-at if and only if as many other entries are ahead of the new place as its index says and no two others cross; a move to the order it has, if and only if it stands there already |
| `PlaylistRows.MovedEntryLands` | internal/playlists/playlists.go:267-315 | From any sort orders the moved entry is listed behind exactly the others that are ahead of its new place |
| `PlaylistRows.SpreadMoveLists` | internal/playlists/playlists.go:267-315 | When no two orders agree, a move shows the other entries in their order with the moved one behind those ahead of its new order |
| `PlaylistRows.SpreadMoveRefinesIff` | internal/playlists/playlists.go:267-315 | And is remove-at then insert-at if and only if as many other entries are ahead of the new place as its index says |
| `PlaylistRows.CascadeLeavesGap` | internal/store/entities/item.go:64-64 | Deleting the item of the middle one of three entries leaves the orders 0 and 2 |
| `PlaylistRows.CascadeThenAddMisplaces` | internal/playlists/playlists.go:222-243 | The failing input: on those, an added entry ties with the last one and is listed before it when it drew the lower identifier |
| `PlaylistRows.CascadeThenMoveStays` | internal/playlists/playlists.go:267-315 | The failing input: on those, moving the first entry to index 1 changes nothing in the listing |
| `PlaylistRows.CascadeThenMoveCrosses` | internal/playlists/playlists.go:267-315 | The failing input: two entries added after a cascade, one of them tied with the last; moving one to the end makes two others change places |
| `PlaylistRows.TwoAreAdded` | internal/playlists/playlists.go:222-243 | Those four rows are what adding two entries after the cascade leaves |
| `Playlists.Service.Create` | internal/playlists/playlists.go:71-114 | A new playlist shows the expansion of the items in order, or nothing is written |
| `Playlists.Service.AddItems` | internal/playlists/playlists.go:222-243 | Refused exactly without a playlist; on a dense playlist the listing grows by the expansion at its end, on any other exactly under the condition above |
| `Playlists.Service.RemoveEntries` | internal/playlists/playlists.go:245-265 | Refused exactly without a playlist; the survivors keep their order and are dense |
| `Playlists.Service.MoveEntry` | internal/playlists/playlists.go:267-315 | Each refusal with its condition, in the order checked, changing nothing; otherwise remove then insert on a dense playlist, and on any other exactly under the condition above |
| `Playlists.Service.Update` | internal/playlists/playlists.go:146-191 | Refused, nothing changes; given items, the listing becomes their expansion |
| `Playlists.Service.OrderedEntries` | internal/playlists/playlists.go:391-401 | Answers the listing |
| `Playlists.Service.RenumberEntries` | internal/playlists/playlists.go:479-490 | Gives every listed row its position and touches no other |
| `Playback.PlanFor` | internal/items/playback.go:94-151 | The nested loops with early return and four accumulators compute the closed form over profiles and conditions |
| `Playback.TryNames` | internal/items/playback.go:118-132 | The inner loop hands the file over exactly if the profile does, and never overwrites an earlier choice |
| `Playback.OrderDoesNotMatter` | internal/items/playback.go:94-151 | The change depends on which profiles and conditions were declared, not on order or repetition |
| `Playback.MoreCapableCostsNoMore` | internal/items/playback.go:94-151 | Adding profiles or dropping conditions never makes the change worse |
| `Conditions.OneProfileDecides` | internal/items/playback.go:94-151 | What one profile asks for, from the names it declares: nothing, a copy, or the encoding of exactly the streams whose codec it does not name |
| `Conditions.CheapestProfileDecides` | internal/items/playback.go:94-151 | Several profiles ask for what the least demanding of them does alone; none ask for nothing |
| `Conditions.ConditionsAddUp` | internal/items/playback.go:102-107 | Several conditions leave a file as it is exactly when each of them alone does |
| `Conditions.EqualsAnyDecides` | internal/items/playback.go:153-181 | EqualsAny, over each named column: the file is handed over exactly when the column is empty or one of the values listed with either separator, blanks and case aside |
| `Conditions.NotEqualsDecides` | internal/items/playback.go:182-183 | NotEquals, over each named column: exactly when the column is empty or differs from the value, case aside |
| `Conditions.LessThanEqualDecides` | internal/items/playback.go:184-187 | LessThanEqual with a readable limit, over level, width, height and bitrate: exactly when that column is absent, zero or within it |
| `Conditions.NumbersAreNotNames` | internal/items/playback.go:164-183 | EqualsAny and NotEquals never refuse a number column |
| `Conditions.NamesAreNotNumbers` | internal/items/playback.go:154-187 | LessThanEqual never refuses a named column |
| `Conditions.OtherLimitsDecide` | internal/items/playback.go:184-187 | A limit that cannot be read or is infinite refuses nothing; minus infinity and not-a-number refuse every stored number but zero |
| `Conditions.UnknownPasses` | internal/items/playback.go:172-190 | A property or verb the program does not know refuses nothing |
| `Conditions.OtherCodecsPass` | internal/items/playback.go:103-106 | A condition on a codec the picture does not have, or without a picture, decides nothing |
| `Conditions.FailingNeedsThePicture` | internal/items/playback.go:45-47 | A condition that fails asks for the picture to be encoded, which is not available |
| `Conditions.ListsIff` | internal/items/playback.go:192-204 | A declared list, with either separator, names exactly its entries, blanks and case aside; an empty list or value refuses nothing |
| `Conditions.ContainerIs` | internal/items/playback.go:236-242 | The container is the stored one, else what follows the last dot of the file name, in lower case |
| `Conditions.NoContainer` | internal/items/playback.go:236-242 | A file whose name has no dot is in no container unless one is stored |
| `Conditions.FormatsAre` | internal/transcode/transcode.go:29-67 | Which containers hold a picture, which audio codec each is written with, and what replaces a container that holds none |
| `Conditions.AvailableIff` | internal/items/playback.go:45-47 | Everything short of encoding the picture is available |
| `Conditions.ComesOutWritable` | internal/items/playback.go:118-151 | Whatever is declared, a copy or an audio encode comes out in one of the two containers that hold a picture, encoded audio as aac |
| `Playback.CopyIsJustified` | internal/items/playback.go:141-142 | A copy goes into the first container of the first profile that takes both streams |
| `Playback.EncodeIsJustified` | internal/items/playback.go:143-147 | Audio is encoded for a container whose codec some profile declares, or into the fallback exactly when none does |
| `Playback.CopyIntoFindsOne` | internal/items/playback.go:126-128 | A container to copy into is found exactly when some profile takes both streams |
| `Playback.EncodeIntoFindsOne` | internal/items/playback.go:129-131 | A container to encode for is found exactly when some profile declares one with its own audio codec |
| `SourceChoice.SourceFor` | internal/items/playback.go:61-92 | The two errors exactly when there is no file and when no file can be played, whatever the heights; otherwise a playable plan, and when no comparison wraps the best by height, bitrate, size and input order |
| `SourceChoice.RankIs` | internal/items/playback.go:224-233 | The height compared is that of the first picture, nothing without one; absent bitrates and sizes count as zero |
| `SourceChoice.BetterIsLexicographic` | internal/items/playback.go:71-83 | Better compares the columns height, bitrate and size in that order, absent ones as zero |
| `SourceChoice.CompareIsBetterIff` | internal/items/playback.go:71-83 | The comparison means better-than if and only if the 32-bit subtraction of heights does not wrap |
| `SourceChoice.NaturalHeightsCompare` | internal/items/playback.go:72-74 | Non-negative heights never wrap |
| `SourceChoice.WrappedHeightsInvert` | internal/items/playback.go:72-74 | The failing input: a large height against a negative one is ranked below it |
| `SourceChoice.SortStable` | internal/items/playback.go:70-83 | A permutation, and stably sorted by the three keys when no comparison wraps |
| `SourceChoice.ChoiceIsUnique` | internal/items/playback.go:61-92 | At most one file meets the choice's specification |
| `SourceChoice.NothingBetterPlays` | internal/items/playback.go:61-92 | No strictly better file than the chosen one can be played |
| `SourceChoice.BestSource` | internal/items/preferred.go:3-12 | None exactly on no files; otherwise nothing is richer and everything listed before it is poorer |
| `SourceChoice.RichestIff` | internal/items/preferred.go:3-21 | No file has a higher bitrate, none of that bitrate a larger size, and none before it both the same |
| `SourceChoice.RichestIsUnique` | internal/items/preferred.go:3-21 | That determines the file: the head of a stable sort |
| `TitleLocks.LockedTitleIsTheUsers` | internal/items/metadata.go:150-163 | Over every interleaving of scans, edits and two-step identifications, a locked title is what the users' edits alone would have written, until an edit drops the lock |
| `TitleLocks.EditClaimsTheTitle` | internal/items/metadata.go:150-177 | An edit after which the name, sort name or year is another, with no identification under way, starts such a run |
| `TitleLocks.EditLocks` | internal/items/metadata.go:150-177 | From the columns: an edit that changes the name, the sort name or the year leaves the Name lock; one that changes none of them leaves the locks it lists, else those there were |
| `TitleLocks.UpdatedColumns` | internal/items/metadata.go:49-77 | Each column takes what is given for it and otherwise stays |
| `TitleLocks.ScanWritesTheTitleIff` | internal/items/metadata.go:132-148 | A scan writes the title exactly without provider identifiers, without the item's lock and without the Name lock |
| `TitleLocks.LocksGuardBetweenEdits` | internal/metadata/locks.go:5-28 | Between edits each lock stays and its fields keep their values |
| `TitleLocks.StrippedFields` | internal/metadata/locks.go:5-28 | Each field is withheld exactly when its lock is held; the year and everything else passes |
| `TitleLocks.Draft.StripLockedFields` | internal/metadata/locks.go:5-28 | Clearing field by field, lock by lock, in place gives that answer |
| `TitleLocks.StaleIdentificationUndoesEdit` | internal/metadata/metadata.go:76-91 | An identification that read before an edit and writes after it leaves the edited title if and only if the title was already locked when it read or it answers the same names |
| `TitleLocks.IdentifiedIgnoresScans` | internal/items/metadata.go:132-148 | Once provider identifiers are set a run is the run without its scans |
| `TitleLocks.Item.EditMetadata` | internal/items/metadata.go:150-163 | Writes what is set; when it changes the title as read the row has the Name lock afterwards, else the locks it lists or had |
| `TitleLocks.Item.Identify` | internal/metadata/metadata.go:76-91 | Writes the answer less what the locks read withhold, and nothing without a match |
| `QuickConnect.RedeemedForTheFirstApprover` | internal/quickconnect/quickconnect.go:89-124 | A redemption succeeds only before expiry, for the first user who approved that request's code while it was live |
| `QuickConnect.RedeemedAtMostOnce` | internal/quickconnect/quickconnect.go:25-28 | A secret is redeemed at most once, over every run with a non-decreasing clock and fresh secrets |
| `QuickConnect.RowHistory` | internal/quickconnect/quickconnect.go:42-102 | Every stored request has an origin and, if authorised, the first live approval of its code |
| `QuickConnect.StoredIff` | internal/quickconnect/quickconnect.go:42-124 | A live row is stored under a secret exactly while a request for it is outstanding, in every orderly history |
| `QuickConnect.RedeemableIff` | internal/quickconnect/quickconnect.go:104-124 | A redemption hands a user over exactly when a request is outstanding and that user approved it first |
| `QuickConnect.AuthorizableIff` | internal/quickconnect/quickconnect.go:89-102 | A code can be approved exactly while it is that of an outstanding request without a live approval before |
| `QuickConnect.AcceptedIff` | internal/quickconnect/quickconnect.go:42-73 | A request is accepted exactly when no outstanding request has its code |
| `QuickConnect.CodesStayUnique` | internal/quickconnect/quickconnect.go:42-73 | No two stored requests share a code, in every run |
| `QuickConnect.SweepIsUnobservable` | internal/quickconnect/quickconnect.go:42-50 | Deleting expired rows changes no later answer of polling, authorising or redeeming |
| `QuickConnect.OnlyAskingNeedsTheSweep` | internal/quickconnect/quickconnect.go:42-73 | Only a new request can notice: exactly when its secret or code is held by expired rows alone |
| `QuickConnect.Service.Initiate` | internal/quickconnect/quickconnect.go:42-73 | Sweeps, then inserts unless the secret or code is taken; a refused insert leaves the sweep done |
| `QuickConnect.Service.Pending` | internal/quickconnect/quickconnect.go:75-87 | On every orderly history: answered exactly while a request for the secret was accepted, has not expired and nothing has taken it away, and with that request's code, expiry and first approver |
| `QuickConnect.Service.Authorize` | internal/quickconnect/quickconnect.go:89-102 | Told ok exactly when a row changes, at most one; on every orderly history exactly when the code is that of an outstanding request nobody has approved while it was live |
| `QuickConnect.Service.Redeem` | internal/quickconnect/quickconnect.go:104-124 | On every orderly history: hands a user over exactly if such a request is outstanding and that user was the first to approve its code while it was live; the row goes with it |
| `QuickConnect.Service.UserRemoved` | internal/store/migrations/20260926040856_quick_connect_requests.sql:15-15 | With a user go exactly the requests that user authorised; every other stays as it was |
| `Jobs.EveryScheduleDrains` | internal/jobs/jobs.go:120-133 | Every schedule of every queue empties and stays empty, whatever is retried, lost or enqueued meanwhile |
| `Jobs.StepFalls` | internal/jobs/client.go:93-117 | Each step lowers the attempts left and steps left at its job's rank and raises neither at or above it |
| `Jobs.StepStaysSound` | internal/jobs/jobs.go:29-29 | No workflow is attempted more than eight times or runs twice at once |
| `Jobs.LibraryFanOut` | internal/libraries/refresh.go:31-81 | The two library jobs enqueue only their own fan-out, and one job a distinct source |
| `Jobs.FanOutIs` | internal/items/refresh.go:97-104 | Every place where a job enqueues another is within its fan-out, and the remaining jobs enqueue nothing |
| `Jobs.SucceededHasEnqueued` | internal/jobs/client.go:93-117 | However other workflows run in between, one that succeeds has enqueued every job it was to |
| `Jobs.EnqueuedAllHolds` | internal/jobs/client.go:93-117 | After enqueueing, exactly what ran before and what was asked for runs, each once, and what is new waits unattempted |
| `Jobs.QuotesComeOff` | internal/jobs/jobs.go:61-64 | A parameter enters the identifier without the quotes around it and otherwise as written |
| `Jobs.LibraryJobsAre` | internal/libraries/refresh.go:31-46 | Each library has a job identified by the library alone |
| `Jobs.SourceJobsAre` | internal/libraries/refresh.go:48-81 | Each source bound to a library has a job identified by the two |
| `Jobs.Client.Enqueue` | internal/jobs/client.go:93-117 | Enqueueing what already runs adds nothing; otherwise one workflow is added |
| `Jobs.Client.RefreshAll` | internal/libraries/refresh.go:31-46 | Adds one job a library, duplicates joining; afterwards every library has its own running |
| `Jobs.Client.RefreshOne` | internal/libraries/refresh.go:48-81 | Adds one job a source bound to the library; afterwards every one has its own running |

## Left out

- SourceChoice.SourceFor: which file is chosen when a height comparison wraps is not stated beyond its being playable, because the library's stable sort promises no order for an inconsistent comparison.
- Handover.CompletesIffNoRing: its runs may retry for ever; Retries states the same with eight attempts a job.
- Retries.NoScheduleGivesUpIff: the time limit of a workflow is a lost attempt like any other, not a clock.
- LeftoverRounds.HarmlessIff: the snapshot is files, holders, live items with their parents and memberships; which scan wrote an item's title columns, index numbers and dates last is not stated, and the refresh beside the earlier jobs prunes once.
- Convergence.SharedSourceCommutes: is about completed refreshes one after the other; SharedSource interleaves them.
- Convergence.CompletedHoldsTheSnapshot: titles sharing one path (episodes stored in one file) are excluded, because the upsert by path then keeps whichever job wrote last.
- Playlists.Service.Create: shares are one flag, accepted or refused; their rows and permission checks are not modelled.
- Playlists.Service.Update: the name, open access and share rows it may also write are not modelled.
- Playlists.Service.AddItems: the listing is stated for fewer than 2^31 entries, the range of the sort order column; the rows themselves are stated without that bound.
- Playlists.Service.MoveEntry: takes the playlist to have at most 2^31 entries.
- Expansion.Shelf.Expand: takes the folders reached from the items asked for to be free of cycles, because the recursion in the code does not return otherwise (ReturnsIffNoLoop).
- Deletion.Database.DeleteItem: covers files, streams, images, user data and items; memberships, credits, genres, studios, playlists and log entries cascade or stay without being modelled.
- TitleLocks.Item.EditMetadata: people, genres and studios replaced beside the columns, and the rating number, dates, index numbers, status and run time it may also write, are not modelled, and the year is not claimed to survive a lock, as no lock withholds it.
- TitleLocks.Item.Identify: the artwork saved afterwards is not modelled.
- QuickConnect.Service.Initiate: the device is one opaque value, and the randomness of secrets is the assumption that none is drawn twice.
- Jobs.Client.Enqueue: the identifier hashes the parameters with SHA-1; the hash is taken to be injective.
- SourceRoots.Registry.Update: that deleting a source cascades to its files and memberships is not modelled.
- Titles.MovieTitles: a failing request to a downloader aborts the refresh and is left out; which titles are tagged is a parameter, answered by Titles.TagFilter.
- Text.AtoiUndoesDecimal: strings are ASCII; case folding and white space beyond ASCII are not modelled.
- Playback.PlanFor: the numbers ParseFloat reads are exact, so rounding of limits is not modelled.
- The identifiers that pruning returns, and timestamps other than quick connect's and the modification times.
- ffprobe, the job that probes files, and the provider's HTTP requests.
- Browsing, search, paging, next-up, resume and counting queries; sessions, API keys, display preferences and configuration; HTTP routing and the encoder process: plumbing, or easy members.
- Isolation between concurrent transactions below the level of one statement.
