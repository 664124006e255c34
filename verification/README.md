# Backup desktop tool — a Dafny model of its core

The repository is a PyQt desktop program that copies chosen folders and files into a
destination folder. It runs on demand, for one tab or for all tabs, or on a schedule
(daily, weekly or monthly at a set time). Under the widgets sit several pieces of
sequential logic, and this project models them:

- **The scheduler** (`calendar.dfy`, `schedule.dfy`).
  - `calculate_next_backup_time`, over a proleptic Gregorian calendar with Python's ordinal
    numbering (0001-01-01 is day 1, Monday is weekday 0).
  - The minute tick `check_backup_time`, and the start and stop of the timer.
  - The range defaulting applied to the stored weekday and day of month.
  - `datetime.now()` is a parameter.
- **Path names** (`paths.dfy`).
  - Paths are sequences of components.
  - Python's `os.path.splitext` on the last component.
  - The `_(N)` and timestamp candidates of `get_safe_destination_path`.
- **The file system** (`filesystem.dfy`).
  - A map from paths to entries: a file with its size, or a directory with its listing
    order.
  - `os.walk` over a snapshot, `os.listdir`, `os.makedirs(..., exist_ok=True)` and
    `shutil.copy2`.
  - A set of paths stands in for permission and I/O errors: copying from one, listing one or creating one as a directory raises.
- **The copy engine** (`engine.dfy`).
  - `BackupWorker` and `MultiTabBackupWorker`: the size computation, `perform_backup_safe`,
    `copy_tree_safe`, `get_safe_destination_path`, `update_progress_stats` and
    `perform_multi_tab_backup`.
  - Cancellation is an oracle that answers each read of the `cancelled` flag at the
    places the code reads it.
  - The free space of a destination is an input.
- **The tab helpers** (`tabs.dfy`).
  - `truncate_tab_title`.
  - The duplicate-free source lists, with add, remove and clear.
  - The size of a selection.
  - The queue that `start_backup_all_tabs` builds.
  - `validate_backup_conditions`.
- **The earlier versions** (`legacy.dfy`).
  - The single-file `perform_backup` of versions 1 to 3.
  - `calculate_interval` and `start_backup` of version 1.
  - `get_files_to_copy`, and `perform_backup` of version 4 with its destination mapping.

The central properties proved are these:

- The computed next run falls on the right day, after the clock reading. It is at most a
  day (daily) or a week (weekly) later, and for the monthly policy it is the clamped day
  of this month or of the next.
- A numbered destination name never exists and is the least free candidate.
- A backup run never removes anything.
  - Every entry it creates and every file it rewrites lies on the way to or inside the
    destination (of the tab, in a multi-tab run).
  - Every copy comes from a selected source.
  - Without history, no existing file is rewritten and every copy goes to a fresh,
    distinct name.
- The file counters equal the number of successful copies, less those discarded when a
  whole-folder copy raises. The outcome codes follow the cancellation, room and
  critical-error checks in the code's order.
- The sizes that are computed agree with the size of the selection when nothing cancels.

## Model

| member | source | states |
|---|---|---|
| Calendar.DaysInMonth | backup-app.py:1923-1925 | a month has 28 to 31 days, fewer than 30 exactly for February |
| Calendar.NextDay | backup-app.py:1901 | the day after a valid date is a valid date |
| Calendar.PrevDay | backup-app.py:1925 | the day before a valid date (other than the first) is a valid date |
| Calendar.AddDays | backup-app.py:1913 | `date + timedelta(days=n)` yields a valid date |
| Calendar.OrdinalNextDay | backup-app.py:1901 | the next day has the next ordinal |
| Calendar.OrdinalAddDays | backup-app.py:1913 | adding n days adds n to the ordinal |
| Calendar.WeekdayAddDays | backup-app.py:1905-1913 | adding n days moves the weekday by n modulo 7 |
| Calendar.PrevDayNextDay | backup-app.py:1925 | the day before the next day is the day itself |
| Calendar.OrdinalMonotone | backup-app.py:1898 | a date earlier in calendar order has a smaller ordinal |
| Calendar.BeforeIsLexicographic | backup-app.py:1898 | comparing instants is comparing (date, hour, minute, second, microsecond) lexicographically |
| Calendar.NextMonthFirst | backup-app.py:1923-1924 | `replace(day=28) + 4 days`, then day 1, is a valid date |
| Calendar.NextMonthFirstIsNextMonth | backup-app.py:1923-1924 | that date is the first of the next month, December rolling to January of the next year |
| Calendar.LastDayOfMonthIsDaysInMonth | backup-app.py:1925 | one day before the next month's first is the month's length |
| Calendar.DaysBeforeYearStep | backup-app.py:1913 | a year contributes its own length to the ordinal |
| Calendar.DaysBeforeMonthBound | backup-app.py:1913 | the days before a month plus its length fit in the year |
| Schedule.NextBackupTime | backup-app.py:1888-1942 | the result is a valid instant at the configured time of day |
| Schedule.MonthlyNext | backup-app.py:1915-1940 | the monthly branch yields a valid instant at the configured time |
| Schedule.AfterToday | backup-app.py:1901 | today's slot moved forward k ≥ 1 days lies after the clock, exactly k days later |
| Schedule.DailyNext | backup-app.py:1897-1901 | daily: strictly after now, at most one day later, today iff today's slot is still ahead, else tomorrow |
| Schedule.NoEarlierWeeklySlot | backup-app.py:1907-1913 | no day before the chosen offset is a future slot on the chosen weekday |
| Schedule.WeeklyOffset | backup-app.py:1907-1913 | the weekly result is the slot `days_ahead` days ahead, with 0 replaced by 7 when today's slot has passed |
| Schedule.WeeklyNext | backup-app.py:1903-1913 | weekly: on the chosen weekday (0 = Monday), strictly after now, 0 to 7 days ahead, and the earliest such slot |
| Schedule.WeeklyWithinAWeek | backup-app.py:1913 | a slot 1 to 7 days ahead is after now and within a week |
| Schedule.MonthlyNextSpec | backup-app.py:1915-1940 | monthly: not before now; this month's clamped day if that is not before now, else next month (year rollover) at the clamped day clamped again |
| Schedule.MonthEndLeapYear | backup-app.py:1918-1928 | day 31 asked in February 2024 gives 29 February |
| Schedule.MonthEndCommonYear | backup-app.py:1918-1928 | day 31 asked in February 2023 gives 28 February |
| Schedule.MonthlyCarriesClampedDay | backup-app.py:1926-1935 | day 31 asked late on 30 April gives 30 May: the clamped day is carried over |
| Schedule.WeeklyWrapsToNextDay | backup-app.py:1907-1913 | Monday 00:00 asked on Sunday 23:59 gives the next day |
| Schedule.LoadWeekday | backup-app.py:1728-1732 | a stored weekday in range is used, anything else gives 0 |
| Schedule.LoadMonthday | backup-app.py:1734-1738 | a stored day in 1..31 is used, anything else gives 1 |
| Schedule.LoadWeekdayKeepingCurrent | versions/backup-app_version_v3.py:368-370 | an out-of-range stored weekday leaves the current index |
| Schedule.SpinBoxMonthday | versions/backup-app_version_v3.py:373-374 | the spin box bounds the stored day to 1..31 |
| Schedule.LoadedPeriodIsValid | backup-app.py:1728-1738 | whatever was stored, the restored period is valid |
| Schedule.Scheduler.constructor | backup-app.py:1974-1978 | no next time exists before the first start (the `hasattr` test) |
| Schedule.Scheduler.StartBackup | backup-app.py:1944-1956 | starts the timer and sets the next time iff the conditions hold; otherwise nothing changes |
| Schedule.Scheduler.StartBackupFromSettings | versions/backup-app_version_v2.py:202-211 | starts iff source and destination are both set |
| Schedule.Scheduler.StopBackup | backup-app.py:1964-1972 | the timer stops and the next time is kept |
| Schedule.Scheduler.CheckBackupTime | backup-app.py:1974-1981 | a backup runs iff a next time exists and now ≥ it; then the next time is recomputed from the later clock reading |
| Schedule.NextTimeNotBeforeClock | backup-app.py:1974-1981 | the recomputed time is not before the clock (strictly after for daily and weekly), so a tick does not fire twice |
| Paths.LastDot | backup-app.py:185 | the last dot of a name, or -1 |
| Paths.SplitExt | backup-app.py:185 | stem + extension is the name; the extension is empty or one dot followed by no dot |
| Paths.SplitExtHasExtension | backup-app.py:185 | there is an extension iff a dot follows some non-dot character (leading dots are ignored) |
| Paths.NatToString | backup-app.py:194 | the decimal rendering of the counter is a non-empty digit string |
| Paths.DecimalRoundTrip | backup-app.py:194 | the rendering reads back as the counter |
| Paths.NumberedPath | backup-app.py:194 | a candidate stays in the same directory |
| Paths.TimestampedPath | backup-app.py:185-187 | the timestamped name stays in the same directory |
| Paths.NumberedNameInjective | backup-app.py:190-195 | different counters give different names |
| Paths.NumberedNameDiffers | backup-app.py:190-195 | no candidate equals the original name |
| Paths.NumberedPathsDistinct | backup-app.py:190-195 | candidates differ from the path and from one another |
| Paths.NumberedNameKeepsExtension | backup-app.py:194 | a candidate keeps the original extension |
| FileSystems.GrowsTransitive | backup-app.py:77 | growing without removals composes |
| FileSystems.PreservedTransitive | backup-app.py:77 | keeping existing files intact composes |
| FileSystems.FilesOf | backup-app.py:60-61 | the files of one walk step lie directly under the directory and are not directories |
| FileSystems.SubdirsOf | backup-app.py:60 | the dirs of one walk step are directories |
| FileSystems.Walk | backup-app.py:60-61 | every walked path lies strictly below the folder and is not a directory |
| FileSystems.WalkEach | backup-app.py:60-61 | the walks of the subdirectories lie below the folder |
| FileSystems.WalkComplete | backup-app.py:60-61 | every non-directory reachable through listings is walked |
| FileSystems.SizeOfAppend | backup-app.py:57-73 | sizes of concatenated lists add |
| FileSystems.WriteFile | backup-app.py:123 | a copy writes exactly one path, adding it to its directory and changing no other file |
| FileSystems.AddDir | backup-app.py:201 | a new directory is added and no file changes |
| FileSystems.FileSystem.constructor | backup-app.py:23-33 | the file system holds the given entries and failing set |
| FileSystems.FileSystem.MakeDirs | backup-app.py:117 | fails, changing nothing, iff the path is empty, a prefix is a file, or a missing prefix is one whose creation raises; otherwise the path is a directory, nothing is removed and only prefixes are created |
| FileSystems.FileSystem.MakeDirsAllowed | backup-app.py:117 | the checks along the path before anything is created: allowed iff `CanMakeDirs` |
| FileSystems.FileSystem.CreateMissingDirs | backup-app.py:117 | every prefix of the path becomes a directory, nothing existing changes and only prefixes are added, all directories |
| FileSystems.FileSystem.CreatedStep | backup-app.py:117 | creating the next missing prefix keeps that record |
| FileSystems.FileSystem.ListDir | backup-app.py:200 | lists a directory in its order; fails iff the path is not a directory, is beyond the depth limit or cannot be listed |
| FileSystems.FileSystem.Copy2 | backup-app.py:123 | writes at `CopyTarget`: inside a directory target under the source's name, else at the target; succeeds iff the source is a readable file and the target a non-directory in an existing directory; writes only the target |
| Engine.SizeOfPrefix | backup-app.py:57-73 | a prefix of a list has no more bytes than the list |
| Engine.FoldersSizePrefix | backup-app.py:57-68 | the first folders have no more bytes than all |
| Engine.TotalSizePrefix | backup-app.py:287-308 | the first tabs have no more bytes than all |
| Engine.PercentMonotone | backup-app.py:225-229 | the percentage never falls as bytes are copied and is 100 at the total |
| Engine.Percent | backup-app.py:228 | the percentage is the floor of copied·100 / total |
| Engine.PercentNotClamped | backup-app.py:228 | once k times the total has been copied the percentage is at least 100·k: nothing clamps it to 100 |
| Engine.CarriedTransitive | backup-app.py:76-176 | counters, growth and freshness compose over consecutive work |
| Engine.KeptTransitive | backup-app.py:76-176 | staying within the destination composes |
| Engine.KeptChain | backup-app.py:76-176 | two consecutive stretches of recorded work form one |
| Engine.MakeDirsKept | backup-app.py:117 | `makedirs` of a path inside the destination stays on the destination's path |
| Engine.WriteKept | backup-app.py:123 | a copy strictly inside the destination keeps the invariant, and to a fresh name in numeric mode |
| Engine.KeptAfterWrite | backup-app.py:123-129 | appending one copy to recorded work keeps the invariant |
| Engine.KeptWiden | backup-app.py:340-343 | work inside the dated folder is work inside the destination |
| Engine.Rebase | backup-app.py:113-114 | `relpath` then `join` puts a walked file strictly inside the target |
| Engine.TabsWithRoom | backup-app.py:332-335 | exactly the tabs with room are copied, in order |
| Engine.RoomMonotone | backup-app.py:235-251 | room for a requirement is room for less, and more free space has room for more; a raising query (`None`) counts as room |
| Engine.TabChain | backup-app.py:321-425 | one more tab's work extends the run's invariant |
| Engine.PrefixTransitive | backup-app.py:340-343 | prefixes of paths compose |
| Engine.DescendStep | backup-app.py:210-211 | a path below `src + [name]` has the same place below `dst + [name]` as below `src` under `dst` |
| Engine.StopsAtChain | backup-app.py:96-150 | a stretch of reads that all answered clear followed by one that stops at its last read stops at that read |
| Engine.CardinalitySubset | backup-app.py:193 | a subset has no more elements, bounding the `_(N)` search |
| Engine.Worker.NumberedSeenStep | backup-app.py:190-195 | each occupied `_(N)` candidate is a distinct existing path, so the search stops within the entry count |
| Engine.Worker.constructor | backup-app.py:23-33 | a fresh worker is not cancelled and has copied nothing |
| Engine.Worker.Cancel | backup-app.py:35-36 | after `cancel()` every read of the flag answers set |
| Engine.Worker.PollCancelled | backup-app.py:78 | one read of the flag; once set it stays set |
| Engine.Worker.PollRun | backup-app.py:98 | one of the run's own reads of the flag, appended to the record of those reads |
| Engine.Worker.SafeDestinationPath | backup-app.py:178-196 | `SafeName`: a missing path is kept; an existing one becomes the timestamp name with history, else the least free `_(N)` with N at most the entry count; without history the result does not exist; the directory is unchanged |
| Engine.Worker.SafeCopyLands | backup-app.py:120-123 | `copy2` to the safe name of a path lands at that path or its renamed form, or, with history, inside a timestamped directory of that name |
| Engine.Worker.UpdateProgressStats | backup-app.py:225-233 | emits the percentage iff the total is positive |
| Engine.Worker.CopyFile | backup-app.py:155-168 | the target is the safe name of the asked path; the copy succeeds iff `copy2` can copy the source to `CopyTarget` of that name; a success lands one file at the asked path or its renamed form, adds the source's size to the counters and reports one percentage; a failure changes nothing |
| Engine.Worker.CopyTo | backup-app.py:162-168 | succeeds iff `copy2` can copy the source to `CopyTarget` of the target; a success records one copy of the source's size, counts it and reports one percentage; a failure changes nothing |
| Engine.Worker.MakeDirsWithin | backup-app.py:117 | succeeds iff `os.makedirs` can create the path, and keeps the run's invariant |
| Engine.Worker.CopyTreeSafe | backup-app.py:198-223 | every copy lands at its relative path below `dst` or a renamed form of it; the counters are threaded; a raise leaves the flag as it was and names a path below `src` whose listing, `makedirs` or copy fails; with no raise and the flag clear, for a source apart from the target, the copies are exactly the tree's files in listing order |
| Engine.Worker.CopyListing | backup-app.py:203-223 | the loop over one listing: as `CopyTreeSafe`, stopping without raising when the flag is set; with no raise and the flag clear the copies are exactly the listed entries' files, in order |
| Engine.Worker.CopyListingStep | backup-app.py:203-221 | one turn over a listing: the copied files grow by that entry's files, or it stops for a set flag, or it raises at a failing path |
| Engine.Worker.CopyListedEntry | backup-app.py:207-221 | one listed name, a directory recursively and otherwise a file, landing below `dst`; with no raise and the flag clear its copies are exactly that entry's files |
| Engine.Worker.CopySubtree | backup-app.py:210-211 | the recursive call: copies from below `src + [name]` land below `dst + [name]` at the same relative path; with no raise and the flag clear they are exactly that subtree's files |
| Engine.Worker.CopyListedFile | backup-app.py:213-221 | raises iff the copy to the safe name of `dst + [name]` fails, and then changes nothing; otherwise it adds exactly one copy of that file, landing at `dst + [name]` or a renamed form |
| Engine.Worker.CopyFolderContents | backup-app.py:105-129 | the walk branch: the walk is taken at the start; the copies' sources are a prefix of it, and all of it unless it raises or stops; a raise comes at the first walked file not copied, whose `makedirs` or copy fails; a stop is for a set flag and is the last of the run's reads |
| Engine.Worker.CopyWalk | backup-app.py:107-129 | the loop over the walked files: the copies' sources are a prefix of them, all of them unless it raises or stops; a raise is at the first file not copied, for a failing `makedirs` or copy |
| Engine.Worker.CopyWalkStep | backup-app.py:108-129 | one walked file: the flag, then its copy; the copied prefix grows by that file, or it stops for a set flag, or it raises for that file |
| Engine.Worker.CopyWalkFile | backup-app.py:112-129 | one walked file after the flag: raises iff its `makedirs` or copy fails, otherwise the copied prefix grows by it |
| Engine.Worker.WalkPrefix | backup-app.py:107-108 | copies made in walk order are a prefix of the walk, one per file; all of it at the end |
| Engine.Worker.CopyWalkedFile | backup-app.py:112-129 | a failing `makedirs` of the file's directory raises with nothing changed; otherwise it raises iff the copy fails in the tree after `makedirs`; a success adds exactly that file's copy at its rebased path |
| Engine.Worker.CopyRebased | backup-app.py:120-129 | the copy of a walked file to its rebased path raises iff that copy fails; a success adds exactly that file's copy |
| Engine.Worker.CopySources | backup-app.py:96-171 | folders then files; copies come from the selection and each error names a source with a cause; the counters are the new copies and bytes less the discarded ones; it stops iff one of the run's reads answers set, and that read is the last; without a stop every existing standalone file was copied or reported, and with the flag clear every existing folder apart from the target had all its files in copy order copied, or was reported |
| Engine.Worker.CopySourceFolders | backup-app.py:96-145 | the folder loop: without a stop and with the flag clear every existing folder apart from the target had all its files copied, or was reported |
| Engine.Worker.CopySourceFiles | backup-app.py:147-171 | the file loop: without a stop every existing file was copied or reported |
| Engine.Worker.CopySourceFolder | backup-app.py:97-145 | one folder: a missing one is skipped with nothing written or reported; otherwise, without a stop, it is reported or, by contents or with the flag clear and the folder apart from the target, every file in its copy order was copied; a report has a cause |
| Engine.Worker.CopySourceFolderExisting | backup-app.py:104-145 | as `CopySourceFolder`, for a folder that exists |
| Engine.Worker.CopyFolder | backup-app.py:104-142 | contents or whole: copies come from below the folder; a raise has a cause (`FolderFails`); with no raise and no stop, by contents or with the flag clear and the folder apart from the target, the copies are exactly its files in copy order; the counters are the new copies and bytes less the discarded ones |
| Engine.Worker.CopyFolderWhole | backup-app.py:131-142 | the folder's files land below the safe name of the folder inside the target; a raise names a failing path below the folder, leaves the counters as they were and records the discarded files and bytes; with no raise and the flag clear the copies are exactly the folder's tree files |
| Engine.Worker.CopySourceFile | backup-app.py:148-171 | one standalone file: a missing one is skipped with nothing written or reported; otherwise, without a stop, it is reported iff its copy to its own name in the target fails, and else exactly one copy of it lands there or at a renamed form |
| Engine.Worker.CopySourceFileExisting | backup-app.py:155-171 | for an existing file: reported iff its copy fails, else exactly one copy of it lands at its own name in the target or a renamed form |
| Engine.Worker.ReportError | backup-app.py:144-145 | the status message: the source joins the errors together with its cause |
| Engine.Worker.BackupTarget | backup-app.py:85-89 | the run writes inside the destination |
| Engine.Worker.PerformBackupSafe | backup-app.py:76-176 | cancelled first, then no room, neither writing; the critical error iff neither and the dated folder is enabled, missing and cannot be created, with nothing written; otherwise copies inside the target from the sources only, never removing, counting the copies kept; on success every existing standalone file was copied or reported and, unless cancelled, every existing folder apart from the target was copied in full or reported; cancelled iff one of the run's reads answers set |
| Engine.Worker.BackupInto | backup-app.py:85-173 | the critical error iff the dated folder is enabled, missing and cannot be created, with nothing written; otherwise the sources are copied into the target: every existing standalone file copied or reported and, unless cancelled, every existing folder apart from the target copied in full or reported; cancelled iff one of the run's reads answers set |
| Engine.Worker.PrepareTarget | backup-app.py:86-91 | succeeds iff the dated folder is off, already exists, or `os.makedirs` can create it; a failure changes nothing; on success a non-file target is a directory |
| Engine.Worker.Run | backup-app.py:38-53 | the total is computed when absent; "nothing to copy" iff it is zero, with nothing written; a critical error only for a dated folder that cannot be made, and always for one when there is something to copy, room and no cancel; otherwise as `PerformBackupSafe`; cancelled iff one of the run's reads answers set |
| Engine.Worker.PerformMultiTabBackup | backup-app.py:310-425 | tabs in order; a tab without room is skipped and later tabs run; changes stay within the tabs' destinations and copies come from their tab; on success exactly the tabs with room were taken, each one's existing standalone files copied or reported and, unless cancelled, its existing folders apart from every destination copied in full or reported; the first tab with room whose dated folder cannot be made ends the run with the critical error, and that error needs the dated folder enabled; cancelled iff one of the run's reads answers set |
| Engine.Worker.CopyTabs | backup-app.py:321-420 | the tab loop: ends at a set flag or a critical error; otherwise every tab with room was taken in order and its sources copied or reported, and the first tab with room had a dated folder that could be made |
| Engine.Worker.CopyTabsStep | backup-app.py:321-420 | one turn of the tab loop extends the record of taken and handled tabs by tab i |
| Engine.Worker.TabsDone | backup-app.py:321-420 | at the end of the loop exactly the tabs with room were taken, each handled, and the first tab with room had a dated folder that could be made |
| Engine.Worker.TabsSoFarStep | backup-app.py:321-420 | one more tab keeps the record: the tabs with room in order, their handling and the first one's dated folder |
| Engine.Worker.TabsWithRoomStep | backup-app.py:332-335 | the tabs taken so far are the tabs with room among the first i |
| Engine.Worker.FirstRoomStep | backup-app.py:332-343 | the first tab with room is the one whose dated folder decides the critical error |
| Engine.Worker.TabsHandledStep | backup-app.py:321-420 | handling one more tab with room extends the handled prefix |
| Engine.Worker.TabLift | backup-app.py:337-420 | what `CopySources` promises for a tab, seen from the run's start, is that tab's handling |
| Engine.Worker.TabSourcesKept | backup-app.py:337-420 | a tab's sources copied inside its target keep the run's invariant |
| Engine.Worker.CopyTab | backup-app.py:321-335 | one tab: the flag, the room check, then its copying; critical iff the flag was clear, the tab has room and its dated folder cannot be made, writing nothing; a tab with room that ends without a stop or critical error has its sources copied or reported |
| Engine.Worker.CopyTabSources | backup-app.py:337-420 | critical iff the tab's dated folder cannot be made, writing nothing; otherwise its sources are copied or reported as in `CopySources` and the run's invariant extends with the counters and the run's reads |
| Engine.Worker.RunMultiTab | backup-app.py:270-285 | as `Run`, over the tabs, with the promises of `PerformMultiTabBackup` |
| Engine.Worker.FolderBytes | backup-app.py:57-68 | at most the folder's bytes, and exactly them unless cancelled |
| Engine.Worker.SourcesBytes | backup-app.py:55-74 | at most the selection's bytes, and exactly them unless cancelled |
| Engine.Worker.TabsBytes | backup-app.py:287-308 | at most the tabs' bytes, and exactly them unless cancelled |
| Tabs.TruncateTabTitle | backup-app.py:841-845 | a title of at most 14 characters is kept; a longer one becomes its first 11 and " ..." |
| Tabs.TruncateTabTitleIdempotent | backup-app.py:829 | truncating twice is truncating once, so an unchanged label is recognised |
| Tabs.AppendNew | backup-app.py:900-910 | the list grows by the chosen paths it lacked, and only those, and stays duplicate-free |
| Tabs.FirstIndex | backup-app.py:900-910 | the first position of a chosen path |
| Tabs.AppendNewOrder | backup-app.py:900-910 | the appended part is the chosen paths not yet listed, once each, in the order they were first chosen |
| Tabs.DistinctAppend | backup-app.py:873-880 | appending an absent path keeps the list duplicate-free |
| Tabs.RemoveFirst | backup-app.py:888 | `list.remove` drops the first occurrence |
| Tabs.RemoveFirstAt | backup-app.py:882-891 | in a duplicate-free list, removing the selected row's path removes exactly that row |
| Tabs.SourceList.constructor | backup-app.py:722-727 | a new tab has empty lists |
| Tabs.SourceList.AddFolder | backup-app.py:873-880 | a chosen, unlisted folder is appended; otherwise nothing changes |
| Tabs.SourceList.AddFiles | backup-app.py:900-910 | the chosen unlisted files are appended in order |
| Tabs.SourceList.RemoveSelected | backup-app.py:882-891 | no selection changes nothing; else the row and its path go |
| Tabs.SourceList.Clear | backup-app.py:893-898 | both lists become empty |
| Tabs.WalkedBytes | backup-app.py:1269-1285 | one folder's walked bytes are its size |
| Tabs.SelectionBytes | backup-app.py:1264-1295 | the tab's size is the size of its selection |
| Tabs.Queued | backup-app.py:1183-1201 | a tab's job is queued iff the tab has sources, a destination and a positive size |
| Tabs.JobOf | backup-app.py:1188-1199 | the job carries the tab's label, destination and sources and their size; a tab qualifies iff it has sources and a destination (`HasJob`) and a positive size, which implies a source |
| Tabs.QualifyingIndices | backup-app.py:1183-1192 | the positions of exactly the qualifying tabs, increasing |
| Tabs.QueuedAt | backup-app.py:1183-1201 | position by position, the queue is the jobs of the qualifying tabs in tab order |
| Tabs.QueuedSizes | backup-app.py:1190-1197 | every queued tab's size is positive and its own selection's size |
| Tabs.TotalZeroIffEmpty | backup-app.py:1200-1210 | the total is zero iff nothing is queued |
| Tabs.StartBackupAllTabs | backup-app.py:1176-1211 | the queue, its summed size, and a start iff some tab is queued |
| Tabs.ValidateBackupConditions | versions/backup-app_version_v7.py:1184-1208 | true iff sources, destination and bytes exist and the destination exists or `os.makedirs` can create it (no prefix a file, no missing prefix whose creation raises); nothing is changed otherwise |
| Legacy.CalculateInterval | versions/backup-app_version_v1.py:129-139 | seconds, minutes or hours in ms; any other unit one minute; a period of 1..999 gives 1 000 to 999·3 600 000 ms |
| Legacy.IntervalMonotone | versions/backup-app_version_v1.py:66-73 | the interval grows with the period and with the unit, in whole seconds |
| Legacy.StartBackup | versions/backup-app_version_v1.py:141-157 | refuses without source or destination; otherwise starts the timer and backs up once |
| Legacy.BackupName | versions/backup-app_version_v3.py:567-574 | timestamp before the extension with history, else the basename |
| Legacy.BackupNameDiffers | versions/backup-app_version_v2.py:386-396 | with history the copy's name differs from the source's |
| Legacy.SingleFileBackup | versions/backup-app_version_v1.py:173-199 | a missing source copies nothing; an existing destination is used, a missing one is created; it fails iff the source exists and the destination cannot be created or `copy2` cannot copy to the backup name; the copy holds the source's size; changes stay in the destination |
| Legacy.FolderFiles | versions/backup-app_version_v4.py:275-280 | every listed path is below some source folder |
| Legacy.RegularFiles | versions/backup-app_version_v4.py:283-285 | the standalone entries are selected regular files |
| Legacy.FilesToCopy | versions/backup-app_version_v4.py:270-287 | every listed path comes from the selection |
| Legacy.FilesToCopySize | versions/backup-app_version_v7.py:718-738 | the listed files' bytes are the selection's size |
| Legacy.FolderFilesSize | versions/backup-app_version_v4.py:275-280 | the walked files' bytes are the folders' size |
| Legacy.RegularFilesSize | versions/backup-app_version_v4.py:283-285 | dropping non-files does not change the byte count |
| Legacy.GetFilesToCopy | versions/backup-app_version_v4.py:270-287 | the folders' walks in order, then the standalone regular files |
| Legacy.WalkedFiles | versions/backup-app_version_v7.py:722-731 | the first loop lists each directory's walk |
| Legacy.StandaloneFiles | versions/backup-app_version_v7.py:733-736 | the second loop keeps the regular files |
| Legacy.MapAsWrittenEscapes | versions/backup-app_version_v4.py:750-758 | as written, a file named like a folder plus a suffix lands outside the destination |
| Legacy.StartsWith | versions/backup-app_version_v4.py:750 | `str.startswith` on the path strings: containment passes it, and a passing folder agrees with the file up to its last component |
| Legacy.RelocateAsWritten | versions/backup-app_version_v4.py:751-753 | `relpath` then `join`: a contained file keeps its relative path under the target; otherwise the result climbs to the target's parent |
| Legacy.MapAsWritten | versions/backup-app_version_v4.py:750-758 | the for-else as written: never above the target's parent; a file passing no folder's test goes under its name into the target; inside the target whenever every passing folder contains the file |
| Legacy.MapIntended | versions/backup-app_version_v4.py:748-758 | the mapping always lands strictly inside the target: a folder's file at its relative path, any other file under its name |
| Legacy.MappingsAgree | versions/backup-app_version_v4.py:750-758 | where the string test and containment agree, both mappings agree |
| Legacy.TargetV4 | versions/backup-app_version_v4.py:719-727 | the dated folder inside the destination when enabled, else the destination |
| Legacy.DestV4 | versions/backup-app_version_v4.py:748-766 | a listed file's destination: the intended mapping, timestamped when history is kept, strictly inside the target |
| Legacy.PerformBackupV4 | versions/backup-app_version_v4.py:711-785 | refuses without selection; fails, writing nothing, iff the missing target cannot be created; "nothing to copy" iff the list taken after that creation is empty; otherwise every listed file has a recorded turn, so it is copied iff it exists and `makedirs` and `copy2` can; counts exactly the successful copies, each landing at its `DestV4` or inside it; changes stay in the target |
| Legacy.CopyListV4 | versions/backup-app_version_v4.py:742-772 | the list is handled in order, one recorded turn per file: a missing file is skipped, and an existing one has its directory made and is copied iff `makedirs` and `copy2` can; the copies are exactly the successful turns, each landing at its `DestV4` or inside it |
| Legacy.CopyTurnV4 | versions/backup-app_version_v4.py:743-772 | one turn: a missing file is skipped; an existing one is recorded as a `ListedStepV4`, and its copy lands at its `DestV4` or inside it |
| Legacy.TraceV4Push | versions/backup-app_version_v4.py:742-772 | a recorded turn extends the loop's record and its copies |
| Legacy.ListSoFarPush | versions/backup-app_version_v4.py:742-772 | a recorded turn keeps the loop invariant: copies from the list prefix, landing where intended, within the target |
| Legacy.ListedCopiedIff | versions/backup-app_version_v4.py:761-769 | a recorded turn for an existing file whose directory can be made copies it iff it is a readable file, not its own target, and the target is not a directory |
| Legacy.CopiedV4 | versions/backup-app_version_v4.py:742-772 | the copies of a record are at most its turns |
| Legacy.CopyListedV4 | versions/backup-app_version_v4.py:743-772 | one existing file: succeeds iff `makedirs` of its directory and then `copy2` can; its turn is recorded, landing at its `DestV4` or inside it |
| Legacy.MakeParentV4 | versions/backup-app_version_v4.py:761 | succeeds iff `os.makedirs` can create the parent, creating only directories along it; a failure changes nothing; keeps the invariant |
| Legacy.CopyInto | versions/backup-app_version_v4.py:769 | the target is `CopyTarget` of the destination; succeeds iff `copy2` can; a success writes the source's size there and nothing else, a failure changes nothing |
| Legacy.KeptAfterMakeDirs | versions/backup-app_version_v4.py:761 | creating a directory inside the target keeps the invariant |

## Left out

- The widgets, layouts, dialogs, message boxes, status texts and signals are not modelled. Neither are the tab creation, closing and renaming beyond the label rule.
- QThread execution is not modelled. The `cancelled` flag is an oracle read at each check point of the code.
- `check_disk_space` (`os.statvfs`, `GetDiskFreeSpaceExW`) is not modelled: the free space is an input, and `None` means the query raised, which the code counts as room.
- Settings persistence, auto-start registration and `get_application_path` are OS plumbing and are left out, apart from the range defaulting of the loaded weekday and day of month.
- `datetime.now()` is a parameter, and `strftime` output is an opaque timestamp string.
- `os.walk` is a snapshot taken when a folder's walk starts. Entries the copy itself creates inside a walked folder are not seen by that walk.
- Listing deeper than 1000 components fails. This stands in for the recursion and path-length limits that stop a copy into its own source.
- `shutil.copy2` metadata and symbolic links are not modelled.
- Engine.PercentMonotone: the percentage is computed in exact arithmetic. The code's `int((copied / total) * 100)` in floating point can be one lower.
- The MB figures, the KB sizes of version 4 and the dropped-file messages are text only and are not modelled.
- Schedule.MonthlyNextSpec: follows the code. The day clamped for the current month is carried into the next month, so day 31 chosen in April gives 30 May. Clamping the chosen day again for each month would give 31 May.
- Engine.Worker.SafeDestinationPath: `is_folder` is ignored, as in the code.
- Legacy.PerformBackupV4: uses the corrected mapping `Legacy.MapIntended`. The string-prefix test as written is `Legacy.MapAsWritten`.
- Legacy.StartBackup: the QTimer itself is not modelled, only the interval it is started with.
- Legacy.SingleFileBackup: states that changes stay within the destination. It does not record the copy among the numeric-mode fresh copies, because versions 1 to 3 overwrite on purpose.
- The byte counter `copied_size` is stated through two ghost totals: the bytes of every successful copy, and the bytes of the copies that a raising whole-folder copy discarded. `Engine.Worker.CopySources` and the multi-tab invariant state the counter as the first less the second.
- Engine.PercentMonotone: holds while bytes are added. After a whole-folder copy raises, `copied_size` falls back to its value before that folder, so the next reported percentage can be lower than the last one.
- FileSystems.FileSystem.Copy2: a failed copy leaves no partial target. The real `shutil.copy2` opens and truncates the target before copying the data and copies the metadata afterwards, so a failure at those points leaves a partial or complete file that the code neither counts nor removes.
- Engine.Worker.SafeDestinationPath: one timestamp serves every history rename of a run. The code reads `datetime.now()` again for each rename (backup-app.py:186), so renames in different seconds get different stamps.
- Engine.Worker.CopyTabSources: one dated-folder name serves every tab of a run. The code reads the date again for each tab (backup-app.py:339), so a run that crosses midnight puts later tabs in a folder of the next day.
- Engine.Worker.PerformMultiTabBackup: an error status is only tied to a source of some tab, not to a recorded cause as in the single-destination run. A critical error is stated to need the dated folder enabled, and to follow from the first tab with room whose folder cannot be made; a later tab's folder failing is not characterised in terms of the starting tree.
- FileSystems.FileSystem.MakeDirs: a failure creates nothing. The real `os.makedirs` creates the prefixes before the one that fails, so it can leave empty directories behind.
- FileSystems.Walk: does not consult the set of failing paths. `os.walk` silently skips a directory it cannot list; the model walks it.
- Schedule.NextBackupTime: years are unbounded. Python's `datetime` stops at year 9999 and raises `OverflowError` beyond it; the model goes on.
- Schedule.Scheduler.StartBackup: takes the answer of `validate_backup_conditions` as a parameter. `Tabs.ValidateBackupConditions` models that check.
- Tabs.StartBackupAllTabs: the tabs are given as the pages that carry `tab_data`; the `hasattr` filter is not modelled. Each tab's job name is its shown label (`tabText`), given with the tab.

## Findings

| source | as written | input that shows it | evidently intended | confidence | as-written member | corrected member |
|---|---|---|---|---|---|---|
| versions/backup-app_version_v4.py:750-758 | `file_path.startswith(folder_path)` is a string-prefix test, and `relpath` then yields `..` | source folder `/home/docs` and standalone file `/home/docs.txt`, destination `/mnt/backup`: the file is written to `/mnt/docs.txt` | a file is relocated only when it lies inside the folder, so every copy stays inside the destination | high, not executed | Legacy.MapAsWrittenEscapes | Legacy.MapIntended |
