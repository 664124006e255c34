/**
 * The earlier versions of the program that are still shipped beside it:
 * the single-file backups of versions 1 to 3 with their naming, the timer
 * interval and start guards of versions 1 and 2, and the file-list backup
 * of version 4 with its destination mapping.
 */
module Legacy {
  import opened Options
  import opened Paths
  import opened FileSystems
  import opened Engine

  // ---------------------------------------------------------------------
  // Timer start (versions 1 and 2)

  /** The units of the period combo box of version 1. */
  const Seconds: string := "секунд"
  const Minutes: string := "минут"
  const Hours: string := "часов"

  /** The period spin box of version 1 accepts 1 to 999. */
  const MinPeriod: int := 1
  const MaxPeriod: int := 999

  /**
   * `calculate_interval`: the period in milliseconds for the chosen unit;
   * any other unit text gives one minute.
   */
  function CalculateInterval(period: int, unit: string): (ms: int)
    ensures unit != Seconds && unit != Minutes && unit != Hours ==> ms == 60_000
    ensures MinPeriod <= period <= MaxPeriod ==> 1_000 <= ms <= MaxPeriod * 3_600_000
  {
    if unit == Seconds then period * 1_000
    else if unit == Minutes then period * 60 * 1_000
    else if unit == Hours then period * 60 * 60 * 1_000
    else 60_000
  }

  /** The interval grows with the period, and for a positive period with the unit. */
  lemma IntervalMonotone(p: int, q: int, unit: string)
    requires unit == Seconds || unit == Minutes || unit == Hours
    requires MinPeriod <= p <= q
    ensures CalculateInterval(p, unit) <= CalculateInterval(q, unit)
    ensures CalculateInterval(p, Seconds) < CalculateInterval(p, Minutes) < CalculateInterval(p, Hours)
    ensures CalculateInterval(p, unit) % 1_000 == 0 && CalculateInterval(p, unit) / 1_000 >= p
  {
    assert Seconds != Minutes && Minutes != Hours && Seconds != Hours by {
      assert Seconds[0] != Minutes[0] && Minutes[0] != Hours[0] && Seconds[0] != Hours[0];
    }
    var whole := if unit == Seconds then p else if unit == Minutes then p * 60 else p * 3_600;
    assert CalculateInterval(p, unit) == whole * 1_000;
    WholeSeconds(whole);
  }

  /** A count of whole seconds in milliseconds divides back exactly. */
  lemma WholeSeconds(s: int)
    ensures (s * 1_000) % 1_000 == 0 && (s * 1_000) / 1_000 == s
  {
  }

  /** How the single-file backup of versions 1 to 3 ends. */
  datatype SingleOutcome = SourceMissing | Copied(target: Path) | Failed

  /**
   * `start_backup` of version 1: with a source and a destination set, the
   * timer starts with the computed interval and one backup runs at once;
   * otherwise nothing happens.
   */
  method StartBackup(fs: FileSystem, source: Path, destination: Path, period: int, unit: string,
                     keepHistory: bool, stamp: string)
    returns (timer: Option<int>, outcome: Option<SingleOutcome>)
    modifies fs
    ensures timer.None? <==> source == [] || destination == []
    ensures timer.None? ==> outcome.None? && fs.entries == old(fs.entries)
    ensures timer.Some? ==> timer.value == CalculateInterval(period, unit) && outcome.Some?
    ensures outcome.Some? ==> (outcome.value == SourceMissing <==> !Exists(old(fs.entries), source))
    ensures Kept(old(fs.entries), fs.entries, [], 0, 0, destination, false)
  {
    if source == [] || destination == [] {
      KeptNothing(fs.entries, 0, destination, false);
      return None, None;
    }
    timer := Some(CalculateInterval(period, unit));
    var o, _ := SingleFileBackup(fs, source, destination, keepHistory, stamp);
    outcome := Some(o);
  }

  // ---------------------------------------------------------------------
  // Single-file backup (versions 1 to 3)

  /**
   * The name the copy receives: with history, the timestamp (whose format
   * differs between versions) goes before the extension; without it, the
   * source's own name, so an earlier copy is overwritten.
   */
  function BackupName(source: Path, keepHistory: bool, stamp: string): (name: string)
    requires |source| >= 1
    ensures keepHistory ==> name == TimestampedName(Basename(source), stamp)
    ensures !keepHistory ==> name == Basename(source)
  {
    if keepHistory then TimestampedName(Basename(source), stamp) else Basename(source)
  }

  /** With history, the copy's name always differs from the source's name. */
  lemma BackupNameDiffers(source: Path, stamp: string)
    requires |source| >= 1
    ensures BackupName(source, true, stamp) != Basename(source)
  {
    var (stem, ext) := SplitExt(Basename(source));
    assert |BackupName(source, true, stamp)| == |stem| + 1 + |stamp| + |ext|;
  }

  /**
   * `perform_backup` of versions 1 to 3: a missing source copies nothing; a
   * missing destination is created first; the file is copied into the
   * destination under `BackupName`, replacing a file of that name.  Any
   * exception ends the attempt (`Failed`).  Every change lies on the way to
   * or inside the destination, and nothing is removed.
   */
  method SingleFileBackup(fs: FileSystem, source: Path, destination: Path, keepHistory: bool, stamp: string)
    returns (outcome: SingleOutcome, ghost mid: Tree)
    modifies fs
    ensures outcome == SourceMissing <==> !Exists(old(fs.entries), source)
    ensures outcome == SourceMissing ==> fs.entries == old(fs.entries)
    ensures Exists(old(fs.entries), source) && Exists(old(fs.entries), destination) ==> mid == old(fs.entries)
    ensures (Exists(old(fs.entries), source) && !Exists(old(fs.entries), destination)
             && CanMakeDirs(old(fs.entries), fs.failing, destination)) ==> MadeDirs(old(fs.entries), mid, destination)
    ensures outcome == SingleOutcome.Failed <==>
              && Exists(old(fs.entries), source)
              && if Exists(old(fs.entries), destination) || CanMakeDirs(old(fs.entries), fs.failing, destination)
                 then !CanCopy(mid, fs.failing, source,
                               CopyTarget(mid, source, destination + [BackupName(source, keepHistory, stamp)]))
                 else true
    ensures outcome.Copied? ==>
              && var name := BackupName(source, keepHistory, stamp);
              && IsFile(old(fs.entries), source)
              && outcome.target == (if IsDir(old(fs.entries), destination + [name])
                                    then destination + [name, Basename(source)] else destination + [name])
              && IsFile(fs.entries, outcome.target)
              && fs.entries[outcome.target].size == old(fs.entries)[source].size
    ensures Kept(old(fs.entries), fs.entries, [], 0, 0, destination, false)
  {
    ghost var t0 := fs.entries;
    mid := t0;
    KeptNothing(t0, 0, destination, false);
    if !Exists(fs.entries, source) {
      return SourceMissing, mid;
    }
    if !Exists(fs.entries, destination) {
      var ok := fs.MakeDirs(destination);
      MakeDirsKept(t0, fs.entries, destination, 0, destination, false);
      mid := fs.entries;
      if !ok {
        return SingleOutcome.Failed, mid;
      }
    }
    var name := BackupName(source, keepHistory, stamp);
    assert destination < destination + [name];
    ghost var r;
    var ok, target;
    ok, target, r := CopyInto(fs, source, destination + [name], destination, t0, []);
    if !ok {
      return SingleOutcome.Failed, mid;
    }
    return Copied(target), mid;
  }

  /**
   * What a successful `os.makedirs(p, exist_ok=True)` leaves: nothing
   * removed and no file changed, `p` a directory, and every new or changed
   * entry a directory on the way to `p`.
   */
  ghost predicate MadeDirs(t: Tree, u: Tree, p: Path) {
    && Preserved(t, u) && Touched(t, u, p) && IsDir(u, p)
    && forall q :: q in u && q !in t ==> u[q].Dir?
  }

  // ---------------------------------------------------------------------
  // The file list of versions 4 and 7

  /** Every file `os.walk` yields under each folder, folder by folder. */
  function FolderFiles(t: Tree, folders: seq<Path>): (r: seq<Path>)
    ensures forall q :: q in r ==> exists f :: f in folders && f < q
  {
    if folders == [] then []
    else
      var n := |folders| - 1;
      var w := Walk(t, folders[n]);
      var r := FolderFiles(t, folders[..n]) + w;
      assert forall q :: q in r ==> exists f :: f in folders && f < q by {
        forall q | q in r
          ensures exists f :: f in folders && f < q
        {
          if q in w {
            assert folders[n] in folders && folders[n] < q;
          } else {
            var f :| f in folders[..n] && f < q;
            assert f in folders;
          }
        }
      }
      r
  }

  /** The standalone paths that are regular files, in order. */
  function RegularFiles(t: Tree, files: seq<Path>): (r: seq<Path>)
    ensures forall q :: q in r ==> q in files && IsFile(t, q)
  {
    if files == [] then []
    else RegularFiles(t, files[..|files| - 1]) + if IsFile(t, files[|files| - 1]) then [files[|files| - 1]] else []
  }

  function FilesToCopy(t: Tree, folders: seq<Path>, files: seq<Path>): (r: seq<Path>)
    ensures forall q :: q in r ==> FromSources(q, folders, files)
  {
    FolderFiles(t, folders) + RegularFiles(t, files)
  }

  /** The list and the size computation agree: the listed files' bytes are the selection's size. */
  lemma FilesToCopySize(t: Tree, folders: seq<Path>, files: seq<Path>)
    ensures SizeOf(t, FilesToCopy(t, folders, files)) == SourcesSize(t, folders, files)
  {
    FolderFilesSize(t, folders);
    RegularFilesSize(t, files);
    SizeOfAppend(t, FolderFiles(t, folders), RegularFiles(t, files));
  }

  lemma {:induction false} FolderFilesSize(t: Tree, folders: seq<Path>)
    ensures SizeOf(t, FolderFiles(t, folders)) == FoldersSize(t, folders)
  {
    if folders != [] {
      var n := |folders| - 1;
      FolderFilesSize(t, folders[..n]);
      SizeOfAppend(t, FolderFiles(t, folders[..n]), Walk(t, folders[n]));
    }
  }

  lemma {:induction false} RegularFilesSize(t: Tree, files: seq<Path>)
    ensures SizeOf(t, RegularFiles(t, files)) == SizeOf(t, files)
  {
    if files != [] {
      var n := |files| - 1;
      var last := files[n];
      RegularFilesSize(t, files[..n]);
      assert files == files[..n] + [last];
      SizeOfAppend(t, files[..n], [last]);
      SizeOfAppend(t, RegularFiles(t, files[..n]), if IsFile(t, last) then [last] else []);
    }
  }

  /**
   * `get_files_to_copy` of versions 4 and 7: the walk of every source folder
   * that is a directory, then the standalone paths that are files.
   */
  method GetFilesToCopy(fs: FileSystem, folders: seq<Path>, files: seq<Path>) returns (r: seq<Path>)
    ensures r == FilesToCopy(fs.entries, folders, files)
  {
    r := WalkedFiles(fs, folders);
    var standalone := StandaloneFiles(fs, files);
    r := r + standalone;
  }

  /** The first loop: each walk is one snapshot of the files below the folder. */
  method WalkedFiles(fs: FileSystem, folders: seq<Path>) returns (r: seq<Path>)
    ensures r == FolderFiles(fs.entries, folders)
  {
    r := [];
    var i := 0;
    while i < |folders|
      invariant 0 <= i <= |folders|
      invariant r == FolderFiles(fs.entries, folders[..i])
    {
      assert folders[..i + 1][..i] == folders[..i];
      if IsDir(fs.entries, folders[i]) {
        r := r + Walk(fs.entries, folders[i]);
      }
      i := i + 1;
    }
    assert folders[..i] == folders;
  }

  /** The second loop: the standalone paths that are files. */
  method StandaloneFiles(fs: FileSystem, files: seq<Path>) returns (r: seq<Path>)
    ensures r == RegularFiles(fs.entries, files)
  {
    r := [];
    var i := 0;
    while i < |files|
      invariant 0 <= i <= |files|
      invariant r == RegularFiles(fs.entries, files[..i])
    {
      assert files[..i + 1][..i] == files[..i];
      if IsFile(fs.entries, files[i]) {
        r := r + [files[i]];
      }
      i := i + 1;
    }
    assert files[..i] == files;
  }

  // ---------------------------------------------------------------------
  // Destination mapping of version 4

  /**
   * `str.startswith` on the joined path strings: the components before the
   * folder's last one agree, and the folder's last component begins the
   * file's component at that position.  Components hold no separator.
   */
  function StartsWith(p: Path, f: Path): (r: bool)
    ensures f <= p ==> r
    ensures r && f != [] ==> |f| <= |p| && Parent(f) <= p
  {
    f == [] || (|f| <= |p| && p[..|f| - 1] == f[..|f| - 1] && f[|f| - 1] <= p[|f| - 1])
  }

  /**
   * Where `os.path.join(actual, os.path.relpath(file, folder))` resolves:
   * below `actual` when the folder contains the file, otherwise (the names
   * merely share a prefix) `relpath` starts with `..` and the path leaves
   * `actual`.
   */
  function RelocateAsWritten(file: Path, f: Path, actual: Path): (r: Path)
    requires StartsWith(file, f) && |actual| >= 1
    ensures f <= file ==> actual <= r && r[|actual|..] == file[|f|..]
    ensures !(f <= file) ==> Parent(actual) <= r && |r| == |actual| + |file| - |f| && r[|actual| - 1] == file[|f| - 1]
  {
    if f <= file then actual + file[|f|..] else Parent(actual) + file[|f| - 1..]
  }

  /** The for-else of version 4 as written: the first folder whose string begins the file's string. */
  function MapAsWritten(file: Path, folders: seq<Path>, actual: Path): (r: Path)
    requires |file| >= 1 && |actual| >= 1
    ensures Parent(actual) <= r && |r| >= |actual|
    ensures (forall f :: f in folders ==> !StartsWith(file, f)) ==> r == actual + [Basename(file)]
    ensures (forall f :: f in folders ==> !StartsWith(file, f) || f < file) ==> actual < r
  {
    if folders == [] then actual + [Basename(file)]
    else if StartsWith(file, folders[0]) then RelocateAsWritten(file, folders[0], actual)
    else MapAsWritten(file, folders[1..], actual)
  }

  /**
   * A standalone file whose name extends a source folder's name passes the
   * string test and is written beside the destination, not inside it:
   * folder `/home/docs`, file `/home/docs.txt`, destination `/mnt/backup`
   * gives `/mnt/docs.txt`.
   */
  lemma MapAsWrittenEscapes()
    ensures var folder, file, actual := ["home", "docs"], ["home", "docs.txt"], ["mnt", "backup"];
      MapAsWritten(file, [folder], actual) == ["mnt", "docs.txt"] && !(actual < MapAsWritten(file, [folder], actual))
  {
    var folder, file, actual := ["home", "docs"], ["home", "docs.txt"], ["mnt", "backup"];
    assert !(folder <= file) by {
      assert folder[1] != file[1];
    }
    assert StartsWith(file, folder) by {
      assert folder[1] == file[1][..4];
    }
  }

  /**
   * The mapping as intended: a file inside a source folder keeps its path
   * relative to the first such folder; any other file goes directly into
   * `actual` under its own name.  Either way the result lies inside `actual`.
   */
  function MapIntended(file: Path, folders: seq<Path>, actual: Path): (r: Path)
    requires |file| >= 1
    ensures actual < r && |r| > |actual|
    ensures (exists f :: f in folders && f < file) ==> exists f :: f in folders && f < file && r == actual + file[|f|..]
    ensures (forall f :: f in folders ==> !(f < file)) ==> r == actual + [Basename(file)]
  {
    if folders == [] then actual + [Basename(file)]
    else if folders[0] < file then
      assert folders[0] in folders && (actual + file[|folders[0]|..])[..|actual|] == actual;
      actual + file[|folders[0]|..]
    else
      var r := MapIntended(file, folders[1..], actual);
      assert forall f :: f in folders[1..] ==> f in folders;
      assert forall f :: f in folders && f != folders[0] ==> f in folders[1..] by {
        forall f | f in folders && f != folders[0] ensures f in folders[1..] {
          var j :| 0 <= j < |folders| && folders[j] == f;
          assert folders[1..][j - 1] == f;
        }
      }
      r
  }

  /** Where the two mappings agree: the string test and containment coincide on every folder. */
  lemma {:induction false} MappingsAgree(file: Path, folders: seq<Path>, actual: Path)
    requires |file| >= 1 && |actual| >= 1
    requires forall f :: f in folders ==> (StartsWith(file, f) <==> f < file)
    ensures MapAsWritten(file, folders, actual) == MapIntended(file, folders, actual)
  {
    if folders != [] {
      assert folders[0] in folders;
      if !StartsWith(file, folders[0]) {
        assert forall f :: f in folders[1..] ==> f in folders;
        MappingsAgree(file, folders[1..], actual);
      }
    }
  }

  /** How `perform_backup` of version 4 ends, by the message it logs. */
  datatype ListOutcome = MissingSelection | NothingToCopy | CopiedFiles(count: nat) | NoneCopied | Failed

  /** The folder version 4 writes into: the dated folder inside the destination when enabled. */
  function TargetV4(destination: Path, createBackupFolder: bool, folderName: string): (r: Path)
    ensures destination <= r && (createBackupFolder ==> |r| == |destination| + 1)
  {
    if createBackupFolder then destination + [folderName] else destination
  }

  /** Where version 4 sends a listed file: the intended mapping, with the timestamp when history is kept. */
  function DestV4(file: Path, folders: seq<Path>, actual: Path, keepHistory: bool, stamp: string): (r: Path)
    requires |file| >= 1
    ensures actual < r && Parent(r) == Parent(MapIntended(file, folders, actual))
    ensures !keepHistory ==> r == MapIntended(file, folders, actual)
  {
    var d := MapIntended(file, folders, actual);
    if keepHistory then TimestampedPath(d, stamp) else d
  }

  /** A copy of version 4 lands at its file's `DestV4`, or inside it when that names a directory. */
  predicate LandedV4(c: CopyRecord, folders: seq<Path>, actual: Path, keepHistory: bool, stamp: string) {
    |c.src| >= 1 &&
    var d := DestV4(c.src, folders, actual, keepHistory, stamp);
    c.dst == d || c.dst == d + [Basename(c.src)]
  }

  /**
   * `perform_backup` of version 4, with the intended destination mapping:
   * refuse without sources or destination; create the target (the dated
   * folder when enabled) when it is missing, a failure ending the attempt;
   * list the files in the tree `listed` that creation leaves; copy each
   * existing one after creating its directory, with the timestamp inserted
   * when history is kept and no check for an existing file otherwise.  A
   * per-file exception skips that file; `copies` are the successful copies.
   */
  method PerformBackupV4(fs: FileSystem, folders: seq<Path>, files: seq<Path>, destination: Path,
                         createBackupFolder: bool, keepHistory: bool, folderName: string, stamp: string)
    returns (outcome: ListOutcome, ghost copies: seq<CopyRecord>, ghost listed: Tree, ghost steps: seq<StepV4>)
    modifies fs
    ensures outcome == MissingSelection <==> (folders == [] && files == []) || destination == []
    ensures outcome == MissingSelection ==> fs.entries == old(fs.entries)
    ensures var actual := TargetV4(destination, createBackupFolder, folderName);
      outcome == ListOutcome.Failed <==>
        outcome != MissingSelection && !Exists(old(fs.entries), actual)
        && !CanMakeDirs(old(fs.entries), fs.failing, actual)
    ensures outcome == ListOutcome.Failed ==> fs.entries == old(fs.entries)
    ensures var actual := TargetV4(destination, createBackupFolder, folderName);
      outcome != MissingSelection && outcome != ListOutcome.Failed ==>
        && Exists(listed, actual)
        && (Exists(old(fs.entries), actual) ==> listed == old(fs.entries))
        && Preserved(old(fs.entries), listed)
        && (forall q :: q in listed && q !in old(fs.entries) ==> q <= actual)
    ensures outcome == ListOutcome.NothingToCopy <==>
              outcome != MissingSelection && outcome != ListOutcome.Failed && FilesToCopy(listed, folders, files) == []
    ensures outcome.CopiedFiles? ==> outcome.count == |copies| > 0
    ensures !outcome.CopiedFiles? ==> copies == []
    ensures Kept(old(fs.entries), fs.entries, copies, 0, 0, TargetV4(destination, createBackupFolder, folderName), false)
    ensures forall c :: c in copies ==>
              && c.src in FilesToCopy(listed, folders, files)
              && LandedV4(c, folders, TargetV4(destination, createBackupFolder, folderName), keepHistory, stamp)
    ensures outcome.CopiedFiles? || outcome == NoneCopied ==>
              && |steps| == |FilesToCopy(listed, folders, files)|
              && TraceV4(fs.failing, FilesToCopy(listed, folders, files), folders,
                         TargetV4(destination, createBackupFolder, folderName), keepHistory, stamp, listed, steps)
              && fs.entries == TreeBefore(listed, steps, |steps|) && copies == CopiedV4(steps)
  {
    copies, listed, steps := [], fs.entries, [];
    ghost var t0 := fs.entries;
    var actual := TargetV4(destination, createBackupFolder, folderName);
    KeptNothing(t0, 0, actual, false);
    if (folders == [] && files == []) || destination == [] {
      return MissingSelection, [], listed, [];
    }
    if !Exists(fs.entries, actual) {
      var ok := fs.MakeDirs(actual);
      MakeDirsKept(t0, fs.entries, actual, 0, actual, false);
      if !ok {
        return ListOutcome.Failed, [], listed, [];
      }
    }
    listed := fs.entries;
    var list := GetFilesToCopy(fs, folders, files);
    if list == [] {
      return ListOutcome.NothingToCopy, [], listed, [];
    }
    var count;
    count, copies, steps := CopyListV4(fs, list, folders, actual, keepHistory, stamp, t0);
    outcome := if count > 0 then CopiedFiles(count) else NoneCopied;
  }

  /**
   * One turn of the loop of version 4: the tree `mid` after the directory is
   * created, the tree `after` the copy, whether the file was copied, and its
   * record.
   */
  datatype StepV4 = StepV4(mid: Tree, after: Tree, copied: bool, rec: CopyRecord)

  /**
   * The turn `s` of the listed `file` from the tree `t`: a missing file is
   * skipped; otherwise its directory is created, and a failure there skips
   * it; otherwise it is copied iff `shutil.copy2` can copy it, and nothing
   * else changes.
   */
  ghost predicate ListedStepV4(failing: set<Path>, t: Tree, file: Path, folders: seq<Path>, actual: Path,
                               keepHistory: bool, stamp: string, s: StepV4)
  {
    if !Exists(t, file) then s.mid == t && s.after == t && !s.copied
    else if !CanMakeDirs(t, failing, Parent(MapIntended(file, folders, actual))) then
      s.mid == t && s.after == t && !s.copied
    else
      var target := CopyTarget(s.mid, file, DestV4(file, folders, actual, keepHistory, stamp));
      && MadeDirs(t, s.mid, Parent(MapIntended(file, folders, actual)))
      && (s.copied <==> CanCopy(s.mid, failing, file, target))
      && (s.copied ==> s.after == WriteFile(s.mid, target, s.mid[file].size)
                       && s.rec == CopyRecord(file, target, s.mid[file].size))
      && (!s.copied ==> s.after == s.mid)
  }

  /** The tree before turn `i`: the starting tree, then what each turn leaves. */
  function TreeBefore(t0: Tree, steps: seq<StepV4>, i: nat): Tree
    requires i <= |steps|
  {
    if i == 0 then t0 else steps[i - 1].after
  }

  /** The turns `steps` are the first turns of the loop over `list` from the tree `t0`, each from the tree before it. */
  ghost predicate TraceV4(failing: set<Path>, list: seq<Path>, folders: seq<Path>, actual: Path, keepHistory: bool,
                          stamp: string, t0: Tree, steps: seq<StepV4>)
    decreases |steps|
  {
    && |steps| <= |list|
    && (steps != [] ==>
          && TraceV4(failing, list, folders, actual, keepHistory, stamp, t0, steps[..|steps| - 1])
          && ListedStepV4(failing, TreeBefore(t0, steps, |steps| - 1), list[|steps| - 1], folders, actual,
                          keepHistory, stamp, steps[|steps| - 1]))
  }

  /** The records of the turns that copied, in turn order. */
  function CopiedV4(steps: seq<StepV4>): (r: seq<CopyRecord>)
    ensures |r| <= |steps|
  {
    if steps == [] then []
    else CopiedV4(steps[..|steps| - 1]) + if steps[|steps| - 1].copied then [steps[|steps| - 1].rec] else []
  }

  /** One more turn from the tree the trace ends in extends the trace. */
  lemma TraceV4Push(failing: set<Path>, list: seq<Path>, folders: seq<Path>, actual: Path, keepHistory: bool,
                    stamp: string, t0: Tree, steps: seq<StepV4>, t: Tree, s: StepV4)
    requires TraceV4(failing, list, folders, actual, keepHistory, stamp, t0, steps) && |steps| < |list|
    requires t == TreeBefore(t0, steps, |steps|)
    requires ListedStepV4(failing, t, list[|steps|], folders, actual, keepHistory, stamp, s)
    ensures TraceV4(failing, list, folders, actual, keepHistory, stamp, t0, steps + [s])
    ensures CopiedV4(steps + [s]) == CopiedV4(steps) + if s.copied then [s.rec] else []
  {
    assert (steps + [s])[..|steps|] == steps;
    assert TreeBefore(t0, steps + [s], |steps|) == t;
  }

  /**
   * Whether a listed file is copied is decided by the tree before its turn:
   * an existing file whose directory can be created is copied iff it is a
   * readable regular file, is not its own target, and its target is not a
   * directory.
   */
  lemma ListedCopiedIff(failing: set<Path>, t: Tree, file: Path, folders: seq<Path>, actual: Path,
                        keepHistory: bool, stamp: string, s: StepV4)
    requires ListedStepV4(failing, t, file, folders, actual, keepHistory, stamp, s)
    requires Exists(t, file) && CanMakeDirs(t, failing, Parent(MapIntended(file, folders, actual)))
    ensures var target := CopyTarget(t, file, DestV4(file, folders, actual, keepHistory, stamp));
      s.copied <==> IsFile(t, file) && file !in failing && file != target && !IsDir(t, target)
  {
    var d := DestV4(file, folders, actual, keepHistory, stamp);
    var p := Parent(MapIntended(file, folders, actual));
    assert Parent(d) == p;
    assert !(d <= p) && !(d + [Basename(file)] <= p);
    assert IsDir(s.mid, d) <==> IsDir(t, d);
    var target := CopyTarget(t, file, d);
    assert target == CopyTarget(s.mid, file, d);
    assert IsDir(s.mid, target) <==> IsDir(t, target);
    assert IsFile(s.mid, file) <==> IsFile(t, file);
    assert HasParentDir(s.mid, target);
  }

  /**
   * The loop of version 4 over the listed files: a missing one is skipped, a
   * failed one too.  `steps` records each turn; the copies are the records
   * of the turns that copied.
   */
  method CopyListV4(fs: FileSystem, list: seq<Path>, folders: seq<Path>, actual: Path, keepHistory: bool,
                    stamp: string, ghost t0: Tree)
    returns (count: nat, ghost copies: seq<CopyRecord>, ghost steps: seq<StepV4>)
    requires Kept(t0, fs.entries, [], 0, 0, actual, false)
    modifies fs
    ensures Kept(t0, fs.entries, copies, 0, 0, actual, false)
    ensures count == |copies| <= |list|
    ensures forall c :: c in copies ==> c.src in list && LandedV4(c, folders, actual, keepHistory, stamp)
    ensures |steps| == |list| && TraceV4(fs.failing, list, folders, actual, keepHistory, stamp, old(fs.entries), steps)
    ensures fs.entries == TreeBefore(old(fs.entries), steps, |steps|) && copies == CopiedV4(steps)
  {
    count, copies, steps := 0, [], [];
    var i := 0;
    while i < |list|
      invariant 0 <= i <= |list| && |steps| == i && count == |copies|
      invariant ListSoFarV4(fs.failing, list, folders, actual, keepHistory, stamp, t0, old(fs.entries), steps, copies,
                            fs.entries)
    {
      ghost var before := fs.entries;
      var ok;
      ghost var r, s;
      ok, r, s := CopyTurnV4(fs, list[i], folders, actual, keepHistory, stamp, t0, copies);
      ListSoFarPush(fs.failing, list, folders, actual, keepHistory, stamp, t0, old(fs.entries), steps, copies,
                    before, s);
      if ok {
        copies := copies + [r];
        count := count + 1;
      }
      steps := steps + [s];
      i := i + 1;
    }
    assert list[..i] == list;
  }

  /**
   * The loop of version 4 after the turns `steps` from the tree `t1`: the
   * work stays inside `actual` since `t0`, each copy is of a file listed so
   * far and lands where `DestV4` says, the turns form a trace ending in
   * `now`, and the copies are those of the turns that copied.
   */
  ghost predicate ListSoFarV4(failing: set<Path>, list: seq<Path>, folders: seq<Path>, actual: Path,
                              keepHistory: bool, stamp: string, t0: Tree, t1: Tree, steps: seq<StepV4>,
                              copies: seq<CopyRecord>, now: Tree)
  {
    && |steps| <= |list|
    && Kept(t0, now, copies, 0, 0, actual, false)
    && (forall c :: c in copies ==> c.src in list[..|steps|] && LandedV4(c, folders, actual, keepHistory, stamp))
    && TraceV4(failing, list, folders, actual, keepHistory, stamp, t1, steps)
    && now == TreeBefore(t1, steps, |steps|) && copies == CopiedV4(steps)
  }

  /** A turn from where the loop stands, with its copy recorded when it copied, extends `ListSoFarV4`. */
  lemma ListSoFarPush(failing: set<Path>, list: seq<Path>, folders: seq<Path>, actual: Path,
                      keepHistory: bool, stamp: string, t0: Tree, t1: Tree, steps: seq<StepV4>,
                      copies: seq<CopyRecord>, now: Tree, s: StepV4)
    requires ListSoFarV4(failing, list, folders, actual, keepHistory, stamp, t0, t1, steps, copies, now)
    requires |steps| < |list| && ListedStepV4(failing, now, list[|steps|], folders, actual, keepHistory, stamp, s)
    requires s.copied ==> s.rec.src == list[|steps|] && LandedV4(s.rec, folders, actual, keepHistory, stamp)
    requires Kept(t0, s.after, copies + if s.copied then [s.rec] else [], 0, 0, actual, false)
    ensures ListSoFarV4(failing, list, folders, actual, keepHistory, stamp, t0, t1, steps + [s],
                        copies + (if s.copied then [s.rec] else []), s.after)
  {
    TraceV4Push(failing, list, folders, actual, keepHistory, stamp, t1, steps, now, s);
    var steps', copies' := steps + [s], copies + if s.copied then [s.rec] else [];
    assert |steps'| == |steps| + 1 && steps'[|steps|] == s;
    assert forall c :: c in copies' ==> c.src in list[..|steps'|] && LandedV4(c, folders, actual, keepHistory, stamp) by {
      assert forall q :: q in list[..|steps|] ==> q in list[..|steps'|];
    }
    assert s.after == TreeBefore(t1, steps', |steps'|);
  }

  /** One turn of the loop of version 4: a missing file is skipped, an existing one goes to `CopyListedV4`. */
  method CopyTurnV4(fs: FileSystem, file: Path, folders: seq<Path>, actual: Path, keepHistory: bool,
                    stamp: string, ghost t0: Tree, ghost copies: seq<CopyRecord>)
    returns (ok: bool, ghost r: CopyRecord, ghost s: StepV4)
    requires Kept(t0, fs.entries, copies, 0, 0, actual, false)
    modifies fs
    ensures ListedStepV4(fs.failing, old(fs.entries), file, folders, actual, keepHistory, stamp, s)
    ensures s.after == fs.entries && s.copied == ok && (ok ==> s.rec == r)
    ensures ok ==> r.src == file && LandedV4(r, folders, actual, keepHistory, stamp)
    ensures Kept(t0, fs.entries, copies + if ok then [r] else [], 0, 0, actual, false)
  {
    ok, r := false, CopyRecord(file, [], 0);
    s := StepV4(fs.entries, fs.entries, false, r);
    if Exists(fs.entries, file) {
      ghost var mid;
      ok, r, mid := CopyListedV4(fs, file, folders, actual, keepHistory, stamp, t0, copies);
      s := StepV4(mid, fs.entries, ok, r);
    }
  }

  /** One listed file of version 4: its directory, its name, `shutil.copy2`; `mid` is the tree after the directory. */
  method CopyListedV4(fs: FileSystem, file: Path, folders: seq<Path>, actual: Path, keepHistory: bool,
                      stamp: string, ghost t0: Tree, ghost copies: seq<CopyRecord>)
    returns (ok: bool, ghost r: CopyRecord, ghost mid: Tree)
    requires |file| >= 1 && Kept(t0, fs.entries, copies, 0, 0, actual, false)
    modifies fs
    ensures ok <==> CanMakeDirs(old(fs.entries), fs.failing, Parent(MapIntended(file, folders, actual)))
                    && CanCopy(mid, fs.failing, file, CopyTarget(mid, file, DestV4(file, folders, actual, keepHistory, stamp)))
    ensures Exists(old(fs.entries), file) ==>
              ListedStepV4(fs.failing, old(fs.entries), file, folders, actual, keepHistory, stamp,
                           StepV4(mid, fs.entries, ok, r))
    ensures ok ==> r.src == file && LandedV4(r, folders, actual, keepHistory, stamp)
    ensures ok ==> Kept(t0, fs.entries, copies + [r], 0, 0, actual, false)
    ensures !ok ==> Kept(t0, fs.entries, copies, 0, 0, actual, false)
  {
    r := CopyRecord(file, [], 0);
    mid := fs.entries;
    var dest := MapIntended(file, folders, actual);
    ok := MakeParentV4(fs, dest, actual, t0, copies);
    if !ok {
      return;
    }
    mid := fs.entries;
    dest := DestV4(file, folders, actual, keepHistory, stamp);
    var target;
    ok, target, r := CopyInto(fs, file, dest, actual, t0, copies);
  }

  /** `os.makedirs(os.path.dirname(dest), exist_ok=True)` for a `dest` inside `actual`. */
  method MakeParentV4(fs: FileSystem, dest: Path, actual: Path, ghost t0: Tree, ghost copies: seq<CopyRecord>)
    returns (ok: bool)
    requires actual < dest && Kept(t0, fs.entries, copies, 0, 0, actual, false)
    modifies fs
    ensures ok <==> CanMakeDirs(old(fs.entries), fs.failing, Parent(dest))
    ensures ok ==> MadeDirs(old(fs.entries), fs.entries, Parent(dest))
    ensures !ok ==> fs.entries == old(fs.entries)
    ensures Kept(t0, fs.entries, copies, 0, 0, actual, false)
  {
    assert actual <= Parent(dest) by {
      assert Parent(dest)[..|actual|] == dest[..|actual|];
    }
    ghost var t := fs.entries;
    ok := fs.MakeDirs(Parent(dest));
    KeptAfterMakeDirs(t0, t, fs.entries, copies, Parent(dest), actual);
  }

  /** The `shutil.copy2` of one file to a name strictly inside `actual`. */
  method CopyInto(fs: FileSystem, file: Path, dest: Path, actual: Path, ghost t0: Tree, ghost copies: seq<CopyRecord>)
    returns (ok: bool, target: Path, ghost r: CopyRecord)
    requires |file| >= 1 && actual < dest && Kept(t0, fs.entries, copies, 0, 0, actual, false)
    modifies fs
    ensures target == CopyTarget(old(fs.entries), file, dest)
    ensures ok <==> CanCopy(old(fs.entries), fs.failing, file, target)
    ensures ok ==> IsFile(old(fs.entries), file) && IsFile(fs.entries, target)
                   && fs.entries[target].size == old(fs.entries)[file].size
    ensures ok ==> fs.entries == WriteFile(old(fs.entries), target, old(fs.entries)[file].size)
                   && r == CopyRecord(file, target, old(fs.entries)[file].size)
    ensures !ok ==> fs.entries == old(fs.entries)
    ensures ok ==> r.src == file && r.dst == target && Kept(t0, fs.entries, copies + [r], 0, 0, actual, false)
    ensures !ok ==> Kept(t0, fs.entries, copies, 0, 0, actual, false)
  {
    ghost var t := fs.entries;
    ok, target := fs.Copy2(file, dest);
    r := CopyRecord(file, target, if file in t && t[file].File? then t[file].size else 0);
    if ok {
      assert actual < target by {
        assert target[..|actual|] == dest[..|actual|];
      }
      assert copies[0..] == copies && (copies + [r])[0..] == copies + [r];
      KeptAfterWrite(t0, t, copies, 0, 0, 0, actual, false, file, target);
    }
  }

  /** `os.makedirs` of a directory inside `actual` keeps what has been established. */
  lemma KeptAfterMakeDirs(t0: Tree, t: Tree, u: Tree, copies: seq<CopyRecord>, p: Path, actual: Path)
    requires Kept(t0, t, copies, 0, 0, actual, false) && actual <= p
    requires Preserved(t, u) && Touched(t, u, p)
    ensures Kept(t0, u, copies, 0, 0, actual, false)
  {
    MakeDirsKept(t, u, p, 0, actual, false);
    KeptTransitive(t0, t, u, copies, [], 0, 0, 0, actual, false);
    assert copies + [] == copies;
  }
}
