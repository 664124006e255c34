/**
 * The window's per-tab bookkeeping: the shortened tab label, the source
 * lists with their list widgets, the checks made before a single-tab run and
 * the queue of tabs handed to the multi-tab worker.
 */
module Tabs {
  import opened Options
  import opened Paths
  import opened FileSystems
  import opened Engine

  // ---------------------------------------------------------------------
  // Tab labels

  /** Labels longer than this many characters are shortened. */
  const MaxLabel: nat := 14

  /** `truncate_tab_title`: a long title keeps its first 11 characters, followed by " ...". */
  function TruncateTabTitle(title: string): (r: string)
    ensures |title| <= MaxLabel ==> r == title
    ensures |title| > MaxLabel ==> |r| == MaxLabel + 1 && r[..11] == title[..11] && r[11..] == " ..."
    ensures |r| <= MaxLabel + 1
  {
    if |title| > MaxLabel then title[..11] + " ..." else title
  }

  /**
   * A shown label is shortened to itself, so renaming a tab to the title it
   * already has leaves the label as it is.
   */
  lemma {:induction false} TruncateTabTitleIdempotent(title: string)
    ensures TruncateTabTitle(TruncateTabTitle(title)) == TruncateTabTitle(title)
  {
    var r := TruncateTabTitle(title);
    if |title| > MaxLabel {
      assert r == title[..11] + " ...";
      assert r[..11] == title[..11];
    }
  }

  // ---------------------------------------------------------------------
  // Source lists

  predicate Distinct<T(==)>(s: seq<T>) {
    forall i, j :: 0 <= i < j < |s| ==> s[i] != s[j]
  }

  /** The list after appending, in order, each of `ps` that is not yet in it. */
  function AppendNew(s: seq<Path>, ps: seq<Path>): (r: seq<Path>)
    ensures s <= r
    ensures forall x :: x in r <==> x in s || x in ps
    ensures Distinct(s) ==> Distinct(r)
    decreases |ps|
  {
    if ps == [] then s
    else AppendNew(if ps[0] in s then s else s + [ps[0]], ps[1..])
  }

  /** The position of the first occurrence of `x` in `ps`. */
  function FirstIndex(ps: seq<Path>, x: Path): (k: nat)
    requires x in ps
    ensures k < |ps| && ps[k] == x && forall j :: 0 <= j < k ==> ps[j] != x
    decreases |ps|
  {
    if ps[0] == x then 0 else 1 + FirstIndex(ps[1..], x)
  }

  /**
   * The appended part of `AppendNew(s, ps)` holds the paths of `ps` that are
   * not in `s`, each once, in the order of their first occurrence in `ps`.
   */
  lemma {:induction false} AppendNewOrder(s: seq<Path>, ps: seq<Path>)
    ensures var r := AppendNew(s, ps);
      && (forall i :: |s| <= i < |r| ==> r[i] !in s && r[i] in ps)
      && (forall i, j :: |s| <= i < j < |r| ==> FirstIndex(ps, r[i]) < FirstIndex(ps, r[j]))
    decreases |ps|
  {
    if ps != [] {
      var s' := if ps[0] in s then s else s + [ps[0]];
      AppendNewOrder(s', ps[1..]);
      var r := AppendNew(s, ps);
      assert r == AppendNew(s', ps[1..]);
      assert ps[0] in s';
      forall i | |s'| <= i < |r|
        ensures r[i] != ps[0] && FirstIndex(ps, r[i]) == 1 + FirstIndex(ps[1..], r[i])
      {
      }
      if ps[0] !in s {
        assert r[|s|] == s'[|s|] == ps[0];
      }
    }
  }

  lemma DistinctAppend(s: seq<Path>, x: Path)
    requires Distinct(s) && x !in s
    ensures Distinct(s + [x])
  {
    var r := s + [x];
    forall i, j | 0 <= i < j < |r|
      ensures r[i] != r[j]
    {
      if j == |s| {
        assert r[i] == s[i];
      }
    }
  }

  /** Python's `list.remove(x)`: the first occurrence goes. */
  function RemoveFirst(s: seq<Path>, x: Path): (r: seq<Path>)
    ensures x !in s ==> r == s
    ensures x in s ==> |r| == |s| - 1
    ensures forall y :: y in r ==> y in s
  {
    if s == [] then []
    else if s[0] == x then s[1..]
    else [s[0]] + RemoveFirst(s[1..], x)
  }

  /** In a list without repeats, removing the entry at `i` by value removes exactly that position. */
  lemma {:induction false} RemoveFirstAt(s: seq<Path>, i: nat)
    requires Distinct(s) && i < |s|
    ensures RemoveFirst(s, s[i]) == s[..i] + s[i + 1..]
  {
    if i > 0 {
      var t := s[1..];
      assert s[0] != s[i] && t[i - 1] == s[i];
      assert Distinct(t) by {
        forall a, b | 0 <= a < b < |t|
          ensures t[a] != t[b]
        {
          assert t[a] == s[a + 1] && t[b] == s[b + 1];
        }
      }
      RemoveFirstAt(t, i - 1);
      assert t[..i - 1] == s[1..i] && t[i..] == s[i + 1..];
      assert s[..i] == [s[0]] + s[1..i];
    }
  }

  /**
   * One tab's folder list or file list: `paths` is `tab_data['source_folders']`
   * (or `'source_files'`), `rows` the items of the list widget beside it.
   */
  class SourceList {
    var paths: seq<Path>
    var rows: seq<Path>

    /** The widget shows the list, and the list has no repeats. */
    ghost predicate Valid()
      reads this
    {
      rows == paths && Distinct(paths)
    }

    constructor ()
      ensures Valid() && paths == []
    {
      paths := [];
      rows := [];
    }

    /** `add_folder_to_tab`: a chosen path (the empty path is a cancelled dialog) not yet listed is appended. */
    method AddFolder(p: Path)
      requires Valid()
      modifies this
      ensures Valid()
      ensures paths == if p != [] && p !in old(paths) then old(paths) + [p] else old(paths)
    {
      if p != [] && p !in paths {
        paths := paths + [p];
        rows := rows + [p];
      }
    }

    /** `add_files_to_tab`: each chosen file not yet listed is appended, in the dialog's order. */
    method AddFiles(ps: seq<Path>)
      requires Valid()
      modifies this
      ensures Valid()
      ensures paths == AppendNew(old(paths), ps)
    {
      var i := 0;
      while i < |ps|
        invariant 0 <= i <= |ps| && Valid()
        invariant AppendNew(paths, ps[i..]) == AppendNew(old(paths), ps)
      {
        var p := ps[i];
        assert ps[i..][0] == p && ps[i..][1..] == ps[i + 1..];
        if p !in paths {
          DistinctAppend(paths, p);
          paths := paths + [p];
          rows := rows + [p];
        }
        i := i + 1;
      }
    }

    /**
     * `remove_selected_*_from_tab`: the widget row `row` (-1 when nothing is
     * selected) is taken out, and its path removed from the list.
     */
    method RemoveSelected(row: int)
      requires Valid() && row < |rows|
      modifies this
      ensures Valid()
      ensures row < 0 ==> paths == old(paths)
      ensures row >= 0 ==> paths == old(paths)[..row] + old(paths)[row + 1..]
    {
      if row >= 0 {
        var item := rows[row];
        rows := rows[..row] + rows[row + 1..];
        if item in paths {
          RemoveFirstAt(paths, row);
          paths := RemoveFirst(paths, item);
        }
      }
    }

    /** `clear_*_list_in_tab`. */
    method Clear()
      modifies this
      ensures Valid() && paths == []
    {
      rows := [];
      paths := [];
    }
  }

  // ---------------------------------------------------------------------
  // Sizes as the window computes them

  /** The walk of one folder in `calculate_total_backup_size_for_tab`. */
  method WalkedBytes(fs: FileSystem, folder: Path) returns (n: nat)
    ensures n == FolderSize(fs.entries, folder)
  {
    n := 0;
    if !IsDir(fs.entries, folder) {
      return;
    }
    var files := Walk(fs.entries, folder);
    var i := 0;
    while i < |files|
      invariant 0 <= i <= |files|
      invariant n == SizeOf(fs.entries, files[..i])
    {
      SizeOfPrefix(fs.entries, files, i);
      if Exists(fs.entries, files[i]) {
        n := n + fs.entries[files[i]].size;
      }
      i := i + 1;
    }
    assert files[..i] == files;
  }

  /**
   * `calculate_total_backup_size_for_tab` (and the window's
   * `calculate_total_backup_size` in the single-selection version): the
   * folders' walked files that exist, then the standalone regular files.
   */
  method SelectionBytes(fs: FileSystem, folders: seq<Path>, files: seq<Path>) returns (n: nat)
    ensures n == SourcesSize(fs.entries, folders, files)
  {
    n := 0;
    var i := 0;
    while i < |folders|
      invariant 0 <= i <= |folders|
      invariant n == FoldersSize(fs.entries, folders[..i])
    {
      FoldersSizePrefix(fs.entries, folders, i);
      var m := WalkedBytes(fs, folders[i]);
      n := n + m;
      i := i + 1;
    }
    assert folders[..i] == folders;
    i := 0;
    while i < |files|
      invariant 0 <= i <= |files|
      invariant n == FoldersSize(fs.entries, folders) + SizeOf(fs.entries, files[..i])
    {
      SizeOfPrefix(fs.entries, files, i);
      if IsFile(fs.entries, files[i]) {
        n := n + fs.entries[files[i]].size;
      }
      i := i + 1;
    }
    assert files[..i] == files;
  }

  // ---------------------------------------------------------------------
  // Checks and the queue of tabs

  /**
   * One tab whose page carries `tab_data`: the text its tab bar shows
   * (`tabText`, the label `TruncateTabTitle` made), its sources and its
   * destination.
   */
  datatype TabData = TabData(tabLabel: string, sourceFolders: seq<Path>, sourceFiles: seq<Path>, destination: Path)

  /** Some source is selected and a destination is set. */
  predicate HasJob(d: TabData) {
    (d.sourceFolders != [] || d.sourceFiles != []) && d.destination != []
  }

  /** The job the multi-tab worker receives for a tab, with its size at queueing time. */
  function JobOf(t: Tree, d: TabData): (r: Tab)
    ensures r.name == d.tabLabel && r.destination == d.destination
    ensures r.folders == d.sourceFolders && r.files == d.sourceFiles
    ensures Qualifies(t, d) <==> HasJob(d) && r.size > 0
    ensures r.size > 0 ==> r.folders != [] || r.files != []
  {
    Tab(d.tabLabel, d.destination, d.sourceFolders, d.sourceFiles, SourcesSize(t, d.sourceFolders, d.sourceFiles))
  }

  /** A tab is queued when it has a job with a positive size. */
  predicate Qualifies(t: Tree, d: TabData) {
    HasJob(d) && SourcesSize(t, d.sourceFolders, d.sourceFiles) > 0
  }

  /** The tabs `start_backup_all_tabs` hands over, in tab order. */
  function Queued(t: Tree, ds: seq<TabData>): (r: seq<Tab>)
    ensures |r| <= |ds|
    ensures forall q :: q in r ==> exists d :: d in ds && Qualifies(t, d) && q == JobOf(t, d)
    ensures forall d :: d in ds && Qualifies(t, d) ==> JobOf(t, d) in r
  {
    if ds == [] then []
    else
      var n := |ds| - 1;
      var d := ds[n];
      assert forall e :: e in ds[..n] ==> e in ds;
      assert forall e :: e in ds ==> e in ds[..n] || e == d;
      Queued(t, ds[..n]) + if Qualifies(t, d) then [JobOf(t, d)] else []
  }

  /** The positions of the tabs that qualify, in tab order. */
  function QualifyingIndices(t: Tree, ds: seq<TabData>): (r: seq<nat>)
    ensures forall k :: 0 <= k < |r| ==> r[k] < |ds| && Qualifies(t, ds[r[k]])
    ensures forall i :: 0 <= i < |ds| && Qualifies(t, ds[i]) ==> i in r
    ensures forall k, l :: 0 <= k < l < |r| ==> r[k] < r[l]
  {
    if ds == [] then []
    else
      var n := |ds| - 1;
      QualifyingIndices(t, ds[..n]) + if Qualifies(t, ds[n]) then [n] else []
  }

  /** `q` holds, position by position, the jobs of the tabs at `idx`. */
  predicate JobsAt(t: Tree, ds: seq<TabData>, idx: seq<nat>, q: seq<Tab>) {
    |q| == |idx| && forall k :: 0 <= k < |idx| ==> idx[k] < |ds| && q[k] == JobOf(t, ds[idx[k]])
  }

  /** The queue holds, position by position, the jobs of exactly the qualifying tabs, in tab order. */
  lemma {:induction false} QueuedAt(t: Tree, ds: seq<TabData>)
    ensures JobsAt(t, ds, QualifyingIndices(t, ds), Queued(t, ds))
  {
    if ds != [] {
      var n := |ds| - 1;
      var d := ds[n];
      QueuedAt(t, ds[..n]);
      var q, idx := Queued(t, ds[..n]), QualifyingIndices(t, ds[..n]);
      var q', idx' := if Qualifies(t, d) then [JobOf(t, d)] else [], if Qualifies(t, d) then [n] else [];
      assert Queued(t, ds) == q + q' && QualifyingIndices(t, ds) == idx + idx';
      JobsAtWiden(t, ds, n, idx, q);
      JobsAtAppend(t, ds, idx, q, idx', q');
    }
  }

  /** Jobs of the first `n` tabs are jobs of the tabs. */
  lemma JobsAtWiden(t: Tree, ds: seq<TabData>, n: nat, idx: seq<nat>, q: seq<Tab>)
    requires n <= |ds| && JobsAt(t, ds[..n], idx, q)
    ensures JobsAt(t, ds, idx, q)
  {
    forall k | 0 <= k < |idx|
      ensures ds[..n][idx[k]] == ds[idx[k]]
    {
    }
  }

  /** Jobs at two index sequences, concatenated, are jobs at their concatenation. */
  lemma JobsAtAppend(t: Tree, ds: seq<TabData>, idx: seq<nat>, q: seq<Tab>, idx': seq<nat>, q': seq<Tab>)
    requires JobsAt(t, ds, idx, q) && JobsAt(t, ds, idx', q')
    ensures JobsAt(t, ds, idx + idx', q + q')
  {
    forall k | 0 <= k < |idx + idx'|
      ensures (idx + idx')[k] < |ds| && (q + q')[k] == JobOf(t, ds[(idx + idx')[k]])
    {
      if k >= |idx| {
        assert (q + q')[k] == q'[k - |idx|] && (idx + idx')[k] == idx'[k - |idx|];
      }
    }
  }

  /** Every queued tab has a positive size equal to the size of its own selection. */
  lemma {:induction false} QueuedSizes(t: Tree, ds: seq<TabData>)
    ensures forall q :: q in Queued(t, ds) ==> q.size == TabSize(t, q) > 0 && q.destination != []
  {
  }

  /** The summed size is zero exactly when no tab was queued, so the second abort never fires alone. */
  lemma {:induction false} TotalZeroIffEmpty(t: Tree, qs: seq<Tab>)
    requires forall q :: q in qs ==> q.size == TabSize(t, q) > 0
    ensures TotalSize(t, qs) == 0 <==> qs == []
    decreases |qs|
  {
    if qs != [] {
      var n := |qs| - 1;
      assert qs[n] in qs;
      assert forall q :: q in qs[..n] ==> q in qs;
      TotalZeroIffEmpty(t, qs[..n]);
    }
  }

  /**
   * `start_backup_all_tabs` up to the worker's creation: collect the tabs
   * with a job of positive size, summing their sizes; without any, nothing
   * starts.
   */
  method StartBackupAllTabs(fs: FileSystem, ds: seq<TabData>) returns (started: bool, queue: seq<Tab>, total: nat)
    ensures queue == Queued(fs.entries, ds)
    ensures total == TotalSize(fs.entries, queue)
    ensures started <==> queue != []
    ensures started <==> total > 0
  {
    queue, total := [], 0;
    var i := 0;
    while i < |ds|
      invariant 0 <= i <= |ds|
      invariant queue == Queued(fs.entries, ds[..i])
      invariant total == TotalSize(fs.entries, queue)
    {
      var d := ds[i];
      assert ds[..i + 1][..i] == ds[..i] && ds[..i + 1][i] == d;
      if HasJob(d) {
        var size := SelectionBytes(fs, d.sourceFolders, d.sourceFiles);
        if size > 0 {
          var job := Tab(d.tabLabel, d.destination, d.sourceFolders, d.sourceFiles, size);
          assert (queue + [job])[..|queue|] == queue;
          queue := queue + [job];
          total := total + size;
        }
      }
      i := i + 1;
    }
    assert ds[..i] == ds;
    QueuedSizes(fs.entries, ds);
    TotalZeroIffEmpty(fs.entries, queue);
    started := queue != [];
  }

  /**
   * `validate_backup_conditions_for_tab` (and `validate_backup_conditions`
   * of the single-selection version): sources and a destination are set,
   * the selection has bytes, and a missing destination is created, which
   * fails when a prefix of it is a file or cannot be created.
   */
  method ValidateBackupConditions(fs: FileSystem, folders: seq<Path>, files: seq<Path>, destination: Path)
    returns (ok: bool)
    modifies fs
    ensures ok <==> (folders != [] || files != []) && destination != []
                    && SourcesSize(old(fs.entries), folders, files) > 0
                    && (Exists(old(fs.entries), destination) || CanMakeDirs(old(fs.entries), fs.failing, destination))
    ensures ok ==> Exists(fs.entries, destination)
    ensures !ok ==> fs.entries == old(fs.entries)
    ensures Preserved(old(fs.entries), fs.entries)
    ensures forall q :: q in fs.entries && q !in old(fs.entries) ==> q <= destination
  {
    if folders == [] && files == [] {
      return false;
    }
    if destination == [] {
      return false;
    }
    var size := SelectionBytes(fs, folders, files);
    if size == 0 {
      return false;
    }
    if !Exists(fs.entries, destination) {
      ok := fs.MakeDirs(destination);
      return;
    }
    return true;
  }
}
