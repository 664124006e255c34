/**
 * The copy engine shared by `BackupWorker` and `MultiTabBackupWorker`: the
 * size pre-computation, the copy of folders (whole or by contents) and of
 * single files into a destination, collision-free naming, progress and the
 * cancellation checks.  The two Python classes carry identical copies of
 * `get_safe_destination_path`, `copy_tree_safe` and `update_progress_stats`;
 * here one class holds them, with one entry point per worker.
 *
 * The thread, its signals and the free-space query are left out: a run's
 * `finished_signal` is the returned `Outcome`, `progress_updated` the
 * `progress` log, error statuses the `errors` log, and the free-space answer
 * is an input.
 */
module Engine {
  import opened Options
  import opened Paths
  import opened FileSystems

  /** One tab's job, as `start_backup_all_tabs` hands it to the multi-tab worker. */
  datatype Tab = Tab(name: string, destination: Path, folders: seq<Path>, files: seq<Path>, size: nat)

  /**
   * How a run ends.  `Success(n)` is `(True, "... n файлов")`; the others are
   * the `(False, ...)` answers: cancelled, not enough space, an exception
   * outside the per-item handlers, no bytes to copy.
   */
  datatype Outcome = Success(copied: nat) | Cancelled | NoSpace | CriticalError | NothingToCopy

  /** One successful `shutil.copy2`: source, the path written, bytes. */
  datatype CopyRecord = CopyRecord(src: Path, dst: Path, size: nat)

  /**
   * Why an error status was sent: the tree in which the copy raised and,
   * for a whole folder, the name it was being copied to.
   */
  datatype Failure = Failure(tree: Tree, dest: Path)

  /**
   * Where a source loop started: the lengths of `copies`, `errors` and the
   * run-level reads, the ghost totals, and the two counters.
   */
  datatype Mark = Mark(copies: nat, errors: nat, runReads: nat, dropped: nat, bytes: nat, droppedBytes: nat,
                       count: nat, size: nat)

  /** `os.path.exists`: the empty path never exists. */
  predicate Exists(t: Tree, p: Path) {
    p != [] && p in t
  }

  // ---------------------------------------------------------------------
  // Sizes

  /** The bytes under one source folder: every walked path that exists. */
  function FolderSize(t: Tree, folder: Path): nat {
    if IsDir(t, folder) then SizeOf(t, Walk(t, folder)) else 0
  }

  function FoldersSize(t: Tree, folders: seq<Path>): nat {
    if folders == [] then 0
    else FoldersSize(t, folders[..|folders| - 1]) + FolderSize(t, folders[|folders| - 1])
  }

  /** The bytes of a selection: the folders' bytes plus the standalone paths that are regular files. */
  function SourcesSize(t: Tree, folders: seq<Path>, files: seq<Path>): nat {
    FoldersSize(t, folders) + SizeOf(t, files)
  }

  /** `calculate_total_backup_size_for_tab`: both branches of its folder loop walk the same way. */
  function TabSize(t: Tree, tab: Tab): nat {
    SourcesSize(t, tab.folders, tab.files)
  }

  function TotalSize(t: Tree, tabs: seq<Tab>): nat {
    if tabs == [] then 0 else TotalSize(t, tabs[..|tabs| - 1]) + TabSize(t, tabs[|tabs| - 1])
  }

  lemma {:induction false} SizeOfPrefix(t: Tree, s: seq<Path>, k: nat)
    requires k < |s|
    ensures SizeOf(t, s[..k + 1]) == SizeOf(t, s[..k]) + SizeOf(t, [s[k]])
    ensures SizeOf(t, s[..k + 1]) <= SizeOf(t, s)
  {
    assert s[..k + 1] == s[..k] + [s[k]];
    SizeOfAppend(t, s[..k], [s[k]]);
    assert s == s[..k + 1] + s[k + 1..];
    SizeOfAppend(t, s[..k + 1], s[k + 1..]);
  }

  lemma {:induction false} FoldersSizePrefix(t: Tree, f: seq<Path>, j: nat)
    requires j < |f|
    ensures FoldersSize(t, f[..j + 1]) == FoldersSize(t, f[..j]) + FolderSize(t, f[j])
    ensures FoldersSize(t, f[..j + 1]) <= FoldersSize(t, f)
    decreases |f| - j
  {
    assert f[..j + 1][..j] == f[..j];
    if j + 1 < |f| {
      FoldersSizePrefix(t, f, j + 1);
    } else {
      assert f[..j + 1] == f;
    }
  }

  lemma {:induction false} TotalSizePrefix(t: Tree, tabs: seq<Tab>, i: nat)
    requires i < |tabs|
    ensures TotalSize(t, tabs[..i + 1]) == TotalSize(t, tabs[..i]) + TabSize(t, tabs[i])
    ensures TotalSize(t, tabs[..i + 1]) <= TotalSize(t, tabs)
    decreases |tabs| - i
  {
    assert tabs[..i + 1][..i] == tabs[..i];
    if i + 1 < |tabs| {
      TotalSizePrefix(t, tabs, i + 1);
    } else {
      assert tabs[..i + 1] == tabs;
    }
  }

  // ---------------------------------------------------------------------
  // Progress

  /** `int((copied / total) * 100)`, in exact arithmetic. */
  function Percent(copied: nat, total: nat): (r: nat)
    requires total > 0
    ensures r * total <= copied * 100 < (r + 1) * total
  {
    var r := copied * 100 / total;
    assert copied * 100 == total * r + copied * 100 % total;
    r
  }

  /** The percentage never falls as bytes are copied and reaches 100 with the total. */
  lemma PercentMonotone(a: nat, b: nat, total: nat)
    requires total > 0 && a <= b
    ensures Percent(a, total) <= Percent(b, total)
    ensures b <= total ==> Percent(b, total) <= 100
    ensures Percent(total, total) == 100
  {
    DivMonotone(a * 100, b * 100, total);
    DivExact(100, total);
    if b <= total {
      DivMonotone(b * 100, total * 100, total);
    }
  }

  lemma DivMonotone(x: nat, y: nat, d: nat)
    requires d > 0 && x <= y
    ensures x / d <= y / d
  {
    QuotientMonotone(x, y, d, x / d, y / d, x % d, y % d);
  }

  /** Of two divisions by `d`, the smaller dividend has the smaller quotient. */
  lemma QuotientMonotone(x: int, y: int, d: int, qx: int, qy: int, rx: int, ry: int)
    requires d > 0 && x <= y && qx >= 0 && qy >= 0
    requires x == d * qx + rx && 0 <= rx < d
    requires y == d * qy + ry && 0 <= ry < d
    ensures qx <= qy
  {
    if qx > qy {
      MulMonotone(qy + 1, qx, d);
    }
  }

  lemma MulMonotone(a: nat, b: nat, d: nat)
    requires a <= b
    ensures d * a <= d * b
  {
  }

  lemma DivExact(k: nat, d: nat)
    requires d > 0
    ensures (k * d) / d == k
  {
    var n := k * d;
    QuotientMonotone(n, n, d, n / d, k, n % d, 0);
    QuotientMonotone(n, n, d, k, n / d, 0, n % d);
  }

  /**
   * There is no clamp: once `k` times the announced total has been copied
   * the percentage is at least `100 * k`, so it passes 100.
   */
  lemma PercentNotClamped(copied: nat, total: nat, k: nat)
    requires total > 0 && k * total <= copied
    ensures Percent(copied, total) >= 100 * k
  {
    MulMonotone(k * total, copied, 100);
    assert (100 * k) * total == 100 * (k * total);
    DivMonotone((100 * k) * total, copied * 100, total);
    DivExact(100 * k, total);
  }

  // ---------------------------------------------------------------------
  // What a stretch of copying may do to the tree

  /** `q` is `a`, an ancestor of `a`, or below `a`. */
  predicate OnPath(a: Path, q: Path) {
    q <= a || a <= q
  }

  /** `q` was created, or its entry changed (a file rewritten, a listing grown), between `t0` and `t1`. */
  ghost predicate Changed(t0: Tree, t1: Tree, q: Path) {
    q in t1 && (q !in t0 || t1[q] != t0[q])
  }

  /** Every entry created or changed lies on the way to or inside `a`. */
  ghost predicate ChangedWithin(t0: Tree, t1: Tree, a: Path) {
    forall q :: Changed(t0, t1, q) ==> OnPath(a, q)
  }

  /**
   * A copy into a fresh name: the written path was absent from `t0`, and at
   * the end the written file and its source both hold the recorded size.
   */
  ghost predicate FreshCopy(t0: Tree, t1: Tree, c: CopyRecord) {
    c.dst !in t0 && IsFile(t1, c.dst) && t1[c.dst].size == c.size
    && IsFile(t1, c.src) && t1[c.src].size == c.size
  }

  /**
   * What any stretch of engine work from tree `t0` to tree `t1` keeps, with
   * `cs` the copies it made and `emitted` the progress values it sent: one
   * progress value per copy when the total is positive, and nothing removed.
   * Without history (`numeric`), in addition no existing file was rewritten
   * and each copy went to a fresh, distinct name.
   */
  ghost predicate Carried(t0: Tree, t1: Tree, cs: seq<CopyRecord>, emitted: nat, total: nat, numeric: bool) {
    && emitted == (if total > 0 then |cs| else 0)
    && Grows(t0, t1)
    && (numeric ==> && (forall i :: 0 <= i < |cs| ==> FreshCopy(t0, t1, cs[i]))
                    && (forall p :: p in t0 && t0[p].File? ==> t1[p] == t0[p])
                    && (forall i, j :: 0 <= i < j < |cs| ==> cs[i].dst != cs[j].dst))
  }

  /**
   * `Carried`, for work that writes into the destination `a`: every change
   * lies on the way to or inside `a`, and every copy strictly inside `a`.
   */
  ghost predicate Kept(t0: Tree, t1: Tree, cs: seq<CopyRecord>, emitted: nat, total: nat,
                       a: Path, numeric: bool) {
    && Carried(t0, t1, cs, emitted, total, numeric)
    && ChangedWithin(t0, t1, a)
    && (forall i :: 0 <= i < |cs| ==> a < cs[i].dst)
  }

  lemma KeptNothing(t: Tree, total: nat, a: Path, numeric: bool)
    ensures Kept(t, t, [], 0, total, a, numeric)
  {
  }

  lemma CarriedTransitive(t0: Tree, t1: Tree, t2: Tree, cs1: seq<CopyRecord>, cs2: seq<CopyRecord>,
                          e1: nat, e2: nat, total: nat, numeric: bool)
    requires Carried(t0, t1, cs1, e1, total, numeric)
    requires Carried(t1, t2, cs2, e2, total, numeric)
    ensures Carried(t0, t2, cs1 + cs2, e1 + e2, total, numeric)
  {
    var cs := cs1 + cs2;
    assert forall i :: 0 <= i < |cs| ==> cs[i] == if i < |cs1| then cs1[i] else cs2[i - |cs1|];
    GrowsTransitive(t0, t1, t2);
    if numeric {
      PreservedTransitive(t0, t1, t2);
      forall i, j | 0 <= i < j < |cs|
        ensures cs[i].dst != cs[j].dst
      {
        if i < |cs1| && j >= |cs1| {
          assert cs[i].dst in t1;
          assert cs[j].dst !in t1;
        }
      }
    }
  }

  lemma KeptTransitive(t0: Tree, t1: Tree, t2: Tree, cs1: seq<CopyRecord>, cs2: seq<CopyRecord>,
                       e1: nat, e2: nat, total: nat, a: Path, numeric: bool)
    requires Kept(t0, t1, cs1, e1, total, a, numeric)
    requires Kept(t1, t2, cs2, e2, total, a, numeric)
    ensures Kept(t0, t2, cs1 + cs2, e1 + e2, total, a, numeric)
  {
    var cs := cs1 + cs2;
    assert forall i :: 0 <= i < |cs| ==> cs[i] == if i < |cs1| then cs1[i] else cs2[i - |cs1|];
    CarriedTransitive(t0, t1, t2, cs1, cs2, e1, e2, total, numeric);
  }

  /** Two consecutive stretches of work, the first ending where the second starts, make one. */
  lemma KeptChain(t0: Tree, t1: Tree, t2: Tree, cs: seq<CopyRecord>, k0: nat, k1: nat,
                  p0: nat, p1: nat, p2: nat, total: nat, a: Path, numeric: bool)
    requires k0 <= k1 <= |cs| && p0 <= p1 <= p2
    requires Kept(t0, t1, cs[k0..k1], p1 - p0, total, a, numeric)
    requires Kept(t1, t2, cs[k1..], p2 - p1, total, a, numeric)
    ensures Kept(t0, t2, cs[k0..], p2 - p0, total, a, numeric)
  {
    assert cs[k0..] == cs[k0..k1] + cs[k1..];
    KeptTransitive(t0, t1, t2, cs[k0..k1], cs[k1..], p1 - p0, p2 - p1, total, a, numeric);
  }

  /** Directories created on the way to a path at or below `a` stay on `a`'s path. */
  lemma MakeDirsKept(t0: Tree, t1: Tree, p: Path, total: nat, a: Path, numeric: bool)
    requires Preserved(t0, t1) && a <= p && Touched(t0, t1, p)
    ensures Kept(t0, t1, [], 0, total, a, numeric)
  {
    forall q | Changed(t0, t1, q)
      ensures OnPath(a, q)
    {
      PrefixesOnPath(q, a, p);
    }
  }

  /** Writing one file at or below `a`. */
  lemma WriteKept(t: Tree, src: Path, target: Path, total: nat, a: Path, numeric: bool)
    requires IsFile(t, src) && src != target && HasParentDir(t, target) && !IsDir(t, target)
    requires a < target
    requires numeric ==> target !in t
    ensures var r := CopyRecord(src, target, t[src].size);
      Kept(t, WriteFile(t, target, t[src].size), [r], if total > 0 then 1 else 0, total, a, numeric)
  {
    var u := WriteFile(t, target, t[src].size);
    assert a <= Parent(target) by {
      assert Parent(target)[..|a|] == target[..|a|];
    }
    if numeric {
      assert Preserved(t, u);
    }
  }

  /** A stretch of work followed by one successful `shutil.copy2` at or below `a`. */
  lemma KeptAfterWrite(t0: Tree, t: Tree, cs: seq<CopyRecord>, k0: nat, e: nat, total: nat, a: Path,
                       numeric: bool, src: Path, target: Path)
    requires k0 <= |cs| && Kept(t0, t, cs[k0..], e, total, a, numeric)
    requires IsFile(t, src) && src != target && HasParentDir(t, target) && !IsDir(t, target)
    requires a < target && (numeric ==> target !in t)
    ensures var r := CopyRecord(src, target, t[src].size);
      Kept(t0, WriteFile(t, target, t[src].size), (cs + [r])[k0..], e + if total > 0 then 1 else 0, total, a, numeric)
  {
    var r := CopyRecord(src, target, t[src].size);
    WriteKept(t, src, target, total, a, numeric);
    assert (cs + [r])[k0..] == cs[k0..] + [r];
    KeptTransitive(t0, t, WriteFile(t, target, t[src].size), cs[k0..], [r], e, if total > 0 then 1 else 0,
                   total, a, numeric);
  }

  /** Work kept on the path of `b` is kept on the path of any prefix `a` of `b`. */
  lemma KeptWiden(t0: Tree, t1: Tree, cs: seq<CopyRecord>, e: nat, total: nat, a: Path, b: Path, numeric: bool)
    requires a <= b && Kept(t0, t1, cs, e, total, b, numeric)
    ensures Kept(t0, t1, cs, e, total, a, numeric)
  {
    forall q | OnPath(b, q)
      ensures OnPath(a, q)
    {
      OnPathWiden(a, b, q);
    }
    forall i | 0 <= i < |cs|
      ensures a < cs[i].dst
    {
      assert cs[i].dst[..|a|] == cs[i].dst[..|b|][..|a|];
    }
  }

  /** What is on the way to or inside `b` is on the way to or inside any prefix `a` of `b`. */
  lemma OnPathWiden(a: Path, b: Path, q: Path)
    requires a <= b && OnPath(b, q)
    ensures OnPath(a, q)
  {
    if q <= b {
      if |q| <= |a| {
        assert q == b[..|q|] && a[..|q|] == b[..|q|];
      } else {
        assert a == b[..|a|] && q[..|a|] == b[..|a|];
      }
    } else {
      assert q[..|a|] == q[..|b|][..|a|];
    }
  }

  /** The path `q` walked below `folder` takes under `actual`: `os.path.relpath` then `os.path.join`. */
  function Rebase(q: Path, folder: Path, actual: Path): (r: Path)
    requires |q| > |folder| && q[..|folder|] == folder
    ensures |r| >= 1 && actual < r && actual <= Parent(r)
    ensures r[|actual|..] == q[|folder|..]
  {
    var r := actual + q[|folder|..];
    assert r[..|actual|] == actual;
    assert Parent(r)[..|actual|] == actual;
    r
  }

  // ---------------------------------------------------------------------
  // What the copy loops must copy

  /** Neither of `a` and `p` is on the way to or inside the other. */
  predicate Apart(a: Path, p: Path) {
    !OnPath(a, p)
  }

  /** Every path below a path apart from `a` is apart from `a`. */
  lemma ApartBelow(a: Path, s: Path, q: Path)
    requires Apart(a, s) && s <= q
    ensures Apart(a, q)
  {
    if a <= q {
      PrefixesOnPath(a, s, q);
    }
  }

  /** Work that changed only entries on the path of `a` left every subtree apart from `a` as it was. */
  lemma ApartUnchanged(t0: Tree, t1: Tree, a: Path, s: Path)
    requires Grows(t0, t1) && ChangedWithin(t0, t1, a) && Apart(a, s)
    ensures SameBelow(t0, t1, s)
  {
    forall q | s <= q
      ensures (q in t0 <==> q in t1) && (q in t0 ==> t0[q] == t1[q])
    {
      ApartBelow(a, s, q);
      assert !Changed(t0, t1, q);
    }
  }

  /** Two stretches of such work from the same tree agree on every subtree apart from `a`. */
  lemma ApartUnchangedBetween(t0: Tree, t1: Tree, t2: Tree, a: Path, s: Path)
    requires Grows(t0, t1) && ChangedWithin(t0, t1, a)
    requires Grows(t0, t2) && ChangedWithin(t0, t2, a) && Apart(a, s)
    ensures SameBelow(t1, t2, s)
  {
    ApartUnchanged(t0, t1, a, s);
    ApartUnchanged(t0, t2, a, s);
  }

  /**
   * The files `copy_tree_safe` copies from `d`, in its order: each listed
   * name in turn, a directory by recursion and anything else as a file.  A
   * `d` that is not a directory, or lies too deep to be listed, gives none.
   */
  function TreeFiles(t: Tree, d: Path): (r: seq<Path>)
    decreases MaxDepth - |d|, 1
  {
    if !IsDir(t, d) || |d| >= MaxDepth then [] else ListedFiles(t, d, t[d].names)
  }

  /** The files `copy_tree_safe` copies for the names `names` listed in `d`. */
  function ListedFiles(t: Tree, d: Path, names: seq<string>): (r: seq<Path>)
    requires |d| < MaxDepth
    decreases MaxDepth - |d|, 0, |names|
  {
    if names == [] then []
    else
      var n := names[|names| - 1];
      ListedFiles(t, d, names[..|names| - 1]) + EntryFiles(t, d, n)
  }

  /** The files copied for one listed name: the tree below a directory, else the name itself. */
  function EntryFiles(t: Tree, d: Path, n: string): (r: seq<Path>)
    requires |d| < MaxDepth
    decreases MaxDepth - |d|, 0, 0
  {
    if IsDir(t, d + [n]) then TreeFiles(t, d + [n]) else [d + [n]]
  }

  /** The tree copy reads only the entries at or below `d`. */
  lemma {:induction false} TreeFilesSame(t: Tree, u: Tree, d: Path)
    requires SameBelow(t, u, d)
    ensures TreeFiles(t, d) == TreeFiles(u, d)
    decreases MaxDepth - |d|, 1
  {
    assert d <= d;
    if IsDir(t, d) && |d| < MaxDepth {
      ListedFilesSame(t, u, d, t[d].names);
    }
  }

  lemma {:induction false} ListedFilesSame(t: Tree, u: Tree, d: Path, names: seq<string>)
    requires |d| < MaxDepth && SameBelow(t, u, d)
    ensures ListedFiles(t, d, names) == ListedFiles(u, d, names)
    decreases MaxDepth - |d|, 0, |names|
  {
    if names != [] {
      ListedFilesSame(t, u, d, names[..|names| - 1]);
      EntryFilesSame(t, u, d, names[|names| - 1]);
    }
  }

  lemma {:induction false} EntryFilesSame(t: Tree, u: Tree, d: Path, n: string)
    requires |d| < MaxDepth && SameBelow(t, u, d)
    ensures EntryFiles(t, d, n) == EntryFiles(u, d, n)
    decreases MaxDepth - |d|, 0, 0
  {
    SameBelowDescend(t, u, d, n);
    assert d + [n] <= d + [n];
    TreeFilesSame(t, u, d + [n]);
  }

  /** The sources of a run of copies, in order. */
  function Srcs(cs: seq<CopyRecord>): seq<Path> {
    seq(|cs|, j requires 0 <= j < |cs| => cs[j].src)
  }

  lemma SrcsAppend(a: seq<CopyRecord>, b: seq<CopyRecord>)
    ensures Srcs(a + b) == Srcs(a) + Srcs(b)
  {
  }

  /** The copies since `k` took the first `i` paths of `ps`; one copy more of the next extends that by one. */
  lemma SrcsPush(cs: seq<CopyRecord>, cs': seq<CopyRecord>, k: nat, ps: seq<Path>, i: nat)
    requires k <= |cs| && cs <= cs' && |cs'| == |cs| + 1 && i < |ps|
    requires Srcs(cs[k..]) == ps[..i] && cs'[|cs|].src == ps[i]
    ensures Srcs(cs'[k..]) == ps[..i + 1]
  {
    assert cs'[k..] == cs[k..] + [cs'[|cs|]];
    SrcsAppend(cs[k..], [cs'[|cs|]]);
    assert ps[..i + 1] == ps[..i] + [ps[i]];
  }

  /** The sources copied in `cs[k..]` stay copied as `cs` grows. */
  lemma SrcsGrow(cs: seq<CopyRecord>, cs': seq<CopyRecord>, k: nat)
    requires cs <= cs' && k <= |cs|
    ensures forall q :: q in Srcs(cs[k..]) ==> q in Srcs(cs'[k..])
  {
    assert cs'[k..] == cs[k..] + cs'[|cs|..];
    SrcsAppend(cs[k..], cs'[|cs|..]);
  }

  /** Handled since later marks is handled since earlier ones. */
  lemma HandledEarlierMark(cs: seq<CopyRecord>, k0: nat, k1: nat, es: seq<Path>, e0: nat, e1: nat,
                           p: Path, wanted: seq<Path>)
    requires k0 <= k1 <= |cs| && e0 <= e1 <= |es| && Handled(cs, k1, es, e1, p, wanted)
    ensures Handled(cs, k0, es, e0, p, wanted)
  {
    if p in es[e1..] {
      assert es[e0..] == es[e0..e1] + es[e1..];
    } else {
      assert cs[k0..] == cs[k0..k1] + cs[k1..];
      SrcsAppend(cs[k0..k1], cs[k1..]);
    }
  }

  lemma FilesHandledEarlierMark(t: Tree, files: seq<Path>, cs: seq<CopyRecord>, k0: nat, k1: nat,
                                es: seq<Path>, e0: nat, e1: nat)
    requires k0 <= k1 <= |cs| && e0 <= e1 <= |es| && FilesHandled(t, files, |files|, cs, k1, es, e1)
    ensures FilesHandled(t, files, |files|, cs, k0, es, e0)
  {
    forall j | 0 <= j < |files| && Exists(t, files[j])
      ensures Handled(cs, k0, es, e0, files[j], [files[j]])
    {
      HandledEarlierMark(cs, k0, k1, es, e0, e1, files[j], [files[j]]);
    }
  }

  /**
   * A source `p` is handled since the marks `k` and `e`: it was named by an
   * error status in `es[e..]`, or every file in `wanted` was copied in `cs[k..]`.
   */
  predicate Handled(cs: seq<CopyRecord>, k: nat, es: seq<Path>, e: nat, p: Path, wanted: seq<Path>) {
    (e <= |es| && p in es[e..]) || (k <= |cs| && forall q :: q in wanted ==> q in Srcs(cs[k..]))
  }

  /** Handled sources stay handled as the copies and the errors grow. */
  lemma HandledGrow(cs: seq<CopyRecord>, cs': seq<CopyRecord>, k: nat, es: seq<Path>, es': seq<Path>, e: nat,
                    p: Path, wanted: seq<Path>)
    requires cs <= cs' && es <= es' && Handled(cs, k, es, e, p, wanted)
    ensures Handled(cs', k, es', e, p, wanted)
  {
    if e <= |es| && p in es[e..] {
      assert es'[e..] == es[e..] + es'[|es|..];
    } else {
      SrcsGrow(cs, cs', k);
    }
  }

  /**
   * Every standalone file among the first `n` that existed in `t` was named
   * by an error status in `es[e..]` or copied in `cs[k..]`.
   */
  predicate FilesHandled(t: Tree, files: seq<Path>, n: nat, cs: seq<CopyRecord>, k: nat, es: seq<Path>, e: nat) {
    forall j :: 0 <= j < n && j < |files| && Exists(t, files[j]) ==> Handled(cs, k, es, e, files[j], [files[j]])
  }

  lemma FilesHandledGrow(t: Tree, files: seq<Path>, n: nat, cs: seq<CopyRecord>, cs': seq<CopyRecord>, k: nat,
                         es: seq<Path>, es': seq<Path>, e: nat)
    requires cs <= cs' && es <= es' && FilesHandled(t, files, n, cs, k, es, e)
    ensures FilesHandled(t, files, n, cs', k, es', e)
  {
    forall j | 0 <= j < n && j < |files| && Exists(t, files[j])
      ensures Handled(cs', k, es', e, files[j], [files[j]])
    {
      HandledGrow(cs, cs', k, es, es', e, files[j], [files[j]]);
    }
  }

  /** The `i`-th file's pass, which copied it or reported it, extends the handled prefix. */
  lemma FilesHandledStep(t1: Tree, files: seq<Path>, i: nat, cs: seq<CopyRecord>, cs': seq<CopyRecord>, k: nat,
                         es: seq<Path>, es': seq<Path>, e: nat)
    requires i < |files| && cs <= cs' && es <= es' && k <= |cs| && e <= |es|
    requires FilesHandled(t1, files, i, cs, k, es, e)
    requires Exists(t1, files[i]) ==> es' == es + [files[i]] || (|cs'| == |cs| + 1 && cs'[|cs|].src == files[i])
    ensures FilesHandled(t1, files, i + 1, cs', k, es', e)
  {
    FilesHandledGrow(t1, files, i, cs, cs', k, es, es', e);
    var f := files[i];
    if Exists(t1, f) {
      if es' == es + [f] {
        assert es'[e..] == es[e..] + [f];
      } else {
        assert Srcs(cs'[k..])[|cs| - k] == f;
      }
      assert Handled(cs', k, es', e, f, [f]);
    }
  }

  /** Files handled in a later tree were handled in an earlier one from which the tree only grew. */
  lemma FilesHandledEarlier(t0: Tree, t1: Tree, files: seq<Path>, cs: seq<CopyRecord>, k: nat, es: seq<Path>, e: nat)
    requires Grows(t0, t1) && FilesHandled(t1, files, |files|, cs, k, es, e)
    ensures FilesHandled(t0, files, |files|, cs, k, es, e)
  {
  }

  /** A copy whose source was selected: a standalone file or a path below a source folder. */
  predicate FromSources(src: Path, folders: seq<Path>, files: seq<Path>) {
    src in files || exists f :: f in folders && f < src
  }

  /** A copy made for `tab`: written inside its destination from one of its sources. */
  predicate CopyOfTab(tab: Tab, c: CopyRecord) {
    tab.destination < c.dst && FromSources(c.src, tab.folders, tab.files)
  }

  /**
   * `check_disk_space`: the free bytes reported for the destination cover
   * the requirement.  A query that raises (`None`) counts as enough room.
   */
  predicate HasRoom(free: Option<nat>, required: nat) {
    free.None? || required <= free.value
  }

  /** Room for a requirement is room for any smaller one, and a larger free figure has room for more. */
  lemma RoomMonotone(free: Option<nat>, more: Option<nat>, required: nat, less: nat)
    requires less <= required && (more.Some? ==> free.Some? && free.value <= more.value)
    ensures HasRoom(free, required) ==> HasRoom(free, less) && HasRoom(more, required)
    ensures free.Some? ==> (HasRoom(free, required) <==> required <= free.value)
  {
  }

  /** The indices of the tabs whose destination has room for them, in order. */
  function TabsWithRoom(tabs: seq<Tab>, free: seq<Option<nat>>): (r: seq<nat>)
    requires |free| == |tabs|
    ensures forall k :: 0 <= k < |r| ==> r[k] < |tabs| && HasRoom(free[r[k]], tabs[r[k]].size)
    ensures forall i :: 0 <= i < |tabs| && HasRoom(free[i], tabs[i].size) ==> i in r
    ensures forall k, l :: 0 <= k < l < |r| ==> r[k] < r[l]
  {
    if tabs == [] then []
    else
      var n := |tabs| - 1;
      TabsWithRoom(tabs[..n], free[..n]) + if HasRoom(free[n], tabs[n].size) then [n] else []
  }

  /** `q` lies on the way to or inside the destination of one of `tabs`. */
  predicate OnSomeTabPath(tabs: seq<Tab>, q: Path) {
    exists i :: 0 <= i < |tabs| && OnPath(tabs[i].destination, q)
  }

  /** Every entry created, and every file rewritten, lies on the way to or inside some tab's destination. */
  ghost predicate ChangedWithinTabs(t0: Tree, t1: Tree, tabs: seq<Tab>) {
    forall q :: Changed(t0, t1, q) ==> OnSomeTabPath(tabs, q)
  }

  predicate FromSomeTab(tabs: seq<Tab>, c: CopyRecord) {
    exists i :: 0 <= i < |tabs| && CopyOfTab(tabs[i], c)
  }

  predicate SourceOfSomeTab(tabs: seq<Tab>, p: Path) {
    exists i :: 0 <= i < |tabs| && (p in tabs[i].folders || p in tabs[i].files)
  }

  /** `s` lies apart from every tab's destination. */
  predicate ApartFromTabs(tabs: seq<Tab>, s: Path) {
    forall i :: 0 <= i < |tabs| ==> Apart(tabs[i].destination, s)
  }

  /** Work that stays within the tabs' destinations leaves a subtree apart from all of them as it was. */
  lemma ApartFromTabsUnchanged(t0: Tree, t1: Tree, tabs: seq<Tab>, s: Path)
    requires Grows(t0, t1) && ChangedWithinTabs(t0, t1, tabs) && ApartFromTabs(tabs, s)
    ensures SameBelow(t0, t1, s)
  {
    forall q | s <= q
      ensures (q in t0 <==> q in t1) && (q in t0 ==> t0[q] == t1[q])
    {
      forall i | 0 <= i < |tabs|
        ensures !OnPath(tabs[i].destination, q)
      {
        ApartBelow(tabs[i].destination, s, q);
      }
      assert !Changed(t0, t1, q);
    }
  }

  /** A path apart from `a` is apart from every path below `a`. */
  lemma ApartNarrow(a: Path, b: Path, s: Path)
    requires a <= b && Apart(a, s)
    ensures Apart(b, s)
  {
    if OnPath(b, s) {
      OnPathWiden(a, b, s);
    }
  }

  /** The first tab whose destination has room for it, or `|tabs|` when none has. */
  function FirstWithRoom(tabs: seq<Tab>, free: seq<Option<nat>>): (r: nat)
    requires |free| == |tabs|
    ensures r <= |tabs| && (r < |tabs| ==> HasRoom(free[r], tabs[r].size))
    ensures forall j :: 0 <= j < r ==> !HasRoom(free[j], tabs[j].size)
  {
    if tabs == [] then 0
    else if HasRoom(free[0], tabs[0].size) then 0
    else 1 + FirstWithRoom(tabs[1..], free[1..])
  }

  /**
   * The work of tab `i`, kept inside its destination, extends the work of
   * the tabs before it: together they keep `Carried`, change nothing outside
   * the tabs' destinations, and the new copies belong to tab `i`.
   */
  lemma TabChain(t0: Tree, t1: Tree, t2: Tree, cs: seq<CopyRecord>, k0: nat, k1: nat, p0: nat, p1: nat, p2: nat,
                 total: nat, numeric: bool, tabs: seq<Tab>, i: nat, a: Path)
    requires k0 <= k1 <= |cs| && p0 <= p1 <= p2 && i < |tabs| && tabs[i].destination <= a
    requires Carried(t0, t1, cs[k0..k1], p1 - p0, total, numeric) && ChangedWithinTabs(t0, t1, tabs)
    requires Kept(t1, t2, cs[k1..], p2 - p1, total, a, numeric)
    requires forall j :: k1 <= j < |cs| ==> FromSources(cs[j].src, tabs[i].folders, tabs[i].files)
    ensures Carried(t0, t2, cs[k0..], p2 - p0, total, numeric) && ChangedWithinTabs(t0, t2, tabs)
    ensures forall j :: k1 <= j < |cs| ==> FromSomeTab(tabs, cs[j])
  {
    var d := tabs[i].destination;
    KeptWiden(t1, t2, cs[k1..], p2 - p1, total, d, a, numeric);
    assert cs[k0..] == cs[k0..k1] + cs[k1..];
    CarriedTransitive(t0, t1, t2, cs[k0..k1], cs[k1..], p1 - p0, p2 - p1, total, numeric);
    forall q | Changed(t0, t2, q)
      ensures OnSomeTabPath(tabs, q)
    {
      if !Changed(t0, t1, q) {
        assert Changed(t1, t2, q);
        assert OnPath(tabs[i].destination, q);
      }
    }
    forall j | k1 <= j < |cs|
      ensures FromSomeTab(tabs, cs[j])
    {
      assert cs[j] == cs[k1..][j - k1];
      assert CopyOfTab(tabs[i], cs[j]);
    }
  }

  /** Two prefixes of one path are on each other's path. */
  lemma PrefixesOnPath(a: Path, s: Path, q: Path)
    requires a <= q && s <= q
    ensures OnPath(a, s)
  {
    if |a| <= |s| {
      assert a == q[..|a|] && s[..|a|] == q[..|a|];
    } else {
      assert s == q[..|s|] && a[..|s|] == q[..|s|];
    }
  }

  lemma PrefixTransitive(a: Path, b: Path, c: Path)
    requires a < b && b < c
    ensures a < c
  {
    assert c[..|a|] == c[..|b|][..|a|];
  }

  /**
   * One level of `copy_tree_safe`'s recursion: a path below `src + [name]`
   * is below `src`, and its place under `dst + [name]` is its place under `dst`.
   */
  lemma DescendStep(src: Path, dst: Path, name: string, q: Path)
    requires src + [name] <= q
    ensures src < q && (dst + [name]) + q[|src| + 1..] == dst + q[|src|..]
  {
    assert q[..|src| + 1] == src + [name];
    assert q[..|src|] == q[..|src| + 1][..|src|];
    assert q[|src|] == name;
    assert q[|src|..] == [name] + q[|src| + 1..];
  }

  /**
   * The reads `rs[r0..]` all answered clear, except, when `stop`, the last
   * one, which answered set.
   */
  predicate StopsAt(rs: seq<bool>, r0: nat, stop: bool) {
    r0 <= |rs| && (stop ==> r0 < |rs|)
    && forall j :: r0 <= j < |rs| ==> (rs[j] <==> stop && j == |rs| - 1)
  }

  /** Clear reads followed by reads that end as `stop` end as `stop`. */
  lemma StopsAtChain(rs1: seq<bool>, rs2: seq<bool>, r0: nat, stop: bool)
    requires rs1 <= rs2 && StopsAt(rs1, r0, false) && StopsAt(rs2, |rs1|, stop)
    ensures StopsAt(rs2, r0, stop)
  {
    forall j | r0 <= j < |rs1|
      ensures !rs2[j]
    {
      assert rs2[j] == rs1[j];
    }
  }

  // ---------------------------------------------------------------------
  // The worker

  class Worker {
    const fs: FileSystem
    const copyFolderContents: bool
    const keepHistory: bool
    const createBackupFolder: bool
    /** `"Резервное копирование " + now.strftime("%d-%m-%Y")`, from the clock. */
    const backupFolderName: string
    /** `now.strftime("%d.%m.%Y_%H-%M-%S")`, the history suffix, from the clock. */
    const stamp: string
    /**
     * Cancellation oracle: the index of the first read of the `cancelled`
     * flag that sees the user's `cancel()`, if the user cancels at all.
     */
    const cancelAt: Option<nat>
    var cancelled: bool
    /** Reads of the `cancelled` flag so far. */
    var polls: nat
    var totalSize: nat
    /** The values sent with `progress_updated`. */
    var progress: seq<nat>
    /** The folder or file named by each error status. */
    var errors: seq<Path>
    /** Every successful copy, in order. */
    ghost var copies: seq<CopyRecord>
    /** The bytes of those copies, in the order they were added. */
    ghost var bytes: nat
    /** Copies whose count was discarded when their folder's tree copy raised. */
    ghost var dropped: nat
    /** The bytes of those discarded copies. */
    ghost var droppedBytes: nat
    /**
     * The answers of the reads of the flag made by the run itself, whose
     * `True` ends the run as cancelled; the reads inside `copy_tree_safe` and
     * the size computation are not among them.
     */
    ghost var runReads: seq<bool>
    /** The indices of the tabs whose copying began. */
    ghost var tabsCopied: seq<nat>
    /** For the error status at each index, the failure that caused it. */
    ghost var failedIn: map<nat, Failure>

    /** A new worker; `totalSize` is the total the window may already have computed, else 0. */
    constructor (fs: FileSystem, copyFolderContents: bool, keepHistory: bool, createBackupFolder: bool,
                 backupFolderName: string, stamp: string, cancelAt: Option<nat>, totalSize: nat)
      ensures this.fs == fs && this.copyFolderContents == copyFolderContents
      ensures this.keepHistory == keepHistory && this.createBackupFolder == createBackupFolder
      ensures this.backupFolderName == backupFolderName && this.stamp == stamp
      ensures this.cancelAt == cancelAt && this.totalSize == totalSize
      ensures !cancelled && polls == 0 && progress == [] && errors == []
      ensures copies == [] && dropped == 0 && droppedBytes == 0 && tabsCopied == [] && runReads == []
    {
      this.fs := fs;
      this.copyFolderContents := copyFolderContents;
      this.keepHistory := keepHistory;
      this.createBackupFolder := createBackupFolder;
      this.backupFolderName := backupFolderName;
      this.stamp := stamp;
      this.cancelAt := cancelAt;
      this.totalSize := totalSize;
      cancelled := false;
      polls := 0;
      progress := [];
      errors := [];
      copies := [];
      bytes := 0;
      dropped := 0;
      droppedBytes := 0;
      tabsCopied := [];
      runReads := [];
      failedIn := map[];
    }

    /** The answer the next read of the `cancelled` flag gives. */
    predicate CancelSeen()
      reads this`cancelled, this`polls
    {
      cancelled || (cancelAt.Some? && cancelAt.value <= polls)
    }

    /** `cancel()`. */
    method Cancel()
      modifies this`cancelled
      ensures cancelled
    {
      cancelled := true;
    }

    /** One read of the `cancelled` flag. */
    method PollCancelled() returns (c: bool)
      modifies this`cancelled, this`polls
      ensures c == old(CancelSeen()) && cancelled == c
      ensures polls == old(polls) + 1
    {
      c := CancelSeen();
      cancelled := c;
      polls := polls + 1;
    }

    /** A read of the flag whose `True` ends the run: it is recorded in `runReads`. */
    method PollRun() returns (c: bool)
      modifies this`cancelled, this`polls, this`runReads
      ensures c == old(CancelSeen()) && cancelled == c
      ensures polls == old(polls) + 1 && runReads == old(runReads) + [c]
    {
      c := PollCancelled();
      runReads := runReads + [c];
    }

    /**
     * Since the `r0`-th run-level read, every read answered clear except,
     * when `stop`, the last one, which answered set.
     */
    ghost predicate StoppedBy(r0: nat, stop: bool)
      reads this`runReads
    {
      StopsAt(runReads, r0, stop)
    }

    /** The engine's invariant for the work done since the state (`t0`, `k`, `p0`). */
    ghost predicate KeptSince(t0: Tree, k: nat, p0: nat, a: Path)
      reads this`copies, this`progress, this`totalSize, fs`entries
    {
      k <= |copies| && p0 <= |progress|
      && Kept(t0, fs.entries, copies[k..], |progress| - p0, totalSize, a, !keepHistory)
    }

    /**
     * What `get_safe_destination_path(p)` returns in the tree `t`: a path
     * that does not exist, unchanged.  Otherwise, with history kept, the
     * timestamp goes before the extension with no second check; without it,
     * the first free `_(N)` candidate, N at most the number of entries.
     */
    ghost predicate SafeName(t: Tree, p: Path, r: Path)
      requires |p| >= 1
    {
      && (!Exists(t, p) ==> r == p)
      && (Exists(t, p) && keepHistory ==> r == TimestampedPath(p, stamp))
      && (Exists(t, p) && !keepHistory ==>
            exists n :: 1 <= n <= |t| && r == NumberedPath(p, n) && forall m :: 1 <= m < n ==> NumberedPath(p, m) in t)
      && (!keepHistory ==> r !in t)
    }

    /** `r` is `asked` or a name `get_safe_destination_path` may choose in its place. */
    ghost predicate RenamedFrom(asked: Path, r: Path)
      requires |asked| >= 1
    {
      r == asked || (keepHistory && r == TimestampedPath(asked, stamp))
      || (!keepHistory && exists n :: 1 <= n && r == NumberedPath(asked, n))
    }

    /**
     * A copy the code sent to `asked`: written at `asked` or at a name chosen
     * in its place, or, with history kept, inside such a name that was a
     * directory, under the source's own name.
     */
    ghost predicate LandedAt(c: CopyRecord, asked: Path) {
      |asked| >= 1 && |c.src| >= 1 && |c.dst| >= 1
      && (RenamedFrom(asked, c.dst)
          || (keepHistory && Basename(c.dst) == Basename(c.src) && RenamedFrom(asked, Parent(c.dst))))
    }

    /** A copy of a file below `from`, sent to the same relative path below `to`. */
    ghost predicate CopiedBelow(c: CopyRecord, from: Path, to: Path) {
      from < c.src && LandedAt(c, to + c.src[|from|..])
    }

    /** `shutil.copy2` into the name `get_safe_destination_path` chose lands where the code sent it. */
    lemma SafeCopyLands(t: Tree, src: Path, asked: Path, r: Path, n: nat)
      requires |src| >= 1 && |asked| >= 1 && |r| == |asked| && SafeName(t, asked, r)
      ensures LandedAt(CopyRecord(src, CopyTarget(t, src, r), n), asked)
    {
      var dst := CopyTarget(t, src, r);
      if IsDir(t, r) {
        assert keepHistory && Parent(dst) == r;
      }
    }

    /** A copy of a walked file that landed at its rebased path is a copy below `folder` into `actual`. */
    lemma RebasedLands(c: CopyRecord, folder: Path, actual: Path)
      requires |c.src| > |folder| && c.src[..|folder|] == folder && LandedAt(c, Rebase(c.src, folder, actual))
      ensures CopiedBelow(c, folder, actual)
    {
      assert folder < c.src;
    }

    /** `get_safe_destination_path` has one answer in a given tree. */
    lemma SafeNameUnique(t: Tree, p: Path, r1: Path, r2: Path)
      requires |p| >= 1 && SafeName(t, p, r1) && SafeName(t, p, r2)
      ensures r1 == r2
    {
      if Exists(t, p) && !keepHistory {
        var n1 :| 1 <= n1 <= |t| && r1 == NumberedPath(p, n1) && forall m :: 1 <= m < n1 ==> NumberedPath(p, m) in t;
        var n2 :| 1 <= n2 <= |t| && r2 == NumberedPath(p, n2) && forall m :: 1 <= m < n2 ==> NumberedPath(p, m) in t;
      }
    }

    /** The name `get_safe_destination_path` chooses is one of the names it may choose. */
    lemma SafeNameRenamed(t: Tree, p: Path, r: Path)
      requires |p| >= 1 && SafeName(t, p, r)
      ensures RenamedFrom(p, r)
    {
    }

    /** `shutil.copy2` of `src` to the name chosen in `t` in place of `dest` raises. */
    ghost predicate CopyFails(t: Tree, src: Path, dest: Path) {
      |src| >= 1 && |dest| >= 1
      && exists r :: SafeName(t, dest, r) && !CanCopy(t, fs.failing, src, CopyTarget(t, src, r))
    }

    /** The step for one walked file raises in `t`: `os.makedirs` of its directory, or its copy. */
    ghost predicate StepFails(t: Tree, src: Path, dest: Path) {
      |dest| >= 1 && (!CanMakeDirs(t, fs.failing, Parent(dest)) || CopyFails(t, src, dest))
    }

    /**
     * `copy_tree_safe` from `top` raises in `t` at the path `s`, which it
     * sends to `d`: `top`, or a directory below it, cannot be listed or `d`
     * cannot be created, or a file below it cannot be copied.
     */
    ghost predicate TreeStepFails(t: Tree, top: Path, s: Path, d: Path) {
      || ((s == top || IsDir(t, s)) && (!IsDir(t, s) || |s| >= MaxDepth || s in fs.failing || !CanMakeDirs(t, fs.failing, d)))
      || (s != top && !IsDir(t, s) && CopyFails(t, s, d))
    }

    /** The files a source folder's copy takes, in order: its walk by contents, its tree copy whole. */
    function CopyOrder(t: Tree, f: Path): seq<Path> {
      if copyFolderContents then Walk(t, f) else TreeFiles(t, f)
    }

    lemma CopyOrderSame(t: Tree, u: Tree, f: Path)
      requires SameBelow(t, u, f)
      ensures CopyOrder(t, f) == CopyOrder(u, f)
    {
      WalkSame(t, u, f);
      TreeFilesSame(t, u, f);
    }

    /**
     * The copy of the source folder `f` into `actual` raises in `t`: by
     * contents, the step of a file below `f`; whole, the tree copy into
     * `dest`, the name chosen inside `actual` in place of the folder's own.
     */
    ghost predicate FolderFails(t: Tree, f: Path, actual: Path, dest: Path) {
      if copyFolderContents then exists q :: f < q && StepFails(t, q, Rebase(q, f, actual))
      else
        && |f| >= 1 && |dest| >= 1 && Parent(dest) == actual && RenamedFrom(actual + [Basename(f)], dest)
        && exists s :: f <= s && TreeStepFails(t, f, s, dest + s[|f|..])
    }

    /**
     * The error status naming `p` has a cause, `e`: `p` is one of the
     * source folders and its copy raised, or one of the standalone files
     * and its copy into `actual` raised.
     */
    ghost predicate Reported(p: Path, e: Failure, folders: seq<Path>, files: seq<Path>, actual: Path) {
      || (p in folders && FolderFails(e.tree, p, actual, e.dest))
      || (p in files && |p| >= 1 && CopyFails(e.tree, p, actual + [Basename(p)]))
    }

    /**
     * Every source folder among the first `n` that existed in `t` and lies
     * apart from `actual` was named by an error status in `es[e..]`, or
     * had every file of its `CopyOrder` in `t` copied in `cs[k..]`.
     */
    ghost predicate FoldersHandled(t: Tree, folders: seq<Path>, n: nat, actual: Path,
                                   cs: seq<CopyRecord>, k: nat, es: seq<Path>, e: nat) {
      forall j :: 0 <= j < n && j < |folders| && Exists(t, folders[j]) && Apart(actual, folders[j]) ==>
        Handled(cs, k, es, e, folders[j], CopyOrder(t, folders[j]))
    }

    lemma FoldersHandledGrow(t: Tree, folders: seq<Path>, n: nat, actual: Path, cs: seq<CopyRecord>,
                             cs': seq<CopyRecord>, k: nat, es: seq<Path>, es': seq<Path>, e: nat)
      requires cs <= cs' && es <= es' && FoldersHandled(t, folders, n, actual, cs, k, es, e)
      ensures FoldersHandled(t, folders, n, actual, cs', k, es', e)
    {
      forall j | 0 <= j < n && j < |folders| && Exists(t, folders[j]) && Apart(actual, folders[j])
        ensures Handled(cs', k, es', e, folders[j], CopyOrder(t, folders[j]))
      {
        HandledGrow(cs, cs', k, es, es', e, folders[j], CopyOrder(t, folders[j]));
      }
    }

    /** The `i`-th folder's pass, with the copies and errors it added, extends the handled prefix. */
    lemma FoldersHandledStep(t1: Tree, ti: Tree, folders: seq<Path>, i: nat, actual: Path,
                             cs: seq<CopyRecord>, cs': seq<CopyRecord>, k: nat, es: seq<Path>, es': seq<Path>, e: nat)
      requires i < |folders| && cs <= cs' && es <= es' && k <= |cs| && e <= |es|
      requires FoldersHandled(t1, folders, i, actual, cs, k, es, e)
      requires Exists(t1, folders[i]) && Apart(actual, folders[i]) ==>
                 SameBelow(t1, ti, folders[i])
                 && (es' == es + [folders[i]] || Srcs(cs'[|cs|..]) == CopyOrder(ti, folders[i]))
      ensures FoldersHandled(t1, folders, i + 1, actual, cs', k, es', e)
    {
      FoldersHandledGrow(t1, folders, i, actual, cs, cs', k, es, es', e);
      FolderPassHandled(t1, ti, folders[i], actual, cs, cs', k, es, es', e);
      forall j | 0 <= j < i + 1 && j < |folders| && Exists(t1, folders[j]) && Apart(actual, folders[j])
        ensures Handled(cs', k, es', e, folders[j], CopyOrder(t1, folders[j]))
      {
        if j < i {
          assert Handled(cs', k, es', e, folders[j], CopyOrder(t1, folders[j]));
        }
      }
    }

    /** The pass over `f`, unless `f` is missing or not apart from `actual`, handled it. */
    lemma FolderPassHandled(t1: Tree, ti: Tree, f: Path, actual: Path,
                            cs: seq<CopyRecord>, cs': seq<CopyRecord>, k: nat, es: seq<Path>, es': seq<Path>, e: nat)
      requires cs <= cs' && es <= es' && k <= |cs| && e <= |es|
      requires Exists(t1, f) && Apart(actual, f) ==>
                 SameBelow(t1, ti, f) && (es' == es + [f] || Srcs(cs'[|cs|..]) == CopyOrder(ti, f))
      ensures Exists(t1, f) && Apart(actual, f) ==> Handled(cs', k, es', e, f, CopyOrder(t1, f))
    {
      if Exists(t1, f) && Apart(actual, f) {
        CopyOrderSame(t1, ti, f);
        FolderHandledNow(f, CopyOrder(t1, f), cs, cs', k, es, es', e);
      }
    }

    /** A folder whose pass either failed or copied `wanted` in full is handled. */
    lemma FolderHandledNow(f: Path, wanted: seq<Path>, cs: seq<CopyRecord>, cs': seq<CopyRecord>, k: nat,
                           es: seq<Path>, es': seq<Path>, e: nat)
      requires cs <= cs' && es <= es' && k <= |cs| && e <= |es|
      requires es' == es + [f] || Srcs(cs'[|cs|..]) == wanted
      ensures Handled(cs', k, es', e, f, wanted)
    {
      if es' == es + [f] {
        assert es'[e..] == es[e..] + [f];
      } else {
        assert cs'[k..] == cs[k..] + cs'[|cs|..];
        SrcsAppend(cs[k..], cs'[|cs|..]);
      }
    }

    /** Folders handled in a later tree were handled in an earlier one, the work between apart from them. */
    lemma FoldersHandledEarlier(t0: Tree, t1: Tree, folders: seq<Path>, actual: Path,
                                cs: seq<CopyRecord>, k: nat, es: seq<Path>, e: nat)
      requires Grows(t0, t1) && ChangedWithin(t0, t1, actual)
      requires FoldersHandled(t1, folders, |folders|, actual, cs, k, es, e)
      ensures FoldersHandled(t0, folders, |folders|, actual, cs, k, es, e)
    {
      forall j | 0 <= j < |folders| && Exists(t0, folders[j]) && Apart(actual, folders[j])
        ensures Handled(cs, k, es, e, folders[j], CopyOrder(t0, folders[j]))
      {
        ApartUnchanged(t0, t1, actual, folders[j]);
        CopyOrderSame(t0, t1, folders[j]);
      }
    }

    /**
     * `get_safe_destination_path`: the name in place of `p` is in the same
     * directory and is the one `SafeName` describes; at most as many
     * candidates are tried as there are entries.  `is_folder` changes
     * nothing and is left out.
     */
    method SafeDestinationPath(p: Path) returns (r: Path)
      requires |p| >= 1
      ensures |r| == |p| && Parent(r) == Parent(p)
      ensures SafeName(fs.entries, p, r)
    {
      if !Exists(fs.entries, p) {
        return p;
      }
      if keepHistory {
        return TimestampedPath(p, stamp);
      }
      var counter := 1;
      r := NumberedPath(p, counter);
      ghost var seen: set<Path> := {p};
      while r in fs.entries
        invariant counter >= 1 && r == NumberedPath(p, counter)
        invariant forall m :: 1 <= m < counter ==> NumberedPath(p, m) in fs.entries
        invariant seen <= fs.entries.Keys && |seen| == counter
        invariant forall q :: q in seen ==> q == p || exists m :: 1 <= m < counter && q == NumberedPath(p, m)
        decreases |fs.entries| - counter
      {
        NumberedSeenStep(p, counter, seen, fs.entries.Keys);
        seen := seen + {r};
        counter := counter + 1;
        r := NumberedPath(p, counter);
      }
      CardinalitySubset(seen, fs.entries.Keys);
    }

    /**
     * The candidate tried after `counter - 1` taken ones is new: adding it to
     * those seen so far, all existing, gives one more, still within `keys`.
     */
    lemma NumberedSeenStep(p: Path, counter: nat, seen: set<Path>, keys: set<Path>)
      requires |p| >= 1 && counter >= 1 && NumberedPath(p, counter) in keys
      requires seen <= keys && |seen| == counter
      requires forall q :: q in seen ==> q == p || exists m :: 1 <= m < counter && q == NumberedPath(p, m)
      ensures seen + {NumberedPath(p, counter)} <= keys && |seen + {NumberedPath(p, counter)}| == counter + 1
      ensures counter + 1 <= |keys|
      ensures forall q :: q in seen + {NumberedPath(p, counter)} ==>
                q == p || exists m :: 1 <= m < counter + 1 && q == NumberedPath(p, m)
    {
      var r := NumberedPath(p, counter);
      forall q | q in seen
        ensures q != r
      {
        if q == p {
          NumberedPathsDistinct(p, counter, counter);
        } else {
          var m :| 1 <= m < counter && q == NumberedPath(p, m);
          NumberedPathsDistinct(p, m, counter);
        }
      }
      CardinalitySubset(seen + {r}, keys);
    }

    /** `update_progress_stats`: one progress value per call, and only when the total is positive. */
    method UpdateProgressStats(copiedSize: nat, copiedCount: nat)
      modifies this`progress
      ensures progress == old(progress) + if totalSize > 0 then [Percent(copiedSize, totalSize)] else []
    {
      if totalSize > 0 {
        progress := progress + [Percent(copiedSize, totalSize)];
      }
    }

    /**
     * The per-file step: name the destination safely, `shutil.copy2`, add the
     * source's size and one file to the counters, report progress.  A failed
     * copy changes nothing.  `target` is the name chosen in place of `dest`.
     */
    method CopyFile(src: Path, dest: Path, count: nat, size: nat,
                    ghost a: Path, ghost t0: Tree, ghost k0: nat, ghost p0: nat)
      returns (ok: bool, target: Path, count': nat, size': nat)
      requires |src| >= 1 && a < dest && KeptSince(t0, k0, p0, a)
      modifies fs, this`copies, this`bytes, this`progress
      ensures SafeName(old(fs.entries), dest, target) && Parent(target) == Parent(dest)
      ensures ok <==> CanCopy(old(fs.entries), fs.failing, src, CopyTarget(old(fs.entries), src, target))
      ensures ok <==> !CopyFails(old(fs.entries), src, dest)
      ensures KeptSince(t0, k0, p0, a) && Grows(old(fs.entries), fs.entries)
      ensures old(copies) <= copies && old(progress) <= progress
      ensures ok <==> |copies| == |old(copies)| + 1
      ensures !ok ==> fs.entries == old(fs.entries) && copies == old(copies) && progress == old(progress)
                      && bytes == old(bytes)
      ensures ok ==> copies[|copies| - 1].src == src && IsFile(old(fs.entries), src)
                     && copies[|copies| - 1].dst == CopyTarget(old(fs.entries), src, target)
                     && LandedAt(copies[|copies| - 1], dest)
                     && copies[|copies| - 1].size == old(fs.entries)[src].size
                     && bytes == old(bytes) + old(fs.entries)[src].size
      ensures ok ==> progress == old(progress) + if totalSize > 0 then [Percent(size', totalSize)] else []
      ensures count' == count + |copies| - |old(copies)|
      ensures old(bytes) <= bytes && size' == size + (bytes - old(bytes))
    {
      target := SafeDestinationPath(dest);
      assert a <= Parent(dest) by {
        assert Parent(dest)[..|a|] == dest[..|a|];
      }
      assert a < target by {
        assert target[..|a|] == Parent(target)[..|a|];
      }
      ok, count', size' := CopyTo(src, target, count, size, a, t0, k0, p0);
      if ok {
        SafeCopyLands(old(fs.entries), src, dest, target, copies[|copies| - 1].size);
        forall r | SafeName(old(fs.entries), dest, r)
          ensures CanCopy(old(fs.entries), fs.failing, src, CopyTarget(old(fs.entries), src, r))
        {
          SafeNameUnique(old(fs.entries), dest, r, target);
        }
      }
    }

    /** `shutil.copy2(src, target)` for a target named by `SafeDestinationPath`, and the counters. */
    method CopyTo(src: Path, target: Path, count: nat, size: nat,
                  ghost a: Path, ghost t0: Tree, ghost k0: nat, ghost p0: nat)
      returns (ok: bool, count': nat, size': nat)
      requires |src| >= 1 && a < target && KeptSince(t0, k0, p0, a)
      requires !keepHistory ==> target !in fs.entries
      modifies fs, this`copies, this`bytes, this`progress
      ensures ok <==> CanCopy(old(fs.entries), fs.failing, src, CopyTarget(old(fs.entries), src, target))
      ensures KeptSince(t0, k0, p0, a) && Grows(old(fs.entries), fs.entries)
      ensures old(copies) <= copies && old(progress) <= progress
      ensures ok <==> |copies| == |old(copies)| + 1
      ensures !ok ==> fs.entries == old(fs.entries) && copies == old(copies) && progress == old(progress)
                      && bytes == old(bytes)
      ensures ok ==> copies[|copies| - 1].src == src && IsFile(old(fs.entries), src)
                     && copies[|copies| - 1].dst == CopyTarget(old(fs.entries), src, target)
                     && copies[|copies| - 1].size == old(fs.entries)[src].size
                     && bytes == old(bytes) + old(fs.entries)[src].size
      ensures ok ==> progress == old(progress) + if totalSize > 0 then [Percent(size', totalSize)] else []
      ensures count' == count + |copies| - |old(copies)|
      ensures old(bytes) <= bytes && size' == size + (bytes - old(bytes))
    {
      ghost var t, k1, p1 := fs.entries, |copies|, |progress|;
      assert Kept(t0, t, copies[k0..], p1 - p0, totalSize, a, !keepHistory);
      var written;
      ok, written := fs.Copy2(src, target);
      if !ok {
        count', size' := count, size;
        assert copies[k1..] == [];
        return;
      }
      assert a < written by {
        if written != target {
          PrefixTransitive(a, target, written);
        }
      }
      var n := fs.entries[src].size;
      var r := CopyRecord(src, written, n);
      KeptAfterWrite(t0, t, copies, k0, p1 - p0, totalSize, a, !keepHistory, src, written);
      copies, bytes := copies + [r], bytes + n;
      count', size' := count + 1, size + n;
      assert copies[k1..] == [r];
      UpdateProgressStats(size', count');
    }

    /** `os.makedirs(p, exist_ok=True)` for a `p` at or below the destination `a`. */
    method MakeDirsWithin(p: Path, ghost a: Path, ghost t0: Tree, ghost k0: nat, ghost p0: nat)
      returns (ok: bool)
      requires a <= p && KeptSince(t0, k0, p0, a)
      modifies fs
      ensures KeptSince(t0, k0, p0, a)
      ensures ok <==> CanMakeDirs(old(fs.entries), fs.failing, p)
      ensures ok ==> IsDir(fs.entries, p) && CanMakeDirs(fs.entries, fs.failing, p)
      ensures !ok ==> fs.entries == old(fs.entries)
      ensures Preserved(old(fs.entries), fs.entries) && Touched(old(fs.entries), fs.entries, p)
    {
      ghost var t1 := fs.entries;
      ghost var done := copies[k0..];
      assert Kept(t0, t1, done, |progress| - p0, totalSize, a, !keepHistory);
      ok := fs.MakeDirs(p);
      MakeDirsKept(t1, fs.entries, p, totalSize, a, !keepHistory);
      KeptTransitive(t0, t1, fs.entries, done, [], |progress| - p0, 0, totalSize, a, !keepHistory);
      assert done + [] == done;
    }

    /**
     * `copy_tree_safe`: list `src`, create `dst` (merging into an existing
     * directory), then for each listed name in order: stop with the counters
     * so far if the flag is set, recurse into a directory, or copy a file
     * under a safe name.  Every copy goes to its own relative path below
     * `dst` itself, or a name chosen in its place.  A failed listing,
     * directory creation or copy raises out of every level (`raised`); the
     * caller then discards the counters.  A set flag never raises.
     */
    method CopyTreeSafe(src: Path, dst: Path, count: nat, size: nat,
                        ghost a: Path, ghost t0: Tree, ghost k0: nat, ghost p0: nat)
      returns (raised: bool, count': nat, size': nat)
      requires |src| >= 1 && a < dst && KeptSince(t0, k0, p0, a)
      modifies fs, this`copies, this`bytes, this`progress, this`cancelled, this`polls
      ensures KeptSince(t0, k0, p0, a)
      ensures old(copies) <= copies && old(progress) <= progress && (old(cancelled) ==> cancelled)
      ensures forall i :: |old(copies)| <= i < |copies| ==> CopiedBelow(copies[i], src, dst)
      ensures count' == count + |copies| - |old(copies)|
      ensures old(bytes) <= bytes && size' == size + (bytes - old(bytes))
      ensures raised ==> cancelled == old(cancelled)
      ensures Grows(old(fs.entries), fs.entries)
      ensures raised ==> exists s :: src <= s && TreeStepFails(fs.entries, src, s, dst + s[|src|..])
      ensures !raised && !cancelled && Apart(a, src) ==> Srcs(copies[|old(copies)|..]) == TreeFiles(old(fs.entries), src)
      decreases MaxDepth - |src|, 1
    {
      count', size' := count, size;
      assert dst + src[|src|..] == dst;
      var ok, names := fs.ListDir(src);
      if !ok {
        assert TreeStepFails(fs.entries, src, src, dst);
        return true, count', size';
      }
      ok := MakeDirsWithin(dst, a, t0, k0, p0);
      if !ok {
        assert TreeStepFails(fs.entries, src, src, dst);
        return true, count', size';
      }
      ghost var t1 := fs.entries;
      raised, count', size' := CopyListing(src, dst, names, count, size, a, t0, k0, p0);
      if !raised && !cancelled && Apart(a, src) {
        ApartUnchangedBetween(t0, old(fs.entries), t1, a, src);
        ListedFilesSame(old(fs.entries), t1, src, names);
      }
    }

    /** The loop of `copy_tree_safe` over the names listed in `src`, `dst` existing. */
    method CopyListing(src: Path, dst: Path, names: seq<string>, count: nat, size: nat,
                       ghost a: Path, ghost t0: Tree, ghost k0: nat, ghost p0: nat)
      returns (raised: bool, count': nat, size': nat)
      requires 1 <= |src| < MaxDepth && a < dst && KeptSince(t0, k0, p0, a)
      modifies fs, this`copies, this`bytes, this`progress, this`cancelled, this`polls
      ensures KeptSince(t0, k0, p0, a)
      ensures old(copies) <= copies && old(progress) <= progress && (old(cancelled) ==> cancelled)
      ensures forall i :: |old(copies)| <= i < |copies| ==> CopiedBelow(copies[i], src, dst)
      ensures count' == count + |copies| - |old(copies)|
      ensures old(bytes) <= bytes && size' == size + (bytes - old(bytes))
      ensures raised ==> cancelled == old(cancelled)
      ensures Grows(old(fs.entries), fs.entries)
      ensures raised ==> exists s :: src < s && TreeStepFails(fs.entries, src, s, dst + s[|src|..])
      ensures !raised && !cancelled && Apart(a, src) ==>
                Srcs(copies[|old(copies)|..]) == ListedFiles(old(fs.entries), src, names)
      decreases MaxDepth - |src|, 0, 3
    {
      ghost var kf, b0, t1 := |copies|, bytes, fs.entries;
      assert Grows(t0, t1) && ChangedWithin(t0, t1, a);
      count', size' := count, size;
      var i := 0;
      while i < |names|
        invariant 0 <= i <= |names|
        invariant old(copies) <= copies && old(progress) <= progress && (old(cancelled) ==> cancelled)
        invariant KeptSince(t0, k0, p0, a) && Grows(t1, fs.entries)
        invariant Counted(kf, b0, count, size, count', size', src, dst)
        invariant !cancelled && Apart(a, src) ==> Srcs(copies[kf..]) == ListedFiles(t1, src, names[..i])
      {
        var stop;
        stop, raised, count', size' := CopyListingStep(src, dst, names, i, count', size', a, t0, k0, p0, t1, kf, b0,
                                                       count, size);
        if stop || raised {
          return;
        }
        i := i + 1;
      }
      raised := false;
      assert names[..i] == names;
    }

    /** One pass of `copy_tree_safe`'s loop: read the flag, then copy the `i`-th listed name. */
    method CopyListingStep(src: Path, dst: Path, names: seq<string>, i: nat, count: nat, size: nat,
                           ghost a: Path, ghost t0: Tree, ghost k0: nat, ghost p0: nat, ghost t1: Tree,
                           ghost kf: nat, ghost b0: nat, ghost count0: nat, ghost size0: nat)
      returns (stop: bool, raised: bool, count': nat, size': nat)
      requires 1 <= |src| < MaxDepth && a < dst && i < |names| && KeptSince(t0, k0, p0, a) && Grows(t1, fs.entries)
      requires Grows(t0, t1) && ChangedWithin(t0, t1, a)
      requires Counted(kf, b0, count0, size0, count, size, src, dst)
      requires !cancelled && Apart(a, src) ==> Srcs(copies[kf..]) == ListedFiles(t1, src, names[..i])
      modifies fs, this`copies, this`bytes, this`progress, this`cancelled, this`polls
      ensures old(copies) <= copies && old(progress) <= progress && (old(cancelled) ==> cancelled)
      ensures KeptSince(t0, k0, p0, a) && Grows(t1, fs.entries) && Grows(old(fs.entries), fs.entries)
      ensures Counted(kf, b0, count0, size0, count', size', src, dst)
      ensures stop ==> !raised && cancelled
      ensures raised ==> !cancelled
      ensures raised ==> exists s :: src < s && TreeStepFails(fs.entries, src, s, dst + s[|src|..])
      ensures !stop && !raised && !cancelled && Apart(a, src) ==>
                Srcs(copies[kf..]) == ListedFiles(t1, src, names[..i + 1])
      decreases MaxDepth - |src|, 0, 2
    {
      count', size' := count, size;
      stop := PollCancelled();
      if stop {
        return stop, false, count', size';
      }
      ghost var ti, cs := fs.entries, copies;
      raised, count', size' := CopyListedEntry(src, dst, names[i], count', size', a, t0, k0, p0, kf, b0, count0, size0);
      if raised {
        return;
      }
      GrowsTransitive(t1, ti, fs.entries);
      if !cancelled && Apart(a, src) {
        ListingStep(t0, t1, ti, a, src, names, i, cs, copies, kf);
      }
    }

    /** One name of the listing copied: the copies so far are the listed files so far. */
    lemma ListingStep(t0: Tree, t1: Tree, ti: Tree, a: Path, src: Path, names: seq<string>, i: nat,
                      cs: seq<CopyRecord>, cs': seq<CopyRecord>, kf: nat)
      requires 1 <= |src| < MaxDepth && i < |names| && kf <= |cs| && cs <= cs' && Apart(a, src)
      requires Grows(t0, t1) && ChangedWithin(t0, t1, a) && Grows(t0, ti) && ChangedWithin(t0, ti, a)
      requires Srcs(cs[kf..]) == ListedFiles(t1, src, names[..i])
      requires Srcs(cs'[|cs|..]) == EntryFiles(ti, src, names[i])
      ensures Srcs(cs'[kf..]) == ListedFiles(t1, src, names[..i + 1])
    {
      ApartUnchangedBetween(t0, t1, ti, a, src);
      EntryFilesSame(t1, ti, src, names[i]);
      assert cs'[kf..] == cs[kf..] + cs'[|cs|..];
      SrcsAppend(cs[kf..], cs'[|cs|..]);
      assert names[..i + 1][..i] == names[..i];
    }

    /** One listed name inside `copy_tree_safe`: a directory is copied recursively, anything else as a file. */
    method CopyListedEntry(src: Path, dst: Path, name: string, count: nat, size: nat, ghost a: Path,
                           ghost t0: Tree, ghost k0: nat, ghost p0: nat,
                           ghost kf: nat, ghost b0: nat, ghost count0: nat, ghost size0: nat)
      returns (raised: bool, count': nat, size': nat)
      requires 1 <= |src| < MaxDepth && a < dst && KeptSince(t0, k0, p0, a)
      requires kf <= |copies| && forall j :: kf <= j < |copies| ==> CopiedBelow(copies[j], src, dst)
      requires count == count0 + |copies| - kf && b0 <= bytes && size == size0 + (bytes - b0)
      modifies fs, this`copies, this`bytes, this`progress, this`cancelled, this`polls
      ensures KeptSince(t0, k0, p0, a)
      ensures old(copies) <= copies && old(progress) <= progress && (old(cancelled) ==> cancelled)
      ensures forall j :: kf <= j < |copies| ==> CopiedBelow(copies[j], src, dst)
      ensures count' == count0 + |copies| - kf && b0 <= bytes && size' == size0 + (bytes - b0)
      ensures raised ==> cancelled == old(cancelled)
      ensures Grows(old(fs.entries), fs.entries)
      ensures raised ==> exists s :: src < s && TreeStepFails(fs.entries, src, s, dst + s[|src|..])
      ensures !raised && !cancelled && Apart(a, src) ==>
                Srcs(copies[|old(copies)|..]) == EntryFiles(old(fs.entries), src, name)
      decreases MaxDepth - |src|, 0, 1
    {
      if IsDir(fs.entries, src + [name]) {
        raised, count', size' := CopySubtree(src, dst, name, count, size, a, t0, k0, p0, kf, b0, count0, size0);
      } else {
        raised, count', size' := CopyListedFile(src, dst, name, count, size, a, t0, k0, p0, kf, b0, count0, size0);
        if raised {
          assert (src + [name])[|src|..] == [name];
          assert TreeStepFails(fs.entries, src, src + [name], dst + [name]);
        } else {
          assert copies[|old(copies)|..] == [copies[|copies| - 1]];
        }
      }
    }

    /** A listed directory inside `copy_tree_safe`: the recursive call from `src + [name]` to `dst + [name]`. */
    method CopySubtree(src: Path, dst: Path, name: string, count: nat, size: nat, ghost a: Path,
                       ghost t0: Tree, ghost k0: nat, ghost p0: nat,
                       ghost kf: nat, ghost b0: nat, ghost count0: nat, ghost size0: nat)
      returns (raised: bool, count': nat, size': nat)
      requires 1 <= |src| < MaxDepth && a < dst && KeptSince(t0, k0, p0, a)
      requires kf <= |copies| && forall j :: kf <= j < |copies| ==> CopiedBelow(copies[j], src, dst)
      requires count == count0 + |copies| - kf && b0 <= bytes && size == size0 + (bytes - b0)
      requires IsDir(fs.entries, src + [name])
      modifies fs, this`copies, this`bytes, this`progress, this`cancelled, this`polls
      ensures KeptSince(t0, k0, p0, a)
      ensures old(copies) <= copies && old(progress) <= progress && (old(cancelled) ==> cancelled)
      ensures forall j :: kf <= j < |copies| ==> CopiedBelow(copies[j], src, dst)
      ensures count' == count0 + |copies| - kf && b0 <= bytes && size' == size0 + (bytes - b0)
      ensures raised ==> cancelled == old(cancelled)
      ensures Grows(old(fs.entries), fs.entries)
      ensures raised ==> exists s :: src < s && TreeStepFails(fs.entries, src, s, dst + s[|src|..])
      ensures !raised && !cancelled && Apart(a, src) ==>
                Srcs(copies[|old(copies)|..]) == TreeFiles(old(fs.entries), src + [name])
      decreases MaxDepth - |src|, 0, 0
    {
      var srcName := src + [name];
      var dstName := dst + [name];
      assert a < dstName by {
        assert dstName[..|a|] == dst[..|a|];
      }
      ghost var k1 := |copies|;
      raised, count', size' := CopyTreeSafe(srcName, dstName, count, size, a, t0, k0, p0);
      forall j | k1 <= j < |copies|
        ensures CopiedBelow(copies[j], src, dst)
      {
        DescendStep(src, dst, name, copies[j].src);
      }
      if raised {
        ghost var s :| srcName <= s && TreeStepFails(fs.entries, srcName, s, dstName + s[|srcName|..]);
        DescendStep(src, dst, name, s);
        assert IsDir(fs.entries, srcName);
        assert TreeStepFails(fs.entries, src, s, dst + s[|src|..]);
      } else if !cancelled && Apart(a, src) {
        ApartBelow(a, src, srcName);
      }
    }

    /** A listed file inside `copy_tree_safe`: sent to `dst + [name]`, under a safe name. */
    method CopyListedFile(src: Path, dst: Path, name: string, count: nat, size: nat, ghost a: Path,
                          ghost t0: Tree, ghost k0: nat, ghost p0: nat,
                          ghost kf: nat, ghost b0: nat, ghost count0: nat, ghost size0: nat)
      returns (raised: bool, count': nat, size': nat)
      requires |src| >= 1 && a < dst && KeptSince(t0, k0, p0, a)
      requires kf <= |copies| && forall j :: kf <= j < |copies| ==> CopiedBelow(copies[j], src, dst)
      requires count == count0 + |copies| - kf && b0 <= bytes && size == size0 + (bytes - b0)
      modifies fs, this`copies, this`bytes, this`progress
      ensures KeptSince(t0, k0, p0, a)
      ensures old(copies) <= copies && old(progress) <= progress
      ensures forall j :: kf <= j < |copies| ==> CopiedBelow(copies[j], src, dst)
      ensures count' == count0 + |copies| - kf && b0 <= bytes && size' == size0 + (bytes - b0)
      ensures raised <==> CopyFails(old(fs.entries), src + [name], dst + [name])
      ensures raised ==> fs.entries == old(fs.entries) && copies == old(copies)
      ensures !raised ==> |copies| == |old(copies)| + 1 && copies[|copies| - 1].src == src + [name]
      ensures Grows(old(fs.entries), fs.entries)
    {
      var srcName := src + [name];
      var dstName := dst + [name];
      assert a < dstName by {
        assert dstName[..|a|] == dst[..|a|];
      }
      assert src < srcName && srcName[|src|..] == [name];
      ghost var c0 := copies;
      var ok, target;
      ok, target, count', size' := CopyFile(srcName, dstName, count, size, a, t0, k0, p0);
      raised := !ok;
      forall j | kf <= j < |copies|
        ensures CopiedBelow(copies[j], src, dst)
      {
        if j < |c0| {
          assert copies[j] == c0[j];
        }
      }
    }

    /**
     * The contents branch of the folder loop: every file `os.walk` yields
     * goes to the same relative path under `actual`, or a name chosen in its
     * place, after its parent directories are created.  The flag is read
     * before each file, and a set flag ends the run; an exception ends the
     * folder (`raised`) and keeps the counters.
     */
    method CopyFolderContents(folder: Path, actual: Path, count: nat, size: nat,
                              ghost t0: Tree, ghost k0: nat, ghost p0: nat)
      returns (stop: bool, raised: bool, count': nat, size': nat, ghost at: Tree, ghost bad: Path,
               ghost walk: seq<Path>)
      requires KeptSince(t0, k0, p0, actual)
      modifies fs, this`copies, this`bytes, this`progress, this`cancelled, this`polls, this`runReads
      ensures KeptSince(t0, k0, p0, actual)
      ensures old(copies) <= copies && old(progress) <= progress && (old(cancelled) ==> cancelled)
      ensures Counted(|old(copies)|, old(bytes), count, size, count', size', folder, actual)
      ensures old(runReads) <= runReads && StoppedBy(|old(runReads)|, stop) && (stop ==> cancelled)
      ensures !(stop && raised) && Grows(old(fs.entries), fs.entries)
      ensures walk == Walk(old(fs.entries), folder)
      ensures Srcs(copies[|old(copies)|..]) <= walk
      ensures !raised && !stop ==> Srcs(copies[|old(copies)|..]) == walk
      ensures raised ==> |copies| - |old(copies)| < |walk| && folder < bad && bad == walk[|copies| - |old(copies)|]
      ensures raised ==> StepFails(at, bad, Rebase(bad, folder, actual))
    {
      var files := Walk(fs.entries, folder);
      walk := files;
      stop, raised, count', size', at, bad := CopyWalk(folder, files, actual, count, size, t0, k0, p0);
      if raised {
        assert bad in files;
      }
    }

    /** The loop of the contents branch over the walked files `files`, each below `folder`. */
    method CopyWalk(folder: Path, files: seq<Path>, actual: Path, count: nat, size: nat,
                    ghost t0: Tree, ghost k0: nat, ghost p0: nat)
      returns (stop: bool, raised: bool, count': nat, size': nat, ghost at: Tree, ghost bad: Path)
      requires forall q :: q in files ==> |q| > |folder| && q[..|folder|] == folder
      requires KeptSince(t0, k0, p0, actual)
      modifies fs, this`copies, this`bytes, this`progress, this`cancelled, this`polls, this`runReads
      ensures KeptSince(t0, k0, p0, actual)
      ensures Since(old(copies), old(progress), old(cancelled), old(runReads))
      ensures Counted(|old(copies)|, old(bytes), count, size, count', size', folder, actual)
      ensures StoppedBy(|old(runReads)|, stop) && (stop ==> cancelled)
      ensures !(stop && raised) && Grows(old(fs.entries), fs.entries)
      ensures Srcs(copies[|old(copies)|..]) <= files
      ensures !raised && !stop ==> Srcs(copies[|old(copies)|..]) == files
      ensures raised ==> |copies| - |old(copies)| < |files| && bad == files[|copies| - |old(copies)|]
      ensures raised ==> StepFails(at, bad, Rebase(bad, folder, actual))
    {
      ghost var kf, b0, r0, t1 := |copies|, bytes, |runReads|, fs.entries;
      ghost var c0, pr0, x0, rr0 := copies, progress, cancelled, runReads;
      at, bad := fs.entries, folder;
      count', size' := count, size;
      stop, raised := false, false;
      var i := 0;
      while i < |files|
        invariant 0 <= i <= |files|
        invariant Since(c0, pr0, x0, rr0)
        invariant KeptSince(t0, k0, p0, actual) && Grows(t1, fs.entries)
        invariant Counted(kf, b0, count, size, count', size', folder, actual)
        invariant StoppedBy(r0, false)
        invariant Srcs(copies[kf..]) == files[..i] && !stop && !raised
      {
        assert files[i] in files;
        stop, raised, count', size', at := CopyWalkStep(folder, files, i, actual, count', size', t0, k0, p0,
                                                        t1, kf, b0, r0, count, size, c0, pr0, x0, rr0);
        if stop || raised {
          bad := files[i];
          break;
        }
        i := i + 1;
      }
      WalkPrefix(copies, kf, files, i);
    }

    /** The sources copied since `kf` are the first `i` walked files: a prefix of the walk, all of it at its end. */
    lemma WalkPrefix(cs: seq<CopyRecord>, kf: nat, files: seq<Path>, i: nat)
      requires kf <= |cs| && i <= |files| && Srcs(cs[kf..]) == files[..i]
      ensures Srcs(cs[kf..]) <= files && |cs| - kf == i
      ensures i == |files| ==> Srcs(cs[kf..]) == files
    {
      assert |Srcs(cs[kf..])| == i;
    }

    /** Nothing recorded since the snapshot `c0`, `pr0`, `x0`, `rr0` was taken away. */
    ghost predicate Since(c0: seq<CopyRecord>, pr0: seq<nat>, x0: bool, rr0: seq<bool>)
      reads this`copies, this`progress, this`cancelled, this`runReads
    {
      c0 <= copies && pr0 <= progress && (x0 ==> cancelled) && rr0 <= runReads
    }

    /**
     * The bookkeeping of a copy loop since the marks `kf` and `b0`: every
     * copy since lies below `from`, sent below `to`, and the counters grew
     * from `count0` and `size0` by those copies and their bytes.
     */
    ghost predicate Counted(kf: nat, b0: nat, count0: nat, size0: nat, count: nat, size: nat, from: Path, to: Path)
      reads this`copies, this`bytes
    {
      CountedIn(copies, bytes, kf, b0, count0, size0, count, size, from, to)
    }

    /** `Counted` for the copies `cs` and the byte total `b`. */
    ghost predicate CountedIn(cs: seq<CopyRecord>, b: nat, kf: nat, b0: nat, count0: nat, size0: nat,
                              count: nat, size: nat, from: Path, to: Path)
    {
      && kf <= |cs| && (forall j :: kf <= j < |cs| ==> CopiedBelow(cs[j], from, to))
      && count == count0 + |cs| - kf && b0 <= b && size == size0 + (b - b0)
    }

    /** One more copy below `from`, sent below `to`, keeps the bookkeeping. */
    lemma CountedPush(cs: seq<CopyRecord>, cs': seq<CopyRecord>, b: nat, b': nat, kf: nat, b0: nat, count0: nat,
                      size0: nat, count: nat, size: nat, count': nat, size': nat, from: Path, to: Path)
      requires CountedIn(cs, b, kf, b0, count0, size0, count, size, from, to)
      requires cs <= cs' && |cs'| == |cs| + 1 && CopiedBelow(cs'[|cs|], from, to)
      requires count' == count + 1 && b <= b' && size' == size + (b' - b)
      ensures CountedIn(cs', b', kf, b0, count0, size0, count', size', from, to)
    {
    }

    /**
     * One pass of the contents loop: read the flag, then copy the `i`-th
     * walked file.  The copies since `kf` stay the walk's first files.
     */
    method CopyWalkStep(folder: Path, files: seq<Path>, i: nat, actual: Path, count: nat, size: nat,
                        ghost t0: Tree, ghost k0: nat, ghost p0: nat, ghost t1: Tree,
                        ghost kf: nat, ghost b0: nat, ghost r0: nat, ghost count0: nat, ghost size0: nat,
                        ghost c0: seq<CopyRecord>, ghost pr0: seq<nat>, ghost x0: bool, ghost rr0: seq<bool>)
      returns (stop: bool, raised: bool, count': nat, size': nat, ghost at: Tree)
      requires i < |files| && |files[i]| > |folder| && files[i][..|folder|] == folder
      requires KeptSince(t0, k0, p0, actual) && Grows(t1, fs.entries)
      requires Counted(kf, b0, count0, size0, count, size, folder, actual)
      requires StoppedBy(r0, false) && Srcs(copies[kf..]) == files[..i] && Since(c0, pr0, x0, rr0)
      modifies fs, this`copies, this`bytes, this`progress, this`cancelled, this`polls, this`runReads
      ensures KeptSince(t0, k0, p0, actual) && Grows(t1, fs.entries)
      ensures Since(c0, pr0, x0, rr0)
      ensures Counted(kf, b0, count0, size0, count', size', folder, actual)
      ensures StoppedBy(r0, stop) && (stop ==> cancelled) && !(stop && raised)
      ensures stop || raised ==> Srcs(copies[kf..]) == files[..i]
      ensures raised ==> StepFails(at, files[i], Rebase(files[i], folder, actual))
      ensures !stop && !raised ==> Srcs(copies[kf..]) == files[..i + 1]
    {
      count', size' := count, size;
      raised := false;
      at := fs.entries;
      stop := PollRun();
      StopsAtChain(old(runReads), runReads, r0, stop);
      if stop {
        return;
      }
      raised, count', size', at := CopyWalkFile(folder, files, i, actual, count, size, t0, k0, p0, t1, kf, b0,
                                                count0, size0, c0, pr0);
    }

    /** The copying half of one pass of the walk loop, the flag read clear. */
    method CopyWalkFile(folder: Path, files: seq<Path>, i: nat, actual: Path, count: nat, size: nat,
                        ghost t0: Tree, ghost k0: nat, ghost p0: nat, ghost t1: Tree,
                        ghost kf: nat, ghost b0: nat, ghost count0: nat, ghost size0: nat,
                        ghost c0: seq<CopyRecord>, ghost pr0: seq<nat>)
      returns (raised: bool, count': nat, size': nat, ghost at: Tree)
      requires i < |files| && |files[i]| > |folder| && files[i][..|folder|] == folder
      requires KeptSince(t0, k0, p0, actual) && Grows(t1, fs.entries)
      requires Counted(kf, b0, count0, size0, count, size, folder, actual)
      requires Srcs(copies[kf..]) == files[..i] && c0 <= copies && pr0 <= progress
      modifies fs, this`copies, this`bytes, this`progress
      ensures KeptSince(t0, k0, p0, actual) && Grows(t1, fs.entries)
      ensures c0 <= copies && pr0 <= progress
      ensures Counted(kf, b0, count0, size0, count', size', folder, actual)
      ensures raised ==> Srcs(copies[kf..]) == files[..i]
      ensures raised ==> StepFails(at, files[i], Rebase(files[i], folder, actual))
      ensures !raised ==> Srcs(copies[kf..]) == files[..i + 1]
    {
      ghost var ti, cs := fs.entries, copies;
      raised, count', size', at := CopyWalkedFile(folder, files[i], actual, count, size, t0, k0, p0, kf, b0, count0, size0);
      GrowsTransitive(t1, ti, at);
      GrowsTransitive(t1, at, fs.entries);
      if raised {
        WalkedStepFails(ti, at, files[i], Rebase(files[i], folder, actual), raised);
      } else {
        SrcsPush(cs, copies, kf, files, i);
      }
    }

    /** One walked file: `os.makedirs` of its destination's parent, then the per-file step. */
    method CopyWalkedFile(folder: Path, src: Path, actual: Path, count: nat, size: nat,
                          ghost t0: Tree, ghost k0: nat, ghost p0: nat,
                          ghost kf: nat, ghost b0: nat, ghost count0: nat, ghost size0: nat)
      returns (raised: bool, count': nat, size': nat, ghost mid: Tree)
      requires |src| > |folder| && src[..|folder|] == folder
      requires KeptSince(t0, k0, p0, actual)
      requires Counted(kf, b0, count0, size0, count, size, folder, actual)
      modifies fs, this`copies, this`bytes, this`progress
      ensures KeptSince(t0, k0, p0, actual)
      ensures old(copies) <= copies && old(progress) <= progress
      ensures Counted(kf, b0, count0, size0, count', size', folder, actual)
      ensures !CanMakeDirs(old(fs.entries), fs.failing, Parent(Rebase(src, folder, actual))) ==>
                raised && mid == old(fs.entries)
      ensures CanMakeDirs(old(fs.entries), fs.failing, Parent(Rebase(src, folder, actual))) ==>
                CanMakeDirs(mid, fs.failing, Parent(Rebase(src, folder, actual)))
                && (raised <==> CopyFails(mid, src, Rebase(src, folder, actual)))
      ensures raised ==> copies == old(copies)
      ensures !raised ==> |copies| == |old(copies)| + 1 && copies[|copies| - 1].src == src
      ensures Grows(old(fs.entries), mid) && Grows(mid, fs.entries)
    {
      var dest := Rebase(src, folder, actual);
      assert folder < src;
      count', size' := count, size;
      var ok := MakeDirsWithin(Parent(dest), actual, t0, k0, p0);
      mid := fs.entries;
      if !ok {
        return true, count', size', mid;
      }
      raised, count', size' := CopyRebased(folder, src, actual, dest, count, size, t0, k0, p0, kf, b0, count0, size0);
    }

    /** What `CopyWalkedFile` promises, in terms of the step failing in the tree `mid` it copied in. */
    lemma WalkedStepFails(t: Tree, mid: Tree, src: Path, dest: Path, raised: bool)
      requires |src| >= 1 && |dest| >= 1
      requires !CanMakeDirs(t, fs.failing, Parent(dest)) ==> raised && mid == t
      requires CanMakeDirs(t, fs.failing, Parent(dest)) ==>
                 CanMakeDirs(mid, fs.failing, Parent(dest)) && (raised <==> CopyFails(mid, src, dest))
      ensures raised <==> StepFails(mid, src, dest)
    {
    }

    /** The per-file step of a walked file, its destination's parent in place. */
    method CopyRebased(folder: Path, src: Path, actual: Path, dest: Path, count: nat, size: nat,
                       ghost t0: Tree, ghost k0: nat, ghost p0: nat,
                       ghost kf: nat, ghost b0: nat, ghost count0: nat, ghost size0: nat)
      returns (raised: bool, count': nat, size': nat)
      requires |src| > |folder| && src[..|folder|] == folder && dest == Rebase(src, folder, actual)
      requires KeptSince(t0, k0, p0, actual)
      requires Counted(kf, b0, count0, size0, count, size, folder, actual)
      modifies fs, this`copies, this`bytes, this`progress
      ensures KeptSince(t0, k0, p0, actual)
      ensures old(copies) <= copies && old(progress) <= progress
      ensures Counted(kf, b0, count0, size0, count', size', folder, actual)
      ensures raised <==> CopyFails(old(fs.entries), src, dest)
      ensures raised ==> copies == old(copies)
      ensures !raised ==> |copies| == |old(copies)| + 1 && copies[|copies| - 1].src == src
      ensures Grows(old(fs.entries), fs.entries)
    {
      var ok, target;
      ghost var cs, b := copies, bytes;
      ok, target, count', size' := CopyFile(src, dest, count, size, actual, t0, k0, p0);
      assert KeptSince(t0, k0, p0, actual) && Grows(old(fs.entries), fs.entries);
      raised := !ok;
      if ok {
        RebasedLands(copies[|cs|], folder, actual);
        CountedPush(cs, copies, b, bytes, kf, b0, count0, size0, count, size, count', size', folder, actual);
      }
    }

    /**
     * The source loops of `perform_backup_safe` (and of each tab in
     * `perform_multi_tab_backup`): folders first, then standalone files.  A
     * missing source is skipped; an exception in one folder or file becomes
     * an error status and the loop goes on.  `stop` is the cancellation
     * return, taken exactly when a run-level read answers set.
     */
    method CopySources(folders: seq<Path>, files: seq<Path>, actual: Path, count: nat, size: nat,
                       ghost t0: Tree, ghost k0: nat, ghost p0: nat)
      returns (stop: bool, count': nat, size': nat)
      requires KeptSince(t0, k0, p0, actual)
      modifies fs, this`copies, this`bytes, this`progress, this`cancelled, this`polls, this`errors, this`dropped,
               this`droppedBytes, this`runReads, this`failedIn
      ensures KeptSince(t0, k0, p0, actual) && Grows(old(fs.entries), fs.entries)
      ensures old(copies) <= copies && old(progress) <= progress && (old(cancelled) ==> cancelled)
      ensures old(errors) <= errors && old(runReads) <= runReads
      ensures old(dropped) <= dropped && old(bytes) <= bytes && old(droppedBytes) <= droppedBytes
      ensures forall i :: |old(copies)| <= i < |copies| ==> FromSources(copies[i].src, folders, files)
      ensures forall i :: |old(errors)| <= i < |errors| ==> errors[i] in folders || errors[i] in files
      ensures forall i :: |old(errors)| <= i < |errors| ==>
                i in failedIn && Reported(errors[i], failedIn[i], folders, files, actual)
      ensures count' + (dropped - old(dropped)) == count + |copies| - |old(copies)|
      ensures size' + (droppedBytes - old(droppedBytes)) == size + (bytes - old(bytes))
      ensures StoppedBy(|old(runReads)|, stop) && (stop ==> cancelled)
      ensures !stop ==> FilesHandled(old(fs.entries), files, |files|, copies, |old(copies)|, errors, |old(errors)|)
      ensures !stop && !cancelled ==>
                FoldersHandled(old(fs.entries), folders, |folders|, actual, copies, |old(copies)|, errors, |old(errors)|)
    {
      ghost var m := Mark(|copies|, |errors|, |runReads|, dropped, bytes, droppedBytes, count, size);
      ghost var t1 := fs.entries;
      stop, count', size' := CopySourceFolders(folders, files, actual, count, size, t0, k0, p0, m);
      if stop {
        return;
      }
      ghost var t2, cs, es := fs.entries, copies, errors;
      stop, count', size' := CopySourceFiles(folders, files, actual, count', size', t0, k0, p0, m);
      if !stop {
        FilesHandledEarlier(t1, t2, files, copies, m.copies, errors, m.errors);
        if !cancelled {
          FoldersHandledGrow(t1, folders, |folders|, actual, cs, copies, m.copies, es, errors, m.errors);
        }
      }
    }

    /** The folder loop of `CopySources`, its bookkeeping counted from the mark `m`. */
    method CopySourceFolders(folders: seq<Path>, files: seq<Path>, actual: Path, count: nat, size: nat,
                             ghost t0: Tree, ghost k0: nat, ghost p0: nat, ghost m: Mark)
      returns (stop: bool, count': nat, size': nat)
      requires KeptSince(t0, k0, p0, actual) && Tallied(m, folders, files, actual, count, size, false)
      requires m.copies <= |copies| && m.errors <= |errors|
      modifies fs, this`copies, this`bytes, this`progress, this`cancelled, this`polls, this`errors, this`dropped,
               this`droppedBytes, this`runReads, this`failedIn
      ensures KeptSince(t0, k0, p0, actual) && Grows(old(fs.entries), fs.entries)
      ensures old(copies) <= copies && old(progress) <= progress && (old(cancelled) ==> cancelled)
      ensures old(errors) <= errors && old(runReads) <= runReads
      ensures Tallied(m, folders, files, actual, count', size', stop) && (stop ==> cancelled)
      ensures !stop && !cancelled ==>
                FoldersHandled(old(fs.entries), folders, |folders|, actual, copies, m.copies, errors, m.errors)
    {
      ghost var t1 := fs.entries;
      count', size' := count, size;
      stop := false;
      var i := 0;
      while i < |folders|
        invariant 0 <= i <= |folders|
        invariant old(copies) <= copies && old(progress) <= progress && (old(cancelled) ==> cancelled)
        invariant old(errors) <= errors && old(runReads) <= runReads
        invariant KeptSince(t0, k0, p0, actual) && Grows(t1, fs.entries)
        invariant Tallied(m, folders, files, actual, count', size', false)
        invariant !cancelled ==> FoldersHandled(t1, folders, i, actual, copies, m.copies, errors, m.errors)
      {
        ghost var ti, cs, es := fs.entries, copies, errors;
        stop, count', size' := CopySourceFolder(folders, files, i, actual, count', size', t0, k0, p0, m);
        if stop {
          return;
        }
        GrowsTransitive(t1, ti, fs.entries);
        if !cancelled {
          FolderStep(t0, t1, ti, folders, i, actual, cs, copies, m.copies, es, errors, m.errors);
        }
        i := i + 1;
      }
    }

    /** The standalone-file loop of `CopySources`, its bookkeeping counted from the mark `m`. */
    method CopySourceFiles(folders: seq<Path>, files: seq<Path>, actual: Path, count: nat, size: nat,
                           ghost t0: Tree, ghost k0: nat, ghost p0: nat, ghost m: Mark)
      returns (stop: bool, count': nat, size': nat)
      requires KeptSince(t0, k0, p0, actual) && Tallied(m, folders, files, actual, count, size, false)
      requires m.copies <= |copies| && m.errors <= |errors|
      modifies fs, this`copies, this`bytes, this`progress, this`cancelled, this`polls, this`errors, this`dropped,
               this`droppedBytes, this`runReads, this`failedIn
      ensures KeptSince(t0, k0, p0, actual) && Grows(old(fs.entries), fs.entries)
      ensures old(copies) <= copies && old(progress) <= progress && (old(cancelled) ==> cancelled)
      ensures old(errors) <= errors && old(runReads) <= runReads
      ensures Tallied(m, folders, files, actual, count', size', stop) && (stop ==> cancelled)
      ensures !stop ==> FilesHandled(old(fs.entries), files, |files|, copies, m.copies, errors, m.errors)
    {
      ghost var t1 := fs.entries;
      count', size' := count, size;
      stop := false;
      var i := 0;
      while i < |files|
        invariant 0 <= i <= |files|
        invariant old(copies) <= copies && old(progress) <= progress && (old(cancelled) ==> cancelled)
        invariant old(errors) <= errors && old(runReads) <= runReads
        invariant KeptSince(t0, k0, p0, actual) && Grows(t1, fs.entries)
        invariant Tallied(m, folders, files, actual, count', size', false)
        invariant FilesHandled(t1, files, i, copies, m.copies, errors, m.errors)
      {
        ghost var ti, cs, es := fs.entries, copies, errors;
        stop, count', size' := CopySourceFile(folders, files, i, actual, count', size', t0, k0, p0, m);
        if stop {
          return;
        }
        GrowsTransitive(t1, ti, fs.entries);
        FilesHandledStep(t1, files, i, cs, copies, m.copies, es, errors, m.errors);
        i := i + 1;
      }
    }

    /** The `i`-th folder's pass, seen from the tree `t1` the loop started in. */
    lemma FolderStep(t0: Tree, t1: Tree, ti: Tree, folders: seq<Path>, i: nat, actual: Path,
                     cs: seq<CopyRecord>, cs': seq<CopyRecord>, k: nat, es: seq<Path>, es': seq<Path>, e: nat)
      requires i < |folders| && cs <= cs' && es <= es' && k <= |cs| && e <= |es|
      requires Grows(t0, t1) && ChangedWithin(t0, t1, actual) && Grows(t0, ti) && ChangedWithin(t0, ti, actual)
      requires Grows(t1, ti)
      requires FoldersHandled(t1, folders, i, actual, cs, k, es, e)
      requires Exists(ti, folders[i]) && Apart(actual, folders[i]) ==>
                 es' == es + [folders[i]] || Srcs(cs'[|cs|..]) == CopyOrder(ti, folders[i])
      ensures FoldersHandled(t1, folders, i + 1, actual, cs', k, es', e)
    {
      if Apart(actual, folders[i]) {
        ApartUnchangedBetween(t0, t1, ti, actual, folders[i]);
      }
      FoldersHandledStep(t1, ti, folders, i, actual, cs, cs', k, es, es', e);
    }

    /**
     * The source loops' invariant since the mark `m`: the new copies come
     * from the selection and the new errors name a source whose copy into
     * `actual` raised, in the tree recorded with the error; the counters
     * grew by the new copies and their bytes, less those discarded; the
     * run-level reads all answered clear, except, when `stop`, the last.
     */
    ghost predicate Tallied(m: Mark, folders: seq<Path>, files: seq<Path>, actual: Path, count: nat, size: nat,
                            stop: bool)
      reads this`copies, this`errors, this`runReads, this`dropped, this`bytes, this`droppedBytes, this`failedIn
    {
      && m.copies <= |copies| && m.errors <= |errors| && m.dropped <= dropped
      && m.bytes <= bytes && m.droppedBytes <= droppedBytes
      && (forall j :: m.copies <= j < |copies| ==> FromSources(copies[j].src, folders, files))
      && (forall j :: m.errors <= j < |errors| ==> j in failedIn && Reported(errors[j], failedIn[j], folders, files, actual))
      && count + (dropped - m.dropped) == m.count + |copies| - m.copies
      && size + (droppedBytes - m.droppedBytes) == m.size + (bytes - m.bytes)
      && StopsAt(runReads, m.runReads, stop)
    }

    /** One pass of the folder loop: read the flag, skip a missing folder, copy it by contents or whole. */
    method CopySourceFolder(folders: seq<Path>, files: seq<Path>, i: nat, actual: Path, count: nat, size: nat,
                            ghost t0: Tree, ghost k0: nat, ghost p0: nat, ghost m: Mark)
      returns (stop: bool, count': nat, size': nat)
      requires i < |folders| && KeptSince(t0, k0, p0, actual)
      requires Tallied(m, folders, files, actual, count, size, false)
      modifies fs, this`copies, this`bytes, this`progress, this`cancelled, this`polls, this`errors, this`dropped,
               this`droppedBytes, this`runReads, this`failedIn
      ensures KeptSince(t0, k0, p0, actual) && Grows(old(fs.entries), fs.entries)
      ensures Tallied(m, folders, files, actual, count', size', stop)
      ensures old(copies) <= copies && old(progress) <= progress && (old(cancelled) ==> cancelled)
      ensures old(runReads) <= runReads
      ensures errors == old(errors) || errors == old(errors) + [folders[i]]
      ensures stop ==> cancelled
      ensures !Exists(old(fs.entries), folders[i]) ==>
                fs.entries == old(fs.entries) && copies == old(copies) && errors == old(errors)
      ensures Exists(old(fs.entries), folders[i]) && !stop
              && (copyFolderContents || (!cancelled && Apart(actual, folders[i]))) ==>
                errors == old(errors) + [folders[i]]
                || Srcs(copies[|old(copies)|..]) == CopyOrder(old(fs.entries), folders[i])
    {
      var folder := folders[i];
      count', size' := count, size;
      stop := PollRun();
      StopsAtChain(old(runReads), runReads, m.runReads, stop);
      if stop || !Exists(fs.entries, folder) {
        return;
      }
      stop, count', size' := CopySourceFolderExisting(folders, files, i, actual, count, size, t0, k0, p0, m);
    }

    /** The `i`-th source folder, which exists: copied, or an error status naming it. */
    method CopySourceFolderExisting(folders: seq<Path>, files: seq<Path>, i: nat, actual: Path, count: nat,
                                    size: nat, ghost t0: Tree, ghost k0: nat, ghost p0: nat, ghost m: Mark)
      returns (stop: bool, count': nat, size': nat)
      requires i < |folders| && Exists(fs.entries, folders[i]) && KeptSince(t0, k0, p0, actual)
      requires Tallied(m, folders, files, actual, count, size, false)
      modifies fs, this`copies, this`bytes, this`progress, this`cancelled, this`polls, this`errors, this`dropped,
               this`droppedBytes, this`runReads, this`failedIn
      ensures KeptSince(t0, k0, p0, actual) && Grows(old(fs.entries), fs.entries)
      ensures Tallied(m, folders, files, actual, count', size', stop)
      ensures old(copies) <= copies && old(progress) <= progress && (old(cancelled) ==> cancelled)
      ensures old(runReads) <= runReads
      ensures errors == old(errors) || errors == old(errors) + [folders[i]]
      ensures stop ==> cancelled
      ensures !stop && (copyFolderContents || (!cancelled && Apart(actual, folders[i]))) ==>
                errors == old(errors) + [folders[i]]
                || Srcs(copies[|old(copies)|..]) == CopyOrder(old(fs.entries), folders[i])
    {
      var folder := folders[i];
      var raised;
      ghost var dest, at;
      stop, raised, count', size', dest, at := CopyFolder(folder, actual, count, size, t0, k0, p0);
      StopsAtChain(old(runReads), runReads, m.runReads, stop);
      forall j | m.copies <= j < |copies|
        ensures FromSources(copies[j].src, folders, files)
      {
        if j >= |old(copies)| {
          assert folder in folders && folder < copies[j].src;
        } else {
          assert copies[j] == old(copies)[j];
        }
      }
      if raised && !stop {
        ReportError(folder, Failure(at, dest), m, folders, files, actual, count', size');
      }
    }

    /**
     * `status_updated.emit` of an error naming the source `p`, whose copy
     * failed as `e` records.
     */
    method ReportError(p: Path, ghost e: Failure, ghost m: Mark, ghost folders: seq<Path>, ghost files: seq<Path>,
                       ghost actual: Path, ghost count: nat, ghost size: nat)
      requires Reported(p, e, folders, files, actual) && Tallied(m, folders, files, actual, count, size, false)
      modifies this`errors, this`failedIn
      ensures errors == old(errors) + [p] && failedIn == old(failedIn)[|old(errors)| := e]
      ensures Tallied(m, folders, files, actual, count, size, false)
    {
      failedIn := failedIn[|errors| := e];
      errors := errors + [p];
    }

    /** A folder that exists: copied by its contents or whole, as `copy_folder_contents` says. */
    method CopyFolder(folder: Path, actual: Path, count: nat, size: nat,
                      ghost t0: Tree, ghost k0: nat, ghost p0: nat)
      returns (stop: bool, raised: bool, count': nat, size': nat, ghost dest: Path, ghost at: Tree)
      requires |folder| >= 1 && KeptSince(t0, k0, p0, actual)
      modifies fs, this`copies, this`bytes, this`progress, this`cancelled, this`polls, this`dropped,
               this`droppedBytes, this`runReads
      ensures KeptSince(t0, k0, p0, actual) && Grows(old(fs.entries), fs.entries)
      ensures old(copies) <= copies && old(progress) <= progress && (old(cancelled) ==> cancelled)
      ensures forall j :: |old(copies)| <= j < |copies| ==> folder < copies[j].src
      ensures old(dropped) <= dropped && old(bytes) <= bytes && old(droppedBytes) <= droppedBytes
      ensures count' + (dropped - old(dropped)) == count + |copies| - |old(copies)|
      ensures size' + (droppedBytes - old(droppedBytes)) == size + (bytes - old(bytes))
      ensures old(runReads) <= runReads && StoppedBy(|old(runReads)|, stop) && (stop ==> cancelled)
      ensures raised ==> !stop && FolderFails(at, folder, actual, dest)
      ensures !raised && !stop && (copyFolderContents || (!cancelled && Apart(actual, folder))) ==>
                Srcs(copies[|old(copies)|..]) == CopyOrder(old(fs.entries), folder)
    {
      if copyFolderContents {
        dest := actual;
        ghost var bad, walk;
        stop, raised, count', size', at, bad, walk := CopyFolderContents(folder, actual, count, size, t0, k0, p0);

      } else {
        stop := false;
        raised, dest, count', size' := CopyFolderWhole(folder, actual, count, size, t0, k0, p0);
        at := fs.entries;
      }
    }

    /**
     * The whole-folder branch: `copy_tree_safe` into the safe name `dest` for
     * the folder inside `actual`.  When it raises, the caller's counters are
     * not updated: the files it did copy, and their bytes, are dropped.
     */
    method CopyFolderWhole(folder: Path, actual: Path, count: nat, size: nat,
                           ghost t0: Tree, ghost k0: nat, ghost p0: nat)
      returns (raised: bool, dest: Path, count': nat, size': nat)
      requires |folder| >= 1 && KeptSince(t0, k0, p0, actual)
      modifies fs, this`copies, this`bytes, this`progress, this`cancelled, this`polls, this`dropped, this`droppedBytes
      ensures SafeName(old(fs.entries), actual + [Basename(folder)], dest) && Parent(dest) == actual
      ensures KeptSince(t0, k0, p0, actual)
      ensures old(copies) <= copies && old(progress) <= progress && (old(cancelled) ==> cancelled)
      ensures forall i :: |old(copies)| <= i < |copies| ==> CopiedBelow(copies[i], folder, dest)
      ensures old(dropped) <= dropped && old(bytes) <= bytes && old(droppedBytes) <= droppedBytes
      ensures count' + (dropped - old(dropped)) == count + |copies| - |old(copies)|
      ensures size' + (droppedBytes - old(droppedBytes)) == size + (bytes - old(bytes))
      ensures raised ==> count' == count && size' == size
      ensures !raised ==> dropped == old(dropped) && droppedBytes == old(droppedBytes)
      ensures |dest| == |actual| + 1 && RenamedFrom(actual + [Basename(folder)], dest)
      ensures Grows(old(fs.entries), fs.entries)
      ensures raised ==> exists s :: folder <= s && TreeStepFails(fs.entries, folder, s, dest + s[|folder|..])
      ensures !raised && !cancelled && Apart(actual, folder) ==>
                Srcs(copies[|old(copies)|..]) == TreeFiles(old(fs.entries), folder)
    {
      dest := SafeDestinationPath(actual + [Basename(folder)]);
      SafeNameRenamed(fs.entries, actual + [Basename(folder)], dest);
      assert actual < dest by {
        assert dest[..|actual|] == Parent(dest);
      }
      var c2, s2;
      raised, c2, s2 := CopyTreeSafe(folder, dest, count, size, actual, t0, k0, p0);
      if raised {
        dropped := dropped + (|copies| - |old(copies)|);
        droppedBytes := droppedBytes + (bytes - old(bytes));
        count', size' := count, size;
      } else {
        count', size' := c2, s2;
      }
    }

    /** One pass of the standalone-file loop: read the flag, skip a missing file, copy it by its name into `actual`. */
    method CopySourceFile(folders: seq<Path>, files: seq<Path>, i: nat, actual: Path, count: nat, size: nat,
                          ghost t0: Tree, ghost k0: nat, ghost p0: nat, ghost m: Mark)
      returns (stop: bool, count': nat, size': nat)
      requires i < |files| && KeptSince(t0, k0, p0, actual)
      requires Tallied(m, folders, files, actual, count, size, false)
      modifies fs, this`copies, this`bytes, this`progress, this`cancelled, this`polls, this`errors, this`runReads,
               this`failedIn
      ensures KeptSince(t0, k0, p0, actual) && Grows(old(fs.entries), fs.entries)
      ensures Tallied(m, folders, files, actual, count', size', stop)
      ensures old(copies) <= copies && old(progress) <= progress && (old(cancelled) ==> cancelled)
      ensures old(runReads) <= runReads
      ensures errors == old(errors) || errors == old(errors) + [files[i]]
      ensures stop ==> cancelled
      ensures forall j :: |old(copies)| <= j < |copies| ==>
                copies[j].src == files[i] && |files[i]| >= 1 && LandedAt(copies[j], actual + [Basename(files[i])])
      ensures !Exists(old(fs.entries), files[i]) ==>
                fs.entries == old(fs.entries) && copies == old(copies) && errors == old(errors)
      ensures Exists(old(fs.entries), files[i]) && !stop ==>
                && (errors == old(errors) + [files[i]] <==>
                      CopyFails(old(fs.entries), files[i], actual + [Basename(files[i])]))
                && (errors == old(errors) ==> |copies| == |old(copies)| + 1 && copies[|copies| - 1].src == files[i])
    {
      var file := files[i];
      count', size' := count, size;
      stop := PollRun();
      StopsAtChain(old(runReads), runReads, m.runReads, stop);
      if stop || !Exists(fs.entries, file) {
        return;
      }
      count', size' := CopySourceFileExisting(folders, files, i, actual, count, size, t0, k0, p0, m);
    }

    /** The `i`-th standalone file, which exists: copied into `actual`, or an error status naming it. */
    method CopySourceFileExisting(folders: seq<Path>, files: seq<Path>, i: nat, actual: Path, count: nat, size: nat,
                                  ghost t0: Tree, ghost k0: nat, ghost p0: nat, ghost m: Mark)
      returns (count': nat, size': nat)
      requires i < |files| && Exists(fs.entries, files[i]) && KeptSince(t0, k0, p0, actual)
      requires Tallied(m, folders, files, actual, count, size, false)
      modifies fs, this`copies, this`bytes, this`progress, this`errors, this`failedIn
      ensures KeptSince(t0, k0, p0, actual) && Grows(old(fs.entries), fs.entries)
      ensures Tallied(m, folders, files, actual, count', size', false)
      ensures old(copies) <= copies && old(progress) <= progress
      ensures errors == old(errors) || errors == old(errors) + [files[i]]
      ensures forall j :: |old(copies)| <= j < |copies| ==>
                copies[j].src == files[i] && LandedAt(copies[j], actual + [Basename(files[i])])
      ensures errors == old(errors) + [files[i]] <==> CopyFails(old(fs.entries), files[i], actual + [Basename(files[i])])
      ensures errors == old(errors) ==> |copies| == |old(copies)| + 1 && copies[|copies| - 1].src == files[i]
    {
      var file := files[i];
      var ok, target;
      ok, target, count', size' := CopyFile(file, actual + [Basename(file)], count, size, actual, t0, k0, p0);
      if !ok {
        ReportError(file, Failure(fs.entries, []), m, folders, files, actual, count', size');
      }
    }

    // -------------------------------------------------------------------
    // The single-selection worker

    /** Where a run writes: the dated `Резервное копирование` folder inside `destination`, when enabled. */
    function BackupTarget(destination: Path): (r: Path)
      ensures destination <= r
    {
      if createBackupFolder then destination + [backupFolderName] else destination
    }

    /**
     * `BackupWorker.perform_backup_safe`.  A set flag or too little room ends
     * the run before anything is written; otherwise the sources are copied
     * into the target.
     */
    method PerformBackupSafe(folders: seq<Path>, files: seq<Path>, destination: Path, freeSpace: Option<nat>)
      returns (outcome: Outcome)
      modifies fs, this`copies, this`bytes, this`progress, this`cancelled, this`polls, this`errors, this`dropped,
               this`droppedBytes, this`runReads, this`failedIn
      ensures old(CancelSeen()) ==> outcome == Cancelled
      ensures old(runReads) <= runReads && StoppedBy(|old(runReads)|, outcome == Cancelled)
      ensures !old(CancelSeen()) && !HasRoom(freeSpace, totalSize) ==> outcome == NoSpace
      ensures outcome != NothingToCopy
      ensures outcome == NoSpace || outcome == CriticalError || old(CancelSeen()) ==>
                fs.entries == old(fs.entries) && copies == old(copies) && progress == old(progress)
      ensures outcome == CriticalError <==>
                !old(CancelSeen()) && HasRoom(freeSpace, totalSize) && PrepFails(old(fs.entries), BackupTarget(destination))
      ensures outcome == Cancelled ==> cancelled
      ensures outcome.Success? ==> outcome.copied + (dropped - old(dropped)) == |copies| - |old(copies)|
      ensures old(copies) <= copies && old(progress) <= progress && old(errors) <= errors
      ensures KeptSince(old(fs.entries), |old(copies)|, |old(progress)|, BackupTarget(destination))
      ensures forall j :: |old(copies)| <= j < |copies| ==> FromSources(copies[j].src, folders, files)
      ensures forall j :: |old(errors)| <= j < |errors| ==> errors[j] in folders || errors[j] in files
      ensures forall j :: |old(errors)| <= j < |errors| ==>
                j in failedIn && Reported(errors[j], failedIn[j], folders, files, BackupTarget(destination))
      ensures outcome.Success? ==>
                FilesHandled(old(fs.entries), files, |files|, copies, |old(copies)|, errors, |old(errors)|)
      ensures outcome.Success? && !cancelled ==>
                FoldersHandled(old(fs.entries), folders, |folders|, BackupTarget(destination), copies, |old(copies)|,
                               errors, |old(errors)|)
      ensures outcome.Success? && createBackupFolder && !IsFile(old(fs.entries), BackupTarget(destination)) ==>
                IsDir(fs.entries, BackupTarget(destination))
    {
      var c := PollRun();
      if c {
        outcome := Cancelled;
      } else if !HasRoom(freeSpace, totalSize) {
        outcome := NoSpace;
      } else {
        ghost var rs := runReads;
        outcome := BackupInto(folders, files, destination);
        StopsAtChain(rs, runReads, |old(runReads)|, outcome == Cancelled);
        return;
      }
      assert copies[|copies|..] == [];
      KeptNothing(fs.entries, totalSize, BackupTarget(destination), !keepHistory);
    }

    /**
     * The body of `perform_backup_safe` after the checks: create the dated
     * folder when it is missing (a failure is the critical error), then copy
     * the sources.  Nothing is removed, every change lies on the way to or
     * inside the target, every copy comes from a selected source, and
     * without history no existing file is rewritten.
     */
    method BackupInto(folders: seq<Path>, files: seq<Path>, destination: Path) returns (outcome: Outcome)
      modifies fs, this`copies, this`bytes, this`progress, this`cancelled, this`polls, this`errors, this`dropped,
               this`droppedBytes, this`runReads, this`failedIn
      ensures outcome == Cancelled || outcome == CriticalError || outcome.Success?
      ensures old(runReads) <= runReads && StoppedBy(|old(runReads)|, outcome == Cancelled)
      ensures outcome == CriticalError <==> PrepFails(old(fs.entries), BackupTarget(destination))
      ensures outcome == CriticalError ==>
                fs.entries == old(fs.entries) && copies == old(copies) && progress == old(progress)
      ensures outcome == Cancelled ==> cancelled
      ensures outcome.Success? ==> outcome.copied + (dropped - old(dropped)) == |copies| - |old(copies)|
      ensures old(copies) <= copies && old(progress) <= progress && old(errors) <= errors
      ensures KeptSince(old(fs.entries), |old(copies)|, |old(progress)|, BackupTarget(destination))
      ensures forall j :: |old(copies)| <= j < |copies| ==> FromSources(copies[j].src, folders, files)
      ensures forall j :: |old(errors)| <= j < |errors| ==> errors[j] in folders || errors[j] in files
      ensures forall j :: |old(errors)| <= j < |errors| ==>
                j in failedIn && Reported(errors[j], failedIn[j], folders, files, BackupTarget(destination))
      ensures outcome.Success? ==>
                FilesHandled(old(fs.entries), files, |files|, copies, |old(copies)|, errors, |old(errors)|)
      ensures outcome.Success? && !cancelled ==>
                FoldersHandled(old(fs.entries), folders, |folders|, BackupTarget(destination), copies, |old(copies)|,
                               errors, |old(errors)|)
      ensures outcome.Success? && createBackupFolder && !IsFile(old(fs.entries), BackupTarget(destination)) ==>
                IsDir(fs.entries, BackupTarget(destination))
    {
      ghost var t0, k0, p0 := fs.entries, |copies|, |progress|;
      var actual := BackupTarget(destination);
      assert copies[k0..] == [];
      KeptNothing(t0, totalSize, actual, !keepHistory);
      var ok := PrepareTarget(actual, t0, k0, p0);
      if !ok {
        return CriticalError;
      }
      ghost var t1, e0 := fs.entries, |errors|;
      assert Grows(t0, t1) && ChangedWithin(t0, t1, actual);
      var stop, count, size := CopySources(folders, files, actual, 0, 0, t0, k0, p0);
      if !stop {
        FilesHandledEarlier(t0, t1, files, copies, k0, errors, e0);
        if !cancelled {
          FoldersHandledEarlier(t0, t1, folders, actual, copies, k0, errors, e0);
        }
      }
      outcome := if stop then Cancelled else Success(count);
    }

    /** The dated folder is enabled, missing in `t`, and `os.makedirs` cannot create it: the critical error. */
    ghost predicate PrepFails(t: Tree, a: Path) {
      createBackupFolder && !Exists(t, a) && !CanMakeDirs(t, fs.failing, a)
    }

    /**
     * The dated folder, when enabled and missing, is created with
     * `os.makedirs`; `ok` is false when that fails.
     */
    method PrepareTarget(actual: Path, ghost t0: Tree, ghost k0: nat, ghost p0: nat) returns (ok: bool)
      requires KeptSince(t0, k0, p0, actual)
      modifies fs
      ensures KeptSince(t0, k0, p0, actual)
      ensures ok <==> !createBackupFolder || Exists(old(fs.entries), actual) || CanMakeDirs(old(fs.entries), fs.failing, actual)
      ensures !ok ==> createBackupFolder && fs.entries == old(fs.entries)
      ensures ok && createBackupFolder && !IsFile(old(fs.entries), actual) ==> IsDir(fs.entries, actual)
    {
      ok := true;
      if createBackupFolder && !Exists(fs.entries, actual) {
        ok := MakeDirsWithin(actual, actual, t0, k0, p0);
      }
    }

    /**
     * `BackupWorker.run`: compute the total when the window passed none; no
     * bytes at all is the "nothing to copy" answer, with nothing written.
     */
    method Run(folders: seq<Path>, files: seq<Path>, destination: Path, freeSpace: Option<nat>)
      returns (outcome: Outcome)
      modifies fs, this`copies, this`bytes, this`progress, this`cancelled, this`polls, this`errors, this`dropped,
               this`droppedBytes, this`runReads, this`totalSize, this`failedIn
      ensures old(totalSize) > 0 ==> totalSize == old(totalSize)
      ensures old(totalSize) == 0 ==> totalSize <= SourcesSize(old(fs.entries), folders, files)
      ensures old(totalSize) == 0 && !cancelled ==> totalSize == SourcesSize(old(fs.entries), folders, files)
      ensures outcome == NothingToCopy <==> totalSize == 0
      ensures outcome == NothingToCopy ==> fs.entries == old(fs.entries) && copies == old(copies) && progress == old(progress)
      ensures outcome == Cancelled ==> cancelled
      ensures old(runReads) <= runReads && StoppedBy(|old(runReads)|, outcome == Cancelled)
      ensures outcome.Success? ==> outcome.copied + (dropped - old(dropped)) == |copies| - |old(copies)|
      ensures KeptSince(old(fs.entries), |old(copies)|, |old(progress)|, BackupTarget(destination))
      ensures forall j :: |old(copies)| <= j < |copies| ==> FromSources(copies[j].src, folders, files)
      ensures forall j :: |old(errors)| <= j < |errors| ==> errors[j] in folders || errors[j] in files
      ensures forall j :: |old(errors)| <= j < |errors| ==>
                j in failedIn && Reported(errors[j], failedIn[j], folders, files, BackupTarget(destination))
      ensures outcome == CriticalError ==> PrepFails(old(fs.entries), BackupTarget(destination))
      ensures (totalSize > 0 && !cancelled && HasRoom(freeSpace, totalSize)
               && PrepFails(old(fs.entries), BackupTarget(destination))) ==> outcome == CriticalError
      ensures outcome.Success? ==>
                FilesHandled(old(fs.entries), files, |files|, copies, |old(copies)|, errors, |old(errors)|)
      ensures outcome.Success? && !cancelled ==>
                FoldersHandled(old(fs.entries), folders, |folders|, BackupTarget(destination), copies, |old(copies)|,
                               errors, |old(errors)|)
    {
      if totalSize == 0 {
        var n, _ := SourcesBytes(folders, files);
        totalSize := n;
      }
      if totalSize == 0 {
        assert copies[|copies|..] == [];
        KeptNothing(fs.entries, totalSize, BackupTarget(destination), !keepHistory);
        return NothingToCopy;
      }
      outcome := PerformBackupSafe(folders, files, destination, freeSpace);
    }

    // -------------------------------------------------------------------
    // The multi-tab worker

    /**
     * `perform_multi_tab_backup`: the tabs in order, each into its own
     * target, with one pair of counters for the whole run.  A tab whose
     * destination lacks room for the tab's own size is skipped; a failure
     * to create a dated folder ends the run as the critical error.  Nothing
     * is removed, every change lies on the way to or inside some tab's
     * destination, every copy goes into a tab's destination from that tab's
     * sources, and without history no existing file is rewritten.
     */
    method PerformMultiTabBackup(tabs: seq<Tab>, freeSpace: seq<Option<nat>>) returns (outcome: Outcome)
      requires |freeSpace| == |tabs|
      modifies fs, this`copies, this`bytes, this`progress, this`cancelled, this`polls, this`errors, this`dropped,
               this`droppedBytes, this`runReads, this`tabsCopied, this`failedIn
      ensures old(CancelSeen()) ==> outcome == Cancelled && fs.entries == old(fs.entries) && copies == old(copies)
      ensures outcome == Cancelled || outcome == CriticalError || outcome.Success?
      ensures old(runReads) <= runReads && StoppedBy(|old(runReads)|, outcome == Cancelled)
      ensures outcome == CriticalError ==> createBackupFolder
      ensures outcome == Cancelled ==> cancelled
      ensures outcome.Success? ==> outcome.copied + (dropped - old(dropped)) == |copies| - |old(copies)|
      ensures outcome.Success? ==> tabsCopied == old(tabsCopied) + TabsWithRoom(tabs, freeSpace)
      ensures old(copies) <= copies && old(progress) <= progress && old(errors) <= errors
      ensures Carried(old(fs.entries), fs.entries, copies[|old(copies)|..], |progress| - |old(progress)|,
                      totalSize, !keepHistory)
      ensures ChangedWithinTabs(old(fs.entries), fs.entries, tabs)
      ensures forall j :: |old(copies)| <= j < |copies| ==> FromSomeTab(tabs, copies[j])
      ensures forall j :: |old(errors)| <= j < |errors| ==> SourceOfSomeTab(tabs, errors[j])
      ensures outcome.Success? ==>
                TabsHandled(tabs, freeSpace, |tabs|, old(fs.entries), copies, |old(copies)|, errors, |old(errors)|,
                            !cancelled)
      ensures (FirstWithRoom(tabs, freeSpace) < |tabs| && !cancelled
               && PrepFails(old(fs.entries), BackupTarget(tabs[FirstWithRoom(tabs, freeSpace)].destination)))
              ==> outcome == CriticalError
    {
      ghost var t0, p0 := fs.entries, |progress|;
      ghost var m := Mark(|copies|, |errors|, |runReads|, dropped, bytes, droppedBytes, 0, 0);
      assert copies[m.copies..] == [];
      var c := PollRun();
      if c {
        return Cancelled;
      }
      var stop, critical, count, size := CopyTabs(tabs, freeSpace, t0, p0, m);
      if !stop && !critical {
        TabsDone(tabs, freeSpace, t0, p0, m, old(tabsCopied), t0, count, size);
      }
      outcome := if stop then Cancelled else if critical then CriticalError else Success(count);
    }

    /**
     * The tab loop of `perform_multi_tab_backup`: each tab in order, until a
     * set flag (`stop`) or a failed dated folder (`critical`).
     */
    method CopyTabs(tabs: seq<Tab>, freeSpace: seq<Option<nat>>, ghost t0: Tree, ghost p0: nat, ghost m: Mark)
      returns (stop: bool, critical: bool, count: nat, size: nat)
      requires |freeSpace| == |tabs| && m.count == 0 && m.size == 0
      requires TabsKept(tabs, t0, p0, m, 0, 0, false)
      modifies fs, this`copies, this`bytes, this`progress, this`cancelled, this`polls, this`errors, this`dropped,
               this`droppedBytes, this`runReads, this`tabsCopied, this`failedIn
      ensures old(copies) <= copies && old(progress) <= progress && old(errors) <= errors
      ensures old(runReads) <= runReads && (old(cancelled) ==> cancelled)
      ensures TabsKept(tabs, t0, p0, m, count, size, stop)
      ensures stop ==> cancelled
      ensures critical ==> createBackupFolder && !stop
      ensures !stop && !critical ==>
                TabsLoop(tabs, freeSpace, |tabs|, t0, p0, m, old(tabsCopied), old(fs.entries), count, size)
    {
      count, size := 0, 0;
      stop, critical := false, false;
      ghost var tc0, e0 := tabsCopied, fs.entries;
      ghost var c0, pr0, x0, rr0, es0 := copies, progress, cancelled, runReads, errors;
      assert tabs[..0] == [] && freeSpace[..0] == [];
      var i := 0;
      while i < |tabs|
        invariant 0 <= i <= |tabs| && !stop && !critical
        invariant Since(c0, pr0, x0, rr0) && es0 <= errors
        invariant TabsLoop(tabs, freeSpace, i, t0, p0, m, tc0, e0, count, size)
      {
        stop, critical, count, size := CopyTabsStep(tabs, freeSpace, i, count, size, t0, p0, m, tc0, e0,
                                                    c0, pr0, x0, rr0, es0);
        if stop || critical {
          return;
        }
        i := i + 1;
      }
    }

    /** The tab loop's progress after every tab is what the loop promises. */
    lemma TabsDone(tabs: seq<Tab>, free: seq<Option<nat>>, t0: Tree, p0: nat, m: Mark, tc0: seq<nat>, e0: Tree,
                   count: nat, size: nat)
      requires TabsLoop(tabs, free, |tabs|, t0, p0, m, tc0, e0, count, size)
      ensures TabsKept(tabs, t0, p0, m, count, size, false)
      ensures tabsCopied == tc0 + TabsWithRoom(tabs, free)
      ensures TabsHandled(tabs, free, |tabs|, t0, copies, m.copies, errors, m.errors, !cancelled)
      ensures !(FirstWithRoom(tabs, free) < |tabs| && !cancelled
                && PrepFails(e0, BackupTarget(tabs[FirstWithRoom(tabs, free)].destination)))
    {
      assert tabs[..|tabs|] == tabs && free[..|tabs|] == free;
    }

    /**
     * The tab loop's progress after the tabs before `i`, since the tabs
     * copied `tc0` and the tree `e0` at its start: the tabs with room are
     * recorded and handled, nothing changed before the first tab with room,
     * and, once that tab is past with the flag clear, its dated folder did
     * not fail.
     */
    ghost predicate TabsSoFar(tabs: seq<Tab>, free: seq<Option<nat>>, i: nat, t0: Tree, m: Mark, tc0: seq<nat>,
                              e0: Tree)
      reads this`tabsCopied, this`copies, this`errors, this`cancelled, fs`entries
    {
      TabsSoFarIn(tabs, free, i, t0, m, tc0, e0, tabsCopied, copies, errors, cancelled, fs.entries)
    }

    /** The tab loop's invariant: the run's invariant with nothing stopped, and the progress after the tabs before `i`. */
    ghost predicate TabsLoop(tabs: seq<Tab>, free: seq<Option<nat>>, i: nat, t0: Tree, p0: nat, m: Mark,
                             tc0: seq<nat>, e0: Tree, count: nat, size: nat)
      reads this`copies, this`progress, this`errors, this`dropped, this`bytes, this`droppedBytes, this`runReads,
            this`totalSize, fs`entries, this`tabsCopied, this`cancelled
    {
      TabsKept(tabs, t0, p0, m, count, size, false) && TabsSoFar(tabs, free, i, t0, m, tc0, e0)
    }

    /** `TabsSoFar` for the tabs copied `tc`, copies `cs`, errors `es`, flag `x` and tree `e`. */
    ghost predicate TabsSoFarIn(tabs: seq<Tab>, free: seq<Option<nat>>, i: nat, t0: Tree, m: Mark, tc0: seq<nat>,
                                e0: Tree, tc: seq<nat>, cs: seq<CopyRecord>, es: seq<Path>, x: bool, e: Tree)
    {
      && i <= |tabs| == |free|
      && tc == tc0 + TabsWithRoom(tabs[..i], free[..i])
      && TabsHandled(tabs, free, i, t0, cs, m.copies, es, m.errors, !x)
      && FirstRoomKept(tabs, free, i, e0, e, x)
    }

    /**
     * Until the first tab with room is reached, its dated folder fails in the
     * current tree `e` whenever it fails in the starting tree `e0`; once it is
     * past with the flag clear, it did not fail in `e0`.
     */
    ghost predicate FirstRoomKept(tabs: seq<Tab>, free: seq<Option<nat>>, i: nat, e0: Tree, e: Tree, x: bool)
      requires |tabs| == |free|
    {
      && (i <= FirstWithRoom(tabs, free) < |tabs| ==>
            PrepFails(e0, BackupTarget(tabs[FirstWithRoom(tabs, free)].destination)) ==>
            PrepFails(e, BackupTarget(tabs[FirstWithRoom(tabs, free)].destination)))
      && (FirstWithRoom(tabs, free) < i && FirstWithRoom(tabs, free) < |tabs| && !x ==>
            !PrepFails(e0, BackupTarget(tabs[FirstWithRoom(tabs, free)].destination)))
    }

    /** Tab `i`'s pass keeps `FirstRoomKept`: a tab without room changes nothing, the first with room did not fail. */
    lemma FirstRoomStep(tabs: seq<Tab>, free: seq<Option<nat>>, i: nat, e0: Tree, e: Tree, e': Tree, x: bool, x': bool)
      requires i < |tabs| == |free| && FirstRoomKept(tabs, free, i, e0, e, x) && (x ==> x')
      requires !HasRoom(free[i], tabs[i].size) ==> e' == e
      requires HasRoom(free[i], tabs[i].size) && !x' ==> !PrepFails(e, BackupTarget(tabs[i].destination))
      ensures FirstRoomKept(tabs, free, i + 1, e0, e', x')
    {
    }

    /** Tab `i`'s pass, as `CopyTab` describes it, extends the tab loop's progress. */
    lemma TabsSoFarStep(tabs: seq<Tab>, free: seq<Option<nat>>, i: nat, t0: Tree, m: Mark, tc0: seq<nat>, e0: Tree,
                        tc: seq<nat>, cs: seq<CopyRecord>, es: seq<Path>, x: bool, e: Tree,
                        tc': seq<nat>, cs': seq<CopyRecord>, es': seq<Path>, x': bool, e': Tree)
      requires i < |tabs| && TabsSoFarIn(tabs, free, i, t0, m, tc0, e0, tc, cs, es, x, e)
      requires cs <= cs' && es <= es' && (x ==> x')
      requires tc' == tc + if HasRoom(free[i], tabs[i].size) then [i] else []
      requires !HasRoom(free[i], tabs[i].size) ==> e' == e
      requires HasRoom(free[i], tabs[i].size) ==>
                 !PrepFails(e, BackupTarget(tabs[i].destination)) && TabHandled(tabs, i, t0, cs', m.copies, es', m.errors, !x')
      ensures TabsSoFarIn(tabs, free, i + 1, t0, m, tc0, e0, tc', cs', es', x', e')
    {
      TabsHandledStep(tabs, free, i, t0, cs, cs', m.copies, es, es', m.errors, !x, !x');
      FirstRoomStep(tabs, free, i, e0, e, e', x, x');
      TabsWithRoomStep(tabs, free, i, tc0, tc, tc');
    }

    /** Recording tab `i` when it has room extends the record of the tabs with room before it. */
    lemma TabsWithRoomStep(tabs: seq<Tab>, free: seq<Option<nat>>, i: nat, tc0: seq<nat>, tc: seq<nat>, tc': seq<nat>)
      requires i < |tabs| == |free| && tc == tc0 + TabsWithRoom(tabs[..i], free[..i])
      requires tc' == tc + if HasRoom(free[i], tabs[i].size) then [i] else []
      ensures tc' == tc0 + TabsWithRoom(tabs[..i + 1], free[..i + 1])
    {
      assert tabs[..i + 1][..i] == tabs[..i] && free[..i + 1][..i] == free[..i];
    }

    /** One pass of the tab loop, keeping its progress. */
    method CopyTabsStep(tabs: seq<Tab>, freeSpace: seq<Option<nat>>, i: nat, count: nat, size: nat,
                        ghost t0: Tree, ghost p0: nat, ghost m: Mark, ghost tc0: seq<nat>, ghost e0: Tree,
                        ghost c0: seq<CopyRecord>, ghost pr0: seq<nat>, ghost x0: bool, ghost rr0: seq<bool>,
                        ghost es0: seq<Path>)
      returns (stop: bool, critical: bool, count': nat, size': nat)
      requires i < |tabs| == |freeSpace|
      requires TabsLoop(tabs, freeSpace, i, t0, p0, m, tc0, e0, count, size)
      requires Since(c0, pr0, x0, rr0) && es0 <= errors
      modifies fs, this`copies, this`bytes, this`progress, this`cancelled, this`polls, this`errors, this`dropped,
               this`droppedBytes, this`runReads, this`tabsCopied, this`failedIn
      ensures Since(c0, pr0, x0, rr0) && es0 <= errors
      ensures TabsKept(tabs, t0, p0, m, count', size', stop)
      ensures stop ==> cancelled
      ensures critical ==> createBackupFolder && !stop
      ensures !stop && !critical ==> TabsLoop(tabs, freeSpace, i + 1, t0, p0, m, tc0, e0, count', size')
    {
      ghost var tc, cs, es, x, e := tabsCopied, copies, errors, cancelled, fs.entries;
      stop, critical, count', size' := CopyTab(tabs, freeSpace, i, count, size, t0, p0, m);
      if stop || critical {
        return;
      }
      TabsSoFarStep(tabs, freeSpace, i, t0, m, tc0, e0, tc, cs, es, x, e, tabsCopied, copies, errors, cancelled,
                    fs.entries);
    }

    /**
     * The multi-tab run's invariant since the mark `m` (with the tree `t0`
     * and `p0` progress reports): what `Carried` and `ChangedWithinTabs`
     * allow, every new copy and error from some tab, the counters as the
     * new copies and their bytes less those discarded, and the run-level
     * reads all clear except, when `stop`, the last.
     */
    ghost predicate TabsKept(tabs: seq<Tab>, t0: Tree, p0: nat, m: Mark, count: nat, size: nat, stop: bool)
      reads this`copies, this`progress, this`errors, this`dropped, this`bytes, this`droppedBytes, this`runReads,
            this`totalSize, fs`entries
    {
      && m.copies <= |copies| && p0 <= |progress| && m.errors <= |errors| && m.dropped <= dropped
      && m.bytes <= bytes && m.droppedBytes <= droppedBytes
      && Carried(t0, fs.entries, copies[m.copies..], |progress| - p0, totalSize, !keepHistory)
      && ChangedWithinTabs(t0, fs.entries, tabs)
      && (forall j :: m.copies <= j < |copies| ==> FromSomeTab(tabs, copies[j]))
      && (forall j :: m.errors <= j < |errors| ==> SourceOfSomeTab(tabs, errors[j]))
      && count + (dropped - m.dropped) == m.count + |copies| - m.copies
      && size + (droppedBytes - m.droppedBytes) == m.size + (bytes - m.bytes)
      && StopsAt(runReads, m.runReads, stop)
    }

    /** One pass of the tab loop: read the flag, check the room, copy the tab. */
    method CopyTab(tabs: seq<Tab>, freeSpace: seq<Option<nat>>, i: nat, count: nat, size: nat,
                   ghost t0: Tree, ghost p0: nat, ghost m: Mark)
      returns (stop: bool, critical: bool, count': nat, size': nat)
      requires i < |tabs| == |freeSpace|
      requires TabsKept(tabs, t0, p0, m, count, size, false)
      modifies fs, this`copies, this`bytes, this`progress, this`cancelled, this`polls, this`errors, this`dropped,
               this`droppedBytes, this`runReads, this`tabsCopied, this`failedIn
      ensures old(copies) <= copies && old(progress) <= progress && old(errors) <= errors
      ensures old(runReads) <= runReads && (old(cancelled) ==> cancelled)
      ensures TabsKept(tabs, t0, p0, m, count', size', stop)
      ensures stop ==> cancelled
      ensures critical <==>
                !old(CancelSeen()) && HasRoom(freeSpace[i], tabs[i].size)
                && PrepFails(old(fs.entries), BackupTarget(tabs[i].destination))
      ensures critical ==> createBackupFolder && !stop
      ensures old(CancelSeen()) ==> stop
      ensures critical || old(CancelSeen()) || !HasRoom(freeSpace[i], tabs[i].size) ==> fs.entries == old(fs.entries)
      ensures !stop && !critical ==>
                tabsCopied == old(tabsCopied) + if HasRoom(freeSpace[i], tabs[i].size) then [i] else []
      ensures !stop && !critical && HasRoom(freeSpace[i], tabs[i].size) ==>
                TabHandled(tabs, i, t0, copies, m.copies, errors, m.errors, !cancelled)
    {
      count', size' := count, size;
      critical := false;
      stop := PollRun();
      StopsAtChain(old(runReads), runReads, m.runReads, stop);
      if stop || !HasRoom(freeSpace[i], tabs[i].size) {
        return;
      }
      tabsCopied := tabsCopied + [i];
      stop, critical, count', size' := CopyTabSources(tabs, i, count, size, t0, p0, m);
    }

    /** One tab's copying: its dated folder when enabled and missing, then its sources. */
    method CopyTabSources(tabs: seq<Tab>, i: nat, count: nat, size: nat, ghost t0: Tree, ghost p0: nat, ghost m: Mark)
      returns (stop: bool, critical: bool, count': nat, size': nat)
      requires i < |tabs|
      requires TabsKept(tabs, t0, p0, m, count, size, false)
      modifies fs, this`copies, this`bytes, this`progress, this`cancelled, this`polls, this`errors, this`dropped,
               this`droppedBytes, this`runReads, this`failedIn
      ensures old(copies) <= copies && old(progress) <= progress && old(errors) <= errors
      ensures old(runReads) <= runReads && (old(cancelled) ==> cancelled)
      ensures TabsKept(tabs, t0, p0, m, count', size', stop)
      ensures stop ==> cancelled
      ensures critical <==> PrepFails(old(fs.entries), BackupTarget(tabs[i].destination))
      ensures critical ==> !stop && fs.entries == old(fs.entries) && copies == old(copies) && errors == old(errors)
      ensures !stop && !critical ==> TabHandled(tabs, i, t0, copies, m.copies, errors, m.errors, !cancelled)
    {
      var tab := tabs[i];
      count', size' := count, size;
      stop, critical := false, false;
      ghost var t1, k1, p1, e1, rs := fs.entries, |copies|, |progress|, |errors|, runReads;
      var actual := BackupTarget(tab.destination);
      assert copies[k1..] == [];
      KeptNothing(t1, totalSize, actual, !keepHistory);
      var ok := PrepareTarget(actual, t1, k1, p1);
      if !ok {
        return false, true, count', size';
      }
      ghost var t2 := fs.entries;
      assert Grows(t1, t2) && ChangedWithin(t1, t2, actual);
      stop, count', size' := CopySources(tab.folders, tab.files, actual, count, size, t1, k1, p1);
      StopsAtChain(rs, runReads, m.runReads, stop);
      TabSourcesKept(tabs, i, t0, t1, p0, p1, m, k1, e1, actual, old(copies), old(errors));
      if !stop {
        TabLift(t0, t1, t2, fs.entries, tabs, i, actual, copies, m.copies, k1, errors, m.errors, e1, !cancelled);
      }
    }

    /**
     * The run's invariant after tab `i`'s sources were copied into `actual`,
     * from the copies `cs` and errors `es` before the tab.
     */
    lemma TabSourcesKept(tabs: seq<Tab>, i: nat, t0: Tree, t1: Tree, p0: nat, p1: nat, m: Mark, k1: nat, e1: nat,
                         actual: Path, cs: seq<CopyRecord>, es: seq<Path>)
      requires i < |tabs| && actual == BackupTarget(tabs[i].destination)
      requires |cs| == k1 && |es| == e1 && cs <= copies && es <= errors && p1 <= |progress|
      requires m.copies <= k1 && p0 <= p1 && m.errors <= e1
      requires Carried(t0, t1, cs[m.copies..], p1 - p0, totalSize, !keepHistory) && ChangedWithinTabs(t0, t1, tabs)
      requires forall j :: m.copies <= j < |cs| ==> FromSomeTab(tabs, cs[j])
      requires forall j :: m.errors <= j < |es| ==> SourceOfSomeTab(tabs, es[j])
      requires KeptSince(t1, k1, p1, actual)
      requires forall j :: k1 <= j < |copies| ==> FromSources(copies[j].src, tabs[i].folders, tabs[i].files)
      requires forall j :: e1 <= j < |errors| ==> errors[j] in tabs[i].folders || errors[j] in tabs[i].files
      ensures Carried(t0, fs.entries, copies[m.copies..], |progress| - p0, totalSize, !keepHistory)
      ensures ChangedWithinTabs(t0, fs.entries, tabs)
      ensures forall j :: m.copies <= j < |copies| ==> FromSomeTab(tabs, copies[j])
      ensures forall j :: m.errors <= j < |errors| ==> SourceOfSomeTab(tabs, errors[j])
    {
      assert copies[m.copies..k1] == cs[m.copies..];
      TabChain(t0, t1, fs.entries, copies, m.copies, k1, p0, p1, |progress|, totalSize, !keepHistory, tabs, i, actual);
      forall j | m.copies <= j < |copies|
        ensures FromSomeTab(tabs, copies[j])
      {
        if j < k1 {
          assert copies[j] == cs[j];
        }
      }
      forall j | m.errors <= j < |errors|
        ensures SourceOfSomeTab(tabs, errors[j])
      {
        if j < e1 {
          assert errors[j] == es[j];
        } else {
          assert errors[j] in tabs[i].folders || errors[j] in tabs[i].files;
        }
      }
    }

    /**
     * Tab `i` is handled since the marks `k` and `e`, seen from the run's
     * starting tree `t`: each of its standalone files that existed was copied
     * or named by an error status, and, when `whole`, so was each of its
     * folders that existed and lies apart from every tab's destination, with
     * all of that folder's files.
     */
    ghost predicate TabHandled(tabs: seq<Tab>, i: nat, t: Tree, cs: seq<CopyRecord>, k: nat, es: seq<Path>, e: nat,
                               whole: bool) {
      && i < |tabs|
      && FilesHandled(t, tabs[i].files, |tabs[i].files|, cs, k, es, e)
      && (whole ==>
            forall j :: 0 <= j < |tabs[i].folders| && Exists(t, tabs[i].folders[j])
                        && ApartFromTabs(tabs, tabs[i].folders[j]) ==>
              Handled(cs, k, es, e, tabs[i].folders[j], CopyOrder(t, tabs[i].folders[j])))
    }

    /** Every tab before `n` with room is handled. */
    ghost predicate TabsHandled(tabs: seq<Tab>, free: seq<Option<nat>>, n: nat, t: Tree, cs: seq<CopyRecord>, k: nat,
                                es: seq<Path>, e: nat, whole: bool) {
      forall j :: 0 <= j < n && j < |tabs| && j < |free| && HasRoom(free[j], tabs[j].size) ==>
        TabHandled(tabs, j, t, cs, k, es, e, whole)
    }

    /**
     * What `CopySources` promises for tab `i`, from the tree `t2` it started
     * in and the marks `k1`, `e1`, seen from the run's starting tree `t0`
     * and marks `k0`, `e0`.  `t1` is the tree before the dated folder.
     */
    lemma TabLift(t0: Tree, t1: Tree, t2: Tree, t3: Tree, tabs: seq<Tab>, i: nat, actual: Path,
                  cs: seq<CopyRecord>, k0: nat, k1: nat, es: seq<Path>, e0: nat, e1: nat, whole: bool)
      requires i < |tabs| && tabs[i].destination <= actual
      requires k0 <= k1 <= |cs| && e0 <= e1 <= |es|
      requires Grows(t0, t1) && Grows(t1, t2) && Grows(t0, t3) && ChangedWithinTabs(t0, t3, tabs)
      requires Grows(t1, t3) && ChangedWithin(t1, t2, actual) && ChangedWithin(t1, t3, actual)
      requires FilesHandled(t2, tabs[i].files, |tabs[i].files|, cs, k1, es, e1)
      requires whole ==> FoldersHandled(t2, tabs[i].folders, |tabs[i].folders|, actual, cs, k1, es, e1)
      ensures TabHandled(tabs, i, t0, cs, k0, es, e0, whole)
    {
      GrowsTransitive(t0, t1, t2);
      FilesHandledEarlier(t0, t2, tabs[i].files, cs, k1, es, e1);
      FilesHandledEarlierMark(t0, tabs[i].files, cs, k0, k1, es, e0, e1);
      if whole {
        var folders := tabs[i].folders;
        forall j | 0 <= j < |folders| && Exists(t0, folders[j]) && ApartFromTabs(tabs, folders[j])
          ensures Handled(cs, k0, es, e0, folders[j], CopyOrder(t0, folders[j]))
        {
          var f := folders[j];
          ApartNarrow(tabs[i].destination, actual, f);
          ApartFromTabsUnchanged(t0, t3, tabs, f);
          ApartUnchangedBetween(t1, t2, t3, actual, f);
          CopyOrderSame(t0, t3, f);
          CopyOrderSame(t2, t3, f);
          HandledEarlierMark(cs, k0, k1, es, e0, e1, f, CopyOrder(t0, f));
        }
      }
    }

    /** Later copies and errors, and a `whole` that can only turn false, keep the tabs handled. */
    lemma TabsHandledStep(tabs: seq<Tab>, free: seq<Option<nat>>, i: nat, t: Tree, cs: seq<CopyRecord>,
                          cs': seq<CopyRecord>, k: nat, es: seq<Path>, es': seq<Path>, e: nat, whole: bool, whole': bool)
      requires i < |tabs| == |free| && cs <= cs' && es <= es' && (whole' ==> whole)
      requires TabsHandled(tabs, free, i, t, cs, k, es, e, whole)
      requires HasRoom(free[i], tabs[i].size) ==> TabHandled(tabs, i, t, cs', k, es', e, whole')
      ensures TabsHandled(tabs, free, i + 1, t, cs', k, es', e, whole')
    {
      forall j | 0 <= j < i && HasRoom(free[j], tabs[j].size)
        ensures TabHandled(tabs, j, t, cs', k, es', e, whole')
      {
        FilesHandledGrow(t, tabs[j].files, |tabs[j].files|, cs, cs', k, es, es', e);
        if whole' {
          var folders := tabs[j].folders;
          forall l | 0 <= l < |folders| && Exists(t, folders[l]) && ApartFromTabs(tabs, folders[l])
            ensures Handled(cs', k, es', e, folders[l], CopyOrder(t, folders[l]))
          {
            HandledGrow(cs, cs', k, es, es', e, folders[l], CopyOrder(t, folders[l]));
          }
        }
      }
    }

    /** `MultiTabBackupWorker.run`: as `Run`, over the tabs. */
    method RunMultiTab(tabs: seq<Tab>, freeSpace: seq<Option<nat>>) returns (outcome: Outcome)
      requires |freeSpace| == |tabs|
      modifies fs, this`copies, this`bytes, this`progress, this`cancelled, this`polls, this`errors, this`dropped,
               this`droppedBytes, this`runReads, this`tabsCopied, this`totalSize, this`failedIn
      ensures old(totalSize) > 0 ==> totalSize == old(totalSize)
      ensures old(totalSize) == 0 ==> totalSize <= TotalSize(old(fs.entries), tabs)
      ensures old(totalSize) == 0 && !cancelled ==> totalSize == TotalSize(old(fs.entries), tabs)
      ensures outcome == NothingToCopy <==> totalSize == 0
      ensures outcome == NothingToCopy ==> fs.entries == old(fs.entries) && copies == old(copies) && progress == old(progress)
      ensures outcome == Cancelled ==> cancelled
      ensures old(runReads) <= runReads && StoppedBy(|old(runReads)|, outcome == Cancelled)
      ensures outcome.Success? ==> outcome.copied + (dropped - old(dropped)) == |copies| - |old(copies)|
      ensures outcome.Success? ==> tabsCopied == old(tabsCopied) + TabsWithRoom(tabs, freeSpace)
      ensures old(copies) <= copies && old(progress) <= progress && old(errors) <= errors
      ensures Carried(old(fs.entries), fs.entries, copies[|old(copies)|..], |progress| - |old(progress)|,
                      totalSize, !keepHistory)
      ensures ChangedWithinTabs(old(fs.entries), fs.entries, tabs)
      ensures forall j :: |old(copies)| <= j < |copies| ==> FromSomeTab(tabs, copies[j])
      ensures forall j :: |old(errors)| <= j < |errors| ==> SourceOfSomeTab(tabs, errors[j])
      ensures outcome.Success? ==>
                TabsHandled(tabs, freeSpace, |tabs|, old(fs.entries), copies, |old(copies)|, errors, |old(errors)|,
                            !cancelled)
      ensures (totalSize > 0 && FirstWithRoom(tabs, freeSpace) < |tabs| && !cancelled
               && PrepFails(old(fs.entries), BackupTarget(tabs[FirstWithRoom(tabs, freeSpace)].destination)))
              ==> outcome == CriticalError
    {
      if totalSize == 0 {
        totalSize := TabsBytes(tabs);
      }
      if totalSize == 0 {
        assert copies[|copies|..] == [];
        return NothingToCopy;
      }
      outcome := PerformMultiTabBackup(tabs, freeSpace);
    }

    // -------------------------------------------------------------------
    // The size pre-computation

    /**
     * One folder of `calculate_total_backup_size`: a directory is walked
     * unless the flag is already set, the flag is read before each walked
     * file, and a set flag ends the whole computation (`stopped`).
     */
    method FolderBytes(folder: Path) returns (n: nat, stopped: bool)
      modifies this`cancelled, this`polls
      ensures n <= FolderSize(fs.entries, folder)
      ensures !cancelled ==> n == FolderSize(fs.entries, folder) && !stopped
      ensures (old(cancelled) ==> cancelled) && (stopped ==> cancelled)
    {
      n, stopped := 0, false;
      if !IsDir(fs.entries, folder) {
        return;
      }
      var c := PollCancelled();
      if c {
        return;
      }
      var files := Walk(fs.entries, folder);
      var i := 0;
      while i < |files|
        invariant 0 <= i <= |files| && !cancelled
        invariant n == SizeOf(fs.entries, files[..i])
      {
        SizeOfPrefix(fs.entries, files, i);
        c := PollCancelled();
        if c {
          return n, true;
        }
        if Exists(fs.entries, files[i]) {
          n := n + fs.entries[files[i]].size;
        }
        i := i + 1;
      }
      assert files[..i] == files;
    }

    /**
     * `calculate_total_backup_size` for one selection (the whole of it in
     * `BackupWorker`, one tab's part in `MultiTabBackupWorker`): the folders,
     * then each standalone path that is a regular file, read only while the
     * flag is clear.  Without cancellation the result is the selection's size.
     */
    method SourcesBytes(folders: seq<Path>, files: seq<Path>) returns (n: nat, stopped: bool)
      modifies this`cancelled, this`polls
      ensures n <= SourcesSize(fs.entries, folders, files)
      ensures !cancelled ==> n == SourcesSize(fs.entries, folders, files) && !stopped
      ensures (old(cancelled) ==> cancelled) && (stopped ==> cancelled)
    {
      n, stopped := 0, false;
      var i := 0;
      while i < |folders|
        invariant 0 <= i <= |folders| && (old(cancelled) ==> cancelled)
        invariant n <= FoldersSize(fs.entries, folders[..i])
        invariant !cancelled ==> n == FoldersSize(fs.entries, folders[..i])
      {
        FoldersSizePrefix(fs.entries, folders, i);
        var m;
        m, stopped := FolderBytes(folders[i]);
        n := n + m;
        if stopped {
          return;
        }
        i := i + 1;
      }
      assert folders[..i] == folders;
      i := 0;
      while i < |files|
        invariant 0 <= i <= |files| && (old(cancelled) ==> cancelled)
        invariant n <= FoldersSize(fs.entries, folders) + SizeOf(fs.entries, files[..i])
        invariant !cancelled ==> n == FoldersSize(fs.entries, folders) + SizeOf(fs.entries, files[..i])
      {
        SizeOfPrefix(fs.entries, files, i);
        var c := PollCancelled();
        if !c && IsFile(fs.entries, files[i]) {
          n := n + fs.entries[files[i]].size;
        }
        i := i + 1;
      }
      assert files[..i] == files;
    }

    /** `calculate_total_backup_size` of `MultiTabBackupWorker`: the tabs' selections in order. */
    method TabsBytes(tabs: seq<Tab>) returns (n: nat)
      modifies this`cancelled, this`polls
      ensures n <= TotalSize(fs.entries, tabs)
      ensures !cancelled ==> n == TotalSize(fs.entries, tabs)
      ensures old(cancelled) ==> cancelled
    {
      n := 0;
      var i := 0;
      while i < |tabs|
        invariant 0 <= i <= |tabs| && (old(cancelled) ==> cancelled)
        invariant n <= TotalSize(fs.entries, tabs[..i])
        invariant !cancelled ==> n == TotalSize(fs.entries, tabs[..i])
      {
        TotalSizePrefix(fs.entries, tabs, i);
        var m, stopped := SourcesBytes(tabs[i].folders, tabs[i].files);
        n := n + m;
        if stopped {
          return;
        }
        i := i + 1;
      }
      assert tabs[..i] == tabs;
    }
  }

  lemma CardinalitySubset<T>(a: set<T>, b: set<T>)
    requires a <= b
    ensures |a| <= |b|
    decreases |a|
  {
    if a != {} {
      var x :| x in a;
      CardinalitySubset(a - {x}, b - {x});
    }
  }
}
