/**
 * The part of the file system the backup engine touches: a finite map from
 * paths to entries, the `os.walk` traversal of a snapshot of it, and the
 * three calls that change it (`os.makedirs(..., exist_ok=True)`,
 * `shutil.copy2`) or read a directory (`os.listdir`).
 */
module FileSystems {
  import opened Paths

  /** A file with its size in bytes, or a directory with its `os.listdir` order. */
  datatype Entry = File(size: nat) | Dir(names: seq<string>)

  type Tree = map<Path, Entry>

  /**
   * Listing a directory this many components deep fails: the stand-in for
   * the recursion and path-length limits that stop a copy whose destination
   * lies inside its own source.
   */
  const MaxDepth: nat := 1000

  predicate IsDir(t: Tree, p: Path) {
    p in t && t[p].Dir?
  }

  predicate IsFile(t: Tree, p: Path) {
    p in t && t[p].File?
  }

  /** A directory that may hold a new entry: the implicit root or an existing directory. */
  predicate HasParentDir(t: Tree, p: Path) {
    |p| >= 1 && (|p| == 1 || IsDir(t, Parent(p)))
  }

  /** Nothing is removed and nothing changes between file and directory. */
  ghost predicate Grows(t: Tree, u: Tree) {
    forall p :: p in t ==> p in u && (t[p].Dir? <==> u[p].Dir?)
  }

  /** `Grows`, and no file that existed was written. */
  ghost predicate Preserved(t: Tree, u: Tree) {
    Grows(t, u) && forall p :: p in t && t[p].File? ==> u[p] == t[p]
  }

  lemma GrowsTransitive(t: Tree, u: Tree, v: Tree)
    requires Grows(t, u) && Grows(u, v)
    ensures Grows(t, v)
  {
  }

  lemma PreservedTransitive(t: Tree, u: Tree, v: Tree)
    requires Preserved(t, u) && Preserved(u, v)
    ensures Preserved(t, v)
  {
  }

  /** Every entry created or changed between `t` and `u` is a non-empty path at or above `p`. */
  ghost predicate Touched(t: Tree, u: Tree, p: Path) {
    forall q :: q in u && (q !in t || u[q] != t[q]) ==> |q| >= 1 && q <= p
  }

  // ---------------------------------------------------------------------
  // os.walk over a snapshot

  /** The non-directory names of one listing, as paths: the `files` of one `os.walk` step. */
  function FilesOf(t: Tree, d: Path, names: seq<string>): (r: seq<Path>)
    ensures forall q :: q in r ==> |q| == |d| + 1 && q[..|d|] == d && !IsDir(t, q)
  {
    if names == [] then []
    else (if IsDir(t, d + [names[0]]) then [] else [d + [names[0]]]) + FilesOf(t, d, names[1..])
  }

  /** The directory names of one listing: the `dirs` of one `os.walk` step. */
  function SubdirsOf(t: Tree, d: Path, names: seq<string>): (r: seq<string>)
    ensures forall n :: n in r ==> IsDir(t, d + [n])
  {
    if names == [] then []
    else (if IsDir(t, d + [names[0]]) then [names[0]] else []) + SubdirsOf(t, d, names[1..])
  }

  /**
   * Every file path `os.walk(d)` yields, top-down: the files of `d` in
   * listing order, then the walk of each subdirectory in listing order.  A
   * `d` that is not a directory, or cannot be listed, yields nothing.
   */
  function Walk(t: Tree, d: Path): (r: seq<Path>)
    ensures forall q :: q in r ==> |q| > |d| && q[..|d|] == d && !IsDir(t, q)
    decreases MaxDepth - |d|, 1
  {
    if !IsDir(t, d) || |d| >= MaxDepth then []
    else FilesOf(t, d, t[d].names) + WalkEach(t, d, SubdirsOf(t, d, t[d].names))
  }

  function WalkEach(t: Tree, d: Path, subs: seq<string>): (r: seq<Path>)
    requires |d| < MaxDepth
    ensures forall q :: q in r ==> |q| > |d| + 1 && q[..|d|] == d && !IsDir(t, q)
    decreases MaxDepth - |d|, 0, |subs|
  {
    if subs == [] then []
    else
      var w := Walk(t, d + [subs[0]]);
      assert forall q :: q in w ==> q[..|d|] == d by {
        forall q | q in w ensures q[..|d|] == d {
          assert q[..|d| + 1][..|d|] == q[..|d|];
        }
      }
      w + WalkEach(t, d, subs[1..])
  }

  /** `q` lies below `d` and every directory on the way lists the next component. */
  ghost predicate Reachable(t: Tree, d: Path, q: Path) {
    |d| < |q| <= MaxDepth && q[..|d|] == d
    && forall k :: |d| <= k < |q| ==> IsDir(t, q[..k]) && q[k] in t[q[..k]].names
  }

  lemma {:induction false} FilesOfContains(t: Tree, d: Path, names: seq<string>, n: string)
    requires n in names && !IsDir(t, d + [n])
    ensures d + [n] in FilesOf(t, d, names)
  {
    if names[0] != n {
      FilesOfContains(t, d, names[1..], n);
    }
  }

  lemma {:induction false} SubdirsOfContains(t: Tree, d: Path, names: seq<string>, n: string)
    requires n in names && IsDir(t, d + [n])
    ensures n in SubdirsOf(t, d, names)
  {
    if names[0] != n {
      SubdirsOfContains(t, d, names[1..], n);
    }
  }

  lemma {:induction false} WalkEachContains(t: Tree, d: Path, subs: seq<string>, s: string, q: Path)
    requires |d| < MaxDepth && s in subs && q in Walk(t, d + [s])
    ensures q in WalkEach(t, d, subs)
    decreases |subs|
  {
    if subs[0] != s {
      WalkEachContains(t, d, subs[1..], s, q);
    }
  }

  /** The walk is complete: every non-directory reachable through listings is yielded. */
  lemma {:induction false} WalkComplete(t: Tree, d: Path, q: Path)
    requires Reachable(t, d, q) && !IsDir(t, q)
    ensures q in Walk(t, d)
    decreases |q| - |d|
  {
    assert q[..|d|] == d;
    var n := q[|d|];
    assert IsDir(t, d) && n in t[d].names;
    if |q| == |d| + 1 {
      assert q == d + [n];
      FilesOfContains(t, d, t[d].names, n);
    } else {
      var d' := d + [n];
      assert q[..|d| + 1] == d';
      assert IsDir(t, d') by {
        assert IsDir(t, q[..|d| + 1]);
      }
      SubdirsOfContains(t, d, t[d].names, n);
      assert Reachable(t, d', q);
      WalkComplete(t, d', q);
      WalkEachContains(t, d, SubdirsOf(t, d, t[d].names), n, q);
    }
  }

  /** Nothing at or below `s` differs between `t` and `u`. */
  ghost predicate SameBelow(t: Tree, u: Tree, s: Path) {
    forall q :: s <= q ==> (q in t <==> q in u) && (q in t ==> t[q] == u[q])
  }

  lemma SameBelowDescend(t: Tree, u: Tree, d: Path, n: string)
    requires SameBelow(t, u, d)
    ensures SameBelow(t, u, d + [n])
  {
    forall q | d + [n] <= q
      ensures (q in t <==> q in u) && (q in t ==> t[q] == u[q])
    {
      assert q[..|d|] == q[..|d| + 1][..|d|];
      assert d <= q;
    }
  }

  lemma {:induction false} FilesOfSame(t: Tree, u: Tree, d: Path, names: seq<string>)
    requires SameBelow(t, u, d)
    ensures FilesOf(t, d, names) == FilesOf(u, d, names)
  {
    if names != [] {
      SameBelowDescend(t, u, d, names[0]);
      assert d + [names[0]] <= d + [names[0]];
      FilesOfSame(t, u, d, names[1..]);
    }
  }

  lemma {:induction false} SubdirsOfSame(t: Tree, u: Tree, d: Path, names: seq<string>)
    requires SameBelow(t, u, d)
    ensures SubdirsOf(t, d, names) == SubdirsOf(u, d, names)
  {
    if names != [] {
      SameBelowDescend(t, u, d, names[0]);
      assert d + [names[0]] <= d + [names[0]];
      SubdirsOfSame(t, u, d, names[1..]);
    }
  }

  /** The walk of `d` reads only the entries at or below `d`. */
  lemma {:induction false} WalkSame(t: Tree, u: Tree, d: Path)
    requires SameBelow(t, u, d)
    ensures Walk(t, d) == Walk(u, d)
    decreases MaxDepth - |d|, 1
  {
    assert d <= d;
    if IsDir(t, d) && |d| < MaxDepth {
      var names := t[d].names;
      FilesOfSame(t, u, d, names);
      SubdirsOfSame(t, u, d, names);
      WalkEachSame(t, u, d, SubdirsOf(t, d, names));
    }
  }

  lemma {:induction false} WalkEachSame(t: Tree, u: Tree, d: Path, subs: seq<string>)
    requires |d| < MaxDepth && SameBelow(t, u, d)
    ensures WalkEach(t, d, subs) == WalkEach(u, d, subs)
    decreases MaxDepth - |d|, 0, |subs|
  {
    if subs != [] {
      SameBelowDescend(t, u, d, subs[0]);
      WalkSame(t, u, d + [subs[0]]);
      WalkEachSame(t, u, d, subs[1..]);
    }
  }

  /** The bytes counted for a list of walked paths: the size of each that exists as a file. */
  function SizeOf(t: Tree, files: seq<Path>): nat {
    if files == [] then 0
    else (if IsFile(t, files[0]) then t[files[0]].size else 0) + SizeOf(t, files[1..])
  }

  lemma {:induction false} SizeOfAppend(t: Tree, a: seq<Path>, b: seq<Path>)
    ensures SizeOf(t, a + b) == SizeOf(t, a) + SizeOf(t, b)
  {
    if a == [] {
      assert a + b == b;
    } else {
      assert (a + b)[0] == a[0];
      assert (a + b)[1..] == a[1..] + b;
      SizeOfAppend(t, a[1..], b);
    }
  }

  // ---------------------------------------------------------------------
  // The calls that change the tree

  /** The tree after `shutil.copy2` writes `size` bytes at `p`; a new name joins its directory's listing. */
  function WriteFile(t: Tree, p: Path, size: nat): (u: Tree)
    requires HasParentDir(t, p) && !IsDir(t, p)
    ensures IsFile(u, p) && u[p].size == size
    ensures u.Keys == t.Keys + {p}
    ensures Grows(t, u)
    ensures forall q :: q in t && q != p && q != Parent(p) ==> u[q] == t[q]
  {
    var u := t[p := File(size)];
    if p in t || |p| == 1 then u
    else u[Parent(p) := Dir(t[Parent(p)].names + [Basename(p)])]
  }

  /** A new directory at `p`, listed in its parent. */
  function AddDir(t: Tree, p: Path): (u: Tree)
    requires HasParentDir(t, p) && p !in t
    ensures IsDir(u, p) && u.Keys == t.Keys + {p}
    ensures Preserved(t, u)
    ensures forall q :: q in t && q != Parent(p) ==> u[q] == t[q]
  {
    var u := t[p := Dir([])];
    if |p| == 1 then u else u[Parent(p) := Dir(t[Parent(p)].names + [Basename(p)])]
  }

  /** Where `shutil.copy2(src, dst)` writes: inside a directory `dst` under the source's name, else at `dst`. */
  function CopyTarget(t: Tree, src: Path, dst: Path): Path
    requires |src| >= 1
  {
    if IsDir(t, dst) then dst + [Basename(src)] else dst
  }

  /**
   * What `os.makedirs(p, exist_ok=True)` needs to succeed: the path is not
   * empty, none of its prefixes is a file, and no missing prefix is one whose
   * creation raises.
   */
  predicate CanMakeDirs(t: Tree, failing: set<Path>, p: Path) {
    |p| >= 1 && forall k :: 1 <= k <= |p| ==> !IsFile(t, p[..k]) && (p[..k] in t || p[..k] !in failing)
  }

  /** What `shutil.copy2(src, target)` needs to succeed. */
  predicate CanCopy(t: Tree, failing: set<Path>, src: Path, target: Path) {
    IsFile(t, src) && src !in failing && src != target
    && HasParentDir(t, target) && !IsDir(t, target)
  }

  /**
   * The mutable file system.  `failing` is an oracle for the failures the
   * map does not show (permissions, read-only media, a full disk, I/O
   * errors): copying from a path in it raises, listing it raises, and
   * creating it as a directory raises.
   */
  class FileSystem {
    var entries: Tree
    const failing: set<Path>

    constructor (entries: Tree, failing: set<Path>)
      ensures this.entries == entries && this.failing == failing
    {
      this.entries := entries;
      this.failing := failing;
    }

    /**
     * `os.makedirs(p, exist_ok=True)`: fails, changing nothing, when the path
     * is empty, it or one of its ancestors is a file, or a missing one cannot
     * be created; otherwise creates the missing directories top-down.
     */
    method MakeDirs(p: Path) returns (ok: bool)
      modifies this
      ensures ok <==> CanMakeDirs(old(entries), failing, p)
      ensures ok ==> forall k :: 1 <= k <= |p| ==> IsDir(entries, p[..k])
      ensures ok ==> IsDir(entries, p)
      ensures !ok ==> entries == old(entries)
      ensures Preserved(old(entries), entries) && Touched(old(entries), entries, p)
      ensures forall q :: q in entries && q !in old(entries) ==> entries[q].Dir?
    {
      ok := MakeDirsAllowed(p);
      if ok {
        CreateMissingDirs(p);
      }
    }

    /** The checks of `os.makedirs`, top-down along `p`, before anything is created. */
    method MakeDirsAllowed(p: Path) returns (ok: bool)
      ensures ok <==> CanMakeDirs(entries, failing, p)
    {
      ok := |p| >= 1;
      var k := 1;
      while k <= |p| && ok
        invariant 1 <= k <= |p| + 1
        invariant ok <==> |p| >= 1 && forall i :: 1 <= i < k ==>
                            !IsFile(entries, p[..i]) && (p[..i] in entries || p[..i] !in failing)
      {
        if IsFile(entries, p[..k]) || (p[..k] !in entries && p[..k] in failing) {
          ok := false;
        }
        k := k + 1;
      }
    }

    /** The creating half of `os.makedirs`: each missing directory along `p`, top-down. */
    method CreateMissingDirs(p: Path)
      requires CanMakeDirs(entries, failing, p)
      modifies this
      ensures forall k :: 1 <= k <= |p| ==> IsDir(entries, p[..k])
      ensures IsDir(entries, p)
      ensures Preserved(old(entries), entries) && Touched(old(entries), entries, p)
      ensures forall q :: q in entries && q !in old(entries) ==> entries[q].Dir?
    {
      var k := 1;
      while k <= |p|
        invariant 1 <= k <= |p| + 1
        invariant CreatedUpTo(old(entries), entries, p, k)
      {
        var prefix := p[..k];
        if prefix !in entries {
          CreatedStep(old(entries), entries, p, k);
          entries := AddDir(entries, prefix);
        }
        k := k + 1;
      }
      assert p[..|p|] == p;
    }

    /**
     * `t` grew into `u` by creating only directories along `p`, and the first
     * `k - 1` of them are there.
     */
    ghost predicate CreatedUpTo(t: Tree, u: Tree, p: Path, k: nat) {
      && (forall i :: 1 <= i < k && i <= |p| ==> IsDir(u, p[..i]))
      && (forall i :: 1 <= i <= |p| ==> !IsFile(u, p[..i]))
      && Preserved(t, u) && Touched(t, u, p)
      && (forall q :: q in u && q !in t ==> u[q].Dir?)
    }

    /** Adding the missing `k`-th directory along `p` extends the created prefix. */
    lemma CreatedStep(t: Tree, u: Tree, p: Path, k: nat)
      requires 1 <= k <= |p| && CreatedUpTo(t, u, p, k) && p[..k] !in u
      requires k == 1 || IsDir(u, p[..k - 1])
      ensures HasParentDir(u, p[..k]) && CreatedUpTo(t, AddDir(u, p[..k]), p, k + 1)
    {
      assert k >= 2 ==> Parent(p[..k]) == p[..k - 1];
      PreservedTransitive(t, u, AddDir(u, p[..k]));
    }

    /** `os.listdir(p)`: fails on a non-directory, beyond the depth limit and on an unreadable directory. */
    method ListDir(p: Path) returns (ok: bool, names: seq<string>)
      ensures ok <==> IsDir(entries, p) && |p| < MaxDepth && p !in failing
      ensures ok ==> names == entries[p].names
    {
      ok := IsDir(entries, p) && |p| < MaxDepth && p !in failing;
      names := if ok then entries[p].names else [];
    }

    /**
     * `shutil.copy2(src, dst)`: a directory `dst` receives the file under the
     * source's name.  The copy fails, changing nothing, unless the source is a
     * file not in `failing`, the target is not the source, is not a directory
     * and sits in an existing directory.  It writes `target` with the source's
     * size and touches nothing else.
     */
    method Copy2(src: Path, dst: Path) returns (ok: bool, target: Path)
      requires |src| >= 1
      modifies this
      ensures target == CopyTarget(old(entries), src, dst)
      ensures ok <==> CanCopy(old(entries), failing, src, target)
      ensures ok ==> entries == WriteFile(old(entries), target, old(entries)[src].size)
      ensures !ok ==> entries == old(entries)
    {
      target := CopyTarget(entries, src, dst);
      ok := CanCopy(entries, failing, src, target);
      if ok {
        entries := WriteFile(entries, target, entries[src].size);
      }
    }
  }
}
