/**
 * Paths as sequences of components, joined and split the way `os.path`
 * does, and the names the engine derives from an existing path: the
 * `os.path.splitext` split, the `_(N)` counter suffix and the timestamp
 * suffix.
 */
module Paths {

  /**
   * A path as its components: `os.path.join(d, n)` is `d + [n]`.  The empty
   * sequence stands for the empty string of an unset setting.
   */
  type Path = seq<string>

  /** `os.path.dirname`. */
  function Parent(p: Path): Path
    requires |p| >= 1
  {
    p[..|p| - 1]
  }

  /** `os.path.basename`. */
  function Basename(p: Path): string
    requires |p| >= 1
  {
    p[|p| - 1]
  }

  /** The index of the last '.' in `s`, or -1 when there is none. */
  function LastDot(s: string): (i: int)
    ensures -1 <= i < |s|
    ensures i >= 0 ==> s[i] == '.'
    ensures forall j :: i < j < |s| ==> s[j] != '.'
  {
    if |s| == 0 then -1
    else if s[|s| - 1] == '.' then |s| - 1
    else LastDot(s[..|s| - 1])
  }

  predicate NonDotBefore(s: string, i: int)
    requires i <= |s|
  {
    exists j :: 0 <= j < i && s[j] != '.'
  }

  /**
   * `os.path.splitext` on a final component: the extension starts at the
   * last dot, but only when some character other than a dot precedes it, so
   * `.bashrc` and `..` have no extension.
   */
  function SplitExt(name: string): (r: (string, string))
    ensures r.0 + r.1 == name
    ensures r.1 == "" || (r.1[0] == '.' && forall k :: 1 <= k < |r.1| ==> r.1[k] != '.')
  {
    var i := LastDot(name);
    if i > 0 && NonDotBefore(name, i) then (name[..i], name[i..]) else (name, "")
  }

  /** A name has an extension exactly when it holds a dot with a non-dot somewhere before it. */
  lemma SplitExtHasExtension(name: string)
    ensures SplitExt(name).1 != "" <==>
            exists i, j :: 0 <= j < i < |name| && name[j] != '.' && name[i] == '.'
  {
    var i := LastDot(name);
    if exists i', j :: 0 <= j < i' < |name| && name[j] != '.' && name[i'] == '.' {
      var i', j :| 0 <= j < i' < |name| && name[j] != '.' && name[i'] == '.';
      assert i' <= i;
      assert NonDotBefore(name, i);
    }
  }

  /** The decimal digits of `n`, as `str(n)` writes them. */
  function NatToString(n: nat): (s: string)
    ensures |s| >= 1
    ensures forall k :: 0 <= k < |s| ==> '0' <= s[k] <= '9'
  {
    if n < 10 then [('0' as int + n) as char]
    else NatToString(n / 10) + [('0' as int + n % 10) as char]
  }

  /** The value of a string of decimal digits: the reference that `NatToString` inverts. */
  function DecimalValue(s: string): nat
    requires forall k :: 0 <= k < |s| ==> '0' <= s[k] <= '9'
  {
    if |s| == 0 then 0
    else 10 * DecimalValue(s[..|s| - 1]) + (s[|s| - 1] as int - '0' as int)
  }

  lemma {:induction false} DecimalRoundTrip(n: nat)
    ensures DecimalValue(NatToString(n)) == n
  {
    var s := NatToString(n);
    if n >= 10 {
      DecimalRoundTrip(n / 10);
      assert s[..|s| - 1] == NatToString(n / 10);
    }
  }

  /** `f"{name}_({n}){ext}"` applied to the final component. */
  function NumberedName(name: string, n: nat): string {
    var (stem, ext) := SplitExt(name);
    stem + "_(" + NatToString(n) + ")" + ext
  }

  /** The `n`-th candidate `get_safe_destination_path` tries for `p`. */
  function NumberedPath(p: Path, n: nat): (r: Path)
    requires |p| >= 1
    ensures |r| == |p| && Parent(r) == Parent(p)
  {
    Parent(p) + [NumberedName(Basename(p), n)]
  }

  /** `f"{name}_{timestamp}{ext}"` applied to the final component. */
  function TimestampedName(name: string, stamp: string): string {
    var (stem, ext) := SplitExt(name);
    stem + "_" + stamp + ext
  }

  function TimestampedPath(p: Path, stamp: string): (r: Path)
    requires |p| >= 1
    ensures |r| == |p| && Parent(r) == Parent(p)
  {
    Parent(p) + [TimestampedName(Basename(p), stamp)]
  }

  lemma MiddleSlice(u: string, x: string, v: string)
    ensures (u + x + v)[|u|..|u| + |x|] == x
  {
    assert (u + x + v)[|u|..|u| + |x|] == (u + x)[|u|..];
  }

  /** Different counters give different candidates, so the probing loop never repeats a name. */
  lemma NumberedNameInjective(name: string, a: nat, b: nat)
    requires NumberedName(name, a) == NumberedName(name, b)
    ensures a == b
  {
    var (stem, ext) := SplitExt(name);
    var x, y := NatToString(a), NatToString(b);
    var u := stem + "_(";
    assert NumberedName(name, a) == u + x + (")" + ext);
    assert NumberedName(name, b) == u + y + (")" + ext);
    assert |x| == |y|;
    MiddleSlice(u, x, ")" + ext);
    MiddleSlice(u, y, ")" + ext);
    DecimalRoundTrip(a);
    DecimalRoundTrip(b);
  }

  /** No candidate is the path it was derived from. */
  lemma NumberedNameDiffers(name: string, n: nat)
    ensures NumberedName(name, n) != name
  {
    var (stem, ext) := SplitExt(name);
    assert |NumberedName(name, n)| == |stem| + |ext| + 3 + |NatToString(n)|;
  }

  /** The candidates for `p` differ from `p` and from one another. */
  lemma NumberedPathsDistinct(p: Path, m: nat, n: nat)
    requires |p| >= 1
    ensures NumberedPath(p, n) != p
    ensures NumberedPath(p, m) == NumberedPath(p, n) ==> m == n
  {
    NumberedNameDiffers(Basename(p), n);
    if NumberedPath(p, m) == NumberedPath(p, n) {
      assert Basename(NumberedPath(p, m)) == Basename(NumberedPath(p, n));
      NumberedNameInjective(Basename(p), m, n);
    }
  }

  /**
   * The counter lands in front of the extension: splitting a candidate gives
   * back the original extension.
   */
  lemma NumberedNameKeepsExtension(name: string, n: nat)
    ensures SplitExt(NumberedName(name, n)).1 == SplitExt(name).1
  {
    var (stem, ext) := SplitExt(name);
    var mid := "_(" + NatToString(n) + ")";
    var s := NumberedName(name, n);
    assert s == stem + mid + ext;
    var i := LastDot(s);
    if ext != "" {
      var d := |stem| + |mid|;
      assert s[d] == '.';
      assert i == d;
      assert s[|stem|] == '_';
      assert NonDotBefore(s, i);
      assert s[i..] == ext;
    } else {
      assert s == stem + mid;
      if i > 0 && NonDotBefore(s, i) {
        // the dot would lie in the stem, and a non-dot before it would give the name an extension
        assert i < |stem|;
        SplitExtHasExtension(name);
        assert false;
      }
    }
  }
}
