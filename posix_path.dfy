/**
 * POSIX `os.path.splitext`: a path splits into a root and an extension at the
 * last `.` of its final `/`-separated component, except that dots which have
 * only dots before them in that component (as in `.bashrc`) never start an
 * extension. `HasExtension` states the same rule without positions, and
 * `SplitextUnique` shows that the two agree.
 */
module PosixPath {

  datatype PathSplit = PathSplit(root: string, ext: string)

  /** Python's `str.rfind`: the last index of `c` in `s`, or -1. */
  function RFind(s: string, c: char): (r: int)
    ensures -1 <= r < |s|
    ensures r >= 0 ==> s[r] == c
    ensures forall k :: r < k < |s| ==> s[k] != c
  {
    if s == [] then -1
    else if s[|s| - 1] == c then |s| - 1
    else RFind(s[..|s| - 1], c)
  }

  /** An extension is empty, or one leading dot followed by neither dot nor slash. */
  predicate WellFormedExt(ext: string) {
    (ext != [] ==> ext[0] == '.') &&
    (forall k :: 0 < k < |ext| ==> ext[k] != '.') &&
    (forall k :: 0 <= k < |ext| ==> ext[k] != '/')
  }

  /** `os.path.splitext` on POSIX. */
  function Splitext(p: string): (s: PathSplit)
    ensures s.root + s.ext == p
    ensures WellFormedExt(s.ext)
  {
    var sep := RFind(p, '/');
    var dot := RFind(p, '.');
    if dot > sep && exists m :: sep < m < dot && p[m] != '.' then
      PathSplit(p[..dot], p[dot..])
    else
      PathSplit(p, "")
  }

  predicate NoSlashFrom(p: string, j: nat) {
    forall m :: j <= m < |p| ==> p[m] != '/'
  }

  /**
   * The final component of `p` holds a character other than `.` that is
   * followed, later in that component, by a `.`.
   */
  ghost predicate HasExtension(p: string) {
    exists j, k :: 0 <= j < k < |p| && p[j] != '.' && p[j] != '/' && p[k] == '.' && NoSlashFrom(p, j)
  }

  /** Splitext finds an extension exactly when the final component has one. */
  lemma SplitextHasExtIff(p: string)
    ensures Splitext(p).ext != [] <==> HasExtension(p)
  {
    var sep := RFind(p, '/');
    var dot := RFind(p, '.');
    if HasExtension(p) {
      var j, k :| 0 <= j < k < |p| && p[j] != '.' && p[j] != '/' && p[k] == '.' && NoSlashFrom(p, j);
      assert sep < j;
      assert k <= dot;
      assert sep < j < dot && p[j] != '.';
    }
    if Splitext(p).ext != [] {
      var m :| sep < m < dot && p[m] != '.';
      assert NoSlashFrom(p, m);
      assert p[m] != '/';
    }
  }

  /**
   * Splitext is the only split of `p` into a root and a well-formed extension
   * whose extension is present exactly when the final component has one.
   */
  lemma SplitextUnique(p: string, root: string, ext: string)
    requires root + ext == p
    requires WellFormedExt(ext)
    requires ext != [] <==> HasExtension(p)
    ensures Splitext(p) == PathSplit(root, ext)
  {
    SplitextHasExtIff(p);
    var s := Splitext(p);
    if ext != [] {
      var dot := RFind(p, '.');
      var i := |root|;
      assert p[i] == ext[0] == '.';
      forall k | i < k < |p| ensures p[k] != '.' {
        assert p[k] == ext[k - i];
      }
      assert dot == i;
      var i' := |s.root|;
      assert p[i'] == s.ext[0] == '.';
      forall k | i' < k < |p| ensures p[k] != '.' {
        assert p[k] == s.ext[k - i'];
      }
      assert i' == dot;
      assert root == p[..i] == s.root;
      assert ext == p[i..] == s.ext;
    }
  }

  /** A well-formed extension after a character other than `.` and `/` is split off exactly. */
  lemma SplitextAfterPlainChar(root: string, ext: string)
    requires |root| > 0 && root[|root| - 1] != '.' && root[|root| - 1] != '/'
    requires ext != [] && WellFormedExt(ext)
    ensures Splitext(root + ext) == PathSplit(root, ext)
  {
    var p, j := root + ext, |root| - 1;
    assert NoSlashFrom(p, j) by {
      forall m | j <= m < |p| ensures p[m] != '/' {
        if m > j { assert p[m] == ext[m - |root|]; }
      }
    }
    assert p[j] == root[j] && p[j + 1] == ext[0];
    SplitextUnique(p, root, ext);
  }

  /**
   * Appending `-out` to the root keeps the extension: the name so built
   * splits into that longer root and the same extension.
   */
  lemma SplitextInsertOut(p: string)
    ensures var s := Splitext(p);
      Splitext(s.root + "-out" + s.ext) == PathSplit(s.root + "-out", s.ext)
  {
    var s := Splitext(p);
    var q := s.root + "-out" + s.ext;
    SplitextHasExtIff(p);
    var n := |s.root|;
    if s.ext != [] {
      assert q[n] == '-' && q[n + 4] == '.';
      assert NoSlashFrom(q, n) by {
        forall m | n <= m < |q| ensures q[m] != '/' {
          if m >= n + 4 { assert q[m] == s.ext[m - n - 4]; }
        }
      }
    } else {
      assert q == p + "-out";
      HasExtensionOfSuffixed(p, "-out");
    }
    SplitextUnique(q, s.root + "-out", s.ext);
  }

  /** Appending a text without dots or slashes cannot create an extension. */
  lemma HasExtensionOfSuffixed(p: string, t: string)
    requires forall m :: 0 <= m < |t| ==> t[m] != '.' && t[m] != '/'
    ensures HasExtension(p + t) ==> HasExtension(p)
  {
    var q := p + t;
    if HasExtension(q) {
      var j, k :| 0 <= j < k < |q| && q[j] != '.' && q[j] != '/' && q[k] == '.' && NoSlashFrom(q, j);
      assert forall m :: |p| <= m < |q| ==> q[m] == t[m - |p|];
      assert k < |p|;
      assert p[j] == q[j] && p[k] == q[k];
      assert NoSlashFrom(p, j) by {
        forall m | j <= m < |p| ensures p[m] != '/' { assert p[m] == q[m]; }
      }
    }
  }
}
