/** POSIX path rules of Python's `os.path` that decide where a package lives. */
module Paths {
  import opened Text

  /** `os.path.join(a, b)`: an absolute `b` replaces `a`; otherwise one `/` separates them. */
  function Join(a: string, b: string): (r: string)
    ensures |r| >= |b| && r[|r| - |b|..] == b
    ensures b != [] && b[0] == '/' ==> r == b
  {
    if b != [] && b[0] == '/' then b
    else if a == [] || a[|a| - 1] == '/' then a + b
    else a + "/" + b
  }

  /**
   * Appending a suffix after joining is joining the suffixed name, when the
   * suffix does not start a new absolute path.
   */
  lemma JoinThenSuffix(a: string, b: string, suffix: string)
    requires suffix == [] || suffix[0] != '/'
    ensures Join(a, b) + suffix == Join(a, b + suffix)
  {
    if b != [] && b[0] == '/' {
      assert (b + suffix)[0] == '/';
    } else {
      assert b + suffix == [] || (b + suffix)[0] != '/' by {
        if b != [] { assert (b + suffix)[0] == b[0]; }
      }
      if a == [] || a[|a| - 1] == '/' {
        assert (a + b) + suffix == a + (b + suffix);
      } else {
        assert (a + "/" + b) + suffix == a + "/" + (b + suffix);
      }
    }
  }

  /** Joining a relative name onto a directory without a trailing slash inserts exactly one separator. */
  lemma JoinRelative(a: string, b: string)
    requires a != [] && a[|a| - 1] != '/'
    requires b == [] || b[0] != '/'
    ensures Join(a, b) == a + "/" + b
  {
  }

  /** `"{}.tar.gz".format(os.path.join(dir, name))`: the archive a package is stored as. */
  function ArchivePath(dir: string, identifier: string): (r: string)
    ensures |r| >= 7 && r[|r| - 7..] == ".tar.gz"
  {
    Join(dir, identifier + ".tar.gz")
  }

  /** Does `p[lo..hi]` hold a character other than `.`? */
  predicate HasNonDot(p: string, lo: int, hi: int)
    requires 0 <= lo && hi <= |p|
  {
    exists k :: lo <= k < hi && p[k] != '.'
  }

  /**
   * `os.path.splitext(p)`: the extension starts at the last `.` of the last
   * path component, unless everything before that dot in the component is dots.
   */
  function SplitExt(p: string): (r: (string, string))
    ensures r.0 + r.1 == p
    ensures r.1 == [] || (r.1[0] == '.' && '.' !in r.1[1..] && '/' !in r.1)
  {
    var sepIndex := RFind(p, '/');
    var dotIndex := RFind(p, '.');
    if dotIndex > sepIndex && HasNonDot(p, sepIndex + 1, dotIndex) then
      assert p[..dotIndex] + p[dotIndex..] == p;
      assert forall k :: 0 <= k < |p[dotIndex..]| ==> p[dotIndex..][k] == p[dotIndex + k];
      (p[..dotIndex], p[dotIndex..])
    else (p, "")
  }

  /** `os.path.splitext(p)[-1]`. */
  function Ext(p: string): string { SplitExt(p).1 }

  /** An extension never holds a second dot, so `.tar.gz` is never one. */
  lemma TarGzIsNeverAnExtension(p: string)
    ensures Ext(p) != ".tar.gz"
  {
    var e := Ext(p);
    assert |e| == 7 && e[0] == '.' ==> e[1..][3] == e[4];
  }

  /** The archive formats the extract steps accept: `ext in ['.tgz', '.tar.gz', '.gz']`. */
  predicate IsArchive(p: string)
  {
    Ext(p) in [".tgz", ".tar.gz", ".gz"]
  }

  /** Only the last extension counts: a path is accepted exactly when it ends in `.tgz` or `.gz`. */
  lemma IsArchiveIff(p: string)
    ensures IsArchive(p) <==> Ext(p) == ".tgz" || Ext(p) == ".gz"
    ensures IsArchive(p) ==> (|p| >= 3 && p[|p| - 3..] == ".gz") || (|p| >= 4 && p[|p| - 4..] == ".tgz")
  {
    TarGzIsNeverAnExtension(p);
    var r := SplitExt(p);
    if IsArchive(p) {
      assert p == r.0 + r.1;
      assert p[|p| - |r.1|..] == r.1;
    }
  }

  /** A path ending in `.tar.gz` has `.gz` as its extension. */
  lemma TarGzSuffixHasGzExtension(p: string)
    requires |p| >= 7 && p[|p| - 7..] == ".tar.gz"
    ensures Ext(p) == ".gz"
  {
    var n := |p|;
    assert p[n - 4] == p[n - 7..][3] == 'r';
    assert p[n - 3] == p[n - 7..][4] == '.';
    assert p[n - 2] == p[n - 7..][5] == 'g';
    assert p[n - 1] == p[n - 7..][6] == 'z';
    assert forall k :: n - 7 <= k < n ==> p[k] == p[n - 7..][k - (n - 7)];
    var dotIndex := RFind(p, '.');
    var sepIndex := RFind(p, '/');
    assert dotIndex == n - 3;
    assert sepIndex < n - 7;
    assert HasNonDot(p, sepIndex + 1, dotIndex) by { assert p[n - 4] != '.'; }
    assert p[n - 3..] == ".gz";
  }

  /** A package archive named `{id}.tar.gz` is accepted, with `.gz` as its extension. */
  lemma ArchivePathIsArchive(dir: string, identifier: string)
    ensures Ext(ArchivePath(dir, identifier)) == ".gz"
    ensures IsArchive(ArchivePath(dir, identifier))
  {
    TarGzSuffixHasGzExtension(ArchivePath(dir, identifier));
  }
}
