/** POSIX path manipulation as Python's `posixpath` performs it (`basename`,
    `dirname`, `join`, `splitext`), and the derivation of an archive's GIF
    path from it. */
module Paths {
  import opened Text

  /** Python's `p.rfind(c)`: the index of the last `c` in `p`, or -1. */
  function RFind(p: string, c: char): (i: int)
    ensures -1 <= i < |p|
    ensures 0 <= i ==> p[i] == c
    ensures forall k :: i < k < |p| ==> p[k] != c
  {
    if |p| == 0 then -1
    else if p[|p| - 1] == c then |p| - 1
    else RFind(p[..|p| - 1], c)
  }

  predicate NoSlash(s: string) {
    forall k :: 0 <= k < |s| ==> s[k] != '/'
  }

  predicate AllSlashes(s: string) {
    forall k :: 0 <= k < |s| ==> s[k] == '/'
  }

  /** `posixpath.basename`: everything after the last `/`. */
  function Basename(p: string): (b: string)
    ensures NoSlash(b)
    ensures EndsWith(p, b)
    ensures |b| == |p| || p[|p| - |b| - 1] == '/'
  {
    p[RFind(p, '/') + 1..]
  }

  /** Python's `s.rstrip('/')`. */
  function RStripSlashes(s: string): (r: string)
    ensures |r| <= |s| && r == s[..|r|]
    ensures AllSlashes(s[|r|..])
    ensures r == [] || r[|r| - 1] != '/'
  {
    if |s| == 0 || s[|s| - 1] != '/' then s
    else
      var r := RStripSlashes(s[..|s| - 1]);
      assert s[..|s| - 1][..|r|] == s[..|r|];
      r
  }

  /** `posixpath.dirname`: everything up to and including the last `/`, with
      trailing slashes removed unless the head consists of slashes only. */
  function Dirname(p: string): string {
    var head := p[..RFind(p, '/') + 1];
    if head != [] && !AllSlashes(head) then RStripSlashes(head) else head
  }

  /** `posixpath.join(a, b)` for two components. */
  function Join(a: string, b: string): string {
    if |b| > 0 && b[0] == '/' then b
    else if a == [] || a[|a| - 1] == '/' then a + b
    else a + "/" + b
  }

  /** Every character of `p` in [lo, hi) is a dot. */
  predicate DotsIn(p: string, lo: int, hi: int)
    requires 0 <= lo <= hi <= |p|
  {
    forall k :: lo <= k < hi ==> p[k] == '.'
  }

  /** Some dot of the last component of `p` follows a character of that
      component that is not a dot. */
  ghost predicate HasExtension(p: string) {
    exists m, k :: RFind(p, '/') < m < k < |p| && p[m] != '.' && p[k] == '.'
  }

  /** `posixpath.splitext`: the extension starts at the last dot of the last
      path component, unless only dots precede that dot in the component
      (so `.zip` and `..zip` have no extension). There is an extension
      exactly when some dot of the last component follows a character of
      that component that is not a dot. */
  function Splitext(p: string): (parts: (string, string))
    ensures parts.0 + parts.1 == p
    ensures parts.1 == [] || (parts.1[0] == '.' && NoSlash(parts.1))
    ensures forall k :: 1 <= k < |parts.1| ==> parts.1[k] != '.'
    ensures parts.1 != [] <==> HasExtension(p)
  {
    var sep := RFind(p, '/');
    var dot := RFind(p, '.');
    if sep < dot && !DotsIn(p, sep + 1, dot) then
      assert p[..dot] + p[dot..] == p;
      (p[..dot], p[dot..])
    else
      assert forall m, k :: sep < m < k < |p| && p[k] == '.' ==> p[m] == '.' by {
        forall m, k | sep < m < k < |p| && p[k] == '.' ensures p[m] == '.' {
          assert k <= dot;
        }
      }
      (p, [])
  }

  /** The GIF written for an archive: its directory, joined with the stem of
      its base name and `.gif`. */
  function GifPath(zipPath: string): (g: string)
    ensures EndsWith(g, ".gif")
  {
    var name := Splitext(Basename(zipPath)).0 + ".gif";
    JoinKeepsSuffix(Dirname(zipPath), name, ".gif");
    Join(Dirname(zipPath), name)
  }

  /** A joined path ends with whatever its last component ends with. */
  lemma JoinKeepsSuffix(a: string, b: string, suffix: string)
    requires EndsWith(b, suffix)
    ensures EndsWith(Join(a, b), suffix)
  {
    var g := Join(a, b);
    var x := g[..|g| - |b|];
    assert g == x + b;
    assert g[|g| - |suffix|..] == b[|b| - |suffix|..];
  }

  /** The last `/` of `p` sits just before `i` when `p[i..]` has no slash. */
  lemma LastSlashAt(p: string, i: nat)
    requires i <= |p|
    requires i == 0 || p[i - 1] == '/'
    requires forall k :: i <= k < |p| ==> p[k] != '/'
    ensures RFind(p, '/') + 1 == i
  {
  }

  /** Joining a component without slashes to a directory name and taking
      the directory name again gives the directory back. */
  lemma DirnameOfJoin(p: string, name: string)
    requires NoSlash(name) && name != []
    ensures Dirname(Join(Dirname(p), name)) == Dirname(p)
    ensures Basename(Join(Dirname(p), name)) == name
  {
    var head := p[..RFind(p, '/') + 1];
    if head == [] {
      assert Dirname(p) == [];
      DirnameOfJoinEmpty(name);
    } else if AllSlashes(head) {
      assert Dirname(p) == head;
      DirnameOfJoinSlashes(head, name);
    } else {
      var d := RStripSlashes(head);
      assert Dirname(p) == d;
      DirnameOfJoinPlain(d, name);
    }
  }

  lemma DirnameOfJoinEmpty(name: string)
    requires NoSlash(name) && name != []
    ensures Dirname(Join([], name)) == []
    ensures Basename(Join([], name)) == name
  {
    assert Join([], name) == name;
    LastSlashAt(name, 0);
  }

  lemma DirnameOfJoinSlashes(d: string, name: string)
    requires NoSlash(name) && name != []
    requires d != [] && AllSlashes(d)
    ensures Dirname(Join(d, name)) == d
    ensures Basename(Join(d, name)) == name
  {
    var g := d + name;
    assert Join(d, name) == g;
    LastSlashAt(g, |d|);
    assert g[..|d|] == d;
    assert g[|d|..] == name;
  }

  lemma DirnameOfJoinPlain(d: string, name: string)
    requires NoSlash(name) && name != []
    requires d != [] && d[|d| - 1] != '/'
    ensures Dirname(Join(d, name)) == d
    ensures Basename(Join(d, name)) == name
  {
    var g := d + "/" + name;
    assert Join(d, name) == g;
    LastSlashAt(g, |d| + 1);
    var head := g[..|d| + 1];
    assert head == d + "/";
    assert !AllSlashes(head) by {
      assert head[|d| - 1] == d[|d| - 1];
    }
    assert head[..|head| - 1] == d;
    assert g[|d| + 1..] == name;
  }

  /** The GIF lies in the archive's directory, and its base name is the
      `splitext` stem of the archive's base name followed by `.gif`. */
  lemma GifPathPlacement(zipPath: string)
    ensures Dirname(GifPath(zipPath)) == Dirname(zipPath)
    ensures Basename(GifPath(zipPath)) == Splitext(Basename(zipPath)).0 + ".gif"
  {
    var name := Splitext(Basename(zipPath)).0 + ".gif";
    GifNameNoSlash(Basename(zipPath));
    DirnameOfJoin(zipPath, name);
  }

  /** The GIF's base name has no slash when the archive's base name has none. */
  lemma GifNameNoSlash(b: string)
    requires NoSlash(b)
    ensures NoSlash(Splitext(b).0 + ".gif")
  {
    var stem := Splitext(b).0;
    var name := stem + ".gif";
    assert b == stem + Splitext(b).1;
    forall k | 0 <= k < |name| ensures name[k] != '/' {
      if k < |stem| {
        assert name[k] == b[k];
      } else {
        assert name[k] == ".gif"[k - |stem|];
      }
    }
  }

  /** For an archive name ending in a four-character extension such as
      `.zip` or `.ZIP` that is preceded by something other than dots, the
      stem is the name without that extension; a name that is only dots
      before the extension (`.zip`, `..zip`) keeps it whole. */
  lemma StemOfArchiveName(b: string)
    requires NoSlash(b)
    requires |b| >= 4 && b[|b| - 4] == '.'
    requires forall k :: |b| - 3 <= k < |b| ==> b[k] != '.'
    ensures !DotsIn(b, 0, |b| - 4) ==> Splitext(b).0 == b[..|b| - 4]
    ensures DotsIn(b, 0, |b| - 4) ==> Splitext(b).0 == b
  {
    assert RFind(b, '/') == -1;
    assert RFind(b, '.') == |b| - 4;
  }
}
