/** File selection during a directory walk: which file names count as JPEG
    frames and which as ZIP archives (a case-insensitive suffix test), and
    the list of joined paths the walk collects. */
module Selection {
  import opened Text
  import Paths

  /** One file reported by a directory walk: the directory it was found in
      and its name. */
  datatype WalkEntry = WalkEntry(root: string, name: string)

  /** A frame file: its lower-cased name ends with `.jpg` or `.jpeg`. */
  predicate IsFrameName(name: string) {
    EndsWith(Lower(name), ".jpg") || EndsWith(Lower(name), ".jpeg")
  }

  /** An archive file: its lower-cased name ends with `.zip`. */
  predicate IsArchiveName(name: string) {
    EndsWith(Lower(name), ".zip")
  }

  /** The paths, in walk order, of the walked files whose names are kept,
      each the join of its directory and its name. */
  function Collect(walk: seq<WalkEntry>, keep: string -> bool): (paths: seq<string>)
    ensures |paths| <= |walk|
    ensures forall p :: p in paths <==>
      exists k :: 0 <= k < |walk| && keep(walk[k].name) && Paths.Join(walk[k].root, walk[k].name) == p
    ensures (forall k :: 0 <= k < |walk| ==> !keep(walk[k].name)) <==> paths == []
  {
    if walk == [] then []
    else
      var rest := Collect(walk[..|walk| - 1], keep);
      var e := walk[|walk| - 1];
      assert forall k :: 0 <= k < |walk| - 1 ==> walk[..|walk| - 1][k] == walk[k];
      if keep(e.name) then rest + [Paths.Join(e.root, e.name)] else rest
  }

  /** Collecting keeps walk order: the paths collected from two consecutive
      stretches of a walk are those of the first stretch, then those of the second. */
  lemma {:induction false} CollectAppend(a: seq<WalkEntry>, b: seq<WalkEntry>, keep: string -> bool)
    ensures Collect(a + b, keep) == Collect(a, keep) + Collect(b, keep)
    decreases |b|
  {
    if b == [] {
      assert a + b == a;
    } else {
      var b' := b[..|b| - 1];
      CollectAppend(a, b', keep);
      assert (a + b)[..|a + b| - 1] == a + b';
      assert (a + b)[|a + b| - 1] == b[|b| - 1];
    }
  }

  /** One more walked file adds its joined path at the end when its name is kept. */
  lemma CollectSnoc(walk: seq<WalkEntry>, e: WalkEntry, keep: string -> bool)
    ensures keep(e.name) ==> Collect(walk + [e], keep) == Collect(walk, keep) + [Paths.Join(e.root, e.name)]
    ensures !keep(e.name) ==> Collect(walk + [e], keep) == Collect(walk, keep)
  {
    assert (walk + [e])[..|walk + [e]| - 1] == walk;
  }

  /** `c` is the lower-case ASCII letter or other character `l`, or the
      upper-case form of the letter `l`. */
  predicate CharIgnoringCase(c: char, l: char) {
    c == l || ('a' <= l <= 'z' && (c as int) == (l as int) - 32)
  }

  /** `name` ends with `suffix` (written in lower case) up to ASCII case. */
  predicate EndsWithIgnoringCase(name: string, suffix: string) {
    && |suffix| <= |name|
    && forall k :: 0 <= k < |suffix| ==> CharIgnoringCase(name[|name| - |suffix| + k], suffix[k])
  }

  /** A lower-case suffix of the lower-cased name is that suffix, spelled
      in any mixture of cases, at the end of the name. */
  lemma LowerEndsWith(name: string, suffix: string)
    requires forall k :: 0 <= k < |suffix| ==> !('A' <= suffix[k] <= 'Z')
    ensures EndsWith(Lower(name), suffix) <==> EndsWithIgnoringCase(name, suffix)
  {
    var low := Lower(name);
    if |suffix| <= |name| {
      var off := |name| - |suffix|;
      assert forall k :: 0 <= k < |suffix| ==> low[off..][k] == LowerChar(name[off + k]);
      assert EndsWith(low, suffix) <==> forall k :: 0 <= k < |suffix| ==> low[off..][k] == suffix[k];
    }
  }

  /** The frame filter spelled out: the name ends with `.jpg` or `.jpeg` in
      any mixture of ASCII case (`.JPG`, `.Jpeg`, ...). */
  lemma FrameNameSpelled(name: string)
    ensures IsFrameName(name) <==> EndsWithIgnoringCase(name, ".jpg") || EndsWithIgnoringCase(name, ".jpeg")
  {
    LowerEndsWith(name, ".jpg");
    LowerEndsWith(name, ".jpeg");
  }

  /** The archive filter spelled out: the name ends with `.zip` in any
      mixture of ASCII case. */
  lemma ArchiveNameSpelled(name: string)
    ensures IsArchiveName(name) <==> EndsWithIgnoringCase(name, ".zip")
  {
    LowerEndsWith(name, ".zip");
  }

  /** Names that differ only in ASCII case are selected alike. */
  lemma SelectionIgnoresCase(a: string, b: string)
    requires |a| == |b|
    requires forall k :: 0 <= k < |a| ==> LowerChar(a[k]) == LowerChar(b[k])
    ensures IsFrameName(a) <==> IsFrameName(b)
    ensures IsArchiveName(a) <==> IsArchiveName(b)
  {
    assert Lower(a) == Lower(b);
  }

  /** A selected archive name ends with a dot followed by three characters
      that are not dots. */
  lemma ArchiveSuffixShape(name: string)
    requires IsArchiveName(name)
    ensures |name| >= 4 && name[|name| - 4] == '.'
    ensures forall k :: |name| - 3 <= k < |name| ==> name[k] != '.'
  {
    ArchiveNameSpelled(name);
    var n := |name| - 4;
    assert CharIgnoringCase(name[n], ".zip"[0]);
    assert CharIgnoringCase(name[n + 1], ".zip"[1]);
    assert CharIgnoringCase(name[n + 2], ".zip"[2]);
    assert CharIgnoringCase(name[n + 3], ".zip"[3]);
  }
}
