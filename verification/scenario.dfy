/** The end-to-end example of the tool: a directory `d` holding
    `clip@100ms.zip`, whose extraction yields `a.jpg`, `b.jpg` and `c.jpg`
    (reported by the walk in another order), becomes `d/clip@100ms.gif` with
    the three frames in name order, a 100 ms delay and an endless loop; the
    batch then reports one success. */
module Scenario {
  import opened Wrappers
  import opened Text
  import opened Selection
  import opened Ordering
  import opened Archive
  import opened Batch
  import Paths
  import Interval

  /** A name ending in `.zip` is an archive name. */
  lemma ZipNameSelected(stem: string)
    ensures IsArchiveName(stem + ".zip")
  {
    var n := stem + ".zip";
    assert Lower(n)[|n| - 4..] == ".zip" by {
      forall k | 0 <= k < 4 ensures Lower(n)[|n| - 4..][k] == ".zip"[k] {
        assert n[|n| - 4 + k] == ".zip"[k];
      }
    }
  }

  /** A name ending in `.jpg` is a frame name. */
  lemma JpgNameSelected(stem: string)
    ensures IsFrameName(stem + ".jpg")
  {
    var n := stem + ".jpg";
    assert Lower(n)[|n| - 4..] == ".jpg" by {
      forall k | 0 <= k < 4 ensures Lower(n)[|n| - 4..][k] == ".jpg"[k] {
        assert n[|n| - 4 + k] == ".jpg"[k];
      }
    }
  }

  /** The directory name and base name of a plain `dir/name` path. */
  lemma PlainPathParts(d: string, b: string)
    requires d != [] && d[|d| - 1] != '/'
    requires Paths.NoSlash(b)
    ensures Paths.Basename(d + "/" + b) == b
    ensures Paths.Dirname(d + "/" + b) == d
  {
    var p := d + "/" + b;
    Paths.LastSlashAt(p, |d| + 1);
    assert p[|d| + 1..] == b;
    var head := p[..|d| + 1];
    assert head == d + "/";
    assert !Paths.AllSlashes(head) by {
      assert head[|d| - 1] == d[|d| - 1];
    }
    assert head[..|head| - 1] == d;
  }

  lemma ExampleStem()
    ensures Paths.Splitext("clip@100ms.zip").0 == "clip@100ms"
  {
    var b := "clip@100ms.zip";
    ZipNameSelected("clip@100ms");
    assert "clip@100ms" + ".zip" == b;
    ArchiveSuffixShape(b);
    assert Paths.NoSlash(b);
    assert !Paths.DotsIn(b, 0, |b| - 4) by {
      assert b[0] != '.';
    }
    Paths.StemOfArchiveName(b);
    assert b[..|b| - 4] == "clip@100ms";
  }

  lemma ExamplePathParts()
    ensures Paths.Basename("d/clip@100ms.zip") == "clip@100ms.zip"
    ensures Paths.Dirname("d/clip@100ms.zip") == "d"
  {
    var b := "clip@100ms.zip";
    assert "d/clip@100ms.zip" == "d" + "/" + b;
    assert Paths.NoSlash(b);
    PlainPathParts("d", b);
  }

  /** The GIF path assembled from the parts of an archive path. */
  lemma GifPathFromParts(p: string, d: string, b: string, stem: string, g: string)
    requires Paths.Dirname(p) == d && Paths.Basename(p) == b && Paths.Splitext(b).0 == stem
    requires Paths.Join(d, stem + ".gif") == g
    ensures Paths.GifPath(p) == g
  {
  }

  /** Joining the example's directory and GIF name. */
  lemma ExampleJoin()
    ensures Paths.Join("d", "clip@100ms" + ".gif") == "d/clip@100ms.gif"
  {
    assert "clip@100ms" + ".gif" == "clip@100ms.gif";
    assert "d" + "/" + "clip@100ms.gif" == "d/clip@100ms.gif";
  }

  lemma ExampleGifPath()
    ensures Paths.GifPath("d/clip@100ms.zip") == "d/clip@100ms.gif"
    ensures Paths.Basename("d/clip@100ms.zip") == "clip@100ms.zip"
  {
    ExamplePathParts();
    ExampleStem();
    ExampleJoin();
    GifPathFromParts("d/clip@100ms.zip", "d", "clip@100ms.zip", "clip@100ms", "d/clip@100ms.gif");
  }

  /** The walk of the scratch directory, in the order the walk reports it. */
  function ExampleWalk(): seq<WalkEntry> {
    [WalkEntry("d/t", "c.jpg"), WalkEntry("d/t", "a.jpg"), WalkEntry("d/t", "b.jpg")]
  }

  /** A JPEG file found in `d/t` is collected as `d/t/<name>`. */
  lemma ExampleFrameCollected(walk: seq<WalkEntry>, name: string)
    requires IsFrameName(name) && name[0] != '/'
    ensures Collect(walk + [WalkEntry("d/t", name)], IsFrameName) == Collect(walk, IsFrameName) + ["d/t/" + name]
  {
    CollectSnoc(walk, WalkEntry("d/t", name), IsFrameName);
    assert "d/t" + "/" + name == "d/t/" + name;
  }

  /** The example's three frame names are JPEG names. */
  lemma ExampleNamesSelected()
    ensures IsFrameName("a.jpg") && IsFrameName("b.jpg") && IsFrameName("c.jpg")
  {
    JpgNameSelected("a");
    JpgNameSelected("b");
    JpgNameSelected("c");
    assert "a" + ".jpg" == "a.jpg" && "b" + ".jpg" == "b.jpg" && "c" + ".jpg" == "c.jpg";
  }

  /** The walk keeps all three JPEG files, in walk order. */
  lemma ExampleCollected()
    ensures FramePaths(ExampleWalk()) == ["d/t/c.jpg", "d/t/a.jpg", "d/t/b.jpg"]
  {
    var c, a, b := WalkEntry("d/t", "c.jpg"), WalkEntry("d/t", "a.jpg"), WalkEntry("d/t", "b.jpg");
    assert ExampleWalk() == [c, a] + [b];
    assert [c, a] == [c] + [a];
    assert [c] == [] + [c];
    ExampleNamesSelected();
    ExampleFrameCollected([], "c.jpg");
    ExampleFrameCollected([c], "a.jpg");
    ExampleFrameCollected([c, a], "b.jpg");
    assert "d/t/" + "c.jpg" == "d/t/c.jpg";
    assert "d/t/" + "a.jpg" == "d/t/a.jpg";
    assert "d/t/" + "b.jpg" == "d/t/b.jpg";
  }

  lemma ExampleSortedFrames()
    ensures Sorted(["d/t/a.jpg", "d/t/b.jpg", "d/t/c.jpg"])
  {
    StrLeCommonPrefix("d/t/", "a.jpg", "b.jpg");
    StrLeCommonPrefix("d/t/", "b.jpg", "c.jpg");
    assert "d/t/" + "a.jpg" == "d/t/a.jpg";
    assert "d/t/" + "b.jpg" == "d/t/b.jpg";
    assert "d/t/" + "c.jpg" == "d/t/c.jpg";
  }

  /** Moving the first of three elements to the end keeps the multiset. */
  lemma RotateThree(x: string, y: string, z: string)
    ensures multiset([x, y, z]) == multiset([y, z, x])
  {
    assert multiset([x, y, z]) == multiset{x, y, z};
    assert multiset([y, z, x]) == multiset{y, z, x};
  }

  /** The walk order c, a, b yields the frames a, b, c, in name order. */
  lemma ExampleFrames()
    ensures Sort(FramePaths(ExampleWalk())) == ["d/t/a.jpg", "d/t/b.jpg", "d/t/c.jpg"]
  {
    var sorted := ["d/t/a.jpg", "d/t/b.jpg", "d/t/c.jpg"];
    ExampleCollected();
    ExampleSortedFrames();
    RotateThree("d/t/c.jpg", "d/t/a.jpg", "d/t/b.jpg");
    SortedUnique(Sort(FramePaths(ExampleWalk())), sorted);
  }

  /** Any walk that collects the same three files, in whatever order,
      yields the same frames in name order. */
  lemma ExampleFramesAnyOrder(walk: seq<WalkEntry>)
    requires multiset(FramePaths(walk)) == multiset(FramePaths(ExampleWalk()))
    ensures Sort(FramePaths(walk)) == ["d/t/a.jpg", "d/t/b.jpg", "d/t/c.jpg"]
  {
    ExampleFrames();
    SortIgnoresInputOrder(FramePaths(walk), FramePaths(ExampleWalk()));
  }

  /** The archive in the example becomes the expected GIF. */
  lemma ExampleArchive()
    ensures
      var env := Env({}, Some(ExampleWalk()), {}, true);
      ProcessZipFile("d/clip@100ms.zip", env)
      == Report(Success("d/clip@100ms.gif"),
                Some(Animation("d/clip@100ms.gif", ["d/t/a.jpg", "d/t/b.jpg", "d/t/c.jpg"], 100, LoopForever, RestoreBackground)))
  {
    ExampleGifPath();
    ExampleFrames();
    Interval.ExampleDecorated();
    var files := ["d/t/a.jpg", "d/t/b.jpg", "d/t/c.jpg"];
    assert LoadImages(files, {}) == Ok(files);
  }

  /** A walk of `d` that reports only the example archive discovers it. */
  lemma ExampleArchivePaths()
    ensures ArchivePaths([WalkEntry("d", "clip@100ms.zip")]) == ["d/clip@100ms.zip"]
  {
    var walk := [WalkEntry("d", "clip@100ms.zip")];
    assert IsArchiveName("clip@100ms.zip") by {
      ZipNameSelected("clip@100ms");
      assert "clip@100ms" + ".zip" == "clip@100ms.zip";
    }
    assert Paths.Join("d", "clip@100ms.zip") == "d/clip@100ms.zip" by {
      assert "d" + "/" + "clip@100ms.zip" == "d/clip@100ms.zip";
    }
    assert walk[..0] == [];
    assert Collect(walk[..0], IsArchiveName) == [];
  }

  /** One successful completion is tallied as one processed archive. */
  lemma ExampleDrain()
    ensures Drain([Returned(Success("d/clip@100ms.gif"))]) == Tally(1, 0, 0)
  {
    var c := [Returned(Success("d/clip@100ms.gif"))];
    assert c[..0] == [];
  }

  /** The batch over a root holding only the example archive reports one
      archive, one worker and one success. */
  lemma ExampleBatch(cpus: Option<nat>)
    ensures
      var env := Env({}, Some(ExampleWalk()), {}, true);
      var walk := [WalkEntry("d", "clip@100ms.zip")];
      |ArchivePaths(walk)| == 1 &&
      ProcessFolder(walk, None, cpus, [Returned(ProcessZipFile(ArchivePaths(walk)[0], env).outcome)])
      == Finished(1, 1, Tally(1, 0, 0))
  {
    var env := Env({}, Some(ExampleWalk()), {}, true);
    var walk := [WalkEntry("d", "clip@100ms.zip")];
    ExampleArchivePaths();
    ExampleArchive();
    var c := [Returned(Success("d/clip@100ms.gif"))];
    assert [Returned(ProcessZipFile(ArchivePaths(walk)[0], env).outcome)] == c;
    ExampleDrain();
    assert WorkerCount(None, cpus, 1) == 1;
  }
}
