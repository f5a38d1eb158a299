/** The archive processor: one ZIP archive end to end. It skips the archive
    when its GIF already exists, reads the frame duration from the name,
    collects and sorts the extracted JPEG files, decodes them in order and
    asks the encoder for a looping GIF, classifying what happened as one
    `Outcome`. The file system, the ZIP reader and the image library are
    represented by what they report (`Env`). */
module Archive {
  import opened Wrappers
  import opened Selection
  import opened Ordering
  import Paths
  import Interval

  /** Why an archive produced a warning. */
  datatype Warn = NoJpgFiles | NoUsableImages

  /** Why an archive produced an error: one frame that could not be decoded,
      or any other exception (extraction, scratch directory, encoding), whose
      message is not modelled. */
  datatype Fault = ImageFailed(file: string) | Unexpected

  /** The classified result for one archive. */
  datatype Outcome = Success(gif: string) | Skip | Warning(warn: Warn) | Error(fault: Fault)

  /** The GIF the encoder is asked to write: its path, the decoded frames in
      order (each named by its source file), the per-frame delay, the loop
      count and the frame disposal method. */
  datatype Animation = Animation(path: string, frames: seq<string>, durationMs: nat, loop: nat, disposal: nat)

  /** Loop count 0 asks the GIF encoder to loop forever. */
  const LoopForever: nat := 0

  /** Disposal method 2 restores the background before the next frame. */
  const RestoreBackground: nat := 2

  /** What the outside world reports for one archive: the paths that exist,
      the files the extraction produced as a directory walk (`None` when
      creating the scratch directory or extracting failed), the files the
      image library cannot decode, and whether the GIF encoder succeeds. */
  datatype Env = Env(existing: set<string>, extracted: Option<seq<WalkEntry>>, undecodable: set<string>, encodes: bool)

  /** The outcome of processing an archive and the GIF written, if any. */
  datatype Report = Report(outcome: Outcome, written: Option<Animation>)

  /** The JPEG files of an extracted archive, in walk order. */
  function FramePaths(walk: seq<WalkEntry>): seq<string> {
    Collect(walk, IsFrameName)
  }

  /** Decodes the files in order and stops at the first one that fails, as
      the decode loop does; on success the images are the files' images in
      the same order. */
  function LoadImages(files: seq<string>, undecodable: set<string>): (r: Result<seq<string>, string>)
    ensures r.Ok? <==> forall k :: 0 <= k < |files| ==> files[k] !in undecodable
    ensures r.Ok? ==> r.value == files
    ensures r.Err? ==> exists k :: 0 <= k < |files| && files[k] == r.error && files[k] in undecodable
                                   && forall m :: 0 <= m < k ==> files[m] !in undecodable
  {
    if files == [] then Ok([])
    else if files[0] in undecodable then Err(files[0])
    else
      match LoadImages(files[1..], undecodable)
      case Ok(images) =>
        assert files == [files[0]] + files[1..];
        Ok([files[0]] + images)
      case Err(f) =>
        var k :| 0 <= k < |files| - 1 && files[1..][k] == f && f in undecodable
                 && forall m :: 0 <= m < k ==> files[1..][m] !in undecodable;
        assert files[k + 1] == f;
        Err(f)
  }

  /** `process_zip_file`. */
  function ProcessZipFile(zipPath: string, env: Env): (r: Report)
    ensures r.outcome.Skip? <==> Paths.GifPath(zipPath) in env.existing
    ensures r.written.Some? <==> r.outcome.Success?
    ensures r.outcome.Success? ==> r.outcome.gif == Paths.GifPath(zipPath) && r.written.value.path == r.outcome.gif
    ensures r.outcome != Warning(NoUsableImages)
  {
    var gif := Paths.GifPath(zipPath);
    if gif in env.existing then Report(Skip, None)
    else
      var ms := Interval.FindMsInFilename(Paths.Basename(zipPath));
      match env.extracted
      case None => Report(Error(Unexpected), None)
      case Some(walk) => ConvertFrames(gif, ms, FramePaths(walk), env.undecodable, env.encodes)
  }

  /** The steps after extraction, given the JPEG files found in the scratch
      directory: warn when there are none, sort them, decode them in order
      and hand the images to the encoder. */
  function ConvertFrames(gif: string, ms: nat, jpgs: seq<string>, undecodable: set<string>, encodes: bool): (r: Report)
    ensures !r.outcome.Skip?
    ensures r.written.Some? <==> r.outcome.Success?
    ensures r.outcome.Success? ==> r.outcome.gif == gif && r.written.value.path == gif
    ensures r.outcome != Warning(NoUsableImages)
  {
    if jpgs == [] then Report(Warning(NoJpgFiles), None)
    else
      var files := Sort(jpgs);
      match LoadImages(files, undecodable)
      case Err(f) => Report(Error(ImageFailed(f)), None)
      case Ok(images) =>
        if images == [] then Report(Warning(NoUsableImages), None)
        else if !encodes then Report(Error(Unexpected), None)
        else Report(Success(gif), Some(Animation(gif, images, ms, LoopForever, RestoreBackground)))
  }

  /** `f` is the first file, in frame order, that fails to decode: it is a
      collected frame that fails, and no failing frame sorts before it. */
  ghost predicate FirstUndecodable(frames: seq<string>, undecodable: set<string>, f: string) {
    && f in frames
    && f in undecodable
    && forall g :: g in frames && g in undecodable ==> StrLe(f, g)
  }

  /** In a sorted list the first element in a set is the least element of the
      list in that set. */
  lemma FirstFailureIsLeast(files: seq<string>, undecodable: set<string>, k: nat)
    requires Sorted(files) && k < |files|
    requires files[k] in undecodable
    requires forall m :: 0 <= m < k ==> files[m] !in undecodable
    ensures FirstUndecodable(files, undecodable, files[k])
  {
    forall g | g in files && g in undecodable ensures StrLe(files[k], g) {
      var m :| 0 <= m < |files| && files[m] == g;
      SortedPairwise(files, k, m);
    }
  }

  /** The classification rules, once the GIF is known not to exist:
      a failed extraction is an error; no JPEG file is a warning; otherwise
      the first file in frame order that fails to decode is an error naming
      it; otherwise the encoder decides between success and error. */
  lemma Classification(zipPath: string, env: Env)
    requires Paths.GifPath(zipPath) !in env.existing
    ensures env.extracted.None? ==> ProcessZipFile(zipPath, env).outcome == Error(Unexpected)
    ensures env.extracted.Some? ==>
      var frames := FramePaths(env.extracted.value);
      var outcome := ProcessZipFile(zipPath, env).outcome;
      && (outcome == Warning(NoJpgFiles) <==> frames == [])
      && (forall f :: outcome == Error(ImageFailed(f)) <==> FirstUndecodable(frames, env.undecodable, f))
      && (outcome.Success? <==> frames != [] && (forall f :: f in frames ==> f !in env.undecodable) && env.encodes)
  {
    if env.extracted.Some? {
      var gif := Paths.GifPath(zipPath);
      var ms := Interval.FindMsInFilename(Paths.Basename(zipPath));
      var frames := FramePaths(env.extracted.value);
      assert ProcessZipFile(zipPath, env) == ConvertFrames(gif, ms, frames, env.undecodable, env.encodes);
      ConvertClassification(gif, ms, frames, env.undecodable, env.encodes);
    }
  }

  /** The classification of the steps after extraction. */
  lemma ConvertClassification(gif: string, ms: nat, frames: seq<string>, undecodable: set<string>, encodes: bool)
    ensures
      var outcome := ConvertFrames(gif, ms, frames, undecodable, encodes).outcome;
      && (outcome == Warning(NoJpgFiles) <==> frames == [])
      && (forall f :: outcome == Error(ImageFailed(f)) <==> FirstUndecodable(frames, undecodable, f))
      && (outcome.Success? <==> frames != [] && (forall f :: f in frames ==> f !in undecodable) && encodes)
  {
    if frames != [] {
      match LoadImages(Sort(frames), undecodable)
      case Err(f0) =>
        FailureClassified(frames, undecodable, f0);
      case Ok(images) =>
        NoFailureClassified(frames, undecodable);
    }
  }

  /** Sorting keeps exactly the collected paths. */
  lemma SortKeepsMembers(frames: seq<string>)
    ensures forall f :: f in Sort(frames) <==> f in frames
  {
    var files := Sort(frames);
    assert forall f :: f in files <==> f in multiset(files);
  }

  /** When decoding the sorted frames stops at `f0`, `f0` is the first
      undecodable frame and the only one. */
  lemma FailureClassified(frames: seq<string>, undecodable: set<string>, f0: string)
    requires LoadImages(Sort(frames), undecodable) == Err(f0)
    ensures forall f :: FirstUndecodable(frames, undecodable, f) <==> f == f0
  {
    var files := Sort(frames);
    SortKeepsMembers(frames);
    var k :| 0 <= k < |files| && files[k] == f0 && f0 in undecodable
             && forall m :: 0 <= m < k ==> files[m] !in undecodable;
    FirstFailureIsLeast(files, undecodable, k);
    forall f | FirstUndecodable(frames, undecodable, f) ensures f == f0 {
      StrLeAntisymmetric(f, f0);
    }
  }

  /** When every sorted frame decodes, no frame is undecodable. */
  lemma NoFailureClassified(frames: seq<string>, undecodable: set<string>)
    requires LoadImages(Sort(frames), undecodable).Ok?
    ensures forall f :: f in frames ==> f !in undecodable
    ensures forall f :: !FirstUndecodable(frames, undecodable, f)
  {
    var files := Sort(frames);
    SortKeepsMembers(frames);
    forall f | f in frames ensures f !in undecodable {
      var k :| 0 <= k < |files| && files[k] == f;
    }
  }

  /** What a successful run hands the encoder: every collected frame, sorted
      by path, with the delay read from the archive's base name, looping
      forever and restoring the background between frames. */
  lemma WrittenAnimation(zipPath: string, env: Env)
    requires ProcessZipFile(zipPath, env).outcome.Success?
    ensures env.extracted.Some?
    ensures
      var a := ProcessZipFile(zipPath, env).written.value;
      && Sorted(a.frames)
      && multiset(a.frames) == multiset(FramePaths(env.extracted.value))
      && a.durationMs == Interval.FindMsInFilename(Paths.Basename(zipPath))
      && a.loop == LoopForever
      && a.disposal == RestoreBackground
  {
    var gif := Paths.GifPath(zipPath);
    var ms := Interval.FindMsInFilename(Paths.Basename(zipPath));
    var frames := FramePaths(env.extracted.value);
    assert ProcessZipFile(zipPath, env) == ConvertFrames(gif, ms, frames, env.undecodable, env.encodes);
    ConvertedAnimation(gif, ms, frames, env.undecodable, env.encodes);
  }

  /** The animation of a successful conversion: the frames sorted, with the given delay. */
  lemma ConvertedAnimation(gif: string, ms: nat, frames: seq<string>, undecodable: set<string>, encodes: bool)
    requires ConvertFrames(gif, ms, frames, undecodable, encodes).outcome.Success?
    ensures
      var a := ConvertFrames(gif, ms, frames, undecodable, encodes).written.value;
      && Sorted(a.frames)
      && multiset(a.frames) == multiset(frames)
      && a.durationMs == ms
      && a.loop == LoopForever
      && a.disposal == RestoreBackground
  {
    var files := Sort(frames);
    assert LoadImages(files, undecodable).Ok?;
  }

  /** Idempotence of a re-run: once the GIF exists, the archive is skipped
      whatever it contains and whatever the image library would do, and
      nothing is written. */
  lemma ExistingGifSkips(zipPath: string, env: Env)
    requires Paths.GifPath(zipPath) in env.existing
    ensures ProcessZipFile(zipPath, env) == Report(Skip, None)
  {
  }

  /** For an archive selected by its `.zip` suffix (any case), the GIF's
      base name is the archive's base name with those four characters
      replaced by `.gif`, unless only dots precede them. */
  lemma ZipSuffixReplaced(zipPath: string)
    requires IsArchiveName(Paths.Basename(zipPath))
    ensures var b := Paths.Basename(zipPath);
      && |b| >= 4
      && (!Paths.DotsIn(b, 0, |b| - 4) ==> Paths.Basename(Paths.GifPath(zipPath)) == b[..|b| - 4] + ".gif")
      && (Paths.DotsIn(b, 0, |b| - 4) ==> Paths.Basename(Paths.GifPath(zipPath)) == b + ".gif")
  {
    var b := Paths.Basename(zipPath);
    ArchiveSuffixShape(b);
    Paths.StemOfArchiveName(b);
    Paths.GifPathPlacement(zipPath);
  }
}
