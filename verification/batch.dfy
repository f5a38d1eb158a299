/** The batch coordinator: archive discovery under a root directory, the
    size of the worker pool, and the tally of per-archive results drained in
    completion order. The pool itself is not modelled; the completion order
    is a parameter, and the tally is shown not to depend on it. */
module Batch {
  import opened Wrappers
  import opened Selection
  import opened Archive
  import opened Ordering
  import Paths

  /** What `future.result()` gives the coordinator for one archive: the
      processor's outcome, or an exception raised out of the worker. */
  datatype Completion = Returned(outcome: Outcome) | Raised

  /** The counters kept while draining completions. */
  datatype Tally = Tally(processed: nat, skipped: nat, errors: nat)

  /** The counter a completion belongs to; warnings are reported but counted nowhere. */
  datatype Bucket = Processed | Skipped | Failed | Warned

  function BucketOf(c: Completion): Bucket {
    match c
    case Raised => Failed
    case Returned(Success(_)) => Processed
    case Returned(Skip) => Skipped
    case Returned(Warning(_)) => Warned
    case Returned(Error(_)) => Failed
  }

  /** One turn of the drain loop. */
  function Record(t: Tally, c: Completion): Tally {
    match BucketOf(c)
    case Processed => t.(processed := t.processed + 1)
    case Skipped => t.(skipped := t.skipped + 1)
    case Failed => t.(errors := t.errors + 1)
    case Warned => t
  }

  /** How many completions fall into bucket `b`. */
  function Count(cs: seq<Completion>, b: Bucket): (n: nat)
    ensures n <= |cs|
  {
    if cs == [] then 0 else (if BucketOf(cs[0]) == b then 1 else 0) + Count(cs[1..], b)
  }

  /** The drain loop over completions in the order they arrive, from zero counters. */
  function Drain(cs: seq<Completion>): (t: Tally)
    ensures t.processed + t.skipped + t.errors <= |cs|
  {
    if cs == [] then Tally(0, 0, 0) else Record(Drain(cs[..|cs| - 1]), cs[|cs| - 1])
  }

  lemma {:induction false} CountAppend(a: seq<Completion>, b: seq<Completion>, k: Bucket)
    ensures Count(a + b, k) == Count(a, k) + Count(b, k)
    decreases |a|
  {
    if a != [] {
      assert (a + b)[0] == a[0];
      assert (a + b)[1..] == a[1..] + b;
      CountAppend(a[1..], b, k);
    } else {
      assert a + b == b;
    }
  }

  /** Each counter is the number of completions of its kind: successes are
      processed, skips skipped, and errors or exceptions are errors. */
  lemma {:induction false} DrainCounts(cs: seq<Completion>)
    ensures Drain(cs) == Tally(Count(cs, Processed), Count(cs, Skipped), Count(cs, Failed))
    decreases |cs|
  {
    if cs != [] {
      var front, last := cs[..|cs| - 1], cs[|cs| - 1];
      DrainCounts(front);
      assert cs == front + [last];
      CountAppend(front, [last], Processed);
      CountAppend(front, [last], Skipped);
      CountAppend(front, [last], Failed);
    }
  }

  /** Every completion lands in exactly one bucket. */
  lemma {:induction false} BucketsPartition(cs: seq<Completion>)
    ensures Count(cs, Processed) + Count(cs, Skipped) + Count(cs, Failed) + Count(cs, Warned) == |cs|
  {
    if cs != [] {
      BucketsPartition(cs[1..]);
    }
  }

  /** The three counters add up to the number of completions that were not warnings. */
  lemma CountersAddUp(cs: seq<Completion>)
    ensures Drain(cs).processed + Drain(cs).skipped + Drain(cs).errors == |cs| - Count(cs, Warned)
  {
    DrainCounts(cs);
    BucketsPartition(cs);
  }

  /** Removing one completion from a list removes its contribution to the count. */
  lemma CountRemove(b: seq<Completion>, i: nat, k: Bucket)
    requires i < |b|
    ensures Count(b, k) == Count(b[..i] + b[i + 1..], k) + Count([b[i]], k)
  {
    assert b == b[..i] + [b[i]] + b[i + 1..];
    CountAppend(b[..i] + [b[i]], b[i + 1..], k);
    CountAppend(b[..i], [b[i]], k);
    CountAppend(b[..i], b[i + 1..], k);
  }

  /** Counting is blind to order. */
  lemma {:induction false} CountPermutation(a: seq<Completion>, b: seq<Completion>, k: Bucket)
    requires multiset(a) == multiset(b)
    ensures Count(a, k) == Count(b, k)
    decreases |a|
  {
    if a == [] {
      assert |b| == 0 by { assert |multiset(b)| == 0; }
    } else {
      var x := a[0];
      assert x in multiset(b);
      var i :| 0 <= i < |b| && b[i] == x;
      var b' := b[..i] + b[i + 1..];
      RemoveMatching(a, b, i);
      CountPermutation(a[1..], b', k);
      CountRemove(b, i, k);
      CountRemove(a, 0, k);
      assert a[..0] + a[1..] == a[1..];
    }
  }

  /** The final tally is the same for every completion order. */
  lemma DrainOrderIndependent(a: seq<Completion>, b: seq<Completion>)
    requires multiset(a) == multiset(b)
    ensures Drain(a) == Drain(b)
  {
    DrainCounts(a);
    DrainCounts(b);
    CountPermutation(a, b, Processed);
    CountPermutation(a, b, Skipped);
    CountPermutation(a, b, Failed);
  }

  /** `os.cpu_count() or 4`: an unknown (or zero) CPU count counts as 4. */
  function CpuOr4(cpus: Option<nat>): (c: nat)
    ensures c >= 1
  {
    if cpus.None? || cpus.value == 0 then 4 else cpus.value
  }

  /** The most threads the pool is given when the count is chosen automatically. */
  const MaxAutoWorkers: nat := 10

  /** The worker count: an explicit override is used as given; otherwise the
      least of the CPU count, 10 and the number of archives. */
  function WorkerCount(workers: Option<int>, cpus: Option<nat>, archives: nat): (w: int)
    ensures workers.Some? ==> w == workers.value
    ensures workers.None? ==> w <= CpuOr4(cpus) && w <= MaxAutoWorkers && w <= archives
    ensures workers.None? ==> w == CpuOr4(cpus) || w == MaxAutoWorkers || w == archives
    ensures workers.None? && archives >= 1 ==> 1 <= w <= MaxAutoWorkers
  {
    match workers
    case Some(n) => n
    case None =>
      var w := if CpuOr4(cpus) <= MaxAutoWorkers then CpuOr4(cpus) else MaxAutoWorkers;
      if w <= archives then w else archives
  }

  /** The end of a batch run: nothing to do, a pool that refused its size
      (`ThreadPoolExecutor` rejects a worker count below 1), or the final tally. */
  datatype Summary =
    | NoArchives
    | PoolRejected(requested: int)
    | Finished(total: nat, workers: nat, tally: Tally)

  /** The archives a walk of the root directory discovers, in walk order. */
  function ArchivePaths(walk: seq<WalkEntry>): seq<string> {
    Collect(walk, IsArchiveName)
  }

  /** `process_folder`: discover the archives, size the pool and drain one
      completion per archive, in whatever order they arrive. */
  function ProcessFolder(walk: seq<WalkEntry>, workers: Option<int>, cpus: Option<nat>, completed: seq<Completion>): (s: Summary)
    requires |completed| == |ArchivePaths(walk)|
    ensures s.NoArchives? <==> forall k :: 0 <= k < |walk| ==> !IsArchiveName(walk[k].name)
    ensures s.PoolRejected? <==> |completed| > 0 && workers.Some? && workers.value < 1
    ensures s.Finished? ==> s.total == |completed| && s.total > 0
    ensures s.Finished? ==> s.tally.processed + s.tally.skipped + s.tally.errors == s.total - Count(completed, Warned)
    ensures s.Finished? && workers.None? ==> s.workers <= MaxAutoWorkers && s.workers <= s.total
    ensures s.Finished? ==> s.workers == WorkerCount(workers, cpus, s.total)
    ensures s.Finished? ==> s.tally == Tally(Count(completed, Processed), Count(completed, Skipped), Count(completed, Failed))
  {
    var archives := ArchivePaths(walk);
    if archives == [] then NoArchives
    else
      var w := WorkerCount(workers, cpus, |archives|);
      if w < 1 then PoolRejected(w)
      else
        CountersAddUp(completed);
        DrainCounts(completed);
        Finished(|archives|, w, Drain(completed))
  }

  /** The batch summary does not depend on the order in which archives finish. */
  lemma FolderOrderIndependent(walk: seq<WalkEntry>, workers: Option<int>, cpus: Option<nat>,
                               a: seq<Completion>, b: seq<Completion>)
    requires |a| == |ArchivePaths(walk)|
    requires multiset(a) == multiset(b)
    ensures |b| == |ArchivePaths(walk)|
    ensures ProcessFolder(walk, workers, cpus, a) == ProcessFolder(walk, workers, cpus, b)
  {
    assert |b| == |a| by { assert |multiset(a)| == |a| && |multiset(b)| == |b|; }
    DrainOrderIndependent(a, b);
  }

  /** Re-running the batch once every GIF exists skips every archive: each
      completion is the outcome of processing some discovered archive whose
      GIF is present, and the tally shows all of them skipped. */
  lemma RerunSkipsEverything(walk: seq<WalkEntry>, cpus: Option<nat>, envs: seq<Env>, completed: seq<Completion>)
    requires |envs| == |ArchivePaths(walk)| == |completed|
    requires forall k :: 0 <= k < |envs| ==> Paths.GifPath(ArchivePaths(walk)[k]) in envs[k].existing
    requires forall k :: 0 <= k < |completed| ==>
      exists m :: 0 <= m < |envs| && completed[k] == Returned(ProcessZipFile(ArchivePaths(walk)[m], envs[m]).outcome)
    ensures |completed| > 0 ==> ProcessFolder(walk, None, cpus, completed) == Finished(|completed|, WorkerCount(None, cpus, |completed|), Tally(0, |completed|, 0))
  {
    forall k | 0 <= k < |completed| ensures completed[k] == Returned(Skip) {
      var m :| 0 <= m < |envs| && completed[k] == Returned(ProcessZipFile(ArchivePaths(walk)[m], envs[m]).outcome);
      ExistingGifSkips(ArchivePaths(walk)[m], envs[m]);
    }
    AllSkipsTally(completed);
  }

  lemma {:induction false} AllSkipsTally(cs: seq<Completion>)
    requires forall k :: 0 <= k < |cs| ==> cs[k] == Returned(Skip)
    ensures Drain(cs) == Tally(0, |cs|, 0)
    decreases |cs|
  {
    if cs != [] {
      AllSkipsTally(cs[..|cs| - 1]);
    }
  }
}
