# zip2gif — a Dafny model of its decision rules

`app.py` batch-converts ZIP archives of JPEG frames into animated GIFs. It
walks a directory tree for `.zip` files and runs each archive on a thread
pool. For each archive it skips the work when the GIF already exists. Otherwise
it extracts the archive into a scratch directory, collects the JPEG files,
sorts them by path, decodes them and writes a looping GIF whose frame delay
comes from an `@<N>ms` tag in the archive's name. Finally it tallies the
per-archive outcomes.

This project models the pure rules inside that pipeline as Dafny functions
over strings, sequences and sum types. It proves what they guarantee:

- `Interval`: `find_ms_in_filename`, the `@(\d+)ms` search with its default
  of 40. The regular expression's meaning (`MatchesAt`, any end of the digit
  group, as a backtracking matcher sees it) is kept apart from the greedy scan
  that computes it.
- `Paths`: `posixpath.basename`, `dirname`, `join` and `splitext` (the last
  dot of the last component, ignoring leading dots), and the GIF path built
  from them.
- `Selection`: the case-insensitive suffix filters (`.jpg`/`.jpeg` for frames,
  `.zip` for archives) and the list of joined paths a directory walk collects.
- `Ordering`: Python's string order and the ascending sort that fixes frame
  order.
- `Archive`: the decision tree of `process_zip_file`, with the file system,
  the ZIP reader and the image library reduced to what they report (`Env`).
  The result is a tagged `Outcome` {Success, Skip, Warning, Error}, together
  with the GIF the encoder is asked to write.
- `Batch`: worker-pool sizing, the drain loop that folds completions into a
  `Tally`, and `process_folder` as a whole.
- `Scenario`: the worked example of a directory holding `clip@100ms.zip` with
  `a.jpg`, `b.jpg` and `c.jpg`.
- `Text` and `Wrappers` hold shared helpers: ASCII digits and lower-casing,
  decimal values, `Option` and `Result`.

Behaviour of the code that a reader might not expect, all of it modelled:

- The interval is read from the leftmost match only (app.py:12-14), so
  `@5ms@7ms` gives 5, whatever later tags say.
- `@0ms` gives a delay of 0 (app.py:14); only a missing tag gives 40.
- With no override, the worker count is at least 1 whenever there is an
  archive (app.py:104). An explicit override below 1 makes
  `ThreadPoolExecutor` raise `ValueError` at app.py:106, outside any `try`, so
  the batch stops. This is modelled as `PoolRejected`.
- The "no usable images" warning at app.py:59-60 cannot be reached: a failing
  file returns an error first (app.py:56-57), and otherwise every file adds an
  image. The model keeps the branch and proves it unreachable.
- `os.cpu_count() or 4` (app.py:104) falls back to 4 when the count is unknown
  and also when it is 0.
- `splitext` (app.py:21) keeps leading dots in the stem, so an archive whose
  base name is only dots before `.zip` (`.zip`, `..zip`) becomes `.zip.gif`
  and `..zip.gif`.

## Model

| member | source | states |
|---|---|---|
| Interval.FindMsInFilename | app.py:10-15 | With no `@<digits>ms` anywhere the result is 40. Otherwise it is the decimal value of the digit group of the leftmost match. |
| Interval.SearchFrom | app.py:12 | The scan returns a match that no earlier position has, and it finds none only when no position matches. The digit group found is the only one possible at that `@`. |
| Interval.RunEnd | app.py:12 | `\d+` consumes the maximal run of digits: every character up to the result is a digit, and the character after it is not. |
| Interval.GroupIsMaximalRun | app.py:12 | At a given `@`, any digit group the regular expression can match ends at the end of the maximal digit run, so backtracking never changes the match. |
| Interval.SomeMatchHasLeftmost | app.py:12-14 | A name with any match has a leftmost one, so the two clauses of the extractor's contract cover every name. |
| Interval.FindsDecoratedValue | app.py:12-14 | A name whose first `@` begins `@<N>ms`, written in canonical decimal, yields N whatever follows. |
| Interval.LeadingZerosInGroup | app.py:14 | Leading zeros in the group are dropped: `@007ms` yields 7 and `@0ms` yields 0. |
| Interval.NoAtSignGivesDefault | app.py:15 | A name without `@` yields the default of 40. |
| Interval.FindsGroupAfterPrefix | app.py:12-14 | A name whose first `@` is followed by a digit group and `ms` yields that group's decimal value, whatever follows. |
| Interval.ExampleDecorated | app.py:10-15 | `clip@100ms.zip` gives 100. |
| Interval.ExampleLeadingZeros | app.py:14 | `@007ms` gives 7. |
| Interval.ExampleZero | app.py:12-14 | `@0ms` gives 0 rather than the default. |
| Interval.ExampleUndecorated | app.py:15 | `clip.zip` gives 40. |
| Text.DigitsValue | app.py:14 | Definition of `int()` on an ASCII digit string, most significant digit first. `Decimal` and `LeadingZerosDropped` state how it reads spellings back. |
| Text.Lower | app.py:41 | ASCII `str.lower()` keeps the length; `LowerEndsWith` states what the lower-cased suffix test means. |
| Text.Decimal | app.py:14 | The canonical decimal spelling of n has no leading zero (except for 0) and `int()` reads it back as n. |
| Text.LeadingZerosDropped | app.py:14 | Putting zeros in front of a digit string leaves its `int()` value unchanged. |
| Text.AllZerosValue | app.py:14 | A digit string made only of zeros has the value 0. |
| Paths.RFind | app.py:21-22 | `rfind` returns the position of the last occurrence of the character, or -1 when it is absent. |
| Paths.Basename | app.py:21 | The base name is the longest suffix of the path without a slash, and a slash precedes it unless it is the whole path. |
| Paths.RStripSlashes | app.py:22 | `rstrip('/')` removes exactly the trailing run of slashes: the result is a prefix, it does not end in a slash, and only slashes were cut. |
| Paths.Splitext | app.py:21 | Stem and extension concatenate back to the name. There is an extension iff some dot of the last component follows a non-dot character of that component, so leading dots never start one. The extension is a dot followed by no further dot or slash, so it starts at the last dot. |
| Paths.StemOfArchiveName | app.py:21 | For a name ending in a dot and three non-dot characters, the stem drops those four characters unless only dots precede them. In that case the stem is the whole name. |
| Paths.GifPath | app.py:21-22 | The derived output path ends in `.gif`. |
| Paths.JoinKeepsSuffix | app.py:22 | A path joined onto a directory ends with whatever its last component ends with. |
| Paths.LastSlashAt | app.py:21-22 | If a slash sits just before position i and no slash follows it, then the last slash of the path is at i - 1. |
| Paths.DirnameOfJoin | app.py:22 | Joining a slash-free name to a path's directory name gives a path whose directory name is that directory and whose base name is that name. |
| Paths.DirnameOfJoinPlain | app.py:22 | Joining a slash-free name to a directory not ending in a slash gives back that directory and that name. |
| Paths.DirnameOfJoinSlashes | app.py:22 | Joining a slash-free name to a directory made only of slashes gives back that directory and that name. |
| Paths.Dirname | app.py:22 | Definition of `posixpath.dirname`: the head up to the last slash, stripped of trailing slashes unless it is all slashes. `DirnameOfJoin` states the round trip with `Join`. |
| Paths.Join | app.py:22 | Definition of `posixpath.join` for two components. `JoinKeepsSuffix` and `DirnameOfJoin` state what it keeps. |
| Paths.GifPathPlacement | app.py:21-22 | The GIF lies in the archive's directory. Its base name is the `splitext` stem of the archive's base name plus `.gif`. |
| Selection.IsFrameName | app.py:41 | Definition of the frame filter `file.lower().endswith(('.jpg', '.jpeg'))`. `FrameNameSpelled` states it as a suffix test up to ASCII case. |
| Selection.IsArchiveName | app.py:87 | Definition of the archive filter `file.lower().endswith('.zip')`. `ArchiveNameSpelled` states it as a suffix test up to ASCII case. |
| Selection.Collect | app.py:39-42 | A path is collected iff some walked file with a kept name joins to it. No more paths than files are collected, and none at all iff no name is kept. |
| Selection.CollectAppend | app.py:85-89 | Collecting keeps walk order: two consecutive stretches of the walk contribute their paths one after the other. |
| Selection.CollectSnoc | app.py:39-42 | One more walked file adds its joined path at the end iff its name is kept. |
| Selection.LowerEndsWith | app.py:41 | The lower-cased name ends with a lower-case suffix iff the name ends with that suffix in some mixture of ASCII case. |
| Selection.FrameNameSpelled | app.py:41 | A name is a frame iff it ends with `.jpg` or `.jpeg` in any ASCII case. |
| Selection.ArchiveNameSpelled | app.py:87 | A name is an archive iff it ends with `.zip` in any ASCII case. |
| Selection.SelectionIgnoresCase | app.py:41 | Names that differ only in ASCII case are selected alike, both as frames and as archives. |
| Selection.ArchiveSuffixShape | app.py:87 | A selected archive name ends with a dot followed by three characters that are not dots. |
| Ordering.StrLe | app.py:48 | Definition of Python's string `<=`: lexicographic by code point, with a proper prefix first. The four order lemmas below state that it is a total order. |
| Ordering.StrLeReflexive | app.py:48 | Python's string `<=` is reflexive. |
| Ordering.StrLeAntisymmetric | app.py:48 | Two strings that are each `<=` the other are equal. |
| Ordering.StrLeTransitive | app.py:48 | Python's string `<=` is transitive. |
| Ordering.StrLeTotal | app.py:48 | Any two strings are comparable under `<=`. |
| Ordering.SortedPairwise | app.py:48 | In a list whose adjacent elements are non-decreasing, every element is `<=` every later one. |
| Ordering.Insert | app.py:48 | Inserting into a sorted list gives a sorted list with one more element, holding the same strings plus the inserted one. |
| Ordering.Sort | app.py:48 | The sorted frame list is non-decreasing at every adjacent pair and is a permutation of the collected list. |
| Ordering.StrLeCommonPrefix | app.py:48 | A shared prefix does not change how two strings compare. |
| Ordering.SortedSameHead | app.py:48 | Two sorted permutations of each other start with the same string. |
| Ordering.SortedTail | app.py:48 | Dropping the first element of a sorted list leaves it sorted. |
| Ordering.SortedUnique | app.py:48 | Two sorted permutations of the same strings are equal. |
| Ordering.SortIgnoresInputOrder | app.py:48 | Frame order depends only on which paths were collected, never on the order the walk reported them in. |
| Ordering.SortIdempotent | app.py:48 | An already sorted list is left unchanged by the sort. |
| Ordering.CharacterOrderNotNumeric | app.py:47-48 | The order compares characters, not numbers: `frame10.jpg` comes before `frame2.jpg`. |
| Archive.FramePaths | app.py:38-42 | Definition: the joined paths of the extracted `.jpg`/`.jpeg` files in walk order. `Collect`'s contract characterises them. |
| Archive.LoadImages | app.py:51-57 | Decoding succeeds iff no file fails, and then it yields one image per file in the same order. Otherwise it stops at the first failing file and names it. |
| Archive.ProcessZipFile | app.py:17-79 | Skip happens iff the GIF exists. A GIF is written iff the outcome is Success, and it is written at the derived path. The "no usable images" warning never occurs. |
| Archive.ConvertFrames | app.py:38-76 | The steps after extraction never skip. A GIF is written iff the outcome is Success, and then at the given path. The "no usable images" warning never occurs. |
| Archive.ConvertClassification | app.py:44-76 | Warning(NoJpgFiles) iff no frame was collected; Error naming f iff f is the least collected frame that fails to decode; Success iff frames exist, all decode and encoding succeeds. |
| Archive.SortKeepsMembers | app.py:48 | Sorting keeps exactly the collected paths. |
| Archive.FailureClassified | app.py:48-57 | When decoding the sorted frames stops at a file, that file is the least failing frame and the only one that qualifies. |
| Archive.NoFailureClassified | app.py:48-57 | When every sorted frame decodes, no collected frame fails to decode. |
| Archive.FirstFailureIsLeast | app.py:48-57 | In sorted order, the first file that fails is the least failing frame in string order. |
| Archive.Classification | app.py:32-76 | Once the GIF is absent: failed extraction gives Error; Warning(NoJpgFiles) iff no frame was selected; Error naming f iff f is the least collected frame that fails to decode; Success iff frames exist, all decode and encoding succeeds. |
| Archive.WrittenAnimation | app.py:62-70 | On success the encoder gets every collected frame, sorted, with the delay read from the archive's base name, loop 0 (forever) and disposal 2. |
| Archive.ConvertedAnimation | app.py:48-70 | After a successful conversion, the encoder gets the frames sorted and as a permutation of those collected, with the given delay, loop 0 and disposal 2. |
| Archive.ExistingGifSkips | app.py:25-26 | When the GIF exists the outcome is Skip and nothing is written, whatever the archive holds and whatever the image library would do. |
| Archive.ZipSuffixReplaced | app.py:21 | For an archive selected by `.zip` in any case, the GIF's base name replaces those four characters by `.gif`. If only dots precede them, `.gif` is appended instead. |
| Batch.Count | app.py:118-130 | The reference count of completions of one kind, against which `DrainCounts` states the drain loop's meaning. Its own contract is only the bound that a bucket holds no more completions than there are. |
| Batch.Drain | app.py:111-130 | The drain loop as a left fold over the completions. Its own contract is only the bound that the counters sum to at most the number of completions; `DrainCounts` states what each counter counts. |
| Batch.BucketOf | app.py:118-130 | Definition of which counter a completion feeds: success to processed, skip to skipped, error or exception to errors, warning to none. `DrainCounts` and `BucketsPartition` state its consequences. |
| Batch.Record | app.py:118-130 | Definition of one turn of the drain loop, adding one to the completion's counter. `DrainCounts` states the result of the whole loop. |
| Batch.ArchivePaths | app.py:84-89 | Definition: the joined paths of the walked `.zip` files in walk order. `Collect`'s contract characterises them, and `ProcessFolder` reports "no archives" iff there are none. |
| Batch.DrainCounts | app.py:118-130 | `processed` counts successes, `skipped` counts skips, and `errors` counts errors plus exceptions from futures. Warnings change no counter. |
| Batch.BucketsPartition | app.py:118-130 | Every completion falls into exactly one of the four kinds. |
| Batch.CountersAddUp | app.py:118-130 | processed + skipped + errors equals the number of completions minus the warnings. |
| Batch.CountPermutation | app.py:111 | The number of completions of a kind is the same for every order of completion. |
| Batch.DrainOrderIndependent | app.py:111-130 | The final tally is the same for every permutation of the completion order. |
| Batch.CpuOr4 | app.py:104 | The CPU figure used for sizing is at least 1. |
| Batch.WorkerCount | app.py:101-104 | An override is used unchanged. Otherwise the count is the least of the CPU figure, 10 and the archive count, so with at least one archive it lies between 1 and 10. |
| Batch.ProcessFolder | app.py:81-136 | The run reports "no archives" iff no walked name is an archive. The pool is refused iff there are archives and the override is below 1. Otherwise the total is the archive count, and the worker count is the sizing rule's result: the override unchanged, or at most 10 and no more than the archives. `processed` counts the successes, `skipped` the skips and `errors` the errors plus exceptions, so the counters sum to the total minus the warnings. |
| Batch.FolderOrderIndependent | app.py:106-136 | The summary of a batch is the same whichever order the archives finish in. |
| Batch.AllSkipsTally | app.py:121-122 | Draining nothing but skips counts every one of them as skipped and nothing else. |
| Batch.RerunSkipsEverything | app.py:25-26 | Re-running once every GIF exists skips every archive, and the tally shows all of them skipped and none processed or failed. |
| Scenario.ZipNameSelected | app.py:87 | A name ending in `.zip` is selected as an archive. |
| Scenario.JpgNameSelected | app.py:41 | A name ending in `.jpg` is selected as a frame. |
| Scenario.PlainPathParts | app.py:21-22 | For `dir/name` with a directory not ending in a slash, the base name is `name` and the directory name is `dir`. |
| Scenario.ExampleStem | app.py:21 | The `splitext` stem of `clip@100ms.zip` is `clip@100ms`. |
| Scenario.ExamplePathParts | app.py:21-22 | `d/clip@100ms.zip` has base name `clip@100ms.zip` and directory name `d`. |
| Scenario.ExampleJoin | app.py:22 | Joining `d` and `clip@100ms.gif` gives `d/clip@100ms.gif`. |
| Scenario.ExampleGifPath | app.py:21-22 | `d/clip@100ms.zip` maps to `d/clip@100ms.gif`. |
| Scenario.ExampleFrameCollected | app.py:39-42 | A JPEG file named in `d/t` is collected as `d/t/<name>`, after what was collected before. |
| Scenario.ExampleCollected | app.py:38-42 | A scratch walk reporting `c.jpg`, `a.jpg`, `b.jpg` collects the three joined paths in that order. |
| Scenario.ExampleSortedFrames | app.py:48 | `d/t/a.jpg`, `d/t/b.jpg`, `d/t/c.jpg` are in ascending order. |
| Scenario.ExampleFrames | app.py:38-48 | The walk order c, a, b yields the frames a, b, c in name order. |
| Scenario.ExampleFramesAnyOrder | app.py:38-48 | Any walk that collects the same three paths, in any order, yields the frames a, b, c in name order; the general fact is `Ordering.SortIgnoresInputOrder`. |
| Scenario.ExampleArchive | app.py:17-76 | The example archive yields Success at `d/clip@100ms.gif`, with three frames in name order, a 100 ms delay, an endless loop and disposal 2. |
| Scenario.ExampleArchivePaths | app.py:85-89 | A walk reporting only `clip@100ms.zip` in `d` discovers `d/clip@100ms.zip`. |
| Scenario.ExampleDrain | app.py:118-120 | One success is tallied as one processed archive, with nothing skipped or failed. |
| Scenario.ExampleBatch | app.py:81-136 | A root holding only the example archive gives a total of 1, one worker, and a tally of 1 processed, 0 skipped and 0 errors. |

## Left out

- ZIP extraction, the scratch directory's lifecycle and `os.walk` are file-system I/O. Their results are inputs: `Env.extracted` (absent when extraction fails) and the walk sequences of `WalkEntry`.
- `os.path.exists` is input as the set `Env.existing` of paths that exist.
- Image decoding and GIF encoding belong to PIL. Decoding is the input set `Env.undecodable`, and encoding is the flag `Env.encodes`. Pixel data is not modelled: a decoded image is named by its source file.
- Archive.LoadImages: a decoded image is represented by the path it came from, so the contract says the image list equals the file list rather than describing pixel data.
- Archive.ProcessZipFile: an encoder that fails after writing part of a file is modelled as writing nothing. Closing the images is not modelled.
- Archive.ProcessZipFile: assumes the scratch directory is removed without error. Leaving the `with tempfile.TemporaryDirectory(...)` block at app.py:32 deletes the directory, and if that deletion raises, the exception replaces the pending `return` at app.py:45, 57 or 76 and reaches the `except` at app.py:78-79. The outcome is then an error even when the GIF has already been written, which the contract's "a GIF is written iff Success" does not cover.
- Only `posixpath` is modelled. On Windows `os.path` at app.py:21-22, app.py:42 and app.py:88 is `ntpath`, with backslash separators and drive letters, which this model does not describe.
- Exception messages (`str(e)`) and the tool's console messages are text only. Every exception caught by the processor's outer `try` is `Fault.Unexpected`.
- `ThreadPoolExecutor` and `as_completed` are not modelled as concurrency. The completion order is a parameter, and `ProcessFolder` requires one completion per discovered archive, which is what the pool delivers.
- The argument parsing, the `os.path.isdir` check in `main` and all `print` output are console plumbing.
- Characters are restricted to ASCII. Python's `\d` and `int()` also accept non-ASCII decimal digits, and `str.lower()` lower-cases non-ASCII letters (the Kelvin sign becomes `k`). Neither is modelled.
- `os.cpu_count()` is a parameter (`None` when unknown).
- Interval.FindMsInFilename: does not model the limit on the length of the digit string that Python's `int()` accepts. From Python 3.11, and in the security releases of 3.7-3.10, a group longer than `sys.get_int_max_str_digits()` (4300 by default) raises `ValueError` at app.py:14, and `process_zip_file` would report an error (app.py:78-79). The function only reads base names of files found on disk, and those are limited to 255 bytes on common file systems, so no such name reaches it.
