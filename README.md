# immich-exfix, modelled in Dafny

immich-exfix walks a directory of photos and videos and repairs capture dates for Immich.
It reads each file's metadata tags with exiftool. A file that already carries one of the date tags Immich reads
(`ImmichDateTags`) is skipped. Otherwise the file gets a `SubSecDateTimeOriginal` tag, which exiftool copies from
the first tag of a preference list (`FallbackTags`) that the file has. Files run in a process pool. Their statuses
are tallied into five counters: processed, skipped, missing, error and dry-run.

The model covers the logic of `exfix.py`:

- `tags.dfy` (module `Tags`): the two tag lists, the write target and the `Status` enumeration.
- `repair.dfy` (module `Repair`): `fix_exif` as the pure function `FixExif`. The tags the read produced (or `None`)
  and whether the write succeeds are parameters. `FixExif` returns the status, the fallback tag chosen and the
  exiftool write command it runs. The command is built by `WriteCommand` and has an inverse, `ParseWriteCommand`.
  The first-match scan over `FallbackTags` is the recursive search `FirstPresent`. `Worker` adds the exceptions
  that escape `fix_exif`: an error while reading that is not an exiftool exit status, and one while writing.
- `file_filter.dfy` (module `FileFilter`): the enumeration filter `f.suffix.lower() in SUPPORTED_EXTENSIONS`.
  It is built from `PurePath.name`, `PurePath.suffix` (via `str.rfind`) and `str.lower`. It is proved equal to a
  reference reading without `rfind`: the name is longer than a supported extension and, lower-cased, ends with it.
- `folder.dfy` (module `Folder`): the counting loop of `process_folder`, written as the method `CollectResults`.
  Its five counters are proved equal to multiset counts of the worker results. That makes them independent of the
  order in which results complete. Lemmas add the counts up, isolate failures, compare a dry run with a real run
  and work through a three-file batch.
- `wrappers.dfy` (module `Wrappers`): `Option`, and `Result`, which holds either a returned value or an escaped exception.

Two facts about the code shape the model:

- An exception escaping a worker is only logged and adds to no counter (exfix.py:139-140). So the counters can add
  up to fewer than the number of files (`Folder.CountsAddUp`).
- An empty or failed read is caught by the `not exif_data` test at exfix.py:72 and gives an error status.

## Model

| member | source | states |
|---|---|---|
| `Tags.FallbackTagsDistinct` | exfix.py:26-32 | no fallback tag appears twice, so a rank names exactly one tag |
| `Tags.TagListsShape` | exfix.py:13-32 | the tag a repair writes is the first Immich date tag; no fallback tag is an Immich date tag |
| `Repair.AnyPresent` | exfix.py:77 | `any(tag in exif for tag in tags)`: true only for a non-empty map and a non-empty list; `AnyPresentMeansSharedTag` shows it holds exactly when the list and the map share a tag |
| `Repair.AnyPresentMeansSharedTag` | exfix.py:77 | some listed tag is present exactly when some tag is both in the list and a key of the map |
| `Repair.FirstPresent` | exfix.py:83-85 | the scan returns the rank of a fallback tag present in the map, all earlier ranks are absent; it finds nothing exactly when no listed tag is present |
| `Repair.WriteCommand` | exfix.py:91-94 | the command is `exiftool`, then `-overwrite_original` exactly when no backup is asked for, then `-SubSecDateTimeOriginal<` + tag, then the file path |
| `Repair.WriteCommandRoundTrip` | exfix.py:91-94 | reading a write command back gives exactly the file, source tag and write mode it was built from |
| `Repair.ParsedCommandIsWriteCommand` | exfix.py:91-94 | every command that reads back as a request is the one built for that request (the encoding is a bijection) |
| `Repair.FixExif` | exfix.py:69-108 | a chosen tag is a fallback tag the file has; a write command exists exactly when a tag was chosen outside a dry run and is the command for that tag; Dry only in a dry run, Processed only after a successful write |
| `Repair.NoDataIsError` | exfix.py:71-74 | a failed or empty read gives Error with no tag and no write, and it is the only way to get that result |
| `Repair.ImmichTagSkips` | exfix.py:77-80 | Skipped exactly when the file has tags including an Immich date tag, whatever else it carries; nothing is chosen or written then |
| `Repair.EarliestFallbackChosen` | exfix.py:83-105 | with no Immich tag, the earliest fallback tag present is chosen; a dry run gives Dry and no write; otherwise that tag's command is run and the write outcome gives Processed or Error |
| `Repair.LaterFallbackNeverChosen` | exfix.py:83-85 | a later fallback tag is never chosen while an earlier one is present |
| `Repair.NoTagIsMissing` | exfix.py:107-108 | Missing exactly when the file has tags but neither an Immich date tag nor a fallback tag |
| `Repair.DryRunNeverWrites` | exfix.py:86-88 | a dry run builds no write command, its result does not depend on the write outcome, and it reports Dry exactly when a successful real run reports Processed |
| `Repair.RepairedFileIsSkipped` | exfix.py:77-94 | once the write target tag is present, handling the file again skips it |
| `Repair.Worker` | exfix.py:54-108 | one worker's result: the status `fix_exif` returns, or the exception that escapes the read or the write; its properties are stated by `WriteMattersOnlyWhenWriting`, `DryRunRaisesOnlyOnRead` and `WriteExceptionEscapes` |
| `Repair.WriteMattersOnlyWhenWriting` | exfix.py:86-105 | when the read raised or no write command is built, the write's outcome (success, exiftool error or exception) does not change the worker's result |
| `Repair.DryRunRaisesOnlyOnRead` | exfix.py:54-88 | in a dry run a worker raises exactly when the read raises |
| `Repair.WriteExceptionEscapes` | exfix.py:54-105 | in a real run, a repairable file whose write raises makes the worker raise that exception; the same file with an exiftool read error is counted as an error |
| `FileFilter.LastIndexOf` | exfix.py:113 | `rfind`: -1 when the character is absent, otherwise an index holding it with none after it |
| `FileFilter.Name` | exfix.py:113 | the name is the ending of the path that holds no '/' and starts right after a '/' or at the start of the path |
| `FileFilter.Suffix` | exfix.py:113 | `PurePath.suffix`: a non-empty suffix starts with '.', has at least two characters and is shorter than the name; `NoSuffixExactly` and `SuffixEndsName` state when it is empty and what it is |
| `FileFilter.NoSuffixExactly` | exfix.py:113 | a name has no suffix exactly when it is empty, ends with '.', or has no '.' after its first character |
| `FileFilter.BareNameIsName` | exfix.py:113 | a path without '/' is its own name |
| `FileFilter.LowerChar` | exfix.py:113 | lower-casing maps '.' to '.' and nothing else to '.'; it never yields 'A'-'Z'; 'A'-'Z' go to the matching 'a'-'z'; every character other than 'A'-'Z' and the Kelvin sign is unchanged |
| `FileFilter.Lower` | exfix.py:113 | `str.lower` on a string: the length is kept, no 'A'-'Z' is left, and a position holds '.' after lower-casing exactly when it did before |
| `FileFilter.LowerIdempotent` | exfix.py:113 | lower-casing an already lower-cased string changes nothing |
| `FileFilter.ExtensionShape` | exfix.py:34-43 | every supported extension is a dot followed by at least one non-dot character |
| `FileFilter.SuffixEndsName` | exfix.py:113 | a non-empty suffix is a dotted extension that ends the name and is shorter than it |
| `FileFilter.SuffixOfDottedEnding` | exfix.py:113 | when the lower-cased name ends with a dotted extension shorter than it, that ending is the lower-cased suffix |
| `FileFilter.SupportedSuffixEndsName` | exfix.py:113 | a name whose lower-cased suffix is supported ends with that extension and is longer than it |
| `FileFilter.EndingIsSupportedSuffix` | exfix.py:113 | a name that ends, lower-cased, with a supported extension and is longer than it has a supported lower-cased suffix |
| `FileFilter.IsSupported` | exfix.py:113 | the enumeration filter `f.suffix.lower() in SUPPORTED_EXTENSIONS`; `SupportedIffEndsWithExtension` shows it keeps exactly the paths whose name, lower-cased, ends with a supported extension and is longer than it |
| `FileFilter.SupportedIffEndsWithExtension` | exfix.py:113 | a path is enumerated exactly when its name, lower-cased, ends with a supported extension and is longer than it |
| `FileFilter.NameAfterSeparator` | exfix.py:113 | the name of `dir/name` is `name` |
| `FileFilter.KeptWhateverTheCase` | exfix.py:113 | a non-empty stem plus an extension that lower-cases to a supported one is enumerated, whatever its letter case |
| `FileFilter.KelvinSignLowersToK` | exfix.py:113 | the Kelvin sign lower-cases to 'k', so ".M", U+212A, "V" counts as ".mkv" |
| `FileFilter.HiddenFileNotKept` | exfix.py:113 | a file named exactly like an extension (".jpg") has no suffix and is not enumerated |
| `FileFilter.LoweredSuffixOfEnding` | exfix.py:113 | a name ending with a dotted extension shorter than it has that extension, lower-cased, as its lower-cased suffix |
| `FileFilter.LastExtensionCounts` | exfix.py:113 | only the last extension counts: "x.jpg.txt" is not enumerated |
| `Folder.CollectResults` | exfix.py:116-140 | each final counter is the number of worker results equal to its status; exceptions count nowhere |
| `Folder.CountStep` | exfix.py:125-140 | one more status adds 1 to its own counter and 0 to the other four; an exception adds nothing |
| `Folder.CountsAddUp` | exfix.py:116-140 | the five counters add up to the number of results that are not exceptions, at most the number of files |
| `Folder.CountsIgnoreOrder` | exfix.py:124-137 | results completing in any other order give the same counters |
| `Folder.RunAll` | exfix.py:118-124 | one result per file |
| `Folder.RunAllSnoc` | exfix.py:118-124 | a batch's results are those of its first files followed by the last file's |
| `Folder.FailureIsIsolated` | exfix.py:118-126 | forcing a failure on one file leaves every other file's result unchanged |
| `Folder.DryRunMirrorsRealRun` | exfix.py:86-102 | for a file whose write would succeed, a dry run says Dry exactly where a real run says Processed, and they agree on every other status |
| `Folder.MirroredStep` | exfix.py:125-137 | adding one file's dry-run and real-run results keeps the two tallies mirrored |
| `Folder.DryRunCountsMatch` | exfix.py:116-140 | when every write would succeed, the dry-run counter of a dry run equals the processed counter of a real run, and the other counters agree |
| `Folder.AbsentKeys` | exfix.py:77 | a map with none of the listed tags as keys has none of them present |
| `Folder.ThreeFileBatch` | exfix.py:69-140 | files with an Immich tag, with only GPSDateTime, and with neither give processed 1, skipped 1, missing 1, error 0 |
| `Folder.GpsDateIsCopySource` | exfix.py:83-94 | the GPS-dated file is written with `exiftool -overwrite_original -SubSecDateTimeOriginal<GPSDateTime b.jpg` |

## Left out

- exiftool processes. The read in `read_exif` (exfix.py:54-66) and the write (exfix.py:96-101) are external.
  Their outcomes are inputs to `Worker`. A read is tags, an exiftool error (`None`) or an escaped exception.
  A write is success, an exiftool error or an escaped exception. The effect of the write on the file is not modelled.
- JSON decoding. A read that succeeds is modelled as a map from tag names to strings. exiftool's `-j` output holds
  one object per file. Tag values may be JSON numbers, but they are only printed.
- Falsy non-map JSON values in the `not exif_data` test cannot arise from a map. The model's read has no such values.
- The process pool and `as_completed` scheduling (exfix.py:118-124). Results are folded in sequence, and
  `CountsIgnoreOrder` shows that completion order does not matter. For any `workers` count of 1 or more, the count
  does not affect the counters.
- A `workers` count of 0 or less. argparse accepts any integer (exfix.py:157-159), and `ProcessPoolExecutor`
  at exfix.py:118 then raises ValueError. Nothing is counted, no summary is printed, and the exception leaves
  `process_folder`. The model has no pool, so it does not capture this.
- A worker process that dies outright (killed, or crashed in native code). The pool is then broken, and every
  unfinished future's `result()` at exfix.py:126 raises BrokenProcessPool. That is logged at exfix.py:139-140 and
  counted nowhere, so one file's crash changes other files' results. `Folder.FailureIsIsolated` covers only
  failures raised inside a worker's own read and write, which are the only failures the model has.
- `Path.rglob` traversal (exfix.py:112-113). Only the per-path predicate is modelled.
- Directories that pass the filter. `rglob` also yields directories, and the filter has no file test, so a
  directory named like `album.jpg` is enumerated. exiftool accepts a directory: the read at exfix.py:63 takes the
  first record of the files inside it as the directory's tags, and a real run's write (exfix.py:91-101) rewrites
  every file in that directory. Those files are also enumerated on their own, so two workers can write the same
  file. The model treats every job as one file with its own tags and does not capture this.
- `FileFilter.Suffix` follows `PurePath.suffix` of CPython 3.10 to 3.13: the text from the last '.', when that dot
  is neither the first nor the last character of the name. Later versions compute the suffix differently, and the
  filter can differ for some names: for instance a name of dots followed by an extension, such as "..jpg", may get
  no suffix there. The model does not cover those versions. Only '/' is a path separator.
- `FileFilter.Name` agrees with `PurePath.name` only on normalised paths: it gives "" for "a/" and "." for
  "a/.", where `PurePath` gives "a" for both. `rglob` yields only normalised paths (no trailing '/', no "."
  component), so the filter is unaffected.
- `FileFilter.LowerChar` covers only the characters whose Python lower case is one ASCII character: 'A'-'Z' and
  U+212A KELVIN SIGN. Every other character is left as it is. Python's other lower-case mappings give non-ASCII
  text, which can never equal a supported extension, so the filter is unaffected.
- `argparse`, the `is_dir` check and `sys.exit(1)` in `main` (exfix.py:152-182).
- Printing: every log line and the summary (exfix.py:65, 73, 79, 87, 90, 104, 107, 115, 142-149). The `verbose`
  flag only decides whether the skip line at exfix.py:78-79 is printed. It is not a parameter of the model, so no
  status can depend on it.
- The tag value read at exfix.py:85 only appears in log lines. The write makes exiftool read the source tag again
  from the file, so the value is not part of `FixResult`.
