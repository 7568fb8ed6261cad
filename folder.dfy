/** The result collection of exfix.py's `process_folder`: every file becomes
    one job, each worker hands back a status or an exception, and the results
    are folded into five counters. The worker pool and the order in which
    results complete are not modelled; the counts are shown not to depend on
    that order. */
module Folder {
  import opened Wrappers
  import opened Tags
  import opened Repair

  /** The five counters printed at the end of a run. */
  datatype Summary = Summary(processed: nat, skipped: nat, missing: nat, error: nat, dry: nat)

  /** How many of `results` are the status `s`. */
  function Count(results: seq<Result<Status>>, s: Status): nat
  {
    multiset(results)[Ok(s)]
  }

  /** How many of `results` are a status rather than an exception. */
  function Completed(results: seq<Result<Status>>): nat
  {
    if results == [] then 0
    else Completed(results[..|results| - 1]) + (if results[|results| - 1].Ok? then 1 else 0)
  }

  /** The counting loop of `process_folder`: each status adds one to its own
      counter, an exception is only logged. */
  method CollectResults(results: seq<Result<Status>>) returns (summary: Summary)
    ensures summary.processed == Count(results, Processed)
    ensures summary.skipped == Count(results, Skipped)
    ensures summary.missing == Count(results, Missing)
    ensures summary.error == Count(results, Error)
    ensures summary.dry == Count(results, Dry)
  {
    var missingExif, processed, skipped, error, dry := 0, 0, 0, 0, 0;
    for i := 0 to |results|
      invariant processed == Count(results[..i], Processed)
      invariant skipped == Count(results[..i], Skipped)
      invariant missingExif == Count(results[..i], Missing)
      invariant error == Count(results[..i], Error)
      invariant dry == Count(results[..i], Dry)
    {
      assert results[..i + 1] == results[..i] + [results[i]];
      match results[i] {
        case Ok(status) =>
          match status {
            case Processed => processed := processed + 1;
            case Skipped => skipped := skipped + 1;
            case Missing => missingExif := missingExif + 1;
            case Error => error := error + 1;
            case Dry => dry := dry + 1;
          }
        case Raised(_) =>
      }
    }
    assert results[..|results|] == results;
    summary := Summary(processed, skipped, missingExif, error, dry);
  }

  /** One more result adds one to the counter of its own status and nothing to
      the others; an exception adds nothing anywhere. */
  lemma CountStep(results: seq<Result<Status>>, r: Result<Status>)
    ensures forall s :: Count(results + [r], s) == Count(results, s) + (if r == Ok(s) then 1 else 0)
    ensures Completed(results + [r]) == Completed(results) + (if r.Ok? then 1 else 0)
  {
    assert (results + [r])[..|results|] == results;
  }

  /** The five counters add up to the number of results that are not
      exceptions, hence to at most the number of files. */
  lemma {:induction false} CountsAddUp(results: seq<Result<Status>>)
    ensures Count(results, Processed) + Count(results, Skipped) + Count(results, Missing)
            + Count(results, Error) + Count(results, Dry) == Completed(results)
    ensures Completed(results) <= |results|
  {
    if results != [] {
      var init := results[..|results| - 1];
      CountsAddUp(init);
      var r := results[|results| - 1];
      assert results == init + [r];
      CountStep(init, r);
      assert Count(results, Processed) == Count(init, Processed) + (if r == Ok(Processed) then 1 else 0);
      assert Count(results, Skipped) == Count(init, Skipped) + (if r == Ok(Skipped) then 1 else 0);
      assert Count(results, Missing) == Count(init, Missing) + (if r == Ok(Missing) then 1 else 0);
      assert Count(results, Error) == Count(init, Error) + (if r == Ok(Error) then 1 else 0);
      assert Count(results, Dry) == Count(init, Dry) + (if r == Ok(Dry) then 1 else 0);
      assert Completed(results) == Completed(init) + (if r.Ok? then 1 else 0);
      if r.Ok? {
        match r.value
        case Processed =>
        case Skipped =>
        case Missing =>
        case Error =>
        case Dry =>
      }
    }
  }

  /** The counters do not depend on the order in which results complete. */
  lemma CountsIgnoreOrder(results: seq<Result<Status>>, reordered: seq<Result<Status>>, s: Status)
    requires multiset(results) == multiset(reordered)
    ensures Count(results, s) == Count(reordered, s)
  {
  }

  /** The results of a batch, one per job, each computed from its own job only. */
  function RunAll(jobs: seq<Job>, dryRun: bool, backup: bool): (results: seq<Result<Status>>)
    ensures |results| == |jobs|
  {
    seq(|jobs|, k requires 0 <= k < |jobs| => Worker(jobs[k], dryRun, backup))
  }

  /** The results of a batch are those of all its files but the last,
      followed by the last file's. */
  lemma RunAllSnoc(jobs: seq<Job>, dryRun: bool, backup: bool)
    requires jobs != []
    ensures RunAll(jobs, dryRun, backup)
            == RunAll(jobs[..|jobs| - 1], dryRun, backup) + [Worker(jobs[|jobs| - 1], dryRun, backup)]
  {
  }

  /** A failure forced on one file leaves the result of every other file as it was. */
  lemma FailureIsIsolated(jobs: seq<Job>, f: nat, failed: Job, dryRun: bool, backup: bool, g: nat)
    requires f < |jobs| && g < |jobs| && g != f
    ensures RunAll(jobs[f := failed], dryRun, backup)[g] == RunAll(jobs, dryRun, backup)[g]
  {
  }

  /** For one file whose write would succeed, a dry run and a real run agree on
      every status except that the dry run says Dry where the real run says
      Processed. */
  lemma DryRunMirrorsRealRun(job: Job, backup: bool, s: Status)
    requires job.write == Ok(true)
    ensures Worker(job, true, backup) == Ok(Dry) <==> Worker(job, false, backup) == Ok(Processed)
    ensures s != Dry && s != Processed ==> (Worker(job, true, backup) == Ok(s) <==> Worker(job, false, backup) == Ok(s))
    ensures Worker(job, true, backup) != Ok(Processed) && Worker(job, false, backup) != Ok(Dry)
  {
  }

  /** The counts of a dry run mirror those of a real run: Dry stands where
      Processed would, and every other counter is the same. */
  predicate Mirrored(dry: seq<Result<Status>>, live: seq<Result<Status>>)
  {
    && Count(dry, Dry) == Count(live, Processed)
    && Count(dry, Processed) == 0 && Count(live, Dry) == 0
    && forall s :: s != Dry && s != Processed ==> Count(dry, s) == Count(live, s)
  }

  /** Appending the two runs' results for one more file keeps them mirrored. */
  lemma MirroredStep(dry: seq<Result<Status>>, live: seq<Result<Status>>, job: Job, backup: bool)
    requires Mirrored(dry, live) && job.write == Ok(true)
    ensures Mirrored(dry + [Worker(job, true, backup)], live + [Worker(job, false, backup)])
  {
    var rd, rr := Worker(job, true, backup), Worker(job, false, backup);
    CountStep(dry, rd);
    CountStep(live, rr);
    forall s | s != Dry && s != Processed
      ensures Count(dry + [rd], s) == Count(live + [rr], s)
    {
      DryRunMirrorsRealRun(job, backup, s);
    }
    DryRunMirrorsRealRun(job, backup, Dry);
  }

  /** When every write would succeed, the dry-run count of a dry run equals the
      processed count of the real run, and the other counters agree. */
  lemma {:induction false} DryRunCountsMatch(jobs: seq<Job>, backup: bool)
    requires forall k :: 0 <= k < |jobs| ==> jobs[k].write == Ok(true)
    ensures Mirrored(RunAll(jobs, true, backup), RunAll(jobs, false, backup))
  {
    if jobs != [] {
      var init, last := jobs[..|jobs| - 1], jobs[|jobs| - 1];
      DryRunCountsMatch(init, backup);
      MirroredStep(RunAll(init, true, backup), RunAll(init, false, backup), last, backup);
      RunAllSnoc(jobs, true, backup);
      RunAllSnoc(jobs, false, backup);
    }
  }

  /** A tag map with none of `tags` as a key has none of them present. */
  lemma AbsentKeys(tags: seq<string>, m: map<string, string>)
    requires forall t :: t in m ==> t !in tags
    ensures !AnyPresent(tags, m)
  {
  }

  /** Three files: one with an Immich date tag, one with only a GPS date, one
      with neither. A real run where the writes succeed processes one file,
      skips one and finds one missing. */
  lemma ThreeFileBatch(a: map<string, string>, b: map<string, string>, c: map<string, string>)
    requires a == map["SourceFile" := "a.jpg", "DateTimeOriginal" := "2021:06:01 10:00:00"]
    requires b == map["SourceFile" := "b.jpg", "GPSDateTime" := "2021:06:01 08:00:00Z"]
    requires c == map["SourceFile" := "c.jpg"]
    ensures var results := RunAll([Job("a.jpg", Ok(Some(a)), Ok(true)), Job("b.jpg", Ok(Some(b)), Ok(true)),
                                   Job("c.jpg", Ok(Some(c)), Ok(true))], false, false);
            && Count(results, Processed) == 1 && Count(results, Skipped) == 1
            && Count(results, Missing) == 1 && Count(results, Error) == 0 && Count(results, Dry) == 0
  {
    assert ImmichDateTags[1] in a;
    assert a != map[];
    assert FixExif("a.jpg", Some(a), false, false, true).status == Skipped;
    AbsentKeys(ImmichDateTags, b);
    EarliestFallbackChosen("b.jpg", b, false, false, true, 0);
    AbsentKeys(ImmichDateTags, c);
    AbsentKeys(FallbackTags, c);
    assert c != map[] by { assert "SourceFile" in c; }
    NoTagIsMissing("c.jpg", Some(c), false, false, true);
    var jobs := [Job("a.jpg", Ok(Some(a)), Ok(true)), Job("b.jpg", Ok(Some(b)), Ok(true)), Job("c.jpg", Ok(Some(c)), Ok(true))];
    assert RunAll(jobs, false, false) == [Ok(Skipped), Ok(Processed), Ok(Missing)];
  }

  /** In that batch the second file is repaired by copying its GPS date,
      overwriting the original. */
  lemma GpsDateIsCopySource(b: map<string, string>)
    requires b == map["SourceFile" := "b.jpg", "GPSDateTime" := "2021:06:01 08:00:00Z"]
    ensures FixExif("b.jpg", Some(b), false, false, true).command
            == Some(["exiftool", "-overwrite_original", "-SubSecDateTimeOriginal<GPSDateTime", "b.jpg"])
  {
    AbsentKeys(ImmichDateTags, b);
    EarliestFallbackChosen("b.jpg", b, false, false, true, 0);
    GpsCopyCommand();
  }

  /** The overwriting command that copies GPSDateTime into b.jpg. */
  lemma GpsCopyCommand()
    ensures WriteCommand("b.jpg", FallbackTags[0], false)
            == ["exiftool", "-overwrite_original", "-SubSecDateTimeOriginal<GPSDateTime", "b.jpg"]
  {
    assert CopyArgPrefix + FallbackTags[0] == "-SubSecDateTimeOriginal<GPSDateTime";
  }
}
