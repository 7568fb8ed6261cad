/** The per-file decision of exfix.py (`fix_exif`): given the tags read from one
    file, decide whether it needs nothing, can be repaired from a fallback tag,
    or cannot be repaired, and build the exiftool command that repairs it.
    The exiftool processes themselves are not modelled: what the read returned
    and whether the write succeeded are parameters. */
module Repair {
  import opened Wrappers
  import opened Tags

  /** What `fix_exif` decided for one file: the status it returns, the fallback
      tag it picked (if any) and the write command it ran (if it ran one). */
  datatype FixResult = FixResult(status: Status, tag: Option<string>, command: Option<seq<string>>)

  /** Does `m` have any of `tags` as a key? (Python's `any(tag in m for tag in tags)`) */
  predicate AnyPresent(tags: seq<string>, m: map<string, string>)
    ensures AnyPresent(tags, m) ==> m != map[] && tags != []
  {
    exists i :: 0 <= i < |tags| && tags[i] in m
  }

  /** Some listed tag is present exactly when the list and the map share a tag. */
  lemma AnyPresentMeansSharedTag(tags: seq<string>, m: map<string, string>)
    ensures AnyPresent(tags, m) <==> exists t :: t in tags && t in m
  {
  }

  /** The rank of the first entry of `tags` that is a key of `m`: a scan in list
      order that stops at the first match. */
  function FirstPresent(tags: seq<string>, m: map<string, string>): (r: Option<nat>)
    ensures r.Some? ==> r.value < |tags| && tags[r.value] in m
    ensures r.Some? ==> forall j :: 0 <= j < r.value ==> tags[j] !in m
    ensures r.None? <==> !AnyPresent(tags, m)
  {
    if tags == [] then None
    else if tags[0] in m then Some(0)
    else match FirstPresent(tags[1..], m)
      case None => None
      case Some(k) => Some(k + 1)
  }

  /** The argument asking exiftool to copy a source tag into the write target. */
  const CopyArgPrefix: string := "-" + WriteTarget + "<"

  /** The exiftool command that repairs `path` from tag `ftag`: the original is
      overwritten in place unless `backup` asks exiftool to keep it. */
  function WriteCommand(path: string, ftag: string, backup: bool): (cmd: seq<string>)
    ensures |cmd| == if backup then 3 else 4
    ensures cmd[0] == "exiftool"
    ensures (cmd[1] == "-overwrite_original") <==> !backup
    ensures cmd[|cmd| - 2] == CopyArgPrefix + ftag && cmd[|cmd| - 1] == path
  {
    var cmd := ["exiftool"];
    var cmd' := if backup then cmd else cmd + ["-overwrite_original"];
    assert (CopyArgPrefix + ftag)[1] == 'S';
    cmd' + [CopyArgPrefix + ftag, path]
  }

  /** What a write command asks for: the file, the source tag, and whether the
      original is kept. */
  datatype WriteRequest = WriteRequest(path: string, sourceTag: string, backup: bool)

  /** Reads back the request a write command encodes; None for any other command. */
  function ParseWriteCommand(cmd: seq<string>): Option<WriteRequest>
  {
    if |cmd| < 3 || |cmd| > 4 || cmd[0] != "exiftool" then None
    else if |cmd| == 4 && cmd[1] != "-overwrite_original" then None
    else
      var arg := cmd[|cmd| - 2];
      if |arg| < |CopyArgPrefix| || arg[..|CopyArgPrefix|] != CopyArgPrefix then None
      else Some(WriteRequest(cmd[|cmd| - 1], arg[|CopyArgPrefix|..], |cmd| == 3))
  }

  /** The write command determines the file, the source tag and the write mode:
      reading it back gives exactly the request it was built from. */
  lemma WriteCommandRoundTrip(path: string, ftag: string, backup: bool)
    ensures ParseWriteCommand(WriteCommand(path, ftag, backup)) == Some(WriteRequest(path, ftag, backup))
  {
  }

  /** Conversely, every command that reads back as a request is the command
      built for that request. */
  lemma ParsedCommandIsWriteCommand(cmd: seq<string>)
    requires ParseWriteCommand(cmd).Some?
    ensures var req := ParseWriteCommand(cmd).value;
            WriteCommand(req.path, req.sourceTag, req.backup) == cmd
  {
    var arg := cmd[|cmd| - 2];
    assert arg == arg[..|CopyArgPrefix|] + arg[|CopyArgPrefix|..];
  }

  /** `fix_exif` for one file. `exif` is what the read returned (None when
      exiftool failed), `writeOk` whether the write would succeed; the write
      is attempted only when `command` is Some. */
  function FixExif(path: string, exif: Option<map<string, string>>, dryRun: bool, backup: bool, writeOk: bool): (r: FixResult)
    ensures r.tag.Some? ==> r.tag.value in FallbackTags && exif.Some? && r.tag.value in exif.value
    ensures r.command.Some? <==> r.tag.Some? && !dryRun
    ensures r.command.Some? ==> r.command.value == WriteCommand(path, r.tag.value, backup)
    ensures r.status == Dry ==> dryRun && r.tag.Some?
    ensures r.status == Processed ==> !dryRun && writeOk && r.tag.Some?
  {
    if exif.None? || exif.value == map[] then FixResult(Error, None, None)
    else if AnyPresent(ImmichDateTags, exif.value) then FixResult(Skipped, None, None)
    else match FirstPresent(FallbackTags, exif.value)
      case None => FixResult(Missing, None, None)
      case Some(i) =>
        var ftag := FallbackTags[i];
        if dryRun then FixResult(Dry, Some(ftag), None)
        else FixResult(if writeOk then Processed else Error, Some(ftag), Some(WriteCommand(path, ftag, backup)))
  }

  /** A file whose read failed or returned no tags is an error, and nothing is
      written; that is also the only way to get an error without a write. */
  lemma NoDataIsError(path: string, exif: Option<map<string, string>>, dryRun: bool, backup: bool, writeOk: bool)
    ensures FixExif(path, exif, dryRun, backup, writeOk) == FixResult(Error, None, None)
        <==> exif.None? || exif.value == map[]
  {
  }

  /** A file is skipped exactly when it has tags and one of them is an Immich
      date tag, whatever other tags (fallback tags included) it carries. */
  lemma ImmichTagSkips(path: string, exif: Option<map<string, string>>, dryRun: bool, backup: bool, writeOk: bool)
    ensures FixExif(path, exif, dryRun, backup, writeOk).status == Skipped
        <==> exif.Some? && exif.value != map[] && AnyPresent(ImmichDateTags, exif.value)
    ensures FixExif(path, exif, dryRun, backup, writeOk).status == Skipped
        ==> FixExif(path, exif, dryRun, backup, writeOk) == FixResult(Skipped, None, None)
  {
  }

  /** With no Immich tag, the tag used is the earliest fallback tag the file
      carries; in a real run it is written with the command built for it, and
      the write outcome decides between processed and error. */
  lemma EarliestFallbackChosen(path: string, m: map<string, string>, dryRun: bool, backup: bool, writeOk: bool, i: nat)
    requires !AnyPresent(ImmichDateTags, m)
    requires i < |FallbackTags| && FallbackTags[i] in m
    requires forall j :: 0 <= j < i ==> FallbackTags[j] !in m
    ensures var r := FixExif(path, Some(m), dryRun, backup, writeOk);
            && r.tag == Some(FallbackTags[i])
            && (dryRun ==> r.status == Dry && r.command == None)
            && (!dryRun ==> r.status == (if writeOk then Processed else Error)
                            && r.command == Some(WriteCommand(path, FallbackTags[i], backup)))
  {
  }

  /** A later fallback tag is never used while an earlier one is present. */
  lemma LaterFallbackNeverChosen(path: string, m: map<string, string>, dryRun: bool, backup: bool, writeOk: bool, i: nat, j: nat)
    requires i < j < |FallbackTags| && FallbackTags[i] in m
    ensures FixExif(path, Some(m), dryRun, backup, writeOk).tag != Some(FallbackTags[j])
  {
    FallbackTagsDistinct();
  }

  /** A file with tags is missing exactly when it carries neither an Immich
      date tag nor any fallback tag. */
  lemma NoTagIsMissing(path: string, exif: Option<map<string, string>>, dryRun: bool, backup: bool, writeOk: bool)
    ensures FixExif(path, exif, dryRun, backup, writeOk).status == Missing
        <==> exif.Some? && exif.value != map[]
             && !AnyPresent(ImmichDateTags, exif.value) && !AnyPresent(FallbackTags, exif.value)
  {
  }

  /** A dry run never writes, so its result does not depend on how the write
      would have ended; a repairable file reports Dry. */
  lemma DryRunNeverWrites(path: string, exif: Option<map<string, string>>, backup: bool, writeOk: bool, writeOk': bool)
    ensures FixExif(path, exif, true, backup, writeOk).command == None
    ensures FixExif(path, exif, true, backup, writeOk) == FixExif(path, exif, true, backup, writeOk')
    ensures FixExif(path, exif, true, backup, writeOk).status == Dry
        <==> FixExif(path, exif, false, backup, true).status == Processed
  {
  }

  /** Once a repair has written the target tag, handling the file again skips it. */
  lemma RepairedFileIsSkipped(path: string, m: map<string, string>, value: string, dryRun: bool, backup: bool, writeOk: bool)
    ensures FixExif(path, Some(m[WriteTarget := value]), dryRun, backup, writeOk).status == Skipped
  {
    TagListsShape();
    assert ImmichDateTags[0] in m[WriteTarget := value];
  }

  /** What one worker hands back: the status `fix_exif` returned, or the
      exception that escaped it. The read is Raised when an exception escapes
      the read (undecodable output, no record, no exiftool), Ok(None) when
      exiftool exited with an error; the write is Ok(true) on success,
      Ok(false) when exiftool exited with an error and Raised when another
      exception escapes it. */
  datatype Job = Job(path: string, read: Result<Option<map<string, string>>>, write: Result<bool>)

  function Worker(job: Job, dryRun: bool, backup: bool): Result<Status>
  {
    match job.read
    case Raised(e) => Raised(e)
    case Ok(exif) =>
      var fix := FixExif(job.path, exif, dryRun, backup, job.write == Ok(true));
      if fix.command.Some? && job.write.Raised? then Raised(job.write.message) else Ok(fix.status)
  }

  /** How the write would end matters only for a file that is actually written:
      when the read raised, or the decision builds no write command, any other
      write outcome gives the same worker result. */
  lemma WriteMattersOnlyWhenWriting(job: Job, write: Result<bool>, dryRun: bool, backup: bool)
    requires job.read.Raised? || FixExif(job.path, job.read.value, dryRun, backup, false).command.None?
    ensures Worker(job.(write := write), dryRun, backup) == Worker(job, dryRun, backup)
  {
  }

  /** A dry run attempts no write, so its worker raises exactly when the read raises. */
  lemma DryRunRaisesOnlyOnRead(job: Job, backup: bool)
    ensures Worker(job, true, backup).Raised? <==> job.read.Raised?
  {
  }

  /** In a real run, a repairable file whose write raises makes the worker raise
      with that exception; a file whose read ended with an exiftool error is
      counted as an error instead. */
  lemma WriteExceptionEscapes(job: Job, m: map<string, string>, backup: bool)
    requires job.read == Ok(Some(m)) && job.write.Raised?
    requires !AnyPresent(ImmichDateTags, m) && AnyPresent(FallbackTags, m)
    ensures Worker(job, false, backup) == Raised(job.write.message)
    ensures Worker(job.(read := Ok(None)), false, backup) == Ok(Error)
  {
    assert m != map[];
  }
}
