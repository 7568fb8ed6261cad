/** The process-wide constants of exfix.py and the per-file status. */
module Tags {

  /** Tags Immich reads a capture date from: a file carrying any of them needs no repair. */
  const ImmichDateTags: seq<string> := [
    "SubSecDateTimeOriginal",
    "DateTimeOriginal",
    "SubSecCreateDate",
    "CreationDate",
    "CreateDate",
    "SubSecMediaCreateDate",
    "MediaCreateDate",
    "DateTimeCreated",
    "SourceImageCreateTime"
  ]

  /** Tags a capture date may be copied from, most preferred first. */
  const FallbackTags: seq<string> := [
    "GPSDateTime",
    "GPSDateStamp",
    "SubSecModifyDate",
    "ModifyDate",
    "FileModifyDate"
  ]

  /** The tag a repair writes. */
  const WriteTarget: string := "SubSecDateTimeOriginal"

  /** The outcome of handling one file; each value has its own counter in the summary. */
  datatype Status = Dry | Processed | Skipped | Missing | Error

  /** No fallback tag is listed twice, so a rank names exactly one tag. */
  lemma FallbackTagsDistinct()
    ensures forall i, j :: 0 <= i < j < |FallbackTags| ==> FallbackTags[i] != FallbackTags[j]
  {
  }

  /** The tag a repair writes is one Immich reads, and no fallback tag is an Immich tag. */
  lemma TagListsShape()
    ensures WriteTarget == ImmichDateTags[0]
    ensures forall i, j :: 0 <= i < |ImmichDateTags| && 0 <= j < |FallbackTags| ==> ImmichDateTags[i] != FallbackTags[j]
  {
  }
}
