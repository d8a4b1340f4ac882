/**
 * The decision `pickVideo` takes once the picked file's metadata is read: the
 * size alone decides whether the file is copied; a MIME type other than
 * `video/mp4` only adds an alert.
 */
module VideoGate {

  /** `MAX_FILE_SIZE`: 5 MiB, the only ceiling the page applies, videos included. */
  const MaxFileSize: nat := 5 * 1024 * 1024

  /** `ALLOWED_MIME_TYPE`. */
  const AllowedMimeType: string := "video/mp4"

  /** The alerts the page raises, in the words it uses. */
  const TooLargeAlert: string := "Error You cannot upload more than 5mb."
  const CopiedAlert: string := "aaa"
  const WrongTypeAlert: string := "Error Incorrect file type."

  /** The metadata read from the resolved file. */
  datatype Metadata = Metadata(size: nat, mimeType: string)

  /** Whether the copy is issued, and the alerts shown, in order. */
  datatype Verdict = Verdict(copy: bool, alerts: seq<string>)

  function Decide(m: Metadata): (v: Verdict)
    ensures v.copy <==> m.size <= 5242880
    ensures |v.alerts| == if m.mimeType == AllowedMimeType then 1 else 2
    ensures v.alerts[0] == (if v.copy then CopiedAlert else TooLargeAlert)
    ensures WrongTypeAlert in v.alerts <==> m.mimeType != "video/mp4"
  {
    var first := if m.size > MaxFileSize then [TooLargeAlert] else [CopiedAlert];
    var alerts := if m.mimeType != AllowedMimeType then first + [WrongTypeAlert] else first;
    Verdict(m.size <= MaxFileSize, alerts)
  }

  /** The MIME type never gates the copy: two files of the same size get the same copy decision
      whatever their types. */
  lemma TypeNeverGates(size: nat, t1: string, t2: string)
    ensures Decide(Metadata(size, t1)).copy == Decide(Metadata(size, t2)).copy
  {
  }

  /** A 50 MiB QuickTime clip is refused for its size and alerted for its type; a 2 MiB clip of
      the same type is still copied, with the type alert after the copy. */
  lemma QuickTimeExamples()
    ensures Decide(Metadata(50 * 1024 * 1024, "video/quicktime"))
         == Verdict(false, [TooLargeAlert, WrongTypeAlert])
    ensures Decide(Metadata(2 * 1024 * 1024, "video/quicktime"))
         == Verdict(true, [CopiedAlert, WrongTypeAlert])
    ensures Decide(Metadata(5 * 1024 * 1024, "video/mp4")) == Verdict(true, [CopiedAlert])
  {
  }
}
