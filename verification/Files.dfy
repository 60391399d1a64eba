/** Reading and writing whole files, with the size check of `read_file`. */
module Files {
  import opened Basics

  const LARGEST_VALID_PAYLOAD_SIZE_BYTES: nat := 10485760

  /** The regular files that can be opened, by path. */
  type FileSystem = map<CStr, seq<byte>>

  /** `read_file`; a file of length 0 fails because `fread` then returns 0. */
  function ReadFile(files: FileSystem, path: CStr): (o: Outcome<seq<byte>>)
    ensures o.Done? <==> path in files && 1 <= |files[path]| <= LARGEST_VALID_PAYLOAD_SIZE_BYTES
    ensures o.Done? ==> o.value == files[path]
    ensures !o.Done? ==> o == Exit(EXIT_DESERIALIZATION_ERROR)
  {
    if path !in files || |files[path]| > LARGEST_VALID_PAYLOAD_SIZE_BYTES || |files[path]| == 0
    then Exit(EXIT_DESERIALIZATION_ERROR)
    else Done(files[path])
  }

  datatype Stored = Stored(files: FileSystem, outcome: Outcome<()>)

  /** `write_file`, where `opens` says whether `fopen` succeeds.  Opening truncates, and writing
      nothing fails because `fwrite` then returns 0. */
  function WriteFile(files: FileSystem, path: CStr, data: seq<byte>, opens: bool): Stored {
    if !opens then Stored(files, Exit(EXIT_DESERIALIZATION_ERROR))
    else Stored(files[path := data], if data == [] then Exit(EXIT_DESERIALIZATION_ERROR) else Done(()))
  }

  /** What was written reads back exactly when it has 1 to 10485760 bytes: the writer does not
      enforce the reader's limit.  No write touches another file, and the earlier contents survive a
      failed write only when the file could not be opened or was never readable. */
  lemma WrittenFileReadsBack(files: FileSystem, path: CStr, data: seq<byte>, opens: bool, other: CStr)
    ensures var w := WriteFile(files, path, data, opens);
      && (w.outcome.Done? && ReadFile(w.files, path) == Done(data)
          <==> opens && 1 <= |data| <= LARGEST_VALID_PAYLOAD_SIZE_BYTES)
      && (w.outcome.Done? && ReadFile(w.files, path).Exit? <==> opens && |data| > LARGEST_VALID_PAYLOAD_SIZE_BYTES)
      && (other != path ==> ReadFile(w.files, other) == ReadFile(files, other))
      && (w.outcome.Exit? ==>
            (ReadFile(w.files, path) == ReadFile(files, path) <==> !opens || ReadFile(files, path).Exit?))
  {
  }
}
