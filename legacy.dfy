/** The snapshot file of the older single-file copy (main.go): the entries
    are encoded bare, with no version envelope, so nothing is checked on
    restore beyond decoding. */
module Legacy {
  import opened Common
  import opened Smi
  import opened Snapshot

  /** main.go dumpObject: encode the bare entries, then write them. */
  function DumpEntries(codec: Codec<seq<SmiEntry>>, fs: FileSystem, fileName: string, entries: seq<SmiEntry>)
    : (r: Result<FileSystem, Error>)
    ensures codec.encode(entries).None? ==> r == Failure(EncodeError)
    ensures r.Success? ==>
              && codec.encode(entries).Some?
              && r.value == FileSystem(fs.files[fileName := codec.encode(entries).value], fs.unwritable)
    ensures r.Failure? ==> r.error == if codec.encode(entries).None? then EncodeError else IOError(fileName)
    ensures r.Success? <==> codec.encode(entries).Some? && fileName !in fs.unwritable
  {
    match codec.encode(entries)
    case None => Failure(EncodeError)
    case Some(data) => WriteFile(fs, fileName, data)
  }

  /** main.go restoreObject: read and decode; whatever decodes is accepted. */
  function RestoreEntries(codec: Codec<seq<SmiEntry>>, fs: FileSystem, fileName: string)
    : (r: Result<seq<SmiEntry>, Error>)
    ensures fileName !in fs.files ==> r == Failure(IOError(fileName))
    ensures fileName in fs.files ==>
              r == match codec.decode(fs.files[fileName])
                   case None => Failure(DecodeError)
                   case Some(entries) => Success(entries)
  {
    match ReadFile(fs, fileName)
    case Failure(e) => Failure(e)
    case Success(data) =>
      match codec.decode(data)
      case None => Failure(DecodeError)
      case Some(entries) => Success(entries)
  }

  /** Restoring what was just dumped gives back the same entries. */
  lemma LegacyRoundTrip(codec: Codec<seq<SmiEntry>>, fs: FileSystem, fileName: string, entries: seq<SmiEntry>)
    requires Lossless(codec)
    requires DumpEntries(codec, fs, fileName, entries).Success?
    ensures RestoreEntries(codec, DumpEntries(codec, fs, fileName, entries).value, fileName) == Success(entries)
  {
    assert codec.decode(codec.encode(entries).value) == Some(entries);
  }

  /** Without an envelope there is no version check: restoring never
      reports a version mismatch. */
  lemma LegacyNeverVersionMismatch(codec: Codec<seq<SmiEntry>>, fs: FileSystem, fileName: string)
    ensures !(RestoreEntries(codec, fs, fileName).Failure? &&
              RestoreEntries(codec, fs, fileName).error.VersionMismatch?)
  {
  }
}
