/**
 * `decrypt_zip_get_xml` (app.py:30-43): pick the first archive member whose
 * lower-cased name ends in ".xml" and read it with the share code. The ZIP
 * container and its AES decryption are foreign (pyzipper); they appear here as
 * the member list and a read function that the caller supplies.
 */
module Archive {
  import opened Wrappers
  import opened Text
  import opened Search

  newtype byte = x: int | 0 <= x < 256

  /** What `zf.read(name, pwd=...)` does: return bytes or raise. */
  datatype ReadOutcome =
    | Data(bytes: seq<byte>)
      /** a `RuntimeError`: wrong password, or a corrupted encrypted member */
    | RuntimeFailure
      /** any other exception, with its `str(e)` */
    | OtherFailure(message: string)

  /** An opened `AESZipFile`: its member names in archive order, and its reader. */
  datatype ZipFile = ZipFile(names: seq<string>, read: (string, string) -> ReadOutcome)

  const NoXmlMessage: string := "No XML file in ZIP"
  const DecryptFailedMessage: string := "Unable to decrypt ZIP; wrong share code or corrupted file"

  /** `n.lower().endswith('.xml')`: only the last four characters are looked at. */
  predicate IsXmlName(n: string)
    ensures IsXmlName(n) <==> |n| >= 4 && Lower(n[|n| - 4..]) == ".xml"
  {
    assert |n| >= 4 ==> Lower(n)[|n| - 4..] == Lower(n[|n| - 4..]);
    EndsWith(Lower(n), ".xml")
  }

  /** The member chosen by `next((n for n in names if ...), None)`. */
  function SelectXmlEntry(names: seq<string>): (r: Option<string>)
    ensures r.None? <==> forall j :: 0 <= j < |names| ==> !IsXmlName(names[j])
    ensures r.Some? ==> exists i :: 0 <= i < |names| && names[i] == r.value
                                    && IsXmlName(names[i])
                                    && forall j :: 0 <= j < i ==> !IsXmlName(names[j])
  {
    match FirstIndex(names, IsXmlName)
    case None => None
    case Some(i) => Some(names[i])
  }

  /**
   * `decrypt_zip_get_xml`. `archive` is the result of opening the archive: a
   * failure there (pyzipper's `BadZipFile`) keeps its own message. A
   * `RuntimeError` from the read becomes the one fixed message; any other
   * exception passes through with its own.
   */
  function DecryptZipGetXml(archive: Result<ZipFile, string>, shareCode: string): (r: Result<seq<byte>, string>)
    ensures archive.Success? && SelectXmlEntry(archive.value.names).None? ==> r == Failure(NoXmlMessage)
    ensures r.Success? ==> archive.Success? && SelectXmlEntry(archive.value.names).Some?
                           && archive.value.read(SelectXmlEntry(archive.value.names).value, shareCode) == Data(r.value)
    ensures archive.Success? && SelectXmlEntry(archive.value.names).Some?
            && archive.value.read(SelectXmlEntry(archive.value.names).value, shareCode).RuntimeFailure?
            ==> r == Failure(DecryptFailedMessage)
    ensures archive.Failure? ==> r == Failure(archive.error)
    ensures archive.Success? && SelectXmlEntry(archive.value.names).Some?
            && archive.value.read(SelectXmlEntry(archive.value.names).value, shareCode).OtherFailure?
            ==> r == Failure(archive.value.read(SelectXmlEntry(archive.value.names).value, shareCode).message)
  {
    match archive
    case Failure(message) => Failure(message)
    case Success(zf) =>
      match SelectXmlEntry(zf.names)
      case None => Failure(NoXmlMessage)
      case Some(name) =>
        match zf.read(name, shareCode)
        case Data(bytes) => Success(bytes)
        case RuntimeFailure => Failure(DecryptFailedMessage)
        case OtherFailure(message) => Failure(message)
  }

  /** Only the case of the name matters for selection. */
  lemma IsXmlNameIgnoresCase(n: string)
    ensures IsXmlName(Lower(n)) == IsXmlName(n)
  {
    LowerIdempotent(n);
  }

  /** Members listed after the chosen one never influence the choice. */
  lemma SelectIgnoresLaterNames(names: seq<string>, rest: seq<string>)
    requires SelectXmlEntry(names).Some?
    ensures var i := FirstIndex(names, IsXmlName).value;
            SelectXmlEntry(names[..i + 1] + rest) == SelectXmlEntry(names)
  {
    FirstIndexIgnoresRest(names, IsXmlName, rest);
  }

  /** With no ".xml" member the reader is never used: any reader, any share code, same error. */
  lemma NoXmlEntryMeansNoRead(names: seq<string>, read1: (string, string) -> ReadOutcome,
                              read2: (string, string) -> ReadOutcome, code1: string, code2: string)
    requires forall j :: 0 <= j < |names| ==> !IsXmlName(names[j])
    ensures DecryptZipGetXml(Success(ZipFile(names, read1)), code1) == Failure(NoXmlMessage)
    ensures DecryptZipGetXml(Success(ZipFile(names, read2)), code2)
            == DecryptZipGetXml(Success(ZipFile(names, read1)), code1)
  {
  }

  /** Only the chosen member is read: readers that agree on it give the same result. */
  lemma OnlyChosenEntryIsRead(names: seq<string>, read1: (string, string) -> ReadOutcome,
                              read2: (string, string) -> ReadOutcome, code: string)
    requires SelectXmlEntry(names).Some?
    requires read1(SelectXmlEntry(names).value, code) == read2(SelectXmlEntry(names).value, code)
    ensures DecryptZipGetXml(Success(ZipFile(names, read1)), code)
            == DecryptZipGetXml(Success(ZipFile(names, read2)), code)
  {
  }

  /**
   * A wrong share code and a corrupted member are indistinguishable: whatever
   * the archives and codes, a `RuntimeError` on the chosen member gives the
   * same fixed failure.
   */
  lemma DecryptFailuresIndistinguishable(z1: ZipFile, code1: string, z2: ZipFile, code2: string)
    requires SelectXmlEntry(z1.names).Some? && z1.read(SelectXmlEntry(z1.names).value, code1).RuntimeFailure?
    requires SelectXmlEntry(z2.names).Some? && z2.read(SelectXmlEntry(z2.names).value, code2).RuntimeFailure?
    ensures DecryptZipGetXml(Success(z1), code1) == DecryptZipGetXml(Success(z2), code2)
    ensures DecryptZipGetXml(Success(z1), code1) == Failure(DecryptFailedMessage)
  {
  }

  /** A successful read is returned unchanged. */
  lemma DecryptReturnsMemberBytes(z: ZipFile, code: string, bytes: seq<byte>)
    requires SelectXmlEntry(z.names).Some? && z.read(SelectXmlEntry(z.names).value, code) == Data(bytes)
    ensures DecryptZipGetXml(Success(z), code) == Success(bytes)
  {
  }
}
