/**
 * The core of the `/verify/ekyc` handler (app.py:84-126): decrypt, parse,
 * match, decide, and build the JSON response.
 */
module Pipeline {
  import opened Wrappers
  import opened Text
  import opened Archive
  import opened Record
  import opened Matcher
  import opened Verdict

  datatype Status = Verified | LowConfidence

  /** What the handler answers. */
  datatype Response =
      /** `{"status": "failed", "reason": str(e)}` with HTTP status 400 */
    | Failed(reason: string)
      /** the verdict record */
    | Checked(status: Status, nameExtracted: Option<string>, maskedExtracted: Option<string>,
              nameScore: Score, reason: string)
      /** an exception the handler does not catch (an XML syntax error), answered as HTTP 500 */
    | InternalError

  /** The `status` field of the JSON body, if the response has one. */
  function StatusText(r: Response): (s: Option<string>)
    ensures s == Some("failed") <==> r.Failed?
    ensures s.None? <==> r.InternalError?
    ensures r.Checked? ==> (s == Some("verified") <==> r.status == Verified)
    ensures r.Checked? ==> (s == Some("low_confidence") <==> r.status == LowConfidence)
  {
    match r
    case Failed(_) => Some("failed")
    case Checked(status, _, _, _, _) => Some(if status == Verified then "verified" else "low_confidence")
    case InternalError => None
  }

  /**
   * The handler on an uploaded archive that has already passed the ".zip"
   * name check. `archive` is the result of opening it, `parse` stands for
   * `etree.fromstring`, `ratio` for `fuzz.token_sort_ratio`, `showScore` for
   * Python's float formatting and `threshold` for `MATCH_NAME_SCORE`.
   */
  method VerifyEkyc(archive: Result<ZipFile, string>, shareCode: string,
                    expectedName: Option<string>, expectedLast4: Option<string>,
                    parse: seq<byte> -> Option<XmlTree>, ratio: (string, string) -> Score,
                    showScore: real -> string, threshold: real)
    returns (r: Response)
    // every failure of decrypt_zip_get_xml is reported as "failed", with its message
    ensures DecryptZipGetXml(archive, shareCode).Failure?
            ==> r == Failed(DecryptZipGetXml(archive, shareCode).error)
    ensures r.Failed? ==> DecryptZipGetXml(archive, shareCode).Failure?
    // an XML syntax error escapes the handler
    ensures r.InternalError? <==> DecryptZipGetXml(archive, shareCode).Success?
                                  && parse(DecryptZipGetXml(archive, shareCode).value).None?
    // the verdict record: extracted fields, score, and the decision list's verdict
    ensures r.Checked? ==>
              var tree := parse(DecryptZipGetXml(archive, shareCode).value).value;
              var name := Lookup(tree, NameCandidates);
              var masked := Lookup(tree, MaskedCandidates);
              var score := NameScore(expectedName, name, ratio);
              var d := RunRules(EkycRules(expectedName, expectedLast4, score,
                                          LastFourOk(expectedLast4, masked), threshold, showScore));
              && r.nameExtracted == name && r.maskedExtracted == masked && r.nameScore == score
              && (r.status == Verified <==> d.verified) && r.reason == d.reason
    ensures r.Checked? ==> (r.status == Verified <==> r.reason == "")
  {
    var decrypted := DecryptZipGetXml(archive, shareCode);
    if decrypted.Failure? {
      return Failed(decrypted.error);
    }
    var parsed := ParseEkycXml(decrypted.value, parse);
    if parsed.None? {
      return InternalError;
    }
    var name, masked := parsed.value.name, parsed.value.masked;
    var nameScore, last4Ok, verified, reason :=
      MatchAndDecide(expectedName, expectedLast4, name, masked, ratio, threshold, showScore);
    r := Checked(if verified then Verified else LowConfidence, name, masked, nameScore, reason);
  }
}
