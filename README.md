# eKYC archive verification, modelled in Dafny

This project models the verification pipeline of the EVER Aadhaar offline
eKYC service (`app.py`). A caller uploads a password-protected ZIP export
and a share code, and may add an expected name and expected last digits.
The service:

- picks the first `.xml` member of the archive and decrypts it with the share code;
- reads the holder's name and masked identifier from the XML, each from an
  ordered list of fallback tag paths;
- scores the name with a fuzzy ratio and checks the last digits;
- runs an `if`/`elif`/`else` decision chain that answers `verified`,
  `low_confidence` or `failed`, with a reason.

The foreign libraries become inputs:

- the opened `AESZipFile` is its member list plus a read function
  `(name, share code) -> bytes | RuntimeError | other exception`;
- the parsed XML document is a map from tag path to the found element's text;
- `fuzz.token_sort_ratio` is a function into `[0, 100]`;
- Python's float formatting in the reason text is a function parameter;
- `MATCH_NAME_SCORE` is a parameter.

Modules, one file each:

- `Wrappers`: `Option`, `Result`.
- `Text`: Python's `strip`, `lower`, `endswith`, the digit projection and truthiness.
- `Search`: first-match-wins search, the shape shared by the entry selection,
  `find_text` and the decision chain.
- `Archive`: `decrypt_zip_get_xml`.
- `Record`: `find_text` and `parse_ekyc_xml`.
- `Matcher`: the name score and the last-digits check.
- `Verdict`: the decision chain as an ordered rule list, and the imperative
  block of the handler.
- `Pipeline`: the handler's response.

`find_text` is a method with a `for` loop and an early return, proved against
the `Lookup` specification. The decision block is a method whose locals
mirror the source, proved against the decision list `RunRules(EkycRules(...))`.
Entry selection, the digit projection and the status mapping are functions.

Behaviour of `app.py` worth knowing, which the model keeps:

- An XML syntax error from `etree.fromstring` (app.py:50, called at line 89
  outside the `try`) is not caught. The handler raises, and the answer is an
  internal server error (`Response.InternalError`), not a `failed` verdict.
- A whitespace-only element text is stripped to `""` and still stops the
  search (`Record.WhitespaceTextGivesEmpty`). An extracted field can
  therefore be the empty string.
- Only a `RuntimeError` from the read is merged into the one fixed message.
  Two other failures pass through with their own `str(e)`, still with status
  `failed`: a failure to open the archive, and any other exception from the read.
- An expected name with no extracted name is scored 0.0, and that is judged
  like any other score. With a positive threshold this is a `name_mismatch`
  (`Verdict.MissingNameIsMismatch`).

## Model

| member | source | states |
|---|---|---|
| `Text.Truthy` | app.py:94-109 | an optional string is falsy exactly when it is `None` or "" |
| `Text.IsSpaceOnAscii` | app.py:55 | on ASCII, the whitespace set is exactly space, tab, LF, CR, VT, FF and the four separators 0x1C-0x1F |
| `Text.EndsWith` | app.py:100 | the empty suffix always matches; a match is no longer than the string; an equal-length match is equality |
| `Text.Strip` | app.py:55 | the result neither starts nor ends with whitespace (Python's `isspace` set), and is empty exactly when the text is all whitespace |
| `Text.StripIsInfix` | app.py:55 | what `strip` keeps is an infix of the text with only whitespace on either side |
| `Text.StripIdempotent` | app.py:55 | stripping a stripped value changes nothing |
| `Text.TrimLeft` | app.py:55 | the removed prefix is all whitespace and what remains does not start with whitespace |
| `Text.TrimRight` | app.py:55 | the removed suffix is all whitespace and what remains does not end with whitespace |
| `Text.Digits` | app.py:99 | the projection holds only digits and is no longer than its input |
| `Text.DigitsConcat` | app.py:99 | the projection of a concatenation is the concatenation of the projections |
| `Text.DigitsIgnoresNonDigit` | app.py:99 | inserting a non-digit character anywhere leaves the projection unchanged |
| `Text.DigitsOfDigits` | app.py:99 | a string of digits projects to itself |
| `Text.NoDigits` | app.py:99 | a string without digits projects to "" |
| `Text.DigitsIdempotent` | app.py:99 | projecting twice equals projecting once |
| `Text.EndsWithIffConcat` | app.py:100 | `endswith(suffix)` holds exactly when the string is some prefix followed by `suffix` |
| `Text.LowerChar` | app.py:36 | each upper-case ASCII letter maps to its own lower-case letter, every other character is kept |
| `Text.Lower` | app.py:36 | lower-casing keeps the length and folds each character independently |
| `Text.LowerIdempotent` | app.py:95 | lower-casing a lower-cased string changes nothing |
| `Search.FirstIndex` | app.py:36 | the found index satisfies the test and no earlier one does; none is found exactly when no element satisfies it |
| `Search.FirstIndexIs` | app.py:36 | an index that passes after only failures is the one found |
| `Search.FirstIndexIgnoresRest` | app.py:36 | replacing everything after the first match leaves the answer unchanged |
| `Archive.IsXmlName` | app.py:36 | a name qualifies exactly when it has at least four characters and its last four lower-case to ".xml" |
| `Archive.SelectXmlEntry` | app.py:36-38 | the chosen member is the first in archive order whose lower-cased name ends in ".xml"; there is none exactly when no name qualifies |
| `Archive.IsXmlNameIgnoresCase` | app.py:36 | the ".xml" test does not depend on letter case |
| `Archive.SelectIgnoresLaterNames` | app.py:36 | members after the chosen one never influence the choice |
| `Archive.DecryptZipGetXml` | app.py:30-43 | no ".xml" member gives "No XML file in ZIP"; success returns exactly the bytes read from the chosen member with the share code; a `RuntimeError` gives the fixed decrypt message; a failure to open the archive and any other read exception keep their own message |
| `Archive.NoXmlEntryMeansNoRead` | app.py:36-38 | with no ".xml" member the result is the same error whatever the reader and share code, so no read takes place |
| `Archive.OnlyChosenEntryIsRead` | app.py:39-41 | readers that agree on the chosen member give the same result, so only it is read |
| `Archive.DecryptFailuresIndistinguishable` | app.py:42-43 | any two archives and share codes whose read raises `RuntimeError` give the same fixed failure |
| `Archive.DecryptReturnsMemberBytes` | app.py:40-41 | a successful read is returned unchanged |
| `Record.Lookup` | app.py:51-56 | the result is `None` exactly when no candidate has non-empty text |
| `Record.FindText` | app.py:51-56 | the loop returns the stripped text of the earliest candidate with non-empty text, and `None` exactly when no candidate has text |
| `Record.ParseEkycXml` | app.py:45-59 | a parse failure gives no record; otherwise `name` and `masked` are the lookups over the two fixed candidate lists |
| `Record.LookupFirstMatch` | app.py:52-55 | the earliest candidate with text determines the result, which is its text stripped |
| `Record.LookupIgnoresLaterCandidates` | app.py:52-56 | candidates after the first match are never consulted |
| `Record.LookupReadsOnlyUpToFirstMatch` | app.py:52-56 | documents that agree on the candidates up to the first match give the same result |
| `Record.WhitespaceTextGivesEmpty` | app.py:54-55 | a whitespace-only text stops the search and yields "" |
| `Record.LookupIsStripped` | app.py:55 | a found value has no surrounding whitespace |
| `Matcher.NameScore` | app.py:93-95 | the score is 0.0 unless both the expected and the extracted name are present and non-empty |
| `Matcher.NameScoreIgnoresCase` | app.py:95 | the score is the same for lower-cased inputs |
| `Matcher.LastFourOk` | app.py:97-100 | the check passes only when both inputs are present and non-empty, and then the expected value is all digits and no longer than the masked identifier |
| `Matcher.LastFourOkIffDigitsEndWith` | app.py:97-100 | the check passes exactly when both inputs are non-empty and the digits of the masked identifier are some prefix followed by the expected value |
| `Matcher.LastFourIgnoresNonDigits` | app.py:99 | non-digit characters of the masked identifier never change the result |
| `Matcher.LastFourAfterSeparators` | app.py:99-100 | separators in front of the digits are skipped, and the digits alone are suffix-matched |
| `Matcher.LastFourExample` | app.py:97-100 | "XXXX-XXXX-1234" matches "1234" and does not match "5678" |
| `Verdict.NameMismatchReason` | app.py:108 | the reason is "name_mismatch (score=", then the shown score, then ")"; it is non-empty and differs from "last4_mismatch" |
| `Verdict.RunRules` | app.py:102-116 | a verified decision has reason ""; when every branch that can fail gives a reason, the reason is "" exactly when the decision is verified or no branch applies |
| `Verdict.EkycRules` | app.py:104-116 | the last branch (the `else`) always applies and passes, and every branch that can fail gives a non-empty reason |
| `Verdict.FirstApplicableRuleDecides` | app.py:104-116 | the first applicable branch decides the verdict and reason, and later branches are never looked at |
| `Verdict.NameRuleTakesPrecedence` | app.py:104-108 | with an expected name, the verdict is `score >= threshold` (otherwise the name-mismatch reason), whatever the last-digits hint and check |
| `Verdict.Last4RuleWithoutName` | app.py:109-113 | without an expected name but with expected digits, the verdict is the digit check (otherwise "last4_mismatch"), whatever the score and threshold |
| `Verdict.NoHintIsVerified` | app.py:114-116 | with neither hint the verdict is verified with reason "" |
| `Verdict.ReasonEmptyIffVerified` | app.py:102-116 | the reason is "" exactly when the verdict is verified |
| `Verdict.MissingNameIsMismatch` | app.py:93-108 | an expected name with no extracted name and a positive threshold gives a name mismatch at score 0.0 |
| `Verdict.MatchAndDecide` | app.py:92-116 | the locals end as the name score, the digit check and the decision list's verdict on them, and the reason is "" exactly when verified |
| `Pipeline.StatusText` | app.py:88-118 | the status text is "failed" exactly for a failure response; for a verdict it is "verified" exactly when verified and "low_confidence" exactly when not; only the uncaught error has no status |
| `Pipeline.VerifyEkyc` | app.py:84-126 | every decryption failure is reported as "failed" with its message and never as a verdict; an XML syntax error escapes; otherwise the response carries the two lookups, the name score and the decision list's verdict, and its reason is "" exactly when it is verified |

## Left out

- The web layer is not modelled: the FastAPI app, CORS, the `/ping` route, form parsing, the `verifier_email` field (never used) and the JSON/HTTP encoding of the response.
- The `.zip` upload-name check that answers HTTP 400 runs before the pipeline. `Pipeline.VerifyEkyc` covers only uploads that have passed it.
- The temporary directory and the file write are I/O. So are `sha256`/`file_hash` and `uploader_ip`, which are a hash-library call and request metadata; none of them appears in the response model.
- The ZIP container parsing and AES decryption (pyzipper) are foreign. They are the `ZipFile` member list and read function. The UTF-8 encoding of the share code belongs to that read.
- XML parsing and `root.find('.//' + path)` (lxml) are foreign. They are a map from path to optional text; `parse` returns `None` for a syntax error.
- `fuzz.token_sort_ratio` (rapidfuzz) is foreign. It is the `ratio` parameter, into `[0, 100]`. So its token-order symmetry is not modelled.
- Python's float formatting of `name_score` inside the reason is the `showScore` parameter.
- Loading `MATCH_NAME_SCORE` and `MAX_SHARECODE_ATTEMPTS` from the environment is configuration. The threshold is a parameter; the attempt limit is never used by the code.
- Text.Lower: folds only the ASCII letters, not full Unicode `str.lower()`. No non-ASCII character lower-cases to '.', 'x', 'm' or 'l', so the ".xml" test is unaffected. The lower-cased names given to the ratio can differ for non-ASCII letters.
- Text.IsDigit: accepts only '0'..'9', where Python's `str.isdigit` also accepts other Unicode digits.
- Floating-point behaviour of the score and threshold (NaN, infinities) is not modelled: both are reals.
