# PDFSigCheck in Dafny

A model of the signature-checking layer of PDFSigCheck, a command-line tool.
The tool checks every signature of an incrementally signed PDF. For each
signature it asks three questions:

- does the signature cover the whole document?
- were the signed bytes modified?
- does the signer's certificate chain validate against a trust store?

The answers become one exit code. The PDF and cryptographic work is done by
iText and the JDK. That work is taken here as data (module `Pki`): a
`SignatureFacts` record per signature name, a `CertificateValidator`
function, and an `Environment` that says whether trust stores and PDFs can be
opened. What the program itself decides is modelled branch by branch, with
the gaps listed under "Left out".

The project has five modules.

- `JavaLang` (`java_lang.dfy`) covers the Java semantics the program relies
  on:
  - `int` increment with two's-complement wrap-around;
  - `Integer.toString` and `BigInteger.toString(radix)`;
  - `String.indexOf`, `String.contains` and `String.trim`.
- `Pki` (`pki.dfy`) holds the foreign results as datatypes.
- `DocumentRevisions` (`document_revision.dfy`) models one signature.
  - The process-wide static `revisionNo` becomes a `RevisionCounter` object,
    which every `DocumentRevision` shares.
  - `DocumentRevision` is a class with `IsDocumentModified`, `Verify`,
    `VerifyWithoutExport` and the `WriteFiles` export loop.
  - The file-naming scheme is a set of pure functions (`SplitName`,
    `ExportName`, `ExportPlan`) with lemmas. These prove the split at the
    first dot and the name formula. For one requested name, two export
    names agree exactly when the certificate position and the counter value
    agree. Names for different requested names can meet, and each new
    process starts the counter again at 0.
- `SignatureCatalog` (`signature_info.dfy`) is `SignatureInfo`.
  - It builds the user trust store keyed by the base-36 serial number. The
    loop is `BuildUserStore`; its specification is `TrustEntries`.
  - It fills the name-to-revision table and provides `getSignatureNames` and
    `getRevision`.
- `PdfSigCheck` (`pdf_sig_check.dfy`) is the program.
  - Argument parsing (`ParseArguments`), including the fall-through of the
    `switch`.
  - The three-bit code (`Pack`, `Unpack`).
  - The fail-fast loop over the signatures (`CheckSignatures`). It is
    specified by `FirstFailure`, `VerifyCalls` and `ExportsAlong` over the
    sequence of per-signature codes.
  - The interactive mode (`RunInteractive`, `PrintAll`, `PrintAndVerify`),
    with the console lines as a parameter.
  - `main` itself (`Run`).

A Java exception is modelled by an `Outcome` that is `Threw`, or by a null
result.

Three facts about the revision counter and the signature order shape the
model.

- **The revision number.** The number in exported file names is the
  counter's value *before* `revisionNo++` (DocumentRevision.java:95-97), and
  a static `int` starts at 0. So the first export of a process writes
  `out_rev0.pem`, `out1_rev0.pem` and `out2_rev0.pem` for `out.pem`
  (`FirstExportOfThreeCertificates`). The next export in the same process
  uses `_rev1`.
- **When the counter advances.** It advances once on every `verify` call
  that returns, whether or not an export was requested. This includes the
  interactive mode's `verify()` (`Verify`, `VerifyWithoutExport`).
- **Signature order.** The signatures are checked in the iteration order of
  a `HashMap`. The model takes that order as any enumeration of the names
  (`Enumerates`).

One quirk of the argument parsing is stated as a property: an argument
counts as an export target when it contains `o=` *anywhere*, but the target
is the argument minus its first two characters, trimmed. So `dir/o=out.pem`
names `r/o=out.pem` (`OutArgumentValue`).

## Model

| member | source | states |
|---|---|---|
| JavaLang.Increment | src/hr/tstrelar/pdfsigcheck/helpers/DocumentRevision.java:97 | `revisionNo++` stays a Java `int`, equals the successor modulo 2^32, and is the plain successor below `Integer.MAX_VALUE` |
| JavaLang.IncrementTimesAdds | src/hr/tstrelar/pdfsigcheck/helpers/DocumentRevision.java:97 | k increments add exactly k when they do not cross `Integer.MAX_VALUE` |
| JavaLang.NatToDigits | src/hr/tstrelar/pdfsigcheck/helpers/SignatureInfo.java:62-64 | the rendering of a natural number is a non-empty digit string in the radix, with no leading zero unless the number is 0 |
| JavaLang.DigitsRoundTrip | src/hr/tstrelar/pdfsigcheck/helpers/SignatureInfo.java:62-64 | reading the digits back gives the number |
| JavaLang.ToJavaString | src/hr/tstrelar/pdfsigcheck/helpers/SignatureInfo.java:62-64 | `toString(radix)` starts with '-' exactly for negative values, and the rest is digits of the radix |
| JavaLang.ToJavaStringRoundTrip | src/hr/tstrelar/pdfsigcheck/helpers/SignatureInfo.java:62-64 | parsing the rendering gives the value back |
| JavaLang.ToJavaStringInjective | src/hr/tstrelar/pdfsigcheck/helpers/SignatureInfo.java:62-64 | two values render the same exactly when they are equal |
| JavaLang.IndexOf | src/hr/tstrelar/pdfsigcheck/helpers/DocumentRevision.java:119 | `indexOf(c)` is -1 exactly when `c` is absent, and otherwise the position of the first `c` |
| JavaLang.Contains | src/hr/tstrelar/pdfsigcheck/PDFSigCheck.java:45 | `contains(sub)` holds exactly when `sub` occurs at some position |
| JavaLang.TrimStart | src/hr/tstrelar/pdfsigcheck/PDFSigCheck.java:46 | the result is a suffix, everything dropped is at most U+0020, and the result does not start with such a character |
| JavaLang.TrimEnd | src/hr/tstrelar/pdfsigcheck/PDFSigCheck.java:46 | the result is a prefix, everything dropped is at most U+0020, and the result does not end with such a character |
| JavaLang.Trim | src/hr/tstrelar/pdfsigcheck/PDFSigCheck.java:46 | `trim()` never lengthens, and a non-empty result starts and ends with a character above U+0020 |
| JavaLang.TrimmedFrom | src/hr/tstrelar/pdfsigcheck/PDFSigCheck.java:46 | `trim()` gives a contiguous piece of the argument with only trimmable characters around it |
| JavaLang.TrimIdempotent | src/hr/tstrelar/pdfsigcheck/PDFSigCheck.java:46 | trimming twice is trimming once |
| DocumentRevisions.ContainsChar | src/hr/tstrelar/pdfsigcheck/helpers/DocumentRevision.java:118 | `contains(".")` holds exactly when the name has a '.' |
| DocumentRevisions.SplitName | src/hr/tstrelar/pdfsigcheck/helpers/DocumentRevision.java:117-124 | base + ext is the requested name, the base has no '.', and the extension is empty or starts with '.' |
| DocumentRevisions.SplitNameAtFirstDot | src/hr/tstrelar/pdfsigcheck/helpers/DocumentRevision.java:118-121 | the name is split at its first '.' and the extension keeps the dot |
| DocumentRevisions.SplitNameWithoutDot | src/hr/tstrelar/pdfsigcheck/helpers/DocumentRevision.java:122-124 | a name without a '.' is all base, with an empty extension |
| DocumentRevisions.OutPemSplit | src/hr/tstrelar/pdfsigcheck/helpers/DocumentRevision.java:117-121 | "out.pem" splits into "out" and ".pem" |
| DocumentRevisions.ExportName | src/hr/tstrelar/pdfsigcheck/helpers/DocumentRevision.java:128-133 | an export name is the requested name lengthened by the text inserted between base and extension |
| DocumentRevisions.ExportNameKeepsParts | src/hr/tstrelar/pdfsigcheck/helpers/DocumentRevision.java:128-133 | an export name starts with the requested base and ends with the requested extension |
| DocumentRevisions.ExportPlan | src/hr/tstrelar/pdfsigcheck/helpers/DocumentRevision.java:126-137 | an export has at most one file per certificate, and file j holds the encoding of certificate j |
| DocumentRevisions.EncodablePrefix | src/hr/tstrelar/pdfsigcheck/helpers/DocumentRevision.java:126-142 | the export reaches exactly the certificates before the first one whose encoding fails |
| DocumentRevisions.EncodablePrefixContinues | src/hr/tstrelar/pdfsigcheck/helpers/DocumentRevision.java:126-130 | an encodable certificate right after the exported ones is exported too |
| DocumentRevisions.ExportPlanAt | src/hr/tstrelar/pdfsigcheck/helpers/DocumentRevision.java:126-137 | the i-th file of an export holds certificate i under its export name |
| DocumentRevisions.ExportPlanStep | src/hr/tstrelar/pdfsigcheck/helpers/DocumentRevision.java:126-137 | each turn of the loop adds exactly the next certificate's file |
| DocumentRevisions.IndexSuffixInjective | src/hr/tstrelar/pdfsigcheck/helpers/DocumentRevision.java:128-133 | the chain position inserted into a name is digits, and different positions insert different text |
| DocumentRevisions.MiddleInjective | src/hr/tstrelar/pdfsigcheck/helpers/DocumentRevision.java:129-132 | the text between base and extension determines both the chain position and the revision number |
| DocumentRevisions.ExportNameInjective | src/hr/tstrelar/pdfsigcheck/helpers/DocumentRevision.java:126-137 | two export names for the same requested name agree exactly when position and revision number agree |
| DocumentRevisions.ExportNameFormula | src/hr/tstrelar/pdfsigcheck/helpers/DocumentRevision.java:128-133 | the signer's certificate goes to base + "_rev" + N + ext, and issuer i to base + i + "_rev" + N + ext |
| DocumentRevisions.ExportPlanFiles | src/hr/tstrelar/pdfsigcheck/helpers/DocumentRevision.java:114-137 | one file per certificate in chain order, all of them when every certificate encodes, each with its certificate's bytes, and the names of one export pairwise distinct |
| DocumentRevisions.FirstCallMiddle | src/hr/tstrelar/pdfsigcheck/helpers/DocumentRevision.java:129-132 | with the counter at 0, the inserted texts are "_rev0", "1_rev0", "2_rev0" |
| DocumentRevisions.FirstExportEntry | src/hr/tstrelar/pdfsigcheck/helpers/DocumentRevision.java:126-137 | with the counter at 0, file k of a three-certificate export is base + "_rev0", "1_rev0" or "2_rev0" + ext |
| DocumentRevisions.FirstExportOfThreeCertificates | src/hr/tstrelar/pdfsigcheck/helpers/DocumentRevision.java:126-137 | the first export of a process writes out_rev0.pem, out1_rev0.pem and out2_rev0.pem for "out.pem" |
| DocumentRevisions.ExtractFileName | src/hr/tstrelar/pdfsigcheck/helpers/DocumentRevision.java:49 | the target is 13 characters longer than the signature name |
| DocumentRevisions.ExtractFileNameParts | src/hr/tstrelar/pdfsigcheck/helpers/DocumentRevision.java:49 | the target is "revision_", then the signature name, then ".pdf" |
| DocumentRevisions.ExtractFileNameInjective | src/hr/tstrelar/pdfsigcheck/helpers/DocumentRevision.java:49 | different signatures extract to different files |
| DocumentRevisions.VerifyResult | src/hr/tstrelar/pdfsigcheck/helpers/DocumentRevision.java:82-92 | null when the validator answers null, otherwise element 1 of its array; throws exactly when that array has fewer than two elements |
| DocumentRevisions.VerifyNullIffTrusted | src/hr/tstrelar/pdfsigcheck/helpers/DocumentRevision.java:82-92 | when the validator answers null or a failure array with a non-null reason, `verify` returns, and returns null exactly when the chain validated |
| DocumentRevisions.RevisionCounter.constructor | src/hr/tstrelar/pdfsigcheck/helpers/DocumentRevision.java:34 | the static counter starts at 0 |
| DocumentRevisions.DocumentRevision.constructor | src/hr/tstrelar/pdfsigcheck/helpers/DocumentRevision.java:36-42 | the record keeps its name, the trust store and the facts iText reports for that name |
| DocumentRevisions.DocumentRevision.IsDocumentModified | src/hr/tstrelar/pdfsigcheck/helpers/DocumentRevision.java:69-74 | throws exactly when the digest check throws, and otherwise is the negation of the digest check |
| DocumentRevisions.DocumentRevision.SignatureCoversWholeDocument | src/hr/tstrelar/pdfsigcheck/helpers/DocumentRevision.java:168-173 | iText's coverage answer for this signature's name, as the constructor recorded it |
| DocumentRevisions.DocumentRevision.GetRevisionNumber | src/hr/tstrelar/pdfsigcheck/helpers/DocumentRevision.java:176-180 | iText's revision number for this signature's name |
| DocumentRevisions.DocumentRevision.GetSubject | src/hr/tstrelar/pdfsigcheck/helpers/DocumentRevision.java:65-67 | the subject of this signature's signing certificate |
| DocumentRevisions.DocumentRevision.WriteFiles | src/hr/tstrelar/pdfsigcheck/helpers/DocumentRevision.java:113-143 | writes exactly the export plan for the chain, numbered with the counter's current value |
| DocumentRevisions.DocumentRevision.Verify | src/hr/tstrelar/pdfsigcheck/helpers/DocumentRevision.java:76-100 | returns null or element 1 of the failure array, and throws when that array is shorter; exports only when a name is given, numbered with the value before the increment; advances the counter by one whenever it returns, and not when it throws |
| DocumentRevisions.DocumentRevision.VerifyWithoutExport | src/hr/tstrelar/pdfsigcheck/helpers/DocumentRevision.java:102-111 | `verify()` gives the same result as `verify(null)`, writes no file and advances the counter the same way |
| SignatureCatalog.Alias | src/hr/tstrelar/pdfsigcheck/helpers/SignatureInfo.java:62-64 | the alias is non-empty and starts with '-' exactly for a negative serial number |
| SignatureCatalog.TrustEntries | src/hr/tstrelar/pdfsigcheck/helpers/SignatureInfo.java:60-67 | every entry of the user store is an X.509 certificate stored under its own alias |
| SignatureCatalog.TrustStoreFor | src/hr/tstrelar/pdfsigcheck/helpers/SignatureInfo.java:51-67 | no store file selects the CA store, which fails exactly when it cannot be loaded; a store file fails exactly when its certificates cannot be read, and otherwise gives the user store of those certificates |
| SignatureCatalog.AliasCollision | src/hr/tstrelar/pdfsigcheck/helpers/SignatureInfo.java:62-64 | two certificates get the same alias exactly when their serial numbers agree |
| SignatureCatalog.TrustEntriesStoreLast | src/hr/tstrelar/pdfsigcheck/helpers/SignatureInfo.java:60-67 | every X.509 certificate of the file has an entry, and the last one with a given serial is the one stored |
| SignatureCatalog.TrustEntriesOnlyLast | src/hr/tstrelar/pdfsigcheck/helpers/SignatureInfo.java:60-67 | every entry is the last X.509 certificate of the file with that alias, so other certificate types never enter |
| SignatureCatalog.BuildUserStore | src/hr/tstrelar/pdfsigcheck/helpers/SignatureInfo.java:58-67 | the insertion loop builds exactly the entries the fold specifies |
| SignatureCatalog.SignatureInfo.constructor | src/hr/tstrelar/pdfsigcheck/helpers/SignatureInfo.java:77-85 | the keys are exactly the names iText reports, and each entry is the record for its own name |
| SignatureCatalog.SignatureInfo.Open | src/hr/tstrelar/pdfsigcheck/helpers/SignatureInfo.java:47-70 | fails exactly when the trust store cannot be loaded or the PDF cannot be opened; otherwise a fresh catalog with the selected trust store, the fields of that PDF and one record per signature name it reports (`OpenedFrom`) |
| SignatureCatalog.SignatureInfo.GetSignatureNames | src/hr/tstrelar/pdfsigcheck/helpers/SignatureInfo.java:87-89 | every key exactly once, in no promised order |
| SignatureCatalog.SignatureInfo.GetTotalRevisions | src/hr/tstrelar/pdfsigcheck/helpers/SignatureInfo.java:95-97 | iText's revision count for the opened PDF |
| SignatureCatalog.SignatureInfo.GetRevision | src/hr/tstrelar/pdfsigcheck/helpers/SignatureInfo.java:91-93 | null exactly for a name that is not a key, and otherwise the record of that very signature |
| PdfSigCheck.LastOutIndex | src/hr/tstrelar/pdfsigcheck/PDFSigCheck.java:44-50 | finds the last argument containing `o=`, or reports that there is none |
| PdfSigCheck.LastStoreIndex | src/hr/tstrelar/pdfsigcheck/PDFSigCheck.java:44-50 | finds the last argument without `o=`, or reports that there is none |
| PdfSigCheck.CertFileOf | src/hr/tstrelar/pdfsigcheck/PDFSigCheck.java:46 | the target is at most the argument minus two characters, with nothing trimmable left at either end |
| PdfSigCheck.ParseArguments | src/hr/tstrelar/pdfsigcheck/PDFSigCheck.java:37-58 | no arguments means interactive and more than three is an error; otherwise `args[0]` is the PDF and the last argument of each kind wins |
| PdfSigCheck.OutArgumentValue | src/hr/tstrelar/pdfsigcheck/PDFSigCheck.java:45-46 | `o=` anywhere makes an export target, whose value is the argument without its first two characters, trimmed: `o=x` gives `x`, `yo=x` gives `=x`, and a longer prefix keeps its tail before `o=` |
| PdfSigCheck.Pack | src/hr/tstrelar/pdfsigcheck/PDFSigCheck.java:68 | the code lies in 0..7 and is 0 exactly when no flag is set |
| PdfSigCheck.Unpack | src/hr/tstrelar/pdfsigcheck/PDFSigCheck.java:65-68 | the code is 4*verifyFail + 2*modified + doesntCoverWhole, and each flag is recovered from its own bit |
| PdfSigCheck.VerdictOf | src/hr/tstrelar/pdfsigcheck/PDFSigCheck.java:65-67 | the digest check throws, or gives `modified`; only then the validity check runs, and it throws or gives the validator's failure |
| PdfSigCheck.CodeOf | src/hr/tstrelar/pdfsigcheck/PDFSigCheck.java:65-68 | a signature's code is -1 exactly when one of its checks throws, and otherwise lies in 0..7 |
| PdfSigCheck.CodeZeroIffSound | src/hr/tstrelar/pdfsigcheck/PDFSigCheck.java:65-69 | a signature scores 0 exactly when its digest matches, it covers the whole document and its chain validated |
| PdfSigCheck.RevisionsAt | src/hr/tstrelar/pdfsigcheck/PDFSigCheck.java:63-64 | the i-th signature checked is the record of the i-th name |
| PdfSigCheck.FirstFailure | src/hr/tstrelar/pdfsigcheck/PDFSigCheck.java:63-71 | the exit code is 0 exactly when every code is 0 (so 0 for no signatures), and otherwise one of the codes |
| PdfSigCheck.VerifyCalls | src/hr/tstrelar/pdfsigcheck/PDFSigCheck.java:63-71 | no more `verify` calls return than there are signatures |
| PdfSigCheck.StopsAtFirstFailure | src/hr/tstrelar/pdfsigcheck/PDFSigCheck.java:63-71 | the exit code is the first non-zero code, and `verify` returned for exactly the signatures up to it, that one included unless it threw |
| PdfSigCheck.FailFastSnoc | src/hr/tstrelar/pdfsigcheck/PDFSigCheck.java:63-71 | one more signature changes nothing once the loop has stopped, and otherwise contributes its own code and verify call |
| PdfSigCheck.FailFastStep | src/hr/tstrelar/pdfsigcheck/PDFSigCheck.java:63-71 | the same step, stated on prefixes of the codes |
| PdfSigCheck.FailFastPrefix | src/hr/tstrelar/pdfsigcheck/PDFSigCheck.java:69-71 | after the break, the remaining signatures change neither the code nor the number of verify calls |
| PdfSigCheck.AllPassVerifiesAll | src/hr/tstrelar/pdfsigcheck/PDFSigCheck.java:63-71 | when every signature passes, every one of them was verified |
| PdfSigCheck.NoSignaturesExitZero | src/hr/tstrelar/pdfsigcheck/PDFSigCheck.java:62-72 | a PDF without signatures has no names, exits with 0 and calls `verify` no time |
| PdfSigCheck.FirstFailureRange | src/hr/tstrelar/pdfsigcheck/PDFSigCheck.java:63-78 | the loop's exit code is -1 or in 0..7, so it never equals the argument error -2 |
| PdfSigCheck.CheckSignature | src/hr/tstrelar/pdfsigcheck/PDFSigCheck.java:64-68 | one turn of the loop yields the signature's code, advances the counter exactly when `verify` returned, and exports that signature's chain |
| PdfSigCheck.CheckSignaturesStep | src/hr/tstrelar/pdfsigcheck/PDFSigCheck.java:63-71 | one more turn of the loop keeps code, verify count and exports in step with their specifications |
| PdfSigCheck.CheckSignatures | src/hr/tstrelar/pdfsigcheck/PDFSigCheck.java:62-72 | returns the first non-zero code, advances the counter once per verify call that returned, and exports each such call's chain with that call's own counter value |
| PdfSigCheck.CheckedCount | src/hr/tstrelar/pdfsigcheck/PDFSigCheck.java:117-119 | no more signatures are verified than there are reports |
| PdfSigCheck.CounterAfterReport | src/hr/tstrelar/pdfsigcheck/PDFSigCheck.java:148 | a report advances the counter by one exactly when its `verify()` returned |
| PdfSigCheck.ReportsUntilThrow | src/hr/tstrelar/pdfsigcheck/PDFSigCheck.java:115-120 | there is at most one report per signature |
| PdfSigCheck.ReportsFollowSignatures | src/hr/tstrelar/pdfsigcheck/PDFSigCheck.java:117-119 | report i is the summary of signature i |
| PdfSigCheck.ReportsStopAtThrow | src/hr/tstrelar/pdfsigcheck/PDFSigCheck.java:117-119 | only the last report may end in an exception, and a signature is skipped only after one that did |
| PdfSigCheck.ReportsSnoc | src/hr/tstrelar/pdfsigcheck/PDFSigCheck.java:117-119 | one more signature adds its report unless an exception already ended the loop |
| PdfSigCheck.ReportsPrefix | src/hr/tstrelar/pdfsigcheck/PDFSigCheck.java:117-119 | after the exception, the remaining signatures add nothing |
| PdfSigCheck.PrintAndVerify | src/hr/tstrelar/pdfsigcheck/PDFSigCheck.java:129-155 | a null revision is reported as no such signature and checks nothing; otherwise the summary of name, subject, revision, coverage and verdict, with the counter advanced exactly when `verify()` returned |
| PdfSigCheck.PrintAllStep | src/hr/tstrelar/pdfsigcheck/PDFSigCheck.java:117-119 | one more turn of the "all" loop keeps reports and counter in step with their specifications |
| PdfSigCheck.PrintAll | src/hr/tstrelar/pdfsigcheck/PDFSigCheck.java:115-120 | one report per signature up to the first exception, which ends the loop, with one increment per report whose `verify()` returned |
| PdfSigCheck.StoreChoice | src/hr/tstrelar/pdfsigcheck/PDFSigCheck.java:94-101 | a blank line selects the platform CA store, and any other line names the store file |
| PdfSigCheck.RunInteractive | src/hr/tstrelar/pdfsigcheck/PDFSigCheck.java:85-127 | a missing console line throws; the catalog is opened from the first line's PDF with the trust store the second line selects, and fails exactly when `TrustStoreFor` or `openPdf` fails; a blank signature line checks every signature, and otherwise only the named one; throws exactly when the checks throw, and the counter advances once per returning check |
| PdfSigCheck.Run | src/hr/tstrelar/pdfsigcheck/PDFSigCheck.java:30-83 | the exit code is -2 for too many arguments and -1 when opening fails; otherwise the catalog is opened from `args[0]` with the trust store of the store argument, and the exit code is the fail-fast code with its counter and exports; interactive mode has the outcome of `RunInteractive` and exits with -1 exactly when it threw, and with 0 otherwise; only check mode with an opened catalog exports anything |

## Left out

- iText and the JDK (`AcroFields`, `PdfPKCS7`, `CertificateFactory`, `KeyStore`, `PdfReader`) are foreign code. Their answers are the data in `Pki`. Each signature's facts are fetched once, in the `DocumentRevision` constructor, because those queries answer the same way every time.
- File and stream I/O is not modelled: `doWrite`, the byte-copy loop of `extract`, `FileInputStream`. An export is the list of file names and contents it writes.
- WriteFiles: an `IOException` from `doWrite` would end the export early, like an encoding failure. It is not modelled. Neither is the `NullPointerException` that `doWrite`'s `finally` block raises when the file cannot be opened, which would leave `verify` before the increment.
- DocumentRevisions.ExtractFileName: only the name of the file `extract` writes is modelled. The revision bytes are iText's and the copy is I/O.
- These foreign calls are taken to return normally: `af.verifySignature` (DocumentRevision.java:40, reached from SignatureInfo.java:82), `getSignDate` and `getCertificates` (DocumentRevision.java:79-80), `getSignCertificateChain` (DocumentRevision.java:114), `signatureCoversWholeDocument` (DocumentRevision.java:169), `getRevision` (DocumentRevision.java:177), `getSubjectFields` (DocumentRevision.java:66) and `getTotalRevisions` (SignatureInfo.java:80). So `SignatureCatalog.SignatureInfo.Open` fails exactly when the trust store or the PDF fails *given* these calls return, and `PdfSigCheck.CodeOf` is -1 exactly when the digest or chain check throws under the same assumption. A malformed signature that made `verifySignature` throw would make `main` exit with -1, and the model does not show that.
- PdfSigCheck.ParseArguments: strings are sequences of Unicode scalar values, while Java's `substring` and `indexOf` count UTF-16 code units. `args[i].substring(2)` (PDFSigCheck.java:46) drops two code units, and `CertFileOf` drops two characters. They agree when the first two characters of the argument lie in the Basic Multilingual Plane. For the argument `😀o=x.pem` Java keeps `o=x.pem`, since the emoji is two code units, and the model keeps `=x.pem`. `contains` and `trim` agree with Java on every string, because the characters they look for are ASCII and never occur inside a surrogate pair.
- PdfSigCheck.CertFileOf: drops the first two characters of the argument, while `substring(2)` (PDFSigCheck.java:46) drops two UTF-16 code units. For `😀o=x.pem` Java keeps `o=x.pem` and the model keeps `=x.pem`. They agree when the first two characters lie in the Basic Multilingual Plane.
- PdfSigCheck.OutArgumentValue: inherits the code-unit difference of `ParseArguments` above; the value for `😀o=x.pem` is `=x.pem` in the model and `o=x.pem` in Java.
- JavaLang.IndexOf: positions count characters, not UTF-16 code units, so the position of `.` differs from Java's when a supplementary character comes before it. The split of a file name into base and extension (`SplitName`) is the same either way. The length bound of `DocumentRevisions.ExtractFileName` likewise counts characters.
- The cast of the signing certificate to `X509Certificate` (DocumentRevision.java:77) is taken to succeed.
- `getSubject` is the subject text iText reports. The `X509Name` structure is not modelled.
- Logging and console output are not modelled, including the `println` of each certificate in `writeFiles` and the prompts of the interactive mode. What `printAndVerify` prints is the `Report` value.
- Console input is not read: the interactive mode's console lines are a parameter. A missing line stands for `nextLine`'s exception.
- `System.exit` is not modelled: `Run` returns the exit code instead. The static `checker` field is passed as a parameter.
- `HashMap` iteration order is not modelled: `getSignatureNames` may return the names in any order (`Enumerates`), and the loops follow that order.
- SignatureCatalog.SignatureInfo.constructor: `init` fills the table in a local map, which is stored in the object once. The Java code updates the field in place. Nothing changes the table afterwards, so the resulting state is the same. A name reported twice is replaced by an equal record for the same name; the model does not track which of the two objects is kept.
- The `catch (FileNotFoundException)` in `verify()` is dead code: `verify(null)` never opens a file. It has no counterpart here.
