/** The command-line program (`PDFSigCheck`): argument handling, the exit code
    that packs three verdicts into three bits, the fail-fast loop over the
    signatures, and the interactive mode with its console lines as a parameter. */
module PdfSigCheck {
  import opened JavaLang
  import opened Pki
  import opened DocumentRevisions
  import opened SignatureCatalog

  const ExceptionThrown: int := -1
  const ArgumentsError: int := -2
  const OutArgument: string := "o="

  // ---------------------------------------------------------------------------
  // Command-line arguments

  /** What `main` makes of its arguments. */
  datatype Invocation =
    | Interactive
    | TooManyParameters
    | Check(pdfFile: string, storeFile: Option<string>, certFile: Option<string>)

  /** An argument after the first is an export target when it contains `o=` anywhere. */
  predicate IsOutArgument(arg: string) {
    Contains(arg, OutArgument)
  }

  /** The export target an `o=` argument names: the argument without its first
      two characters, trimmed. */
  function CertFileOf(arg: string): (certFile: string)
    requires IsOutArgument(arg)
    ensures |certFile| <= |arg| - |OutArgument|
    ensures certFile != [] ==> !IsTrimmable(certFile[0]) && !IsTrimmable(certFile[|certFile| - 1])
  {
    Trim(arg[|OutArgument|..])
  }

  /** Among `args[1..n]`, `args[k]` is the last `o=` argument. */
  predicate LastOutArgument(args: seq<string>, n: int, k: int) {
    && 1 <= k < n <= |args| && IsOutArgument(args[k])
    && forall j :: k < j < n ==> !IsOutArgument(args[j])
  }

  /** Among `args[1..n]`, `args[k]` is the last argument that is not an `o=` one. */
  predicate LastStoreArgument(args: seq<string>, n: int, k: int) {
    && 1 <= k < n <= |args| && !IsOutArgument(args[k])
    && forall j :: k < j < n ==> IsOutArgument(args[j])
  }

  /** The position of the last `o=` argument among `args[1..n]`, 0 when there is none. */
  function LastOutIndex(args: seq<string>, n: int): (k: nat)
    requires 1 <= n <= |args|
    ensures k < n
    ensures k == 0 <==> forall j :: 1 <= j < n ==> !IsOutArgument(args[j])
    ensures k != 0 ==> LastOutArgument(args, n, k)
  {
    if n == 1 then 0
    else if IsOutArgument(args[n - 1]) then n - 1
    else LastOutIndex(args, n - 1)
  }

  /** The position of the last other argument among `args[1..n]`, 0 when there is none. */
  function LastStoreIndex(args: seq<string>, n: int): (k: nat)
    requires 1 <= n <= |args|
    ensures k < n
    ensures k == 0 <==> forall j :: 1 <= j < n ==> IsOutArgument(args[j])
    ensures k != 0 ==> LastStoreArgument(args, n, k)
  {
    if n == 1 then 0
    else if !IsOutArgument(args[n - 1]) then n - 1
    else LastStoreIndex(args, n - 1)
  }

  /** The export target `args[1..n]` choose: the last `o=` argument wins. */
  function CertFileChosen(args: seq<string>, n: int): Option<string>
    requires 1 <= n <= |args|
  {
    var k := LastOutIndex(args, n);
    if k == 0 then None else Some(CertFileOf(args[k]))
  }

  /** The trust store file `args[1..n]` choose: the last other argument wins. */
  function StoreFileChosen(args: seq<string>, n: int): Option<string>
    requires 1 <= n <= |args|
  {
    var k := LastStoreIndex(args, n);
    if k == 0 then None else Some(args[k])
  }

  /** The `switch` on the argument count, with the fall-through from the
      two- and three-argument cases into the one-argument case. */
  method ParseArguments(args: seq<string>) returns (inv: Invocation)
    ensures inv.Interactive? <==> |args| == 0
    ensures inv.TooManyParameters? <==> |args| > 3
    ensures inv.Check? ==>
      && inv.pdfFile == args[0]
      && inv.storeFile == StoreFileChosen(args, |args|)
      && inv.certFile == CertFileChosen(args, |args|)
  {
    if |args| == 0 {
      return Interactive;
    }
    if |args| > 3 {
      return TooManyParameters;
    }
    var storeFile: Option<string> := None;
    var certFile: Option<string> := None;
    for i := 1 to |args|
      invariant storeFile == StoreFileChosen(args, i)
      invariant certFile == CertFileChosen(args, i)
    {
      if IsOutArgument(args[i]) {
        certFile := Some(CertFileOf(args[i]));
      } else {
        storeFile := Some(args[i]);
      }
    }
    inv := Check(args[0], storeFile, certFile);
  }

  /** `o=` is recognised anywhere in an argument, but the target is always
      taken from the third character on: `o=out.pem` names `out.pem`,
      `xo=out.pem` names `=out.pem`, and `dir/o=out.pem` names `r/o=out.pem`. */
  lemma OutArgumentValue(prefix: string, rest: string)
    ensures IsOutArgument(prefix + OutArgument + rest)
    ensures prefix == [] ==> CertFileOf(prefix + OutArgument + rest) == Trim(rest)
    ensures |prefix| == 1 ==> CertFileOf(prefix + OutArgument + rest) == Trim("=" + rest)
    ensures |prefix| >= 2 ==>
      CertFileOf(prefix + OutArgument + rest) == Trim(prefix[2..] + OutArgument + rest)
  {
    var arg := prefix + OutArgument + rest;
    assert OccursAt(arg, OutArgument, |prefix|) by {
      assert arg[|prefix|..|prefix| + 2] == OutArgument;
    }
    if prefix == [] {
      assert arg[2..] == rest;
    }
    if |prefix| == 1 {
      assert arg[2..] == "=" + rest;
    }
    if |prefix| >= 2 {
      assert arg[2..] == prefix[2..] + OutArgument + rest;
    }
  }

  // ---------------------------------------------------------------------------
  // The exit code of one signature

  function FlagBit(b: bool): bv32 {
    if b then 1 else 0
  }

  /** `verifyFail << 2 | modified << 1 | doesntCoverWhole`. */
  function Pack(verifyFail: bool, modified: bool, doesntCoverWhole: bool): (code: int)
    ensures 0 <= code <= 7
    ensures code == 0 <==> !verifyFail && !modified && !doesntCoverWhole
  {
    ((FlagBit(verifyFail) << 2) | (FlagBit(modified) << 1) | FlagBit(doesntCoverWhole)) as int
  }

  /** Bit `bit` of an exit code, as a script testing `$? & (1 << bit)` sees it. */
  predicate BitSet(code: int, bit: nat)
    requires 0 <= code <= 7 && bit < 3
  {
    ((code as bv32) >> bit) & 1 == 1
  }

  /** Each verdict has a bit of its own, so the exit code gives back all three. */
  lemma Unpack(verifyFail: bool, modified: bool, doesntCoverWhole: bool)
    ensures BitSet(Pack(verifyFail, modified, doesntCoverWhole), 2) == verifyFail
    ensures BitSet(Pack(verifyFail, modified, doesntCoverWhole), 1) == modified
    ensures BitSet(Pack(verifyFail, modified, doesntCoverWhole), 0) == doesntCoverWhole
    ensures Pack(verifyFail, modified, doesntCoverWhole)
      == 4 * FlagBit(verifyFail) as int + 2 * FlagBit(modified) as int + FlagBit(doesntCoverWhole) as int
  {
  }

  /** What checking one signature comes to, in the order `main` asks: the
      digest check, then the certificate check. */
  datatype Verdict =
    | ModifiedCheckThrew
    | ValidityCheckThrew(modified: bool)
    | Checked(modified: bool, failure: JObject)

  function VerdictOf(rev: DocumentRevision): (v: Verdict)
    ensures v.ModifiedCheckThrew? <==> rev.facts.digest.SignatureError?
    ensures !v.ModifiedCheckThrew? ==> v.modified == !rev.facts.digest.matches
    ensures v.ValidityCheckThrew? <==> !v.ModifiedCheckThrew? && VerifyResult(rev.ChainCheck()).Threw?
    ensures v.Checked? ==> VerifyResult(rev.ChainCheck()) == Returned(v.failure)
  {
    match rev.IsDocumentModified()
    case Threw => ModifiedCheckThrew
    case Returned(modified) =>
      match VerifyResult(rev.ChainCheck())
      case Threw => ValidityCheckThrew(modified)
      case Returned(failure) => Checked(modified, failure)
  }

  /** The value `returnValue` takes for one signature: its packed verdicts, or
      -1 when one of the checks throws. */
  function CodeOf(rev: DocumentRevision): (code: int)
    ensures code == ExceptionThrown || 0 <= code <= 7
    ensures code == ExceptionThrown <==> !VerdictOf(rev).Checked?
  {
    match VerdictOf(rev)
    case Checked(modified, failure) => Pack(failure != Null, modified, !rev.SignatureCoversWholeDocument())
    case _ => ExceptionThrown
  }

  /** A signature scores 0 exactly when its digest matches, it covers the whole
      document and its certificates validated. */
  lemma CodeZeroIffSound(rev: DocumentRevision)
    ensures CodeOf(rev) == 0 <==>
      && rev.facts.digest == Digest(true)
      && rev.facts.coversWhole
      && VerifyResult(rev.ChainCheck()) == Returned(Null)
  {
  }

  // ---------------------------------------------------------------------------
  // The loop over the signatures

  /** The revision record of each name, in order. */
  function RevisionsOf(revisions: map<string, DocumentRevision>, names: seq<string>): (revs: seq<DocumentRevision>)
    requires forall name :: name in names ==> name in revisions
    ensures |revs| == |names|
  {
    if names == [] then []
    else [revisions[names[0]]] + RevisionsOf(revisions, names[1..])
  }

  lemma {:induction false} RevisionsAt(revisions: map<string, DocumentRevision>, names: seq<string>, i: int)
    requires forall name :: name in names ==> name in revisions
    requires 0 <= i < |names|
    ensures RevisionsOf(revisions, names)[i] == revisions[names[i]]
  {
    if i > 0 {
      RevisionsAt(revisions, names[1..], i - 1);
    }
  }

  /** The code of each signature, in order. */
  function Codes(revs: seq<DocumentRevision>): (codes: seq<int>)
    ensures |codes| == |revs|
  {
    if revs == [] then [] else [CodeOf(revs[0])] + Codes(revs[1..])
  }

  lemma {:induction false} CodesAt(revs: seq<DocumentRevision>, i: int)
    requires 0 <= i < |revs|
    ensures Codes(revs)[i] == CodeOf(revs[i])
  {
    if i > 0 {
      CodesAt(revs[1..], i - 1);
    }
  }

  /** The exit code of the loop: the first non-zero code, or 0 when every
      signature passed. */
  function FirstFailure(codes: seq<int>): (code: int)
    ensures code == 0 <==> forall i :: 0 <= i < |codes| ==> codes[i] == 0
    ensures code != 0 ==> code in codes
  {
    if codes == [] then 0
    else if codes[0] != 0 then codes[0]
    else FirstFailure(codes[1..])
  }

  /** How many `verify` calls return before the loop stops: every signature
      up to the first failing one, that one included unless it threw. */
  function VerifyCalls(codes: seq<int>): (n: nat)
    ensures n <= |codes|
  {
    if codes == [] then 0
    else if codes[0] == 0 then 1 + VerifyCalls(codes[1..])
    else if codes[0] > 0 then 1
    else 0
  }

  /** The loop stops at the first failing signature and reports its code. */
  lemma {:induction false} StopsAtFirstFailure(codes: seq<int>, k: int)
    requires 0 <= k < |codes| && codes[k] != 0
    requires forall j :: 0 <= j < k ==> codes[j] == 0
    ensures FirstFailure(codes) == codes[k]
    ensures VerifyCalls(codes) == k + (if codes[k] > 0 then 1 else 0)
  {
    if k > 0 {
      StopsAtFirstFailure(codes[1..], k - 1);
    }
  }

  /** One more signature: the loop either had already stopped, or stops now
      unless that signature passes too. */
  lemma {:induction false} FailFastSnoc(codes: seq<int>, code: int)
    ensures FirstFailure(codes + [code]) == if FirstFailure(codes) != 0 then FirstFailure(codes) else code
    ensures VerifyCalls(codes + [code])
      == VerifyCalls(codes) + if FirstFailure(codes) == 0 && code >= 0 then 1 else 0
  {
    if codes != [] {
      assert (codes + [code])[1..] == codes[1..] + [code];
      FailFastSnoc(codes[1..], code);
    }
  }

  /** The loop's step, stated on prefixes of the codes. */
  lemma FailFastStep(codes: seq<int>, i: int)
    requires 0 <= i < |codes|
    ensures FirstFailure(codes[..i]) == 0 ==> VerifyCalls(codes[..i]) == i
    ensures FirstFailure(codes[..i + 1]) ==
      if FirstFailure(codes[..i]) != 0 then FirstFailure(codes[..i]) else codes[i]
    ensures VerifyCalls(codes[..i + 1])
      == VerifyCalls(codes[..i]) + if FirstFailure(codes[..i]) == 0 && codes[i] >= 0 then 1 else 0
  {
    assert codes[..i + 1] == codes[..i] + [codes[i]];
    FailFastSnoc(codes[..i], codes[i]);
    if FirstFailure(codes[..i]) == 0 {
      AllPassVerifiesAll(codes[..i]);
    }
  }

  /** Once the loop has stopped, the signatures after it change nothing. */
  lemma {:induction false} FailFastPrefix(codes: seq<int>, i: int)
    requires 0 <= i <= |codes| && FirstFailure(codes[..i]) != 0
    ensures FirstFailure(codes) == FirstFailure(codes[..i])
    ensures VerifyCalls(codes) == VerifyCalls(codes[..i])
  {
    assert codes[..i][0] == codes[0];
    if codes[0] == 0 {
      assert codes[..i][1..] == codes[1..][..i - 1];
      FailFastPrefix(codes[1..], i - 1);
    }
  }

  /** When every signature passes, every one of them was verified. */
  lemma {:induction false} AllPassVerifiesAll(codes: seq<int>)
    requires forall j :: 0 <= j < |codes| ==> codes[j] == 0
    ensures VerifyCalls(codes) == |codes|
  {
    if codes != [] {
      AllPassVerifiesAll(codes[1..]);
    }
  }

  /** The exit code is -1, 0 or a packed code, whatever the signatures. */
  lemma FirstFailureRange(revs: seq<DocumentRevision>)
    ensures var code := FirstFailure(Codes(revs));
      code == ExceptionThrown || 0 <= code <= 7
  {
    var codes := Codes(revs);
    if FirstFailure(codes) != 0 {
      var k :| 0 <= k < |codes| && codes[k] == FirstFailure(codes);
      CodesAt(revs, k);
    }
  }

  /** A document without signatures has no names to check, exits with 0
      and calls `verify` no time. */
  lemma NoSignaturesExitZero(revisions: map<string, DocumentRevision>, names: seq<string>)
    requires Enumerates(names, revisions.Keys)
    ensures revisions.Keys == {} ==>
      && names == []
      && FirstFailure(Codes(RevisionsOf(revisions, names))) == 0
      && VerifyCalls(Codes(RevisionsOf(revisions, names))) == 0
  {
    if names != [] {
      assert names[0] in revisions.Keys;
    }
  }

  /** The files one `verify(certFile)` call exports: none when no name was given. */
  function ExportsOf(certFile: Option<string>, chain: seq<Certificate>, revisionNo: int): seq<Export> {
    if certFile.None? then [] else ExportPlan(certFile.value, chain, revisionNo)
  }

  /** The files the first `calls` of the loop's `verify` calls export, one call
      after the other, each numbered with the counter value of its own call. */
  function ExportsAlong(revs: seq<DocumentRevision>, calls: nat, certFile: Option<string>, revisionNo: int): seq<Export>
    requires calls <= |revs| && IsInt(revisionNo)
  {
    if calls == 0 then []
    else
      ExportsAlong(revs, calls - 1, certFile, revisionNo)
      + ExportsOf(certFile, revs[calls - 1].facts.signChain, IncrementTimes(revisionNo, calls - 1))
  }

  /** One iteration of `main`'s loop: the digest check, the coverage, then
      `verify`; the code is -1 when one of the checks throws. */
  method CheckSignature(rev: DocumentRevision, certFile: Option<string>)
      returns (code: int, ghost written: seq<Export>)
    requires IsInt(rev.counter.revisionNo)
    modifies rev.counter
    ensures code == CodeOf(rev)
    ensures rev.counter.revisionNo ==
      if code == ExceptionThrown then old(rev.counter.revisionNo) else Increment(old(rev.counter.revisionNo))
    ensures written == if code == ExceptionThrown then []
                       else ExportsOf(certFile, rev.facts.signChain, old(rev.counter.revisionNo))
  {
    written := [];
    var modified := rev.IsDocumentModified();
    if modified.Threw? {
      return ExceptionThrown, written;
    }
    var doesntCoverWhole := !rev.SignatureCoversWholeDocument();
    var fail;
    fail, written := rev.Verify(certFile);
    if fail.Threw? {
      return ExceptionThrown, written;
    }
    code := Pack(fail.value != Null, modified.value, doesntCoverWhole);
  }

  /** One more turn of `main`'s loop keeps its invariant. */
  lemma CheckSignaturesStep(revs: seq<DocumentRevision>, i: int, certFile: Option<string>, start: int,
                            calls: nat, code: int, exported: seq<Export>, written: seq<Export>)
    requires 0 <= i < |revs| && IsInt(start)
    requires FirstFailure(Codes(revs)[..i]) == 0 && calls == VerifyCalls(Codes(revs)[..i])
    requires exported == ExportsAlong(revs, calls, certFile, start)
    requires code == CodeOf(revs[i])
    requires written == if code == ExceptionThrown then []
                        else ExportsOf(certFile, revs[i].facts.signChain, IncrementTimes(start, calls))
    ensures calls == i
    ensures code == FirstFailure(Codes(revs)[..i + 1])
    ensures code != ExceptionThrown ==>
      && calls + 1 == VerifyCalls(Codes(revs)[..i + 1])
      && exported + written == ExportsAlong(revs, calls + 1, certFile, start)
    ensures code == ExceptionThrown ==> calls == VerifyCalls(Codes(revs)[..i + 1])
  {
    CodesAt(revs, i);
    FailFastStep(Codes(revs), i);
  }

  /** The body of `main` after the checker is built: check the signatures in
      the order given, stop at the first that fails or throws. */
  method CheckSignatures(info: SignatureInfo, names: seq<string>, certFile: Option<string>)
      returns (returnValue: int, ghost exported: seq<Export>)
    requires info.Valid()
    requires forall name :: name in names ==> name in info.signatureRevisions
    requires IsInt(info.counter.revisionNo)
    modifies info.counter
    ensures var codes := Codes(RevisionsOf(info.signatureRevisions, names));
      && returnValue == FirstFailure(codes)
      && info.counter.revisionNo == IncrementTimes(old(info.counter.revisionNo), VerifyCalls(codes))
    ensures var revs := RevisionsOf(info.signatureRevisions, names);
      exported == ExportsAlong(revs, VerifyCalls(Codes(revs)), certFile, old(info.counter.revisionNo))
  {
    ghost var revs := RevisionsOf(info.signatureRevisions, names);
    ghost var codes := Codes(revs);
    ghost var start := info.counter.revisionNo;
    ghost var calls := 0;
    returnValue := 0;
    exported := [];
    var i := 0;
    while i < |names| && returnValue == 0
      invariant 0 <= i <= |names|
      invariant returnValue == FirstFailure(codes[..i])
      invariant calls == VerifyCalls(codes[..i])
      invariant info.counter.revisionNo == IncrementTimes(start, calls)
      invariant exported == ExportsAlong(revs, calls, certFile, start)
    {
      var rev := info.GetRevision(names[i]);
      RevisionsAt(info.signatureRevisions, names, i);
      ghost var written;
      returnValue, written := CheckSignature(rev, certFile);
      CheckSignaturesStep(revs, i, certFile, start, calls, returnValue, exported, written);
      if returnValue != ExceptionThrown {
        exported := exported + written;
        calls := calls + 1;
      }
      i := i + 1;
    }
    if returnValue == 0 {
      assert codes[..i] == codes;
    } else {
      FailFastPrefix(codes, i);
    }
  }

  // ---------------------------------------------------------------------------
  // Interactive mode

  /** What `printAndVerify` shows for one signature name. */
  datatype Report =
    | NoSuchSignature
    | Summary(signatureName: string, subject: string, revision: int, totalRevisions: int,
              coversWhole: bool, verdict: Verdict)

  /** The report ends with the exception that leaves `printAndVerify`. */
  predicate Aborts(report: Report) {
    report.Summary? && !report.verdict.Checked?
  }

  function ReportFor(rev: DocumentRevision, totalRevisions: int): Report {
    Summary(rev.signatureName, rev.GetSubject(), rev.GetRevisionNumber(), totalRevisions,
            rev.SignatureCoversWholeDocument(), VerdictOf(rev))
  }

  /** The report of a signature whose `verify` call returned. */
  predicate Verified(report: Report) {
    report.Summary? && report.verdict.Checked?
  }

  /** The number of reports whose `verify` call returned. */
  function CheckedCount(reports: seq<Report>): (n: nat)
    ensures n <= |reports|
  {
    if reports == [] then 0
    else CheckedCount(reports[..|reports| - 1]) + if Verified(reports[|reports| - 1]) then 1 else 0
  }

  /** The counter after one more report: one increment exactly when its `verify` returned. */
  lemma CounterAfterReport(start: int, reports: seq<Report>, report: Report)
    requires IsInt(start)
    ensures IncrementTimes(start, CheckedCount(reports + [report])) ==
      if Verified(report) then Increment(IncrementTimes(start, CheckedCount(reports)))
      else IncrementTimes(start, CheckedCount(reports))
  {
    assert (reports + [report])[..|reports|] == reports;
  }

  /** "Check all revisions": a report per signature, up to and including the
      first whose checks throw. */
  function ReportsUntilThrow(revs: seq<DocumentRevision>, totalRevisions: int): (reports: seq<Report>)
    ensures |reports| <= |revs|
  {
    if revs == [] then []
    else
      var report := ReportFor(revs[0], totalRevisions);
      if Aborts(report) then [report]
      else [report] + ReportsUntilThrow(revs[1..], totalRevisions)
  }

  /** The reports follow the signatures in order. */
  lemma {:induction false} ReportsFollowSignatures(revs: seq<DocumentRevision>, totalRevisions: int)
    ensures var reports := ReportsUntilThrow(revs, totalRevisions);
      forall i :: 0 <= i < |reports| ==> reports[i] == ReportFor(revs[i], totalRevisions)
  {
    if revs != [] && !Aborts(ReportFor(revs[0], totalRevisions)) {
      ReportsFollowSignatures(revs[1..], totalRevisions);
    }
  }

  /** Only the last report may abort, and a signature is skipped only after
      one that aborted. */
  lemma {:induction false} ReportsStopAtThrow(revs: seq<DocumentRevision>, totalRevisions: int)
    ensures var reports := ReportsUntilThrow(revs, totalRevisions);
      && (forall i :: 0 <= i < |reports| - 1 ==> !Aborts(reports[i]))
      && (|reports| < |revs| ==> Stopped(reports))
  {
    if revs != [] && !Aborts(ReportFor(revs[0], totalRevisions)) {
      ReportsStopAtThrow(revs[1..], totalRevisions);
    }
  }

  /** The reports end with the exception that leaves the loop. */
  predicate Stopped(reports: seq<Report>) {
    reports != [] && Aborts(reports[|reports| - 1])
  }

  /** One more signature adds its report, unless an exception already ended the run. */
  lemma {:induction false} ReportsSnoc(revs: seq<DocumentRevision>, i: int, totalRevisions: int)
    requires 0 <= i < |revs|
    ensures ReportsUntilThrow(revs[..i + 1], totalRevisions) ==
      if Stopped(ReportsUntilThrow(revs[..i], totalRevisions)) then ReportsUntilThrow(revs[..i], totalRevisions)
      else ReportsUntilThrow(revs[..i], totalRevisions) + [ReportFor(revs[i], totalRevisions)]
  {
    if i > 0 {
      var report := ReportFor(revs[0], totalRevisions);
      assert revs[..i + 1][0] == revs[0] && revs[..i][0] == revs[0];
      if !Aborts(report) {
        var rest := ReportsUntilThrow(revs[1..][..i - 1], totalRevisions);
        assert revs[..i + 1][1..] == revs[1..][..i];
        assert revs[..i][1..] == revs[1..][..i - 1];
        ReportsSnoc(revs[1..], i - 1, totalRevisions);
        assert ReportsUntilThrow(revs[..i + 1], totalRevisions)
          == [report] + ReportsUntilThrow(revs[1..][..i], totalRevisions);
        assert ReportsUntilThrow(revs[..i], totalRevisions) == [report] + rest;
        assert Stopped([report] + rest) == Stopped(rest);
        if !Stopped(rest) {
          var last := ReportFor(revs[i], totalRevisions);
          assert revs[1..][i - 1] == revs[i];
          assert [report] + (rest + [last]) == ([report] + rest) + [last];
        }
      }
    }
  }

  /** After the exception, the remaining signatures add nothing. */
  lemma {:induction false} ReportsPrefix(revs: seq<DocumentRevision>, i: int, totalRevisions: int)
    requires 0 <= i <= |revs| && Stopped(ReportsUntilThrow(revs[..i], totalRevisions))
    ensures ReportsUntilThrow(revs, totalRevisions) == ReportsUntilThrow(revs[..i], totalRevisions)
  {
    assert revs[..i][0] == revs[0];
    if !Aborts(ReportFor(revs[0], totalRevisions)) {
      assert revs[..i][1..] == revs[1..][..i - 1];
      ReportsPrefix(revs[1..], i - 1, totalRevisions);
    }
  }

  /** `printAndVerify`: the signature's summary, then its validity; nothing
      happens for a name that is not a signature. */
  method PrintAndVerify(checker: SignatureInfo, rev: DocumentRevision?) returns (report: Report)
    requires rev != null ==> rev.counter == checker.counter
    requires IsInt(checker.counter.revisionNo)
    modifies checker.counter
    ensures report == if rev == null then NoSuchSignature else ReportFor(rev, checker.GetTotalRevisions())
    ensures checker.counter.revisionNo ==
      if Verified(report) then Increment(old(checker.counter.revisionNo)) else old(checker.counter.revisionNo)
  {
    if rev == null {
      return NoSuchSignature;
    }
    var signatureName := rev.signatureName;
    var subject := rev.GetSubject();
    var revision := rev.GetRevisionNumber();
    var total := checker.GetTotalRevisions();
    var covers := rev.SignatureCoversWholeDocument();
    var modified := rev.IsDocumentModified();
    if modified.Threw? {
      return Summary(signatureName, subject, revision, total, covers, ModifiedCheckThrew);
    }
    var fail, written := rev.VerifyWithoutExport();
    if fail.Threw? {
      return Summary(signatureName, subject, revision, total, covers, ValidityCheckThrew(modified.value));
    }
    report := Summary(signatureName, subject, revision, total, covers, Checked(modified.value, fail.value));
  }

  /** One more turn of the "check all revisions" loop keeps its invariant. */
  lemma PrintAllStep(revs: seq<DocumentRevision>, i: int, totalRevisions: int, reports: seq<Report>,
                     report: Report, start: int, before: int, after: int)
    requires 0 <= i < |revs| && IsInt(start)
    requires reports == ReportsUntilThrow(revs[..i], totalRevisions) && !Stopped(reports)
    requires report == ReportFor(revs[i], totalRevisions)
    requires before == IncrementTimes(start, CheckedCount(reports))
    requires after == if Verified(report) then Increment(before) else before
    ensures reports + [report] == ReportsUntilThrow(revs[..i + 1], totalRevisions)
    ensures Stopped(reports + [report]) == Aborts(report)
    ensures after == IncrementTimes(start, CheckedCount(reports + [report]))
  {
    ReportsSnoc(revs, i, totalRevisions);
    CounterAfterReport(start, reports, report);
  }

  /** "Check all revisions": `printAndVerify` for each name in turn, until
      one of them throws. */
  method PrintAll(checker: SignatureInfo, names: seq<string>) returns (threw: bool, ghost reports: seq<Report>)
    requires checker.Valid()
    requires forall name :: name in names ==> name in checker.signatureRevisions
    requires IsInt(checker.counter.revisionNo)
    modifies checker.counter
    ensures reports == ReportsUntilThrow(RevisionsOf(checker.signatureRevisions, names), checker.GetTotalRevisions())
    ensures threw <==> Stopped(reports)
    ensures checker.counter.revisionNo == IncrementTimes(old(checker.counter.revisionNo), CheckedCount(reports))
  {
    ghost var revs := RevisionsOf(checker.signatureRevisions, names);
    ghost var total := checker.GetTotalRevisions();
    ghost var start := checker.counter.revisionNo;
    threw := false;
    reports := [];
    var i := 0;
    while i < |names| && !threw
      invariant 0 <= i <= |names|
      invariant reports == ReportsUntilThrow(revs[..i], total)
      invariant threw == Stopped(reports)
      invariant checker.counter.revisionNo == IncrementTimes(start, CheckedCount(reports))
    {
      var rev := checker.GetRevision(names[i]);
      RevisionsAt(checker.signatureRevisions, names, i);
      ghost var before := checker.counter.revisionNo;
      var report := PrintAndVerify(checker, rev);
      PrintAllStep(revs, i, total, reports, report, start, before, checker.counter.revisionNo);
      reports := reports + [report];
      threw := Aborts(report);
      i := i + 1;
    }
    if threw {
      ReportsPrefix(revs, i, total);
    } else {
      assert revs[..i] == revs;
    }
  }

  /** The store the second prompt selects: a blank line means the platform CA store. */
  function StoreChoice(line: string): (storeFile: Option<string>)
    ensures storeFile.None? <==> line == ""
    ensures storeFile.Some? ==> storeFile.value == line
  {
    if line == "" then None else Some(line)
  }

  /** What `interactive` does with the lines `console` holds, `before` and
      `after` being the counter's values around it; `threw` stands for the
      exception that leaves it (a missing line or a failing check).
      - The first line names the PDF, the second the trust store (blank for
        the platform CA store), and `info` is the catalog they open.
      - A blank third line checks every signature in the order of `names`,
        any other line only the signature it names. */
  ghost predicate InteractiveOutcome(console: seq<string>, env: Environment, counter: RevisionCounter,
                                     info: SignatureInfo?, names: seq<string>, reports: seq<Report>,
                                     threw: bool, before: int, after: int)
    requires IsInt(before)
  {
    && (|console| < 2 ==> threw && info == null && after == before)
    && (|console| >= 2 ==>
          (info == null <==> TrustStoreFor(StoreChoice(console[1]), env).None? || env.openPdf(console[0]).None?))
    && (|console| >= 2 && info == null ==> threw && after == before)
    && (|console| >= 2 && info != null ==>
          && info.OpenedFrom(console[0], StoreChoice(console[1]), env, counter)
          && Enumerates(names, info.signatureRevisions.Keys)
          && (|console| == 2 ==> threw && reports == [] && after == before)
          && (|console| >= 3 ==>
                && reports == (if console[2] == "" then ReportsUntilThrow(RevisionsOf(info.signatureRevisions, names), info.GetTotalRevisions())
                               else var rev := info.GetRevision(console[2]);
                                 [if rev == null then NoSuchSignature else ReportFor(rev, info.GetTotalRevisions())])
                && (threw <==> Stopped(reports))
                && after == IncrementTimes(before, CheckedCount(reports))))
  }

  /** `interactive`, reading its three lines from `console`. */
  method RunInteractive(console: seq<string>, env: Environment, counter: RevisionCounter)
      returns (threw: bool, ghost info: SignatureInfo?, ghost names: seq<string>, ghost reports: seq<Report>)
    requires IsInt(counter.revisionNo)
    modifies counter
    ensures InteractiveOutcome(console, env, counter, info, names, reports, threw,
                               old(counter.revisionNo), counter.revisionNo)
  {
    names := [];
    reports := [];
    info := null;
    threw := true;
    if |console| < 2 {
      return;  // NoSuchElementException from nextLine
    }
    var pdfFile := console[0];
    var ssCertFile := console[1];
    var checker := SignatureInfo.Open(pdfFile, StoreChoice(ssCertFile), env, counter);
    info := checker;
    if checker == null {
      return;
    }
    var signatureNames := checker.GetSignatureNames();
    names := signatureNames;
    if |console| < 3 {
      return;
    }
    var sigName := console[2];
    if sigName == "" {
      threw, reports := PrintAll(checker, signatureNames);
    } else {
      var rev := checker.GetRevision(sigName);
      var report := PrintAndVerify(checker, rev);
      reports := [report];
      assert reports[..0] == [];
      threw := Aborts(report);
    }
  }

  // ---------------------------------------------------------------------------
  // main

  /** `main`, with `System.exit`'s argument as the result. */
  method Run(args: seq<string>, console: seq<string>, env: Environment, counter: RevisionCounter)
      returns (exitCode: int, ghost inv: Invocation, ghost info: SignatureInfo?,
               ghost names: seq<string>, ghost exported: seq<Export>,
               ghost reports: seq<Report>, ghost threw: bool)
    requires IsInt(counter.revisionNo)
    modifies counter
    ensures exitCode == ArgumentsError || exitCode == ExceptionThrown || 0 <= exitCode <= 7
    ensures inv.Interactive? <==> |args| == 0
    ensures inv.TooManyParameters? <==> |args| > 3
    ensures inv.Interactive? ==>
      && InteractiveOutcome(console, env, counter, info, names, reports, threw,
                            old(counter.revisionNo), counter.revisionNo)
      && exitCode == if threw then ExceptionThrown else 0
    ensures inv.TooManyParameters? ==> exitCode == ArgumentsError && counter.revisionNo == old(counter.revisionNo)
    ensures inv.Check? ==>
      && inv.pdfFile == args[0]
      && inv.storeFile == StoreFileChosen(args, |args|)
      && inv.certFile == CertFileChosen(args, |args|)
    ensures inv.Check? ==>
      (info == null <==> TrustStoreFor(inv.storeFile, env).None? || env.openPdf(inv.pdfFile).None?)
    ensures inv.Check? && info == null ==>
      exitCode == ExceptionThrown && counter.revisionNo == old(counter.revisionNo)
    ensures inv.Check? && info != null ==>
      && info.OpenedFrom(inv.pdfFile, inv.storeFile, env, counter)
      && Enumerates(names, info.signatureRevisions.Keys)
      && var revs := RevisionsOf(info.signatureRevisions, names);
         && exitCode == FirstFailure(Codes(revs))
         && counter.revisionNo == IncrementTimes(old(counter.revisionNo), VerifyCalls(Codes(revs)))
         && exported == ExportsAlong(revs, VerifyCalls(Codes(revs)), inv.certFile, old(counter.revisionNo))
    ensures !(inv.Check? && info != null) ==> exported == []
  {
    info := null;
    names := [];
    exported := [];
    reports := [];
    threw := false;
    var invocation := ParseArguments(args);
    inv := invocation;
    match invocation
    case TooManyParameters =>
      exitCode := ArgumentsError;
    case Interactive =>
      var interactiveThrew, info', names', reports' := RunInteractive(console, env, counter);
      info, names, reports, threw := info', names', reports', interactiveThrew;
      exitCode := if interactiveThrew then ExceptionThrown else 0;
    case Check(pdfFile, storeFile, certFile) =>
      var checker := SignatureInfo.Open(pdfFile, storeFile, env, counter);
      info := checker;
      if checker == null {
        exitCode := ExceptionThrown;
        return;
      }
      var signatureNames := checker.GetSignatureNames();
      names := signatureNames;
      exitCode, exported := CheckSignatures(checker, signatureNames, certFile);
      FirstFailureRange(RevisionsOf(checker.signatureRevisions, signatureNames));
  }
}
