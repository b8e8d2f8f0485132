/** One signature of a PDF (`DocumentRevision`): its modification and coverage
    queries, trust verification, and the export of its certificate chain under
    names numbered by a process-wide revision counter. */
module DocumentRevisions {
  import opened JavaLang
  import opened Pki

  /** A file written by the certificate export: its name and its DER bytes. */
  datatype Export = Export(fileName: string, contents: seq<bv8>)

  /** A requested output name split into the part before its first '.' and the rest. */
  datatype NameParts = NameParts(base: string, ext: string)

  lemma ContainsChar(s: string, c: char)
    ensures Contains(s, [c]) <==> c in s
  {
    if c in s {
      var i :| 0 <= i < |s| && s[i] == c;
      assert OccursAt(s, [c], i);
    }
    if Contains(s, [c]) {
      var i :| OccursAt(s, [c], i);
      assert s[i..i + 1][0] == s[i];
    }
  }

  /** The split `writeFiles` makes: the extension keeps its dot, and a name
      without a dot has an empty extension. The three properties below fix
      the split uniquely. */
  function SplitName(certFile: string): (p: NameParts)
    ensures p.base + p.ext == certFile
    ensures '.' !in p.base
    ensures p.ext == [] || p.ext[0] == '.'
  {
    ContainsChar(certFile, '.');
    if Contains(certFile, ".") then
      var columnIdx := IndexOf(certFile, '.');
      NameParts(certFile[..columnIdx], certFile[columnIdx..])
    else
      NameParts(certFile, "")
  }

  /** The split happens at the first '.': */
  lemma SplitNameAtFirstDot(certFile: string, k: nat)
    requires k < |certFile| && certFile[k] == '.' && '.' !in certFile[..k]
    ensures SplitName(certFile) == NameParts(certFile[..k], certFile[k..])
  {
    var p := SplitName(certFile);
    assert p.base == certFile[..|p.base|];
  }

  /** and a name without a '.' is all base. */
  lemma SplitNameWithoutDot(certFile: string)
    requires '.' !in certFile
    ensures SplitName(certFile) == NameParts(certFile, "")
  {
  }

  /** What stands between the base name and "_rev": nothing for the signer's
      certificate, the chain position for each issuer. */
  function IndexSuffix(i: nat): string {
    if i == 0 then "" else ToJavaString(i, 10)
  }

  /** What an export inserts between the base name and the extension. */
  function Middle(i: nat, revisionNo: int): string {
    IndexSuffix(i) + "_rev" + ToJavaString(revisionNo, 10)
  }

  /** The file the certificate at chain position `i` is written to. */
  function ExportName(certFile: string, i: nat, revisionNo: int): (name: string)
    ensures |name| == |certFile| + |Middle(i, revisionNo)|
  {
    var p := SplitName(certFile);
    p.base + Middle(i, revisionNo) + p.ext
  }

  /** An export name keeps the requested name's base in front and its
      extension at the end. */
  lemma ExportNameKeepsParts(certFile: string, i: nat, revisionNo: int)
    ensures var p := SplitName(certFile);
      var name := ExportName(certFile, i, revisionNo);
      name[..|p.base|] == p.base && name[|name| - |p.ext|..] == p.ext
  {
    var p := SplitName(certFile);
    var front := p.base + Middle(i, revisionNo);
    assert ExportName(certFile, i, revisionNo) == front + p.ext;
    assert (front + p.ext)[..|p.base|] == front[..|p.base|];
    assert (front + p.ext)[|front|..] == p.ext;
  }

  /** How many certificates of the chain, from the signer's on, can be encoded;
      `writeFiles` stops at the first `CertificateEncodingException`. */
  function EncodablePrefix(chain: seq<Certificate>): (k: nat)
    ensures k <= |chain|
    ensures forall j :: 0 <= j < k ==> chain[j].encoded.Some?
    ensures k < |chain| ==> chain[k].encoded.None?
  {
    if chain == [] || chain[0].encoded.None? then 0
    else 1 + EncodablePrefix(chain[1..])
  }

  /** The files one export writes, in chain order. */
  function ExportPlan(certFile: string, chain: seq<Certificate>, revisionNo: int): (plan: seq<Export>)
    ensures |plan| <= |chain|
    ensures forall j :: 0 <= j < |plan| ==> chain[j].encoded == Some(plan[j].contents)
  {
    var k := EncodablePrefix(chain);
    seq(k, j requires 0 <= j < k => Export(ExportName(certFile, j, revisionNo), chain[j].encoded.value))
  }

  /** An encodable certificate right after an encodable prefix extends it. */
  lemma EncodablePrefixContinues(chain: seq<Certificate>, i: nat)
    requires i < |chain| && i <= EncodablePrefix(chain) && chain[i].encoded.Some?
    ensures i < EncodablePrefix(chain)
  {
  }

  /** The file of the `i`th encodable certificate of the chain. */
  lemma ExportPlanAt(certFile: string, chain: seq<Certificate>, revisionNo: int, i: nat)
    requires i < EncodablePrefix(chain)
    ensures i < |ExportPlan(certFile, chain, revisionNo)|
    ensures ExportPlan(certFile, chain, revisionNo)[i]
      == Export(ExportName(certFile, i, revisionNo), chain[i].encoded.value)
  {
  }

  lemma TakeOneMore<T>(s: seq<T>, i: nat)
    requires i < |s|
    ensures s[..i + 1] == s[..i] + [s[i]]
  {
  }

  /** The export grows one encodable certificate at a time. */
  lemma ExportPlanStep(certFile: string, chain: seq<Certificate>, revisionNo: int, i: nat)
    requires i < EncodablePrefix(chain)
    ensures ExportPlan(certFile, chain, revisionNo)[..i + 1]
      == ExportPlan(certFile, chain, revisionNo)[..i] + [Export(ExportName(certFile, i, revisionNo), chain[i].encoded.value)]
  {
    ExportPlanAt(certFile, chain, revisionNo, i);
    TakeOneMore(ExportPlan(certFile, chain, revisionNo), i);
  }

  /** `targetFile` is the name of the file `extract` writes. */
  function ExtractFileName(signatureName: string): (targetFile: string)
    ensures |targetFile| == |signatureName| + 13
  {
    "revision_" + signatureName + ".pdf"
  }

  /** The name is "revision_", the signature name, then ".pdf". */
  lemma ExtractFileNameParts(signatureName: string)
    ensures var targetFile := ExtractFileName(signatureName);
      && targetFile[..9] == "revision_" && targetFile[|targetFile| - 4..] == ".pdf"
      && targetFile[9..|targetFile| - 4] == signatureName
  {
    var front := "revision_" + signatureName;
    var targetFile := front + ".pdf";
    assert targetFile[..|front|] == front;
    assert front[..9] == "revision_";
    assert front[9..] == signatureName;
  }

  /** What `verify` makes of the validator's answer: null when the chain
      validated, element 1 of the failure array otherwise (which throws when
      the array is shorter). */
  function VerifyResult(fails: Option<seq<JObject>>): (r: Outcome<JObject>)
    ensures r.Threw? <==> fails.Some? && |fails.value| < 2
    ensures fails.None? ==> r == Returned(Null)
    ensures fails.Some? && r.Returned? ==> r.value == fails.value[1]
  {
    match fails
    case None => Returned(Null)
    case Some(a) => if |a| < 2 then Threw else Returned(a[1])
  }

  // ---------------------------------------------------------------------------
  // Properties of the naming scheme

  /** A string of decimal digits followed by a non-digit is split uniquely. */
  lemma DigitPrefixCancel(a: string, x: string, b: string, y: string)
    requires IsDigitString(a, 10) && IsDigitString(b, 10)
    requires x != [] && y != [] && DigitValue(x[0]) < 0 && DigitValue(y[0]) < 0
    requires a + x == b + y
    ensures a == b && x == y
  {
    assert a == (a + x)[..|a|];
    assert b == (b + y)[..|b|];
    assert x == (a + x)[|a|..];
    assert y == (b + y)[|b|..];
  }

  lemma IndexSuffixInjective(i: nat, j: nat)
    ensures IsDigitString(IndexSuffix(i), 10)
    ensures IndexSuffix(i) == IndexSuffix(j) ==> i == j
  {
    if i != 0 && j != 0 {
      ToJavaStringInjective(i, j, 10);
    }
  }

  lemma RevTailInjective(n: int, m: int)
    requires "_rev" + ToJavaString(n, 10) == "_rev" + ToJavaString(m, 10)
    ensures n == m
  {
    assert ToJavaString(n, 10) == ("_rev" + ToJavaString(n, 10))[4..];
    assert ToJavaString(m, 10) == ("_rev" + ToJavaString(m, 10))[4..];
    ToJavaStringInjective(n, m, 10);
  }

  lemma MiddleParts(i: nat, n: int)
    ensures Middle(i, n) == IndexSuffix(i) + ("_rev" + ToJavaString(n, 10))
  {
  }

  lemma MiddleInjective(i: nat, n: int, j: nat, m: int)
    requires Middle(i, n) == Middle(j, m)
    ensures i == j && n == m
  {
    MiddleParts(i, n);
    MiddleParts(j, m);
    IndexSuffixInjective(i, j);
    IndexSuffixInjective(j, i);
    DigitPrefixCancel(IndexSuffix(i), "_rev" + ToJavaString(n, 10), IndexSuffix(j), "_rev" + ToJavaString(m, 10));
    RevTailInjective(n, m);
  }

  lemma CancelAround(base: string, x: string, y: string, ext: string)
    requires base + x + ext == base + y + ext
    ensures x == y
  {
    assert x == (base + x + ext)[|base|..|base| + |x|];
    assert y == (base + y + ext)[|base|..|base| + |y|];
  }

  /** Two exports to the same requested name collide only when both the chain
      position and the revision number agree: within one call every file name
      is different, and calls with different counter values never overwrite
      each other's files. */
  lemma ExportNameInjective(certFile: string, i: nat, n: int, j: nat, m: int)
    ensures ExportName(certFile, i, n) == ExportName(certFile, j, m) <==> i == j && n == m
  {
    if ExportName(certFile, i, n) == ExportName(certFile, j, m) {
      var p := SplitName(certFile);
      CancelAround(p.base, Middle(i, n), Middle(j, m), p.ext);
      MiddleInjective(i, n, j, m);
    }
  }

  /** The leaf certificate goes to `base + "_rev" + N + ext` and the issuer at
      position `i` to `base + i + "_rev" + N + ext`. */
  lemma ExportNameFormula(certFile: string, i: nat, revisionNo: int)
    ensures var p := SplitName(certFile);
      ExportName(certFile, i, revisionNo)
        == if i == 0 then p.base + "_rev" + ToJavaString(revisionNo, 10) + p.ext
           else p.base + ToJavaString(i, 10) + "_rev" + ToJavaString(revisionNo, 10) + p.ext
  {
    var p := SplitName(certFile);
    var n := ToJavaString(revisionNo, 10);
    assert ExportName(certFile, i, revisionNo) == p.base + Middle(i, revisionNo) + p.ext;
    if i == 0 {
      ConcatAssoc(p.base, [], n, p.ext);
    } else {
      ConcatAssoc(p.base, ToJavaString(i, 10), n, p.ext);
    }
  }

  lemma ConcatAssoc(a: string, b: string, c: string, d: string)
    ensures a + (b + "_rev" + c) + d == a + b + "_rev" + c + d
  {
  }

  /** The export writes one file per certificate of the chain, in chain order,
      the signer's certificate first, up to the first one that cannot be
      encoded; the file names of one export are pairwise distinct. */
  lemma ExportPlanFiles(certFile: string, chain: seq<Certificate>, revisionNo: int)
    ensures var plan := ExportPlan(certFile, chain, revisionNo);
      && |plan| <= |chain|
      && ((forall c :: c in chain ==> c.encoded.Some?) ==> |plan| == |chain|)
      && (forall j :: 0 <= j < |plan| ==>
            plan[j].fileName == ExportName(certFile, j, revisionNo) && chain[j].encoded == Some(plan[j].contents))
      && (forall j, k :: 0 <= j < k < |plan| ==> plan[j].fileName != plan[k].fileName)
  {
    var plan := ExportPlan(certFile, chain, revisionNo);
    forall j, k | 0 <= j < k < |plan|
      ensures plan[j].fileName != plan[k].fileName
    {
      ExportNameInjective(certFile, j, revisionNo, k, revisionNo);
    }
  }

  lemma SingleDigit(d: nat)
    requires d < 10
    ensures ToJavaString(d, 10) == [DigitChar(d)]
  {
  }

  /** With the counter at 0, the part inserted before the extension. */
  lemma FirstCallMiddle(i: nat)
    requires i < 3
    ensures Middle(i, 0) == ["_rev0", "1_rev0", "2_rev0"][i]
  {
    SingleDigit(0);
    if i > 0 {
      SingleDigit(i);
    }
  }

  lemma FirstExportEntry(certFile: string, chain: seq<Certificate>, k: nat)
    requires |chain| == 3 && k < 3
    requires forall j :: 0 <= j < 3 ==> chain[j].encoded.Some?
    ensures var p := SplitName(certFile);
      |ExportPlan(certFile, chain, 0)| == 3
      && ExportPlan(certFile, chain, 0)[k]
         == Export(p.base + ["_rev0", "1_rev0", "2_rev0"][k] + p.ext, chain[k].encoded.value)
  {
    assert EncodablePrefix(chain) == 3;
    FirstCallMiddle(k);
  }

  /** The leaf is written to `base_revN.ext` and issuer `i` to `base + i + _revN.ext`;
      the first export of a process (counter 0) uses "_rev0": "out.pem" becomes
      "out_rev0.pem", "out1_rev0.pem", "out2_rev0.pem". */
  lemma FirstExportOfThreeCertificates(certFile: string, a: seq<bv8>, b: seq<bv8>, c: seq<bv8>)
    ensures var p := SplitName(certFile);
      var chain := [Certificate(1, true, Some(a)), Certificate(2, true, Some(b)), Certificate(3, true, Some(c))];
      ExportPlan(certFile, chain, 0)
        == [Export(p.base + "_rev0" + p.ext, a), Export(p.base + "1_rev0" + p.ext, b), Export(p.base + "2_rev0" + p.ext, c)]
  {
    var chain := [Certificate(1, true, Some(a)), Certificate(2, true, Some(b)), Certificate(3, true, Some(c))];
    FirstExportEntry(certFile, chain, 0);
    FirstExportEntry(certFile, chain, 1);
    FirstExportEntry(certFile, chain, 2);
  }

  lemma OutPemSplit()
    ensures SplitName("out.pem") == NameParts("out", ".pem")
  {
    SplitNameAtFirstDot("out.pem", 3);
    assert "out.pem"[..3] == "out" && "out.pem"[3..] == ".pem";
  }

  /** Read back from its file name, an extracted revision names its signature:
      different signatures extract to different files. */
  lemma ExtractFileNameInjective(name1: string, name2: string)
    ensures ExtractFileName(name1) == ExtractFileName(name2) <==> name1 == name2
  {
    ExtractFileNameParts(name1);
    ExtractFileNameParts(name2);
  }

  /** Under the validator's documented contract (null, or a failure array whose
      element 1 is a non-null reason), `verify` returns null exactly when the
      chain validated. */
  lemma VerifyNullIffTrusted(fails: Option<seq<JObject>>)
    requires fails.Some? ==> |fails.value| >= 2 && fails.value[1] != Null
    ensures VerifyResult(fails).Returned?
    ensures VerifyResult(fails).value == Null <==> fails.None?
  {
  }

  // ---------------------------------------------------------------------------
  // State

  /** The static `revisionNo` field, shared by every revision of the process. */
  class RevisionCounter {
    var revisionNo: int

    /** A static `int` starts at 0. */
    constructor ()
      ensures revisionNo == 0
    {
      revisionNo := 0;
    }
  }

  class DocumentRevision {
    const signatureName: string
    const facts: SignatureFacts
    const kall: TrustStore
    const verifyCertificates: CertificateValidator
    const counter: RevisionCounter

    /** The iText queries are deterministic, so the facts are fetched once here. */
    constructor (af: AcroFields, kall: TrustStore, verifyCertificates: CertificateValidator,
                 signatureName: string, counter: RevisionCounter)
      ensures this.signatureName == signatureName && facts == af.signature(signatureName)
      ensures this.kall == kall && this.verifyCertificates == verifyCertificates
      ensures this.counter == counter
    {
      this.signatureName := signatureName;
      this.facts := af.signature(signatureName);
      this.kall := kall;
      this.verifyCertificates := verifyCertificates;
      this.counter := counter;
    }

    /** `isDocumentModified`: the signed bytes were altered exactly when the
        digest check fails; a malformed signature throws. */
    function IsDocumentModified(): (r: Outcome<bool>)
      ensures r.Threw? <==> facts.digest.SignatureError?
      ensures r.Returned? ==> (r.value <==> !facts.digest.matches)
    {
      match facts.digest
      case SignatureError => Threw
      case Digest(verify) => Returned(!verify)
    }

    function SignatureCoversWholeDocument(): (covers: bool)
      ensures covers == facts.coversWhole
    {
      facts.coversWhole
    }

    function GetRevisionNumber(): (revNum: int)
      ensures revNum == facts.revision
    {
      facts.revision
    }

    function GetSubject(): (subject: string)
      ensures subject == facts.subject
    {
      facts.subject
    }

    /** The validator's answer for this signature's certificates at its signing date. */
    function ChainCheck(): Option<seq<JObject>> {
      verifyCertificates(facts.certificates, kall, facts.signDate)
    }

    /** `writeFiles`: write every certificate of the signing chain, numbered
        with the counter's current value. */
    method WriteFiles(certFile: string) returns (written: seq<Export>)
      ensures written == ExportPlan(certFile, facts.signChain, counter.revisionNo)
    {
      var certChain := facts.signChain;
      var revisionNo := counter.revisionNo;
      written := [];
      var i := 0;
      while i < |certChain|
        invariant i <= EncodablePrefix(certChain)
        invariant written == ExportPlan(certFile, certChain, revisionNo)[..i]
      {
        var cert := certChain[i];
        if cert.encoded.None? {
          break;  // CertificateEncodingException: caught outside the loop
        }
        // base + "_rev" + N + ext for the signer, base + i + "_rev" + N + ext
        // for the issuers (ExportNameFormula)
        var fileName := ExportName(certFile, i, revisionNo);
        EncodablePrefixContinues(certChain, i);
        ExportPlanStep(certFile, certChain, revisionNo, i);
        written := written + [Export(fileName, cert.encoded.value)];
        i := i + 1;
      }
      assert i == EncodablePrefix(certChain);
      assert ExportPlan(certFile, certChain, revisionNo)[..i] == ExportPlan(certFile, certChain, revisionNo);
    }

    /** `verify(certFile)`: validate the chain, export it when a name is given,
        then advance the counter, whatever the validation said. The exported
        names carry the counter's value from before the increment. */
    method Verify(certFile: Option<string>) returns (r: Outcome<JObject>, written: seq<Export>)
      requires IsInt(counter.revisionNo)
      modifies counter
      ensures r == VerifyResult(ChainCheck())
      ensures r.Threw? ==> written == [] && counter.revisionNo == old(counter.revisionNo)
      ensures r.Returned? ==> counter.revisionNo == Increment(old(counter.revisionNo))
      ensures r.Returned? && certFile.None? ==> written == []
      ensures r.Returned? && certFile.Some? ==>
        written == ExportPlan(certFile.value, facts.signChain, old(counter.revisionNo))
    {
      var fails := verifyCertificates(facts.certificates, kall, facts.signDate);
      var retValue := Null;
      if fails.Some? {
        if |fails.value| < 2 {
          // fails[1]: ArrayIndexOutOfBoundsException
          return Threw, [];
        }
        retValue := fails.value[1];
      }
      written := [];
      if certFile.Some? {
        written := WriteFiles(certFile.value);
      }
      counter.revisionNo := Increment(counter.revisionNo);
      r := Returned(retValue);
    }

    /** `verify()`: exactly `verify(null)`, so nothing is written but the
        counter still advances. */
    method VerifyWithoutExport() returns (r: Outcome<JObject>, written: seq<Export>)
      requires IsInt(counter.revisionNo)
      modifies counter
      ensures r == VerifyResult(ChainCheck())
      ensures written == []
      ensures r.Threw? ==> counter.revisionNo == old(counter.revisionNo)
      ensures r.Returned? ==> counter.revisionNo == Increment(old(counter.revisionNo))
    {
      r, written := Verify(None);
    }
  }
}
