/** What the checker receives from code it does not own (iText's AcroFields and
    PdfPKCS7, the JDK's CertificateFactory and KeyStore), as plain data. The
    checker's own logic only ever looks at these results; how they are computed
    is not part of the model. */
module Pki {
  import opened JavaLang

  /** A `java.lang.Object` as the checker sees it: null, or something it can print. */
  datatype JObject = Null | Ref(description: string)

  /** A certificate: its serial number, whether it is an X.509 certificate,
      and its DER encoding (absent when `getEncoded` throws). */
  datatype Certificate = Certificate(serial: int, isX509: bool, encoded: Option<seq<bv8>>)

  /** The outcome of `PdfPKCS7.verify()`: whether the digest over the signed
      byte range matches, or a `SignatureException`. */
  datatype DigestCheck = Digest(matches: bool) | SignatureError

  /** Everything iText reports about one named signature. */
  datatype SignatureFacts = SignatureFacts(
    digest: DigestCheck,            // pk.verify()
    coversWhole: bool,              // af.signatureCoversWholeDocument(name)
    revision: int,                  // af.getRevision(name)
    subject: string,                // PdfPKCS7.getSubjectFields(signing certificate)
    certificates: seq<Certificate>, // pk.getCertificates()
    signChain: seq<Certificate>,    // pk.getSignCertificateChain()
    signDate: int)                  // pk.getSignDate()

  /** The `KeyStore` trust anchors: the platform's CA store, or one built from
      a user's certificate file, whose entries are keyed by alias. */
  datatype TrustStore = Cacerts | UserStore(entries: map<string, Certificate>)

  /** `PdfPKCS7.verifyCertificates(certs, keystore, crls, calendar)`: null when the
      chain validates, otherwise an array whose element 1 describes the failure. */
  type CertificateValidator = (seq<Certificate>, TrustStore, int) -> Option<seq<JObject>>

  /** The `AcroFields` of an opened PDF. */
  datatype AcroFields = AcroFields(
    signatureNames: seq<string>,                // af.getSignatureNames()
    totalRevisions: int,                        // af.getTotalRevisions()
    signature: string -> SignatureFacts)        // af.verifySignature(name) and the per-name queries

  /** The outside world one run of the program meets. */
  datatype Environment = Environment(
    cacertsLoads: bool,                              // PdfPKCS7.loadCacertsKeyStore() succeeds
    readCertificates: string -> Option<seq<Certificate>>, // CertificateFactory.generateCertificates(file)
    openPdf: string -> Option<AcroFields>,           // new PdfReader(file).getAcroFields()
    verifyCertificates: CertificateValidator)
}
