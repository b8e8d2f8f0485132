/** The catalog of a PDF's signatures (`SignatureInfo`): the trust store the
    session uses, and one DocumentRevision per signature name. */
module SignatureCatalog {
  import opened JavaLang
  import opened Pki
  import opened DocumentRevisions

  /** The alias a user-supplied certificate is stored under: its serial number
      rendered in base 36 (`Character.MAX_RADIX`). */
  function Alias(cert: Certificate): (alias: string)
    ensures |alias| >= 1
    ensures alias[0] == '-' <==> cert.serial < 0
  {
    ToJavaString(cert.serial, 36)
  }

  /** Two certificates share an alias exactly when their serial numbers agree. */
  lemma AliasCollision(c1: Certificate, c2: Certificate)
    ensures Alias(c1) == Alias(c2) <==> c1.serial == c2.serial
  {
    ToJavaStringInjective(c1.serial, c2.serial, 36);
  }

  /** The entries of the user key store after `setCertificateEntry` has been
      called, in order, for each X.509 certificate of `certs`. */
  function TrustEntries(certs: seq<Certificate>): (entries: map<string, Certificate>)
    ensures forall alias :: alias in entries ==>
      entries[alias].isX509 && Alias(entries[alias]) == alias
  {
    if certs == [] then map[]
    else
      var entries := TrustEntries(certs[..|certs| - 1]);
      var cert := certs[|certs| - 1];
      if cert.isX509 then entries[Alias(cert) := cert] else entries
  }

  /** `certs[i]` is the last X.509 certificate of `certs` stored under `alias`. */
  predicate LastWithAlias(certs: seq<Certificate>, alias: string, i: int) {
    && 0 <= i < |certs| && certs[i].isX509 && Alias(certs[i]) == alias
    && forall j :: i < j < |certs| && certs[j].isX509 ==> Alias(certs[j]) != alias
  }

  /** Every X.509 certificate of the file gets an entry, and a later
      certificate with the same serial replaces an earlier one. */
  lemma {:induction false} TrustEntriesStoreLast(certs: seq<Certificate>, i: int)
    requires 0 <= i < |certs| && certs[i].isX509
    ensures Alias(certs[i]) in TrustEntries(certs)
    ensures LastWithAlias(certs, Alias(certs[i]), i) ==> TrustEntries(certs)[Alias(certs[i])] == certs[i]
  {
    var front := certs[..|certs| - 1];
    if i < |certs| - 1 {
      assert front[i] == certs[i];
      TrustEntriesStoreLast(front, i);
      if LastWithAlias(certs, Alias(certs[i]), i) {
        assert LastWithAlias(front, Alias(certs[i]), i);
      }
    }
  }

  /** Nothing else is stored: every entry is the last X.509 certificate of the
      file with that alias, so certificates of other types are skipped. */
  lemma {:induction false} TrustEntriesOnlyLast(certs: seq<Certificate>, alias: string)
    requires alias in TrustEntries(certs)
    ensures exists i :: LastWithAlias(certs, alias, i) && TrustEntries(certs)[alias] == certs[i]
  {
    var front := certs[..|certs| - 1];
    var last := certs[|certs| - 1];
    if last.isX509 && Alias(last) == alias {
      assert LastWithAlias(certs, alias, |certs| - 1);
    } else {
      TrustEntriesOnlyLast(front, alias);
      var i :| LastWithAlias(front, alias, i) && TrustEntries(front)[alias] == front[i];
      assert LastWithAlias(certs, alias, i);
    }
  }

  /** The trust store a session uses: the platform CA store when no file is
      named, otherwise the X.509 certificates of the file keyed by alias; None
      stands for the exception that loading throws. */
  function TrustStoreFor(localCertStore: Option<string>, env: Environment): (store: Option<TrustStore>)
    ensures localCertStore.None? ==> (store.Some? <==> env.cacertsLoads) && (store.Some? ==> store.value == Cacerts)
    ensures localCertStore.Some? ==>
      && (store.None? <==> env.readCertificates(localCertStore.value).None?)
      && (store.Some? ==> store.value == UserStore(TrustEntries(env.readCertificates(localCertStore.value).value)))
  {
    match localCertStore
    case None => if env.cacertsLoads then Some(Cacerts) else None
    case Some(path) =>
      match env.readCertificates(path)
      case None => None
      case Some(col) => Some(UserStore(TrustEntries(col)))
  }

  /** The insertion loop of the two-argument constructor. */
  method BuildUserStore(col: seq<Certificate>) returns (kall: map<string, Certificate>)
    ensures kall == TrustEntries(col)
  {
    kall := map[];
    for i := 0 to |col|
      invariant kall == TrustEntries(col[..i])
    {
      var cert := col[i];
      if cert.isX509 {
        kall := kall[Alias(cert) := cert];
      }
      assert col[..i + 1][..i] == col[..i];
    }
    assert col[..|col|] == col;
  }

  /** `names` lists every element of `keys` exactly once. */
  ghost predicate Enumerates(names: seq<string>, keys: set<string>) {
    && (forall n :: n in names <==> n in keys)
    && (forall i, j :: 0 <= i < j < |names| ==> names[i] != names[j])
  }

  /** Every entry of `m` is the record `init` builds for its name. */
  ghost predicate Records(m: map<string, DocumentRevision>, af: AcroFields, kall: TrustStore,
                          verifyCertificates: CertificateValidator, counter: RevisionCounter)
  {
    forall name :: name in m ==>
      && m[name].signatureName == name && m[name].facts == af.signature(name)
      && m[name].kall == kall && m[name].verifyCertificates == verifyCertificates
      && m[name].counter == counter
  }

  class SignatureInfo {
    const af: AcroFields
    const kall: TrustStore
    const verifyCertificates: CertificateValidator
    const counter: RevisionCounter
    /** Filled by `init` while the object is built and never changed afterwards. */
    const signatureRevisions: map<string, DocumentRevision>

    ghost predicate Valid() {
      Records(signatureRevisions, af, kall, verifyCertificates, counter)
    }

    /** `init`: one record per signature name the document reports; a name
        reported twice keeps the record created last. */
    constructor (af: AcroFields, kall: TrustStore, verifyCertificates: CertificateValidator,
                 counter: RevisionCounter)
      ensures this.af == af && this.kall == kall && this.counter == counter
      ensures this.verifyCertificates == verifyCertificates
      ensures Valid()
      ensures signatureRevisions.Keys == set name | name in af.signatureNames
    {
      this.af := af;
      this.kall := kall;
      this.verifyCertificates := verifyCertificates;
      this.counter := counter;
      var revisions: map<string, DocumentRevision> := map[];
      var names := af.signatureNames;
      for i := 0 to |names|
        invariant Records(revisions, af, kall, verifyCertificates, counter)
        invariant revisions.Keys == set name | name in names[..i]
      {
        var rev := new DocumentRevision(af, kall, verifyCertificates, names[i], counter);
        revisions := revisions[names[i] := rev];
        assert names[..i + 1] == names[..i] + [names[i]];
      }
      assert names[..|names|] == names;
      signatureRevisions := revisions;
    }

    /** The two-argument constructor (the one-argument one is the case
        `localCertStore == None`): build the trust store, then open the PDF.
        A null result stands for the exception either step throws. */
    static method Open(fileName: string, localCertStore: Option<string>, env: Environment,
                       counter: RevisionCounter) returns (info: SignatureInfo?)
      ensures info == null <==> TrustStoreFor(localCertStore, env).None? || env.openPdf(fileName).None?
      ensures info != null ==> fresh(info) && info.OpenedFrom(fileName, localCertStore, env, counter)
    {
      var kall: TrustStore;
      if localCertStore.None? {
        if !env.cacertsLoads {
          return null;  // KeyStoreException
        }
        kall := Cacerts;
      } else {
        var col := env.readCertificates(localCertStore.value);
        if col.None? {
          return null;  // FileNotFoundException or CertificateException
        }
        var entries := BuildUserStore(col.value);
        kall := UserStore(entries);
      }
      var reader := env.openPdf(fileName);
      if reader.None? {
        return null;  // IOException from PdfReader
      }
      info := new SignatureInfo(reader.value, kall, env.verifyCertificates, counter);
    }

    /** This is the catalog the two-argument constructor builds for `fileName`
        and `localCertStore`: the trust store they select, the fields of that
        PDF, one record per signature name it reports. */
    ghost predicate OpenedFrom(fileName: string, localCertStore: Option<string>, env: Environment,
                               counter: RevisionCounter)
    {
      && Valid()
      && Some(kall) == TrustStoreFor(localCertStore, env)
      && env.openPdf(fileName).Some? && af == env.openPdf(fileName).value
      && verifyCertificates == env.verifyCertificates && this.counter == counter
      && signatureRevisions.Keys == set name | name in af.signatureNames
    }

    /** `getSignatureNames`: every signature name once, in no promised order. */
    method GetSignatureNames() returns (names: seq<string>)
      ensures Enumerates(names, signatureRevisions.Keys)
      ensures |names| == |signatureRevisions|
    {
      names := [];
      var rest := signatureRevisions.Keys;
      while rest != {}
        invariant rest <= signatureRevisions.Keys
        invariant forall n :: n in names <==> n in signatureRevisions.Keys && n !in rest
        invariant forall i, j :: 0 <= i < j < |names| ==> names[i] != names[j]
        invariant |names| + |rest| == |signatureRevisions.Keys|
        decreases |rest|
      {
        var name :| name in rest;
        names := names + [name];
        rest := rest - {name};
      }
    }

    /** `getRevision`: null exactly for a name that is not a signature; otherwise
        the record of that very signature. */
    function GetRevision(signatureName: string): (rev: DocumentRevision?)
      requires Valid()
      ensures rev == null <==> signatureName !in signatureRevisions
      ensures rev != null ==> rev.signatureName == signatureName && rev.counter == counter
      ensures rev != null ==> rev.facts == af.signature(signatureName)
    {
      if signatureName in signatureRevisions then signatureRevisions[signatureName] else null
    }

    function GetTotalRevisions(): (total: int)
      ensures total == af.totalRevisions
    {
      af.totalRevisions
    }
  }
}
