/**
 * Certificate resolution against the ES certificate system savefile
 * (source/cert.c): the open/close discipline of the savefile handle,
 * single-certificate retrieval and all-or-nothing chain assembly.
 *
 * The savefile is modelled as a map from path to stored file; the mutex
 * that serialises the public entry points is left out.
 */
module CertStore {
  import opened Wrappers
  import opened Bytes
  import opened CertClassifier
  import opened Issuer

  /** Directory of the certificates inside the savefile. */
  const CERT_STORAGE_BASE_PATH: string := "/certificate/"
  /** Size of the path buffer, terminator included. */
  const SAVE_FS_LIST_MAX_NAME_LENGTH: nat := 0x40

  /** A file of the savefile: its declared size and the bytes a read of it
      yields (fewer than declared when the storage read comes up short). */
  datatype StoredFile = StoredFile(declaredSize: u64, contents: seq<byte>)

  datatype SaveFile = SaveFile(files: map<string, StoredFile>)

  /** The global handle (`g_esCertSaveCtx`, None when NULL) and what opening
      the savefile yields (None when save_open_savefile fails). */
  datatype Store = Store(handle: Option<SaveFile>, savefile: Option<SaveFile>)

  /** A retrieved certificate; its size is |data|. */
  datatype Certificate = Certificate(certType: CertType, data: seq<byte>)

  datatype CertError = InvalidArgument | StoreUnavailable | NotFound | InvalidFormat | IoError

  /** A result together with the store state the call leaves behind. */
  datatype Outcome<+T> = Outcome(result: T, store: Store)

  // ---------------------------------------------------------------------
  // Savefile handle
  // ---------------------------------------------------------------------

  /** certOpenEsCertSaveFile. */
  function OpenEsCertSaveFile(st: Store): (o: Outcome<bool>)
    ensures st.handle.Some? ==> o == Outcome(true, st)
    ensures o.result <==> o.store.handle.Some?
    ensures st.handle.None? ==> o.store.handle == st.savefile
    ensures o.store.savefile == st.savefile
  {
    if st.handle.Some? then Outcome(true, st)
    else if st.savefile.None? then Outcome(false, st)
    else Outcome(true, st.(handle := st.savefile))
  }

  /** certCloseEsCertSaveFile. */
  function CloseEsCertSaveFile(st: Store): (st': Store)
    ensures st'.handle.None?
    ensures st'.savefile == st.savefile
  {
    if st.handle.None? then st else st.(handle := None)
  }

  /** The savefile an operation reads: the open one if there is one,
      otherwise the one opening yields. */
  function ActiveSave(st: Store): Option<SaveFile>
  {
    if st.handle.Some? then st.handle else st.savefile
  }

  /** Opening is idempotent: once it succeeded, opening again changes nothing;
      and the handle it leaves is the active savefile. */
  lemma OpenIsIdempotent(st: Store)
    ensures var o := OpenEsCertSaveFile(st);
      o.result ==> OpenEsCertSaveFile(o.store) == Outcome(true, o.store) && o.store.handle == ActiveSave(st)
    ensures !OpenEsCertSaveFile(st).result <==> ActiveSave(st).None?
  {
  }

  // ---------------------------------------------------------------------
  // Single certificates
  // ---------------------------------------------------------------------

  /** snprintf(path, 0x40, "/certificate/%s", name). */
  function CertPath(name: string): (path: string)
    ensures |path| < SAVE_FS_LIST_MAX_NAME_LENGTH
    ensures path <= CERT_STORAGE_BASE_PATH + name
    ensures |CERT_STORAGE_BASE_PATH + name| < SAVE_FS_LIST_MAX_NAME_LENGTH ==> path == CERT_STORAGE_BASE_PATH + name
    ensures |CERT_STORAGE_BASE_PATH + name| >= SAVE_FS_LIST_MAX_NAME_LENGTH ==> |path| == SAVE_FS_LIST_MAX_NAME_LENGTH - 1
  {
    var full := CERT_STORAGE_BASE_PATH + name;
    if |full| < SAVE_FS_LIST_MAX_NAME_LENGTH then full else full[..SAVE_FS_LIST_MAX_NAME_LENGTH - 1]
  }

  /** A certificate the retrieval code accepts: its size is in the signed
      certificate window and it carries the tag the classifier gives it. */
  predicate ValidCertificate(p: CertParser, c: Certificate)
  {
    && SIGNED_CERT_MIN_SIZE <= |c.data| <= SIGNED_CERT_MAX_SIZE
    && c.certType == GetCertificateType(p, c.data)
    && c.certType != NoCertType
  }

  /** A stored file the retrieval accepts: its declared size is in the
      signed certificate window, the read yields that many bytes, and the
      classifier gives those bytes a tag. */
  predicate StoredCertOk(p: CertParser, f: StoredFile)
  {
    && SIGNED_CERT_MIN_SIZE <= f.declaredSize <= SIGNED_CERT_MAX_SIZE
    && |f.contents| >= f.declaredSize
    && GetCertificateType(p, f.contents[..f.declaredSize]) != NoCertType
  }

  /** The certificate an accepted stored file holds. */
  function StoredCert(p: CertParser, f: StoredFile): Certificate
    requires |f.contents| >= f.declaredSize
  {
    var data := f.contents[..f.declaredSize];
    Certificate(GetCertificateType(p, data), data)
  }

  /** _certRetrieveCertificateByName, with the handle as a parameter. */
  function RetrieveCertificateByNameLocked(handle: Option<SaveFile>, p: CertParser, name: string): (r: Result<Certificate, CertError>)
    ensures handle.None? ==> r == Err(StoreUnavailable)
    ensures handle.Some? && CertPath(name) !in handle.value.files ==> r == Err(NotFound)
    ensures handle.Some? && CertPath(name) in handle.value.files ==>
      var f := handle.value.files[CertPath(name)];
      && (f.declaredSize < SIGNED_CERT_MIN_SIZE || f.declaredSize > SIGNED_CERT_MAX_SIZE ==> r == Err(InvalidFormat))
      && (SIGNED_CERT_MIN_SIZE <= f.declaredSize <= SIGNED_CERT_MAX_SIZE && |f.contents| < f.declaredSize ==> r == Err(IoError))
    ensures r.Ok? ==>
      && handle.Some? && CertPath(name) in handle.value.files
      && var f := handle.value.files[CertPath(name)];
      && |r.value.data| == f.declaredSize
      && r.value.data <= f.contents
      && ValidCertificate(p, r.value)
    ensures r.Err? && handle.Some? && CertPath(name) in handle.value.files ==>
      r.error == InvalidFormat || r.error == IoError
    ensures r.Ok? <==>
      handle.Some? && CertPath(name) in handle.value.files && StoredCertOk(p, handle.value.files[CertPath(name)])
    ensures handle.Some? && CertPath(name) in handle.value.files && StoredCertOk(p, handle.value.files[CertPath(name)]) ==>
      r == Ok(StoredCert(p, handle.value.files[CertPath(name)]))
  {
    if handle.None? then Err(StoreUnavailable)
    else
      var path := CertPath(name);
      if path !in handle.value.files then Err(NotFound)
      else
        var f := handle.value.files[path];
        if f.declaredSize < SIGNED_CERT_MIN_SIZE || f.declaredSize > SIGNED_CERT_MAX_SIZE then Err(InvalidFormat)
        else if |f.contents| < f.declaredSize then Err(IoError)
        else
          var data := f.contents[..f.declaredSize];
          var t := GetCertificateType(p, data);
          if t == NoCertType then Err(InvalidFormat) else Ok(Certificate(t, data))
  }

  /** certRetrieveCertificateByName: refuse an empty name, open the savefile,
      retrieve, close. */
  function RetrieveCertificateByName(st: Store, p: CertParser, name: string): (o: Outcome<Result<Certificate, CertError>>)
    ensures |name| == 0 ==> o == Outcome(Err(InvalidArgument), st)
    ensures |name| > 0 ==> o.store.handle.None? && o.store.savefile == st.savefile
    ensures st.handle.None? ==> o.store.handle.None?
    ensures |name| > 0 && ActiveSave(st).None? ==> o.result == Err(StoreUnavailable)
    ensures |name| > 0 && ActiveSave(st).Some? ==> o.result == RetrieveCertificateByNameLocked(ActiveSave(st), p, name)
    ensures o.result.Ok? ==> ValidCertificate(p, o.result.value)
  {
    if |name| == 0 then Outcome(Err(InvalidArgument), st)
    else
      var op := OpenEsCertSaveFile(st);
      if !op.result then Outcome(Err(StoreUnavailable), op.store)
      else
        var r := RetrieveCertificateByNameLocked(op.store.handle, p, name);
        Outcome(r, CloseEsCertSaveFile(op.store))
  }

  // ---------------------------------------------------------------------
  // Chains
  // ---------------------------------------------------------------------

  /** The retrieval loop of chain assembly: fetch the names in order and
      stop at the first failure, reporting its index. */
  function RetrieveAll<E>(fetch: string -> Result<Certificate, E>, names: seq<string>): (r: Result<seq<Certificate>, nat>)
    ensures r.Ok? ==>
      && |r.value| == |names|
      && forall i :: 0 <= i < |names| ==> fetch(names[i]) == Ok(r.value[i])
    ensures r.Err? ==>
      && r.error < |names|
      && fetch(names[r.error]).Err?
      && forall i :: 0 <= i < r.error ==> fetch(names[i]).Ok?
  {
    if |names| == 0 then Ok([])
    else
      match fetch(names[0])
      case Err(_) => Err(0)
      case Ok(c) =>
        match RetrieveAll(fetch, names[1..])
        case Err(i) => Err(i + 1)
        case Ok(cs) => Ok([c] + cs)
  }

  /** What `calloc` leaves in a chain slot that no name was retrieved into. */
  const EMPTY_CERTIFICATE := Certificate(NoCertType, [])

  /** `certs` in a chain of `count` slots: slots past the retrieved
      certificates stay empty. */
  function PadChain(certs: seq<Certificate>, count: nat): (r: seq<Certificate>)
    ensures |r| == (if count >= |certs| then count else |certs|)
    ensures r[..|certs|] == certs
    ensures forall i :: |certs| <= i < |r| ==> r[i] == EMPTY_CERTIFICATE
  {
    if count > |certs| then certs + seq(count - |certs|, _ => EMPTY_CERTIFICATE) else certs
  }

  /** _certRetrieveCertificateChainBySignatureIssuer, with the handle as a
      parameter. The chain gets as many slots as the counting copy of the
      issuer has tokens; the names retrieved come from the retrieval copy. */
  function RetrieveChainLocked(handle: Option<SaveFile>, p: CertParser, issuer: string): (r: Result<seq<Certificate>, CertError>)
    ensures handle.None? ==> r == Err(StoreUnavailable)
    ensures handle.Some? && CertificateCountInIssuer(issuer) == 0 ==> r == Err(InvalidArgument)
    ensures r.Ok? ==>
      var count := CertificateCountInIssuer(issuer);
      var names := IssuerTokens(issuer);
      && handle.Some?
      && count > 0
      && |r.value| == (if count >= |names| then count else |names|)
      && (forall i :: 0 <= i < |names| ==> RetrieveCertificateByNameLocked(handle, p, names[i]) == Ok(r.value[i]))
      && (forall i :: |names| <= i < |r.value| ==> r.value[i] == EMPTY_CERTIFICATE)
    ensures r.Ok? && '%' !in issuer ==>
      |r.value| == CertificateCountInIssuer(issuer) == |IssuerTokens(issuer)|
    ensures handle.Some? && CertificateCountInIssuer(issuer) > 0 ==>
      (r.Err? <==> exists i :: 0 <= i < |IssuerTokens(issuer)| &&
                     RetrieveCertificateByNameLocked(handle, p, IssuerTokens(issuer)[i]).Err?)
  {
    if handle.None? then Err(StoreUnavailable)
    else if CertificateCountInIssuer(issuer) == 0 then Err(InvalidArgument)
    else
      var count := CertificateCountInIssuer(issuer);
      var names := IssuerTokens(issuer);
      assert '%' !in issuer ==> count == |names| by {
        if '%' !in issuer {
          CountMatchesTokens(issuer);
        }
      }
      match RetrieveAll(name => RetrieveCertificateByNameLocked(handle, p, name), names)
      case Err(i) => Err(RetrieveCertificateByNameLocked(handle, p, names[i]).error)
      case Ok(certs) =>
        var chain := PadChain(certs, count);
        assert forall i :: 0 <= i < |certs| ==> chain[i] == chain[..|certs|][i];
        Ok(chain)
  }

  /** Open the savefile, assemble the chain, close: the part the public chain
      entry point runs once its guard has passed. */
  function ChainSession(st: Store, p: CertParser, issuer: string): (o: Outcome<Result<seq<Certificate>, CertError>>)
    ensures o.store.handle.None? && o.store.savefile == st.savefile
    ensures ActiveSave(st).None? ==> o.result == Err(StoreUnavailable)
    ensures ActiveSave(st).Some? ==> o.result == RetrieveChainLocked(ActiveSave(st), p, issuer)
  {
    var op := OpenEsCertSaveFile(st);
    if !op.result then Outcome(Err(StoreUnavailable), op.store)
    else
      var r := RetrieveChainLocked(op.store.handle, p, issuer);
      Outcome(r, CloseEsCertSaveFile(op.store))
  }

  /** The guard of certRetrieveCertificateChainBySignatureIssuer as written:
      the issuer must be longer than five characters AND compare equal, as a
      whole string, to "Root-". */
  predicate ChainGuardAsWritten(issuer: string)
  {
    |issuer| != 0 && |issuer| > |ROOT_PREFIX| && issuer == ROOT_PREFIX
  }

  /** No issuer passes the guard as written: equality with "Root-" forces
      length 5, which the length test has already refused. */
  lemma ChainGuardRejectsEveryIssuer(issuer: string)
    ensures !ChainGuardAsWritten(issuer)
  {
  }

  /** certRetrieveCertificateChainBySignatureIssuer, as written. */
  function RetrieveChainBySignatureIssuer(st: Store, p: CertParser, issuer: string): (o: Outcome<Result<seq<Certificate>, CertError>>)
    ensures !ChainGuardAsWritten(issuer) ==> o == Outcome(Err(InvalidArgument), st)
  {
    if !ChainGuardAsWritten(issuer) then Outcome(Err(InvalidArgument), st)
    else ChainSession(st, p, issuer)
  }

  /** As written, the public chain entry point fails for every issuer and
      leaves the store untouched. */
  lemma ChainAsWrittenAlwaysFails(st: Store, p: CertParser, issuer: string)
    ensures RetrieveChainBySignatureIssuer(st, p, issuer) == Outcome(Err(InvalidArgument), st)
  {
    ChainGuardRejectsEveryIssuer(issuer);
  }

  /** certRetrieveCertificateChainBySignatureIssuer with the evidently
      intended guard: the issuer must start with "Root-" and go on past it. */
  function RetrieveChainBySignatureIssuerFixed(st: Store, p: CertParser, issuer: string): (o: Outcome<Result<seq<Certificate>, CertError>>)
    ensures !HasRootPrefix(issuer) ==> o == Outcome(Err(InvalidArgument), st)
    ensures HasRootPrefix(issuer) ==> o.store.handle.None? && o.store.savefile == st.savefile
    ensures st.handle.None? ==> o.store.handle.None?
    ensures o.result.Ok? ==>
      && HasRootPrefix(issuer)
      && CertificateCountInIssuer(issuer) > 0
      && |IssuerTokens(issuer)| <= |o.result.value|
      && forall i :: 0 <= i < |IssuerTokens(issuer)| ==>
           && RetrieveCertificateByNameLocked(ActiveSave(st), p, IssuerTokens(issuer)[i]) == Ok(o.result.value[i])
           && ValidCertificate(p, o.result.value[i])
    ensures o.result.Ok? && '%' !in issuer ==>
      |o.result.value| == CertificateCountInIssuer(issuer) == |IssuerTokens(issuer)|
    ensures HasRootPrefix(issuer) && ActiveSave(st).Some? ==> o.result == RetrieveChainLocked(ActiveSave(st), p, issuer)
  {
    if !HasRootPrefix(issuer) then Outcome(Err(InvalidArgument), st)
    else ChainSession(st, p, issuer)
  }

  /** The issuer "Root-CA00000003-XS00000020": when the savefile holds both
      certificates in acceptable form, the chain is exactly those two, in
      that order. */
  lemma ExampleChain(st: Store, p: CertParser)
    requires ActiveSave(st).Some?
    requires var files := ActiveSave(st).value.files;
      && CertPath("CA00000003") in files && StoredCertOk(p, files[CertPath("CA00000003")])
      && CertPath("XS00000020") in files && StoredCertOk(p, files[CertPath("XS00000020")])
    ensures var files := ActiveSave(st).value.files;
      RetrieveChainBySignatureIssuerFixed(st, p, "Root-CA00000003-XS00000020").result ==
        Ok([StoredCert(p, files[CertPath("CA00000003")]), StoredCert(p, files[CertPath("XS00000020")])])
  {
    var issuer := "Root-CA00000003-XS00000020";
    ExampleIssuerTokens();
    var files := ActiveSave(st).value.files;
    ChainOfTwo(ActiveSave(st), p, issuer, StoredCert(p, files[CertPath("CA00000003")]),
      StoredCert(p, files[CertPath("XS00000020")]));
  }

  /** An issuer naming two retrievable certificates yields exactly those two. */
  lemma ChainOfTwo(handle: Option<SaveFile>, p: CertParser, issuer: string, a: Certificate, b: Certificate)
    requires handle.Some? && '%' !in issuer && CertificateCountInIssuer(issuer) == 2
    requires |IssuerTokens(issuer)| == 2
    requires RetrieveCertificateByNameLocked(handle, p, IssuerTokens(issuer)[0]) == Ok(a)
    requires RetrieveCertificateByNameLocked(handle, p, IssuerTokens(issuer)[1]) == Ok(b)
    ensures RetrieveChainLocked(handle, p, issuer) == Ok([a, b])
  {
    var names := IssuerTokens(issuer);
    var r := RetrieveChainLocked(handle, p, issuer);
    assert forall i :: 0 <= i < |names| ==> RetrieveCertificateByNameLocked(handle, p, names[i]).Ok?;
    assert r.Ok? && |r.value| == 2;
    assert r.value[0] == a && r.value[1] == b;
    assert r.value == [a, b];
  }

  /** With the same issuer, a savefile missing the second certificate yields
      no chain at all. */
  lemma ExampleChainMissing(st: Store, p: CertParser)
    requires ActiveSave(st).Some?
    requires CertPath("XS00000020") !in ActiveSave(st).value.files
    ensures RetrieveChainBySignatureIssuerFixed(st, p, "Root-CA00000003-XS00000020").result.Err?
  {
    var issuer := "Root-CA00000003-XS00000020";
    ExampleIssuerTokens();
    var names := IssuerTokens(issuer);
    assert RetrieveCertificateByNameLocked(ActiveSave(st), p, names[1]).Err?;
  }

  /** An issuer whose counting copy names more certificates than its
      retrieval copy: the chain comes back as a success with an empty slot,
      which is no valid certificate. */
  lemma PercentIssuerPadsChain(st: Store, p: CertParser, c: Certificate)
    requires ActiveSave(st).Some?
    requires RetrieveCertificateByNameLocked(ActiveSave(st), p, Percents(63)) == Ok(c)
    ensures RetrieveChainBySignatureIssuerFixed(st, p, PercentIssuer()).result == Ok([c, EMPTY_CERTIFICATE])
    ensures !ValidCertificate(p, EMPTY_CERTIFICATE)
  {
    var issuer := PercentIssuer();
    PercentIssuerOverCounts();
    assert issuer[..|ROOT_PREFIX|] == ROOT_PREFIX;
    var r := RetrieveChainLocked(ActiveSave(st), p, issuer);
    assert forall i :: 0 <= i < |IssuerTokens(issuer)| ==>
      RetrieveCertificateByNameLocked(ActiveSave(st), p, IssuerTokens(issuer)[i]).Ok?;
    assert r.Ok? && |r.value| == 2;
    assert r.value == [c, EMPTY_CERTIFICATE];
  }
}
