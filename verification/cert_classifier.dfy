/**
 * Certificate classification (certGetCertificateType in source/cert.c).
 *
 * The certificate layout helpers are external collaborators and appear as
 * the fields of `CertParser`; the classifier's own logic is the size window,
 * the validity checks and the (signature type, public key type) dispatch.
 */
module CertClassifier {
  import opened Wrappers
  import opened Bytes

  /** sizeof(CertSigHmac160PubKeyEcc480): the smallest signed certificate. */
  const SIGNED_CERT_MIN_SIZE: nat := 0x140
  /** sizeof(CertSigRsa4096PubKeyRsa4096): the largest signed certificate. */
  const SIGNED_CERT_MAX_SIZE: nat := 0x500

  /** Signature types, as read byte-swapped from the start of the certificate. */
  const SIG_RSA4096_SHA1: u32 := 0x10000
  const SIG_RSA2048_SHA1: u32 := 0x10001
  const SIG_ECC480_SHA1: u32 := 0x10002
  const SIG_RSA4096_SHA256: u32 := 0x10003
  const SIG_RSA2048_SHA256: u32 := 0x10004
  const SIG_ECC480_SHA256: u32 := 0x10005
  const SIG_HMAC160_SHA1: u32 := 0x10006

  /** Public key types of the common block. */
  const PUB_KEY_RSA4096: u32 := 0
  const PUB_KEY_RSA2048: u32 := 1
  const PUB_KEY_ECC480: u32 := 2

  /** A signature algorithm without its hash variant. */
  datatype SigFamily = SigRsa4096 | SigRsa2048 | SigEcc480 | SigHmac160

  datatype KeyFamily = KeyRsa4096 | KeyRsa2048 | KeyEcc480

  /** CertType: CertType_None or one of the twelve CertType_Sig*_PubKey* tags. */
  datatype CertType = NoCertType | CertTypeOf(sig: SigFamily, key: KeyFamily)

  /** The collaborators the classifier calls on the certificate bytes. */
  datatype CertParser = CertParser(
    /** certGetCommonBlock, then the byte-swapped pub_key_type of that block;
        None when the common block cannot be located */
    pubKeyType: seq<byte> -> Option<u32>,
    /** certGetSignedCertificateSize; 0 when the certificate is not valid */
    signedSize: seq<byte> -> nat,
    /** signatureGetSigType with byte-swapping */
    sigType: seq<byte> -> u32)

  /** The switch cases of certGetCertificateType: both hash variants of one
      algorithm land in one family; any other value has none. */
  function SigFamilyOf(sigType: u32): (f: Option<SigFamily>)
    ensures f == Some(SigRsa4096) <==> sigType == SIG_RSA4096_SHA1 || sigType == SIG_RSA4096_SHA256
    ensures f == Some(SigRsa2048) <==> sigType == SIG_RSA2048_SHA1 || sigType == SIG_RSA2048_SHA256
    ensures f == Some(SigEcc480) <==> sigType == SIG_ECC480_SHA1 || sigType == SIG_ECC480_SHA256
    ensures f == Some(SigHmac160) <==> sigType == SIG_HMAC160_SHA1
    ensures f.None? <==> !(SIG_RSA4096_SHA1 <= sigType <= SIG_HMAC160_SHA1)
  {
    if sigType == SIG_RSA4096_SHA1 || sigType == SIG_RSA4096_SHA256 then Some(SigRsa4096)
    else if sigType == SIG_RSA2048_SHA1 || sigType == SIG_RSA2048_SHA256 then Some(SigRsa2048)
    else if sigType == SIG_ECC480_SHA1 || sigType == SIG_ECC480_SHA256 then Some(SigEcc480)
    else if sigType == SIG_HMAC160_SHA1 then Some(SigHmac160)
    else None
  }

  /** The CERT_TYPE macro's choice of public key: Rsa4096 and Rsa2048 by
      value, every other value (Ecc480 included) as Ecc480. */
  function KeyFamilyOf(pubKeyType: u32): (k: KeyFamily)
    ensures k == KeyRsa4096 <==> pubKeyType == PUB_KEY_RSA4096
    ensures k == KeyRsa2048 <==> pubKeyType == PUB_KEY_RSA2048
    ensures k == KeyEcc480 <==> pubKeyType != PUB_KEY_RSA4096 && pubKeyType != PUB_KEY_RSA2048
  {
    if pubKeyType == PUB_KEY_RSA4096 then KeyRsa4096
    else if pubKeyType == PUB_KEY_RSA2048 then KeyRsa2048
    else KeyEcc480
  }

  /** The dispatch on the two type fields. */
  function TypeFor(sigType: u32, pubKeyType: u32): (t: CertType)
    ensures t.NoCertType? <==> SigFamilyOf(sigType).None?
    ensures t.CertTypeOf? ==> Some(t.sig) == SigFamilyOf(sigType) && t.key == KeyFamilyOf(pubKeyType)
  {
    match SigFamilyOf(sigType)
    case None => NoCertType
    case Some(f) => CertTypeOf(f, KeyFamilyOf(pubKeyType))
  }

  /** The certificate buffer and its embedded sizes are acceptable. */
  predicate WellFormedCert(p: CertParser, data: seq<byte>)
  {
    && SIGNED_CERT_MIN_SIZE <= |data| <= SIGNED_CERT_MAX_SIZE
    && p.pubKeyType(data).Some?
    && 0 < p.signedSize(data) <= |data|
  }

  /** certGetCertificateType. */
  function GetCertificateType(p: CertParser, data: seq<byte>): (t: CertType)
    ensures |data| < SIGNED_CERT_MIN_SIZE || |data| > SIGNED_CERT_MAX_SIZE ==> t == NoCertType
    ensures p.pubKeyType(data).None? ==> t == NoCertType
    ensures p.signedSize(data) == 0 || p.signedSize(data) > |data| ==> t == NoCertType
    ensures t.CertTypeOf? <==> WellFormedCert(p, data) && SigFamilyOf(p.sigType(data)).Some?
    ensures t.CertTypeOf? ==>
      SigFamilyOf(p.sigType(data)) == Some(t.sig) && t.key == KeyFamilyOf(p.pubKeyType(data).value)
  {
    if |data| < SIGNED_CERT_MIN_SIZE || |data| > SIGNED_CERT_MAX_SIZE then NoCertType
    else if p.pubKeyType(data).None? || p.signedSize(data) == 0 || p.signedSize(data) > |data| then NoCertType
    else TypeFor(p.sigType(data), p.pubKeyType(data).value)
  }

  /** SHA-1 and SHA-256 variants of one algorithm get the same tag, for every
      public key type. */
  lemma HashVariantsShareTag(pubKeyType: u32)
    ensures TypeFor(SIG_RSA4096_SHA1, pubKeyType) == TypeFor(SIG_RSA4096_SHA256, pubKeyType)
    ensures TypeFor(SIG_RSA2048_SHA1, pubKeyType) == TypeFor(SIG_RSA2048_SHA256, pubKeyType)
    ensures TypeFor(SIG_ECC480_SHA1, pubKeyType) == TypeFor(SIG_ECC480_SHA256, pubKeyType)
  {
  }

  /** The dispatch is onto: each of the twelve tags is produced by some pair
      of type fields. */
  lemma DispatchCoversEveryTag(t: CertType)
    requires t.CertTypeOf?
    ensures exists sigType: u32, pubKeyType: u32 :: TypeFor(sigType, pubKeyType) == t
  {
    var s: u32 := match t.sig
      case SigRsa4096 => SIG_RSA4096_SHA1
      case SigRsa2048 => SIG_RSA2048_SHA1
      case SigEcc480 => SIG_ECC480_SHA1
      case SigHmac160 => SIG_HMAC160_SHA1;
    var k: u32 := match t.key
      case KeyRsa4096 => PUB_KEY_RSA4096
      case KeyRsa2048 => PUB_KEY_RSA2048
      case KeyEcc480 => PUB_KEY_ECC480;
    assert TypeFor(s, k) == t;
  }
}
