/**
 * Raw certificate chains (source/cert.c): the size of a chain, its
 * serialisation into one buffer, the two public producers of raw chains
 * (from the savefile via an issuer string, and from the gamecard via a
 * rights ID).
 */
module RawChain {
  import opened Wrappers
  import opened Bytes
  import opened CertClassifier
  import opened Issuer
  import opened CertStore

  /** Sum of the certificate sizes. */
  function ChainSize(chain: seq<Certificate>): nat
  {
    if |chain| == 0 then 0 else ChainSize(chain[..|chain| - 1]) + |chain[|chain| - 1].data|
  }

  /** The certificates' bytes back to back, in chain order. */
  function Serialize(chain: seq<Certificate>): seq<byte>
  {
    if |chain| == 0 then [] else Serialize(chain[..|chain| - 1]) + chain[|chain| - 1].data
  }

  /** Where certificate `i` starts in the serialised chain. */
  function SegmentStart(chain: seq<Certificate>, i: nat): nat
    requires i <= |chain|
  {
    ChainSize(chain[..i])
  }

  function Sizes(chain: seq<Certificate>): (sizes: seq<nat>)
    ensures |sizes| == |chain|
    ensures forall i :: 0 <= i < |chain| ==> sizes[i] == |chain[i].data|
  {
    seq(|chain|, i requires 0 <= i < |chain| => |chain[i].data|)
  }

  function Datas(chain: seq<Certificate>): (ds: seq<seq<byte>>)
    ensures |ds| == |chain|
    ensures forall i :: 0 <= i < |chain| ==> ds[i] == chain[i].data
  {
    seq(|chain|, i requires 0 <= i < |chain| => chain[i].data)
  }

  function Sum(sizes: seq<nat>): nat
  {
    if |sizes| == 0 then 0 else Sum(sizes[..|sizes| - 1]) + sizes[|sizes| - 1]
  }

  /** Cuts a buffer into consecutive pieces of the given sizes. */
  function SplitBySizes(buf: seq<byte>, sizes: seq<nat>): (pieces: seq<seq<byte>>)
    requires Sum(sizes) == |buf|
    ensures |pieces| == |sizes|
    decreases |sizes|
  {
    if |sizes| == 0 then []
    else
      var k := |buf| - sizes[|sizes| - 1];
      SplitBySizes(buf[..k], sizes[..|sizes| - 1]) + [buf[k..]]
  }

  /** The serialised chain is exactly as long as the chain's size. */
  lemma {:induction false} SerializeLength(chain: seq<Certificate>)
    ensures |Serialize(chain)| == ChainSize(chain)
    decreases |chain|
  {
    if |chain| > 0 {
      SerializeLength(chain[..|chain| - 1]);
    }
  }

  /** The serialisation of a prefix of the chain is a prefix of the
      serialisation of the chain. */
  lemma {:induction false} SerializePrefix(chain: seq<Certificate>, i: nat)
    requires i <= |chain|
    ensures Serialize(chain[..i]) <= Serialize(chain)
    decreases |chain| - i
  {
    if i < |chain| {
      var n := |chain|;
      SerializePrefix(chain[..n - 1], i);
      assert chain[..n - 1][..i] == chain[..i];
    } else {
      assert chain[..i] == chain;
    }
  }

  /** Certificate `i` sits in `buf` between the sizes of the chain's first
      `i` and first `i + 1` certificates. */
  predicate SegmentAt(buf: seq<byte>, chain: seq<Certificate>, i: nat)
    requires i < |chain|
  {
    var lo := SegmentStart(chain, i);
    var hi := SegmentStart(chain, i + 1);
    lo <= hi <= |buf| && buf[lo..hi] == chain[i].data
  }

  lemma SliceOfPrefix(x: seq<byte>, p: seq<byte>, q: seq<byte>)
    requires p + q <= x
    ensures x[|p|..|p| + |q|] == q
  {
    assert x[..|p| + |q|] == p + q;
    assert x[|p|..|p| + |q|] == (p + q)[|p|..];
  }

  /** Slicing the serialised chain at the prefix sums recovers one
      certificate's bytes. */
  lemma SegmentOf(chain: seq<Certificate>, i: nat)
    requires i < |chain|
    ensures SegmentAt(Serialize(chain), chain, i)
  {
    var pre := chain[..i + 1];
    assert pre[..i] == chain[..i];
    var head := Serialize(chain[..i]);
    assert Serialize(pre) == head + chain[i].data;
    SerializeLength(chain[..i]);
    SerializeLength(pre);
    SerializePrefix(chain, i + 1);
    SliceOfPrefix(Serialize(chain), head, chain[i].data);
  }

  /** Every certificate can be recovered from the serialised chain. */
  lemma SerializeSegments(chain: seq<Certificate>)
    ensures |Serialize(chain)| == ChainSize(chain)
    ensures forall i: nat :: i < |chain| ==> SegmentAt(Serialize(chain), chain, i)
  {
    SerializeLength(chain);
    forall i: nat | i < |chain|
      ensures SegmentAt(Serialize(chain), chain, i)
    {
      SegmentOf(chain, i);
    }
  }

  /** The sizes of a chain add up to its size. */
  lemma {:induction false} SumOfSizes(chain: seq<Certificate>)
    ensures Sum(Sizes(chain)) == ChainSize(chain)
    decreases |chain|
  {
    if |chain| > 0 {
      var n := |chain|;
      SumOfSizes(chain[..n - 1]);
      assert Sizes(chain)[..n - 1] == Sizes(chain[..n - 1]);
    }
  }

  /** Round trip: cutting the serialised chain by the certificate sizes gives
      back the certificates' bytes, in order. */
  lemma {:induction false} SplitSerializeRoundTrip(chain: seq<Certificate>)
    ensures Sum(Sizes(chain)) == |Serialize(chain)|
    ensures SplitBySizes(Serialize(chain), Sizes(chain)) == Datas(chain)
    decreases |chain|
  {
    SumOfSizes(chain);
    SerializeLength(chain);
    if |chain| > 0 {
      var n := |chain|;
      var init := chain[..n - 1];
      SplitSerializeRoundTrip(init);
      var buf := Serialize(chain);
      var k := |buf| - |chain[n - 1].data|;
      assert buf == Serialize(init) + chain[n - 1].data;
      assert buf[..k] == Serialize(init);
      assert buf[k..] == chain[n - 1].data;
      assert Sizes(chain)[..n - 1] == Sizes(init);
      assert Datas(chain) == Datas(init) + [chain[n - 1].data];
    }
  }

  /** certCalculateRawCertificateChainSize: 0 for an empty chain, otherwise
      the running sum over the certificates. */
  method CalculateRawChainSize(chain: seq<Certificate>) returns (size: nat)
    ensures size == ChainSize(chain)
    ensures size == |Serialize(chain)|
    ensures |chain| == 0 ==> size == 0
  {
    SerializeLength(chain);
    size := 0;
    if |chain| == 0 {
      return;
    }
    var i := 0;
    while i < |chain|
      invariant 0 <= i <= |chain|
      invariant size == ChainSize(chain[..i])
    {
      assert chain[..i + 1][..i] == chain[..i];
      size := size + |chain[i].data|;
      i := i + 1;
    }
    assert chain[..|chain|] == chain;
  }

  /** certCopyCertificateChainDataToMemoryBuffer: copy each certificate to
      the write cursor, then advance the cursor by its size. */
  method CopyChainToBuffer(chain: seq<Certificate>) returns (buf: seq<byte>)
    ensures buf == Serialize(chain)
    ensures |buf| == ChainSize(chain)
  {
    SerializeLength(chain);
    buf := [];
    var i := 0;
    while i < |chain|
      invariant 0 <= i <= |chain|
      invariant buf == Serialize(chain[..i])
    {
      assert chain[..i + 1][..i] == chain[..i];
      buf := buf + chain[i].data;
      i := i + 1;
    }
    assert chain[..|chain|] == chain;
  }

  /** What the raw-chain producers hand back: the buffer (None for NULL) and
      the caller's size variable after the call. */
  datatype RawOutput = RawOutput(raw: Option<seq<byte>>, outSize: nat)

  /** The tail of certGenerateRawCertificateChainBySignatureIssuer after the
      chain retrieval: on success, size and serialise the chain and report
      the size; on failure, return NULL and leave the size alone. */
  method FinishRawChain(chain: Result<seq<Certificate>, CertError>, outSize: nat) returns (out: RawOutput)
    ensures chain.Err? ==> out == RawOutput(None, outSize)
    ensures chain.Ok? ==>
      && out.raw == Some(Serialize(chain.value))
      && out.outSize == ChainSize(chain.value) == |out.raw.value|
  {
    if chain.Err? {
      return RawOutput(None, outSize);
    }
    var size := CalculateRawChainSize(chain.value);
    var buf := CopyChainToBuffer(chain.value);
    return RawOutput(Some(buf), size);
  }

  /** certGenerateRawCertificateChainBySignatureIssuer, as written. */
  method GenerateRawChainBySignatureIssuer(st: Store, p: CertParser, issuer: string, outSize: nat)
    returns (out: RawOutput, st': Store)
    ensures out == RawOutput(None, outSize)
    ensures st' == st
  {
    if |issuer| == 0 {
      return RawOutput(None, outSize), st;
    }
    var o := RetrieveChainBySignatureIssuer(st, p, issuer);
    ChainAsWrittenAlwaysFails(st, p, issuer);
    out := FinishRawChain(o.result, outSize);
    st' := o.store;
  }

  /** certGenerateRawCertificateChainBySignatureIssuer over the chain entry
      point with the intended "Root-" prefix check. */
  method GenerateRawChainBySignatureIssuerFixed(st: Store, p: CertParser, issuer: string, outSize: nat)
    returns (out: RawOutput, st': Store)
    ensures out.raw.None? ==> out.outSize == outSize
    ensures out.raw.Some? ==>
      && HasRootPrefix(issuer)
      && var chain := RetrieveChainBySignatureIssuerFixed(st, p, issuer).result;
      && chain.Ok?
      && out.raw.value == Serialize(chain.value)
      && out.outSize == |out.raw.value| == ChainSize(chain.value)
      && ('%' !in issuer ==> |chain.value| == CertificateCountInIssuer(issuer))
      && forall i: nat :: i < |chain.value| ==> SegmentAt(out.raw.value, chain.value, i)
    ensures out.raw.Some? <==> |issuer| > 0 && RetrieveChainBySignatureIssuerFixed(st, p, issuer).result.Ok?
    ensures st.handle.None? ==> st'.handle.None?
  {
    if |issuer| == 0 {
      return RawOutput(None, outSize), st;
    }
    var o := RetrieveChainBySignatureIssuerFixed(st, p, issuer);
    if o.result.Ok? {
      SerializeSegments(o.result.value);
    }
    out := FinishRawChain(o.result, outSize);
    st' := o.store;
  }

  // ---------------------------------------------------------------------
  // Gamecard
  // ---------------------------------------------------------------------

  /** Size of a rights ID in bytes. */
  const RIGHTS_ID_SIZE: nat := 0x10
  const RAW_CHAIN_EXTENSION: string := ".cert"

  /** Offset and size of a file in the secure hash FS partition. */
  datatype EntryInfo = EntryInfo(offset: u64, size: u64)

  /** The gamecard collaborators. */
  datatype GameCard = GameCard(
    /** utilsGenerateHexStringFromData */
    hexString: seq<byte> -> string,
    /** gamecardGetEntryInfoFromHashFileSystemPartitionByName on the secure partition */
    secureEntry: string -> Option<EntryInfo>,
    /** gamecardReadStorage(offset, size): the bytes, or None when the read fails */
    readStorage: (u64, u64) -> Option<seq<byte>>)

  /** The file holding the raw chain: the hex form of the rights ID plus ".cert". */
  function RawChainFileName(gc: GameCard, rightsId: seq<byte>): string
  {
    gc.hexString(rightsId) + RAW_CHAIN_EXTENSION
  }

  /** certRetrieveRawCertificateChainFromGameCardByRightsId. */
  function RetrieveRawChainFromGameCard(gc: GameCard, rightsId: seq<byte>, outSize: nat): (out: RawOutput)
    requires |rightsId| == RIGHTS_ID_SIZE
    ensures out.raw.None? ==> out.outSize == outSize
    ensures out.raw.Some? <==>
      var e := gc.secureEntry(RawChainFileName(gc, rightsId));
      && e.Some?
      && e.value.size >= SIGNED_CERT_MIN_SIZE
      && var b := gc.readStorage(e.value.offset, e.value.size);
         b.Some? && |b.value| == e.value.size
    ensures out.raw.Some? ==>
      var e := gc.secureEntry(RawChainFileName(gc, rightsId)).value;
      && out.raw == gc.readStorage(e.offset, e.size)
      && out.outSize == |out.raw.value| == e.size
      && out.outSize >= SIGNED_CERT_MIN_SIZE
  {
    match gc.secureEntry(RawChainFileName(gc, rightsId))
    case None => RawOutput(None, outSize)
    case Some(e) =>
      if e.size < SIGNED_CERT_MIN_SIZE then RawOutput(None, outSize)
      else
        var b := gc.readStorage(e.offset, e.size);
        if b.Some? && |b.value| == e.size then RawOutput(b, e.size)
        else RawOutput(None, outSize)
  }

  /** Unlike single certificates, a gamecard chain has no upper size bound:
      any size from the minimum up is accepted when the read succeeds, even
      one larger than the largest single certificate. */
  lemma GameCardHasNoUpperBound(gc: GameCard, rightsId: seq<byte>, outSize: nat)
    requires |rightsId| == RIGHTS_ID_SIZE
    requires var e := gc.secureEntry(RawChainFileName(gc, rightsId));
      && e.Some? && e.value.size > SIGNED_CERT_MAX_SIZE
      && var b := gc.readStorage(e.value.offset, e.value.size);
         b.Some? && |b.value| == e.value.size
    ensures RetrieveRawChainFromGameCard(gc, rightsId, outSize).raw.Some?
    ensures RetrieveRawChainFromGameCard(gc, rightsId, outSize).outSize > SIGNED_CERT_MAX_SIZE
  {
  }
}
