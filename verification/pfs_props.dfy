/**
 * Properties of the partition filesystem reader that relate several calls
 * or several collaborators.
 */
module PartitionFsProps {
  import opened Wrappers
  import opened Bytes
  import opened PartitionFs

  /** The ExeFS probe never decides whether initialisation succeeds: with any
      two name lookups, both runs succeed or fail together, and on success the
      contexts differ at most in `isExeFs`. */
  lemma InitIndependentOfProbe(s: FsSection, l1: EntryLookup, l2: EntryLookup)
    ensures InitializeContext(s, l1).Ok? <==> InitializeContext(s, l2).Ok?
    ensures InitializeContext(s, l1).Err? ==> InitializeContext(s, l1) == InitializeContext(s, l2)
    ensures InitializeContext(s, l1).Ok? ==>
      InitializeContext(s, l1).value.(isExeFs := false) == InitializeContext(s, l2).value.(isExeFs := false)
  {
    if IsHashedPartitionFs(s) && s.offsetsValid(s.header.value.hashInfo, s.sectionSize) {
      var offset := s.header.value.hashInfo.hashTargetLayer.offset;
      match ReadHeaderPrefix(s, offset)
      case Err(_) =>
      case Ok(h) =>
        match ReadFsSection(s, offset, FullHeaderSize(h))
        case None =>
        case Some(_) =>
    }
  }

  /** The ExeFS flag of an initialised context is the probe run on that
      context before the flag was set. */
  lemma ExeFsIsProbe(s: FsSection, lookup: EntryLookup)
    requires InitializeContext(s, lookup).Ok?
    ensures
      var ctx := InitializeContext(s, lookup).value;
      ctx.isExeFs == ProbeExeFs(s, lookup, ctx.(isExeFs := false))
  {
    var offset := s.header.value.hashInfo.hashTargetLayer.offset;
    var h := ReadHeaderPrefix(s, offset).value;
    var header := ReadFsSection(s, offset, FullHeaderSize(h)).value;
    var size := s.header.value.hashInfo.hashTargetLayer.size;
    var ctx0 := PfsContext(offset, size, FullHeaderSize(h), false, Some(header));
    assert InitializeContext(s, lookup) == Ok(ctx0.(isExeFs := ProbeExeFs(s, lookup, ctx0)));
  }

  /** What makes a context an ExeFS: main.npdm is found, the entry and a
      four-byte window at its start pass both bounds checks, the section read
      there succeeds, and the word read is the NPDM META magic. */
  predicate MetaMagicAtMainNpdm(s: FsSection, lookup: EntryLookup, ctx: PfsContext)
    requires ctx.header.Some?
  {
    var m := lookup(ctx.header.value, MAIN_NPDM);
    && m.Some?
    && EntryWindowGuard(ctx, m.value, MAGIC_SIZE, 0)
    && PartitionWindowOk(ctx, MAGIC_SIZE, EntryDataOffset(ctx, m.value, 0))
    && var w := ReadFsSection(s, Add64(ctx.offset, EntryDataOffset(ctx, m.value, 0)), MAGIC_SIZE);
       w.Some? && BE32(w.value, 0) == NPDM_META_MAGIC
  }

  /** The probe, on any context holding a header, is that condition. */
  lemma ProbeDecomposed(s: FsSection, lookup: EntryLookup, ctx: PfsContext)
    requires ctx.header.Some?
    ensures ProbeExeFs(s, lookup, ctx) <==> MetaMagicAtMainNpdm(s, lookup, ctx)
  {
  }

  /** A four-byte word read most-significant first is the META magic
      exactly when its bytes are "META". */
  lemma MetaWord(w: seq<byte>)
    requires |w| == MAGIC_SIZE
    ensures BE32(w, 0) == NPDM_META_MAGIC <==> w == META_BYTES
  {
    if BE32(w, 0) == NPDM_META_MAGIC {
      assert w[0] == 0x4D;
      assert w[1] == 0x45;
      assert w[2] == 0x54;
      assert w[3] == 0x41;
    }
  }

  /** The probe in terms of the section's bytes: when it holds, main.npdm
      was found and the section bytes at its data offset are "META"; and,
      for an entry whose first word lies inside the entry and the region
      with no sum wrapping, those bytes being "META" make the probe hold. */
  lemma ProbeReadsMetaBytes(s: FsSection, lookup: EntryLookup, ctx: PfsContext)
    requires ctx.header.Some?
    ensures ProbeExeFs(s, lookup, ctx) ==>
      var m := lookup(ctx.header.value, MAIN_NPDM);
      && m.Some?
      && ReadFsSection(s, Add64(ctx.offset, EntryDataOffset(ctx, m.value, 0)), MAGIC_SIZE) == Some(META_BYTES)
    ensures
      var m := lookup(ctx.header.value, MAIN_NPDM);
      && m.Some?
      && EntryWindowFits(ctx, m.value, MAGIC_SIZE, 0)
      && ctx.headerSize + m.value.offset + MAGIC_SIZE <= ctx.size
      && ctx.offset + ctx.headerSize + m.value.offset + m.value.size + MAGIC_SIZE < U64_LIMIT
      && ReadFsSection(s, ctx.offset + ctx.headerSize + m.value.offset, MAGIC_SIZE) == Some(META_BYTES)
      ==> ProbeExeFs(s, lookup, ctx)
  {
    var m := lookup(ctx.header.value, MAIN_NPDM);
    if m.Some? {
      var e := m.value;
      var w := ReadEntryData(s, ctx, e, MAGIC_SIZE, 0);
      if w.Ok? {
        MetaWord(w.value);
      }
      if ctx.offset + ctx.headerSize + e.offset + e.size + MAGIC_SIZE < U64_LIMIT {
        EntryReadAgreesWithoutWrap(s, ctx, e, MAGIC_SIZE, 0);
        var b := ReadFsSection(s, ctx.offset + ctx.headerSize + e.offset, MAGIC_SIZE);
        if b.Some? {
          MetaWord(b.value);
        }
      }
    }
  }

  /** After a successful initialisation, `isExeFs` holds exactly when
      main.npdm carries the META magic; every other case leaves it false. */
  lemma ExeFsIffMetaMagic(s: FsSection, lookup: EntryLookup)
    requires InitializeContext(s, lookup).Ok?
    ensures
      var ctx := InitializeContext(s, lookup).value;
      ctx.isExeFs <==> MetaMagicAtMainNpdm(s, lookup, ctx)
  {
    var ctx := InitializeContext(s, lookup).value;
    var ctx0 := ctx.(isExeFs := false);
    ExeFsIsProbe(s, lookup);
    ProbeDecomposed(s, lookup, ctx0);
    ConditionIgnoresFlag(s, lookup, ctx);
  }

  lemma ConditionIgnoresFlag(s: FsSection, lookup: EntryLookup, ctx: PfsContext)
    requires ctx.header.Some?
    ensures MetaMagicAtMainNpdm(s, lookup, ctx.(isExeFs := false)) == MetaMagicAtMainNpdm(s, lookup, ctx)
  {
    var c0 := ctx.(isExeFs := false);
    assert c0.offset == ctx.offset && c0.size == ctx.size && c0.headerSize == ctx.headerSize && c0.header == ctx.header;
    var m := lookup(ctx.header.value, MAIN_NPDM);
    if m.Some? {
      assert EntryWindowGuard(c0, m.value, MAGIC_SIZE, 0) == EntryWindowGuard(ctx, m.value, MAGIC_SIZE, 0);
      assert EntryDataOffset(c0, m.value, 0) == EntryDataOffset(ctx, m.value, 0);
      assert PartitionWindowOk(c0, MAGIC_SIZE, EntryDataOffset(c0, m.value, 0)) ==
        PartitionWindowOk(ctx, MAGIC_SIZE, EntryDataOffset(ctx, m.value, 0));
    }
  }

  /** A section without main.npdm is never classified as ExeFS. */
  lemma NoMainNpdmIsNotExeFs(s: FsSection, lookup: EntryLookup)
    requires InitializeContext(s, lookup).Ok?
    requires lookup(InitializeContext(s, lookup).value.header.value, MAIN_NPDM).None?
    ensures !InitializeContext(s, lookup).value.isExeFs
  {
    ExeFsIffMetaMagic(s, lookup);
  }

  /** The boundary cases of the partition window: a read starting at the end
      of the region, or ending one byte past it, is refused. */
  lemma PartitionBoundaryRejected(s: FsSection, ctx: PfsContext, readSize: u64)
    requires readSize > 0
    ensures ReadPartitionData(s, ctx, readSize, ctx.size) == Err(InvalidArgument)
    ensures ctx.size + 1 < U64_LIMIT && ctx.size + 1 >= readSize && ctx.size + 1 - readSize < ctx.size ==>
      ReadPartitionData(s, ctx, readSize, ctx.size + 1 - readSize) == Err(InvalidArgument)
  {
  }

  /** When the sum does not wrap, a successful partition read lies wholly in
      the region and is served from ctx.offset + offset. */
  lemma PartitionReadWithinRegion(s: FsSection, ctx: PfsContext, readSize: u64, offset: u64)
    requires offset + readSize < U64_LIMIT && ctx.offset + offset < U64_LIMIT
    requires ReadPartitionData(s, ctx, readSize, offset).Ok?
    ensures 0 < readSize && offset + readSize <= ctx.size
    ensures ReadFsSection(s, ctx.offset + offset, readSize) == Some(ReadPartitionData(s, ctx, readSize, offset).value)
  {
  }

  /** Wherever none of the sums wraps, the entry read as written is the
      entry read over unbounded integers. */
  lemma EntryReadAgreesWithoutWrap(s: FsSection, ctx: PfsContext, e: PfsEntry, readSize: u64, offset: u64)
    requires ctx.offset + ctx.headerSize + e.offset + e.size + offset + readSize < U64_LIMIT
    ensures ReadEntryData(s, ctx, e, readSize, offset) == ReadEntryDataChecked(s, ctx, e, readSize, offset)
  {
  }

  /** As written, a crafted entry size makes `entry.offset + entry.size` wrap
      past 2^64, so the entry passes the "fits in the region" check, and a
      caller-chosen offset then wraps header_size + entry.offset + offset to 5:
      the read returns header bytes instead of entry data. The unbounded check
      refuses the same request. */
  lemma EntryGuardWrapsAround(s: FsSection)
    ensures
      var ctx := PfsContext(0, 0x1000, 0x100, false, Some([]));
      var e := PfsEntry(0x10, U64_LIMIT - 8, 0);
      var offset: u64 := U64_LIMIT - 0x10B;
      && EntryWindowGuard(ctx, e, 4, offset)
      && e.offset + e.size > ctx.size
      && EntryDataOffset(ctx, e, offset) == 5
      && EntryDataOffset(ctx, e, offset) < ctx.headerSize
      && ReadEntryData(s, ctx, e, 4, offset) == ReadPartitionData(s, ctx, 4, 5)
      && ReadEntryDataChecked(s, ctx, e, 4, offset) == Err(InvalidArgument)
  {
  }

  /** A refused patch request never reaches the collaborator: the result is
      the same whatever the section's patch generator does. */
  lemma RejectedPatchMakesNoCall(s1: FsSection, s2: FsSection, ctx: PfsContext, e: PfsEntry, data: seq<byte>, dataOffset: u64)
    requires |data| < U64_LIMIT
    requires GenerateEntryPatch(s1, ctx, e, data, dataOffset) == Err(InvalidArgument)
    ensures GenerateEntryPatch(s2, ctx, e, data, dataOffset) == Err(InvalidArgument)
  {
  }

  /** When no sum wraps, an accepted patch covers a window inside the entry:
      it starts at header_size + entry.offset + dataOffset and ends no later
      than the entry's last byte. The guard holds entry.offset + entry.size
      to the region size without counting header_size, so the window may end
      up to header_size bytes past the region. */
  lemma PatchWindowInsideEntry(s: FsSection, ctx: PfsContext, e: PfsEntry, data: seq<byte>, dataOffset: u64)
    requires |data| < U64_LIMIT
    requires ctx.headerSize + e.offset + e.size + dataOffset + |data| < U64_LIMIT
    requires GenerateEntryPatch(s, ctx, e, data, dataOffset).Ok?
    ensures 0 < |data| && dataOffset + |data| <= e.size && e.offset + e.size <= ctx.size
    ensures ctx.headerSize + e.offset + dataOffset + |data| <= ctx.size + ctx.headerSize
    ensures s.patchRaw(data, ctx.headerSize + e.offset + dataOffset).Some?
  {
  }

  /** An entry that fills the region after the header: the patch guard lets a
      window through that ends 0x80 bytes past the region, and the
      collaborator is asked at 0x170. The entry read refuses the same window,
      and so does the patch with the region bound. */
  lemma PatchGuardIgnoresHeader(s: FsSection, ctx: PfsContext, data: seq<byte>)
    requires ctx.size == 0x100 && ctx.headerSize == 0x80 && ctx.header.Some?
    requires |data| == 0x10
    ensures var e := PfsEntry(0, 0x100, 0);
      && EntryWindowGuard(ctx, e, |data|, 0xF0)
      && EntryDataOffset(ctx, e, 0xF0) == 0x170
      && EntryDataOffset(ctx, e, 0xF0) + |data| == ctx.size + 0x80
      && (GenerateEntryPatch(s, ctx, e, data, 0xF0).Ok? <==> s.patchRaw(data, 0x170).Some?)
      && ReadEntryData(s, ctx, e, 0x10, 0xF0) == Err(InvalidArgument)
      && GenerateEntryPatchChecked(s, ctx, e, data, 0xF0) == Err(InvalidArgument)
  {
  }

  /** The patch with the region bound accepts only what the patch as written
      accepts, and asks the collaborator at the same offset; unlike the
      latter, its window always lies inside the region. */
  lemma CheckedPatchAgrees(s: FsSection, ctx: PfsContext, e: PfsEntry, data: seq<byte>, dataOffset: u64)
    requires |data| < U64_LIMIT
    requires GenerateEntryPatchChecked(s, ctx, e, data, dataOffset).Ok?
    ensures GenerateEntryPatch(s, ctx, e, data, dataOffset) == GenerateEntryPatchChecked(s, ctx, e, data, dataOffset)
    ensures ctx.headerSize + e.offset + dataOffset + |data| <= ctx.size
  {
  }

  /** Conversely, wherever no sum reaches 2^64 and the window ends inside the
      region, the patch as written and the bounded patch are the same. */
  lemma PatchAgreesWithinRegion(s: FsSection, ctx: PfsContext, e: PfsEntry, data: seq<byte>, dataOffset: u64)
    requires |data| < U64_LIMIT
    requires e.offset + e.size < U64_LIMIT && dataOffset + |data| < U64_LIMIT
    requires ctx.headerSize + e.offset + dataOffset + |data| <= ctx.size
    ensures GenerateEntryPatch(s, ctx, e, data, dataOffset) == GenerateEntryPatchChecked(s, ctx, e, data, dataOffset)
  {
  }
}
