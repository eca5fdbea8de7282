/**
 * Partition filesystem ("PFS0") reader over one NCA filesystem section
 * (source/pfs.c).
 *
 * The NCA section is an external collaborator: its HierarchicalSha256
 * offset validator, its checked reader and its patch generator are fields
 * of `FsSection`, and the header-defined name lookup is an `EntryLookup`,
 * so every property below holds whatever those collaborators do.
 *
 * Sums the C code computes in `u64` wrap around modulo 2^64 (`Add64`).
 */
module PartitionFs {
  import opened Wrappers
  import opened Bytes

  /** "PFS0" read most-significant byte first. */
  const PFS0_MAGIC: u32 := 0x50465330
  /** "META" read most-significant byte first: the first word of main.npdm. */
  const NPDM_META_MAGIC: u32 := 0x4D455441
  /** sizeof(PartitionFileSystemHeader): magic, entry_count, name_table_size, reserved. */
  const PFS_HEADER_SIZE: nat := 0x10
  /** sizeof(PartitionFileSystemEntry): offset, size, name_offset, reserved. */
  const PFS_ENTRY_SIZE: nat := 0x18
  /** The entry whose presence marks an ExeFS. */
  const MAIN_NPDM: string := "main.npdm"
  /** The ASCII bytes "META" as they sit at the start of main.npdm. */
  const META_BYTES: seq<byte> := [0x4D, 0x45, 0x54, 0x41]
  /** sizeof(u32): the probe reads one magic word. */
  const MAGIC_SIZE: nat := 4

  datatype SectionType = PartitionFsSection | RomFsSection | PatchRomFsSection | Nca0RomFsSection | InvalidSection
  datatype FsType = RomFsType | PartitionFsType
  datatype HashType = AutoHash | NoHash | HierarchicalSha256Hash | HierarchicalIntegrityHash

  /** Offset and size of one hash layer inside the section. */
  datatype LayerRegion = LayerRegion(offset: u64, size: u64)

  /** The part of the HierarchicalSha256 descriptor the reader consults;
      the validator below sees the descriptor as a whole. */
  datatype HierarchicalSha256Info = HierarchicalSha256Info(hashTargetLayer: LayerRegion)

  datatype FsHeader = FsHeader(fsType: FsType, hashType: HashType, hashInfo: HierarchicalSha256Info)

  /** A patch made by the hash-tree collaborator; its contents are that collaborator's business. */
  type HashPatch = seq<byte>

  /** An NCA filesystem section together with the collaborators that work on it. */
  datatype FsSection = FsSection(
    sectionType: SectionType,
    header: Option<FsHeader>,
    sectionSize: u64,
    /** ncaValidateHierarchicalSha256Offsets(descriptor, section size) */
    offsetsValid: (HierarchicalSha256Info, u64) -> bool,
    /** ncaReadFsSection(offset, size): the bytes, or None when the read fails */
    readRaw: (nat, nat) -> Option<seq<byte>>,
    /** ncaGenerateHierarchicalSha256Patch(data, offset): the patch, or None */
    patchRaw: (seq<byte>, nat) -> Option<HashPatch>)

  datatype PfsError = InvalidArgument | IntegrityError | InvalidFormat | IoError

  /** One record of the entry table; `offset` is relative to the end of the full header. */
  datatype PfsEntry = PfsEntry(offset: u64, size: u64, nameOffset: u32)

  /** pfsGetEntryByName over the full header bytes. */
  type EntryLookup = (seq<byte>, string) -> Option<PfsEntry>

  /** The fields of the fixed-size header prefix. */
  datatype PfsHeader = PfsHeader(magic: u32, entryCount: u32, nameTableSize: u32)

  /** PartitionFileSystemContext: the data region [offset, offset + size) of the
      section, the full header (entry table and name table included) and the
      ExeFS classification. `header` is None for a context that holds no buffer. */
  datatype PfsContext = PfsContext(offset: u64, size: u64, headerSize: u64, isExeFs: bool, header: Option<seq<byte>>)

  /** ncaReadFsSection as the reader sees it: a read that does not yield exactly
      `size` bytes counts as a failed read. */
  function ReadFsSection(s: FsSection, offset: nat, size: nat): (r: Option<seq<byte>>)
    ensures r.Some? ==> |r.value| == size
  {
    var b := s.readRaw(offset, size);
    if b.Some? && |b.value| == size then b else None
  }

  // ---------------------------------------------------------------------
  // Initialisation
  // ---------------------------------------------------------------------

  /** The section is a partition filesystem protected by HierarchicalSha256. */
  predicate IsHashedPartitionFs(s: FsSection)
  {
    && s.sectionType == PartitionFsSection
    && s.header.Some?
    && s.header.value.fsType == PartitionFsType
    && s.header.value.hashType == HierarchicalSha256Hash
  }

  /** Magic, then entry_count and name_table_size as stored (little-endian). */
  function ParseHeaderPrefix(b: seq<byte>): PfsHeader
    requires |b| == PFS_HEADER_SIZE
  {
    PfsHeader(BE32(b, 0), LE32(b, 4), LE32(b, 8))
  }

  predicate ValidHeaderPrefix(h: PfsHeader)
  {
    h.magic == PFS0_MAGIC && h.entryCount != 0 && h.nameTableSize != 0
  }

  /** Reads and checks the header prefix at the start of the data region. */
  function ReadHeaderPrefix(s: FsSection, offset: u64): (r: Result<PfsHeader, PfsError>)
    ensures ReadFsSection(s, offset, PFS_HEADER_SIZE).None? ==> r == Err(IoError)
    ensures r.Ok? <==>
      (var b := ReadFsSection(s, offset, PFS_HEADER_SIZE);
       b.Some? && ValidHeaderPrefix(ParseHeaderPrefix(b.value)))
    ensures r.Ok? ==> r.value == ParseHeaderPrefix(ReadFsSection(s, offset, PFS_HEADER_SIZE).value)
    ensures r.Ok? ==> r.value.magic == PFS0_MAGIC && r.value.entryCount > 0 && r.value.nameTableSize > 0
    ensures r.Err? ==> r.error == IoError || r.error == InvalidFormat
    ensures (var b := ReadFsSection(s, offset, PFS_HEADER_SIZE);
             b.Some? && !ValidHeaderPrefix(ParseHeaderPrefix(b.value))) ==> r == Err(InvalidFormat)
  {
    match ReadFsSection(s, offset, PFS_HEADER_SIZE)
    case None => Err(IoError)
    case Some(b) =>
      var h := ParseHeaderPrefix(b);
      if h.magic != PFS0_MAGIC then Err(InvalidFormat)
      else if h.entryCount == 0 || h.nameTableSize == 0 then Err(InvalidFormat)
      else Ok(h)
  }

  /** Size of the header prefix, the entry table and the name table together. */
  function FullHeaderSize(h: PfsHeader): (n: u64)
    ensures n >= PFS_HEADER_SIZE + h.entryCount * PFS_ENTRY_SIZE
    ensures ValidHeaderPrefix(h) ==> n >= PFS_HEADER_SIZE + PFS_ENTRY_SIZE + 1
  {
    PFS_HEADER_SIZE + h.entryCount * PFS_ENTRY_SIZE + h.nameTableSize
  }

  /** The ExeFS probe: main.npdm exists, its first word reads back, and that
      word is the NPDM META magic. */
  predicate ProbeExeFs(s: FsSection, lookup: EntryLookup, ctx: PfsContext)
    requires ctx.header.Some?
    ensures ProbeExeFs(s, lookup, ctx) ==> lookup(ctx.header.value, MAIN_NPDM).Some?
  {
    match lookup(ctx.header.value, MAIN_NPDM)
    case None => false
    case Some(e) =>
      var w := ReadEntryData(s, ctx, e, MAGIC_SIZE, 0);
      w.Ok? && BE32(w.value, 0) == NPDM_META_MAGIC
  }

  /** The header prefix at `offset` is valid and the full header it
      announces reads back. */
  predicate HeaderLoads(s: FsSection, offset: u64)
  {
    var h := ReadHeaderPrefix(s, offset);
    h.Ok? && ReadFsSection(s, offset, FullHeaderSize(h.value)).Some?
  }

  /** The part of pfsInitializeContext after the region is known: read and
      check the header prefix, read the full header, probe for an ExeFS. */
  function LoadContext(s: FsSection, lookup: EntryLookup, offset: u64, size: u64): (r: Result<PfsContext, PfsError>)
    ensures r.Ok? ==> r.value.offset == offset && r.value.size == size
    ensures r.Ok? ==>
      var h := ReadHeaderPrefix(s, offset);
      h.Ok? && r.value.headerSize == FullHeaderSize(h.value)
    ensures r.Ok? ==>
      r.value.header == ReadFsSection(s, offset, r.value.headerSize) && r.value.header.Some?
    ensures r.Ok? && r.value.isExeFs ==> lookup(r.value.header.value, MAIN_NPDM).Some?
    ensures r.Ok? <==> HeaderLoads(s, offset)
    ensures ReadHeaderPrefix(s, offset).Err? ==> r == Err(ReadHeaderPrefix(s, offset).error)
    ensures ReadHeaderPrefix(s, offset).Ok? && !HeaderLoads(s, offset) ==> r == Err(IoError)
  {
    match ReadHeaderPrefix(s, offset)
    case Err(e) => Err(e)
    case Ok(h) =>
      var headerSize := FullHeaderSize(h);
      match ReadFsSection(s, offset, headerSize)
      case None => Err(IoError)
      case Some(header) =>
        var ctx := PfsContext(offset, size, headerSize, false, Some(header));
        Ok(ctx.(isExeFs := ProbeExeFs(s, lookup, ctx)))
  }

  /** pfsInitializeContext. */
  function InitializeContext(s: FsSection, lookup: EntryLookup): (r: Result<PfsContext, PfsError>)
    ensures !IsHashedPartitionFs(s) ==> r == Err(InvalidArgument)
    ensures IsHashedPartitionFs(s) && !s.offsetsValid(s.header.value.hashInfo, s.sectionSize) ==>
      r == Err(IntegrityError)
    ensures r.Ok? ==> IsHashedPartitionFs(s) && s.offsetsValid(s.header.value.hashInfo, s.sectionSize)
    ensures r.Ok? ==>
      r.value.offset == s.header.value.hashInfo.hashTargetLayer.offset &&
      r.value.size == s.header.value.hashInfo.hashTargetLayer.size
    ensures r.Ok? ==>
      var h := ReadHeaderPrefix(s, r.value.offset);
      h.Ok? && r.value.headerSize == PFS_HEADER_SIZE + h.value.entryCount * PFS_ENTRY_SIZE + h.value.nameTableSize
    ensures r.Ok? ==> r.value.headerSize >= PFS_HEADER_SIZE + PFS_ENTRY_SIZE + 1
    ensures r.Ok? ==>
      r.value.header == ReadFsSection(s, r.value.offset, r.value.headerSize) &&
      r.value.header.Some? && |r.value.header.value| == r.value.headerSize
    ensures r.Ok? && r.value.isExeFs ==> lookup(r.value.header.value, MAIN_NPDM).Some?
    ensures r.Ok? <==>
      && IsHashedPartitionFs(s)
      && s.offsetsValid(s.header.value.hashInfo, s.sectionSize)
      && HeaderLoads(s, s.header.value.hashInfo.hashTargetLayer.offset)
    ensures IsHashedPartitionFs(s) && s.offsetsValid(s.header.value.hashInfo, s.sectionSize) ==>
      var layer := s.header.value.hashInfo.hashTargetLayer;
      r == LoadContext(s, lookup, layer.offset, layer.size)
  {
    if !IsHashedPartitionFs(s) then Err(InvalidArgument)
    else
      var info := s.header.value.hashInfo;
      if !s.offsetsValid(info, s.sectionSize) then Err(IntegrityError)
      else LoadContext(s, lookup, info.hashTargetLayer.offset, info.hashTargetLayer.size)
  }

  // ---------------------------------------------------------------------
  // Bounds-checked reads
  // ---------------------------------------------------------------------

  /** The guard of pfsReadPartitionData, with its `u64` sum. */
  predicate PartitionWindowOk(ctx: PfsContext, readSize: u64, offset: u64)
  {
    ctx.size != 0 && readSize != 0 && offset < ctx.size && Add64(offset, readSize) <= ctx.size
  }

  /** pfsReadPartitionData: `readSize` bytes at `offset` inside the data region. */
  function ReadPartitionData(s: FsSection, ctx: PfsContext, readSize: u64, offset: u64): (r: Result<seq<byte>, PfsError>)
    ensures !PartitionWindowOk(ctx, readSize, offset) ==> r == Err(InvalidArgument)
    ensures r.Ok? ==> |r.value| == readSize && ReadFsSection(s, Add64(ctx.offset, offset), readSize) == Some(r.value)
    ensures PartitionWindowOk(ctx, readSize, offset) ==>
      (r.Ok? <==> ReadFsSection(s, Add64(ctx.offset, offset), readSize).Some?)
    ensures r.Err? && PartitionWindowOk(ctx, readSize, offset) ==> r.error == IoError
  {
    if !PartitionWindowOk(ctx, readSize, offset) then Err(InvalidArgument)
    else
      match ReadFsSection(s, Add64(ctx.offset, offset), readSize)
      case None => Err(IoError)
      case Some(b) => Ok(b)
  }

  /** The entry and window checks shared by pfsReadEntryData and
      pfsGenerateEntryPatch, with their `u64` sums. */
  predicate EntryWindowGuard(ctx: PfsContext, e: PfsEntry, windowSize: u64, offset: u64)
  {
    && e.offset < ctx.size
    && e.size != 0
    && Add64(e.offset, e.size) <= ctx.size
    && windowSize != 0
    && offset < e.size
    && Add64(offset, windowSize) <= e.size
  }

  /** header_size + entry.offset + offset, as a `u64`: where entry data sits in the region. */
  function EntryDataOffset(ctx: PfsContext, e: PfsEntry, offset: u64): u64
  {
    Add64(Add64(ctx.headerSize, e.offset), offset)
  }

  /** pfsReadEntryData, as written. */
  function ReadEntryData(s: FsSection, ctx: PfsContext, e: PfsEntry, readSize: u64, offset: u64): (r: Result<seq<byte>, PfsError>)
    ensures !EntryWindowGuard(ctx, e, readSize, offset) ==> r == Err(InvalidArgument)
    ensures r.Ok? ==>
      && EntryWindowGuard(ctx, e, readSize, offset)
      && PartitionWindowOk(ctx, readSize, EntryDataOffset(ctx, e, offset))
      && |r.value| == readSize
      && ReadFsSection(s, Add64(ctx.offset, EntryDataOffset(ctx, e, offset)), readSize) == Some(r.value)
    ensures EntryWindowGuard(ctx, e, readSize, offset) ==>
      r == ReadPartitionData(s, ctx, readSize, EntryDataOffset(ctx, e, offset))
  {
    if !EntryWindowGuard(ctx, e, readSize, offset) then Err(InvalidArgument)
    else ReadPartitionData(s, ctx, readSize, EntryDataOffset(ctx, e, offset))
  }

  /** pfsGenerateEntryPatch, as written: asks the hash-tree collaborator for a
      patch of `data` at header_size + entry.offset + dataOffset. */
  function GenerateEntryPatch(s: FsSection, ctx: PfsContext, e: PfsEntry, data: seq<byte>, dataOffset: u64): (r: Result<HashPatch, PfsError>)
    requires |data| < U64_LIMIT
    ensures ctx.headerSize == 0 || ctx.header.None? || !EntryWindowGuard(ctx, e, |data|, dataOffset) ==>
      r == Err(InvalidArgument)
    ensures r.Ok? ==>
      && ctx.headerSize != 0 && ctx.header.Some?
      && EntryWindowGuard(ctx, e, |data|, dataOffset)
      && s.patchRaw(data, EntryDataOffset(ctx, e, dataOffset)) == Some(r.value)
    ensures ctx.headerSize != 0 && ctx.header.Some? && EntryWindowGuard(ctx, e, |data|, dataOffset) ==>
      (r.Ok? <==> s.patchRaw(data, EntryDataOffset(ctx, e, dataOffset)).Some?)
  {
    if ctx.headerSize == 0 || ctx.header.None? || !EntryWindowGuard(ctx, e, |data|, dataOffset) then
      Err(InvalidArgument)
    else
      match s.patchRaw(data, EntryDataOffset(ctx, e, dataOffset))
      case None => Err(IoError)
      case Some(p) => Ok(p)
  }

  // ---------------------------------------------------------------------
  // Entry reads without wrap-around
  // ---------------------------------------------------------------------

  /** The entry and window checks of pfsReadEntryData over unbounded integers. */
  predicate EntryWindowFits(ctx: PfsContext, e: PfsEntry, windowSize: nat, offset: nat)
  {
    && e.offset < ctx.size
    && e.size != 0
    && e.offset + e.size <= ctx.size
    && windowSize != 0
    && offset < e.size
    && offset + windowSize <= e.size
  }

  /** pfsReadEntryData with every sum computed without wrap-around: the entry
      check, then the partition check on header_size + entry.offset + offset. */
  function ReadEntryDataChecked(s: FsSection, ctx: PfsContext, e: PfsEntry, readSize: nat, offset: nat): (r: Result<seq<byte>, PfsError>)
    ensures r.Ok? ==>
      var pos := ctx.headerSize + e.offset + offset;
      && |r.value| == readSize
      && readSize > 0
      && ctx.headerSize + e.offset <= pos
      && pos + readSize <= ctx.headerSize + e.offset + e.size
      && pos + readSize <= ctx.size
      && ReadFsSection(s, ctx.offset + pos, readSize) == Some(r.value)
    ensures !EntryWindowFits(ctx, e, readSize, offset) ==> r == Err(InvalidArgument)
  {
    if !EntryWindowFits(ctx, e, readSize, offset) then Err(InvalidArgument)
    else
      var pos := ctx.headerSize + e.offset + offset;
      if !(pos < ctx.size && pos + readSize <= ctx.size) then Err(InvalidArgument)
      else
        match ReadFsSection(s, ctx.offset + pos, readSize)
        case None => Err(IoError)
        case Some(b) => Ok(b)
  }

  /** pfsGenerateEntryPatch with every sum computed without wrap-around and
      the patch window also held to the data region, as the entry read is
      through pfsReadPartitionData. */
  function GenerateEntryPatchChecked(s: FsSection, ctx: PfsContext, e: PfsEntry, data: seq<byte>, dataOffset: nat): (r: Result<HashPatch, PfsError>)
    ensures r.Ok? ==>
      var pos := ctx.headerSize + e.offset + dataOffset;
      && ctx.headerSize != 0 && ctx.header.Some?
      && |data| > 0
      && ctx.headerSize + e.offset <= pos
      && pos + |data| <= ctx.headerSize + e.offset + e.size
      && pos + |data| <= ctx.size
      && s.patchRaw(data, pos) == Some(r.value)
    ensures ctx.headerSize == 0 || ctx.header.None? || !EntryWindowFits(ctx, e, |data|, dataOffset) ==>
      r == Err(InvalidArgument)
    ensures ctx.headerSize + e.offset + dataOffset + |data| > ctx.size ==> r == Err(InvalidArgument)
    ensures ctx.headerSize != 0 && ctx.header.Some? && EntryWindowFits(ctx, e, |data|, dataOffset)
            && ctx.headerSize + e.offset + dataOffset + |data| <= ctx.size ==>
      (r.Ok? <==> s.patchRaw(data, ctx.headerSize + e.offset + dataOffset).Some?)
  {
    if ctx.headerSize == 0 || ctx.header.None? || !EntryWindowFits(ctx, e, |data|, dataOffset) then
      Err(InvalidArgument)
    else
      var pos := ctx.headerSize + e.offset + dataOffset;
      if pos + |data| > ctx.size then Err(InvalidArgument)
      else
        match s.patchRaw(data, pos)
        case None => Err(IoError)
        case Some(p) => Ok(p)
  }
}
