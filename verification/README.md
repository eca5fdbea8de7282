# Partition FS reader and certificate resolver of nxdumptool, in Dafny

This project models two parts of nxdumptool's content layer.

- **The partition filesystem (PFS0) reader** (`source/pfs.c`).
  - Context initialisation from an NCA filesystem section. It validates the section kind, reads the header prefix and checks the PFS0 magic and counts. It then reads the full header and probes for an ExeFS through `main.npdm`'s META magic.
  - The bounds-checked partition read and entry read.
  - Hash-tree patch generation for an entry.
- **The certificate resolver** (`source/cert.c`).
  - The open/close discipline of the ES certificate savefile handle.
  - Single-certificate retrieval and classification into the twelve signature/public-key tags.
  - Tokenising of a signature issuer such as `Root-CA00000003-XS00000020` into certificate names.
  - All-or-nothing chain assembly, and serialisation of a chain into one raw buffer.
  - Retrieval of a raw chain stored on a gamecard under the hex form of a rights ID.

The collaborators named under "## Left out" (section reads and patches, entry lookup, the certificate layout helpers and the gamecard helpers) are function-valued fields of datatypes, and the savefile is a map from path to stored file. Every property therefore holds for every behaviour of those collaborators. The C library calls the two files rely on (`snprintf`, `strtok`, `memcpy`) are modelled by Dafny functions of their own.

- NCA section reads, offset validation and hash-tree patching are fields of `FsSection`.
- `pfsGetEntryByName` is an `EntryLookup`.
- The certificate layout helpers are fields of `CertParser`.
- The savefile is a map from path to stored file.
- The gamecard helpers are fields of `GameCard`.

A collaborator read that does not yield exactly the requested number of bytes counts as a failed read.

Sums that the C code computes in `u64` are computed with explicit wrap-around (`Bytes.Add64`).

Files:

- `wrappers.dfy`: `Option` and `Result`.
- `bytes.dfy`: bytes, `u32`/`u64`, wrapping addition, and the byte-order readers.
- `pfs.dfy` and `pfs_props.dfy`: the PFS0 reader and the properties that relate several of its calls.
- `cert_classifier.dfy`: the classifier.
- `issuer.dfy`: the issuer copy and the `strtok` tokenisation.
- `cert_store.dfy`: the savefile handle, single-certificate retrieval and chain assembly.
- `raw_chain.dfy`: chain size, serialisation, the raw-chain producers and the gamecard path.

The constants come from headers that are not part of this model (`pfs.h`, `npdm.h`, `cert.h`, `signature.h`, `save.h`):

| constant | value |
|---|---|
| PFS0 magic | 0x50465330 |
| NPDM META magic | 0x4D455441 |
| header prefix | 0x10 bytes |
| entry | 0x18 bytes |
| signed certificate size | 0x140 to 0x500 bytes |
| signature types | 0x10000 to 0x10006 |
| public key types | 0, 1, 2 |
| savefile path buffer | 0x40 bytes |

## Model

| member | source | states |
|---|---|---|
| PartitionFs.ReadHeaderPrefix | source/pfs.c:50-72 | A failed read is an I/O error. The prefix is accepted exactly when the read succeeds, the magic is PFS0 and both the entry count and the name-table size are non-zero. Any other outcome is a format error. |
| PartitionFs.FullHeaderSize | source/pfs.c:74-75 | The full header is at least the prefix plus one entry record per entry. |
| PartitionFs.LoadContext | source/pfs.c:50-97 | Loading succeeds if and only if the header prefix is accepted and the full header can be read. A refused prefix passes its error through. A full-header read that fails after an accepted prefix is an I/O error. A loaded context keeps the given region. Its header size is the full size from the checked prefix, its header buffer is the read of that many bytes, and the ExeFS flag implies that main.npdm was found. |
| PartitionFs.InitializeContext | source/pfs.c:24-98 | Initialisation succeeds if and only if the section is a HierarchicalSha256 partition FS, its offsets validate and the header loads from the hash target layer. A section of another kind is refused as an invalid argument. Failed offset validation is an integrity error. Past those two checks the result is the load at the hash target layer. On success, the region is the hash target layer and the header size is 0x10 + count·0x18 + name-table size, so at least 0x29. The header buffer is the read of that many bytes at the region start. The ExeFS flag implies that main.npdm was found. |
| PartitionFsProps.InitIndependentOfProbe | source/pfs.c:93-97 | Whether initialisation succeeds does not depend on the entry lookup. On success, two lookups give contexts that differ at most in the ExeFS flag. |
| PartitionFsProps.ExeFsIffMetaMagic | source/pfs.c:93-95 | After a successful initialisation, `isExeFs` holds if and only if main.npdm carries the META magic. |
| PartitionFsProps.NoMainNpdmIsNotExeFs | source/pfs.c:94 | A section without main.npdm is never an ExeFS. |
| PartitionFsProps.ProbeReadsMetaBytes | source/pfs.c:94-95 | A positive probe means main.npdm was found and the four bytes at the start of its data, read through the section, are "META". Conversely, when main.npdm is found, four bytes fit in the entry and the region with no wrap-around, and the section returns "META" there, the probe holds. |
| PartitionFs.ReadPartitionData | source/pfs.c:100-116 | A read is refused unless the region is non-empty, the size is non-zero, the offset is inside the region and offset + size (in u64) does not pass its end. An accepted read returns exactly the section read at region offset + offset, and fails only when that read fails. |
| PartitionFsProps.PartitionBoundaryRejected | source/pfs.c:102 | A read starting at the region's end is refused, and so is one ending one byte past it. |
| PartitionFsProps.PartitionReadWithinRegion | source/pfs.c:100-113 | When no sum wraps, a successful read lies wholly inside the region and is served from ctx.offset + offset. |
| PartitionFs.ReadEntryData | source/pfs.c:118-135 | The entry guard uses u64 sums. An entry read that passes it is the partition read at header_size + entry.offset + offset. Anything else is an invalid argument. |
| PartitionFs.ReadEntryDataChecked | source/pfs.c:118-135 | A successful read lies inside the entry and inside the region. It returns the section read at the region start + header_size + entry.offset + offset. |
| PartitionFsProps.EntryReadAgreesWithoutWrap | source/pfs.c:118-135 | Wherever no sum reaches 2^64, the entry read as written equals the unbounded one. |
| PartitionFsProps.EntryGuardWrapsAround | source/pfs.c:120-128 | A concrete entry whose end wraps past 2^64 passes the guard as written. The read then lands at partition offset 5, inside the header. The unbounded read refuses the same request. |
| PartitionFs.GenerateEntryPatch | source/pfs.c:137-155 | It is refused without a header or when the entry guard fails. Otherwise the result is the collaborator's patch of the data at header_size + entry.offset + data_offset, and it fails exactly when the collaborator fails. |
| PartitionFsProps.RejectedPatchMakesNoCall | source/pfs.c:139-148 | A refused patch request is refused whatever the hash-tree collaborator does. |
| PartitionFsProps.PatchWindowInsideEntry | source/pfs.c:139-148 | When no sum wraps, an accepted patch window is non-empty and inside the entry, and the collaborator is asked at header_size + entry.offset + data_offset. The guard checks entry.offset + entry.size <= region size without counting header_size, so the window can end up to header_size bytes past the region. |
| PartitionFsProps.PatchGuardIgnoresHeader | source/pfs.c:139-148 | For a region of 0x100 bytes with a 0x80-byte header and an entry (0, 0x100), a 0x10-byte patch at data offset 0xF0 passes the guard. The collaborator is asked at 0x170, and the window ends 0x80 bytes past the region. The entry read refuses the same window, and so does the patch with the region bound. |
| PartitionFs.GenerateEntryPatchChecked | source/pfs.c:137-155 | With every sum unbounded and the window held to the region, an accepted patch lies inside the entry and inside the region, and the collaborator is asked at header_size + entry.offset + data_offset. A window inside the entry and the region, with a header present, is accepted if and only if the collaborator produces a patch. |
| PartitionFsProps.CheckedPatchAgrees | source/pfs.c:137-155 | Whatever the bounded patch accepts, the patch as written accepts with the same result, and the window lies inside the region. |
| PartitionFsProps.PatchAgreesWithinRegion | source/pfs.c:137-155 | Wherever no sum reaches 2^64 and the window ends inside the region, the patch as written and the bounded patch give the same result. |
| CertClassifier.SigFamilyOf | source/cert.c:278-297 | Both hash variants of RSA-4096, RSA-2048 and ECC-480 map to one family. HMAC-160 maps to its own family. Exactly the values outside 0x10000..0x10006 map to none. |
| CertClassifier.KeyFamilyOf | source/cert.c:29-30 | Public key types 0 and 1 select RSA-4096 and RSA-2048. Every other value selects ECC-480. |
| CertClassifier.TypeFor | source/cert.c:276-297 | The tag is "none" exactly for unknown signature types. Otherwise it pairs the signature family with the key family. |
| CertClassifier.GetCertificateType | source/cert.c:256-300 | Sizes outside 0x140..0x500 give "none". So do a missing common block and a signed size of 0 or one larger than the buffer. A tag comes back exactly when the buffer is well formed and the signature type is known, and it is that signature's and key's tag. |
| CertClassifier.HashVariantsShareTag | source/cert.c:280-290 | SHA-1 and SHA-256 variants get the same tag, for every public key type. |
| CertClassifier.DispatchCoversEveryTag | source/cert.c:276-297 | Each of the twelve tags is produced by some pair of type fields. |
| Issuer.IssuerCopy | source/cert.c:328-330 | The copy is the issuer after "Root-", cut to 63 characters, character for character. |
| Issuer.Tokens | source/cert.c:332-343 | Tokens are non-empty and free of '-'. |
| Issuer.TokensAreMaximalRuns | source/cert.c:332-343 | Each token is a whole run of the string: it occurs at its offset, is preceded by the start or a '-', and is followed by a '-' or the end. The offsets strictly increase, so the tokens come in string order. |
| Issuer.TokensKeepContent | source/cert.c:332-343 | Joining the tokens in order gives the input with its delimiters removed. |
| Issuer.TokenCountIsTokenStarts | source/cert.c:362-366 | The number of tokens is the number of positions where a token begins. |
| Issuer.TokenStartsBound | source/cert.c:356-368 | A string of length L has at most (L+1)/2 token starts. |
| Issuer.FormatNoArgs | source/cert.c:360 | A format without '%' prints as itself. |
| Issuer.FormatEscapeRoundTrip | source/cert.c:360 | Any string, with every '%' doubled and used as the format, prints back as itself. |
| Issuer.CountingCopy | source/cert.c:356-360 | The copy the counting pass makes, with the issuer as the format, is shorter than 0x40 characters. For an issuer without '%' it equals the retrieval pass's copy. |
| Issuer.PercentCopiesDiffer | source/cert.c:328-360 | For "Root-A%%" the counting copy is "A%" while the retrieval copy is "A%%". |
| Issuer.PercentIssuerOverCounts | source/cert.c:328-366 | For "Root-" + 64 '%' + "-B" the count is 2, but the retrieval copy has the single name of 63 '%'. |
| Issuer.CertificateCountInIssuer | source/cert.c:351-370 | The count is 0 for the empty issuer and otherwise the number of token starts of the counting copy. It never exceeds 32. |
| Issuer.CountMatchesTokens | source/cert.c:314-370 | For a non-empty issuer without '%', the counting pass and the retrieval pass see the same number of names. |
| Issuer.TokensOfTwoNames | source/cert.c:332-343 | Two names joined by one '-' tokenise back to the two names. |
| Issuer.ExampleIssuerTokens | source/cert.c:328-343 | "Root-CA00000003-XS00000020" names CA00000003 then XS00000020, and its count is 2. |
| CertStore.OpenEsCertSaveFile | source/cert.c:190-202 | An open handle is kept as it is. Otherwise the savefile is opened. The result reports whether a handle is open afterwards. |
| CertStore.CloseEsCertSaveFile | source/cert.c:204-209 | Afterwards no handle is open, whatever the state before. |
| CertStore.OpenIsIdempotent | source/cert.c:190-202 | Opening twice is opening once, and opening fails exactly when no savefile is available. |
| CertStore.CertPath | source/cert.c:223 | The path is "/certificate/" + name, truncated to fit the 0x40-byte buffer. It is untruncated whenever it fits, and exactly 63 characters when cut. |
| CertStore.RetrieveCertificateByNameLocked | source/cert.c:211-254 | No handle gives an error, and so does a missing file. A declared size outside 0x140..0x500 is a format error. A short read is an I/O error. Retrieval succeeds if and only if a handle is open and the file is stored with a size in range, enough bytes and a tag that is not "none". It then returns that file's first declared-size bytes with their tag. |
| CertStore.RetrieveCertificateByName | source/cert.c:51-73 | The empty name is refused with the store untouched. Otherwise the savefile is opened, the certificate retrieved and the handle closed. An unavailable savefile is an error. |
| CertStore.RetrieveAll | source/cert.c:332-343 | Either every name resolves, in order, or the first failing index is reported with every earlier name resolved. |
| CertStore.PadChain | source/cert.c:321 | A chain of `count` slots keeps the retrieved certificates in front. The slots after them are empty, as `calloc` leaves them. |
| CertStore.RetrieveChainLocked | source/cert.c:302-349 | No handle is an error, and so is a count of 0. It fails if and only if some token of the retrieval copy fails. A chain's i-th certificate is the retrieval of the i-th token. Any slots beyond the tokens are empty certificates. For an issuer without '%', the chain has exactly `count` certificates, one per token. |
| CertStore.ChainSession | source/cert.c:88-92 | The savefile is opened, the chain assembled and the handle closed. |
| CertStore.ChainGuardRejectsEveryIssuer | source/cert.c:82 | No issuer passes the guard as written. |
| CertStore.RetrieveChainBySignatureIssuer | source/cert.c:75-98 | As written: an issuer failing the guard is refused and the store is untouched. |
| CertStore.ChainAsWrittenAlwaysFails | source/cert.c:75-98 | As written, the public chain entry point fails for every issuer. |
| CertStore.RetrieveChainBySignatureIssuerFixed | source/cert.c:75-98 | With the prefix guard: issuers that are not "Root-" followed by at least one character are refused. Otherwise the handle is closed afterwards. A chain starts with one valid certificate per token, in token order. For an issuer without '%' it has exactly `count` certificates. |
| CertStore.ExampleChain | source/cert.c:302-349 | When the savefile holds CA00000003 and XS00000020 in acceptable form, "Root-CA00000003-XS00000020" yields exactly those two certificates, in that order. |
| CertStore.ExampleChainMissing | source/cert.c:333-346 | "Root-CA00000003-XS00000020" yields no chain when XS00000020 is missing from the savefile: one failure discards the whole chain. |
| CertStore.PercentIssuerPadsChain | source/cert.c:314-348 | For the issuer "Root-" + 64 '%' + "-B", when the name of 63 '%' retrieves a certificate, the chain succeeds as [that certificate, an empty slot], and the empty slot is not a valid certificate. |
| RawChain.SerializeLength | source/cert.c:372-391 | The serialised chain is exactly the chain's size long. |
| RawChain.SegmentOf | source/cert.c:381-391 | Certificate i sits in the buffer between the sizes of the first i and first i+1 certificates. |
| RawChain.SerializeSegments | source/cert.c:381-391 | Every certificate is recoverable from the buffer at its prefix-sum offsets. |
| RawChain.SumOfSizes | source/cert.c:372-379 | The certificate sizes add up to the chain size. |
| RawChain.SplitSerializeRoundTrip | source/cert.c:381-391 | Cutting the buffer by the certificate sizes gives back the certificates' bytes, in order. |
| RawChain.CalculateRawChainSize | source/cert.c:372-379 | The size is 0 for an empty chain. Otherwise it is the sum of the sizes, which is the serialised length. |
| RawChain.CopyChainToBuffer | source/cert.c:381-391 | The buffer is the certificates back to back in chain order, and its length is the chain size. |
| RawChain.FinishRawChain | source/cert.c:112-133 | A failed retrieval gives NULL with the out size unchanged. Otherwise the result is the serialised chain with out size equal to its length. |
| RawChain.GenerateRawChainBySignatureIssuer | source/cert.c:100-134 | As written: NULL for every issuer, out size and store unchanged. |
| RawChain.GenerateRawChainBySignatureIssuerFixed | source/cert.c:100-134 | A buffer comes back if and only if the issuer is non-empty and chain retrieval succeeds. The buffer is the serialised chain, every certificate at its prefix-sum offset, and the out size is its length. For an issuer without '%' the chain has `count` certificates. On failure the out size is unchanged. |
| RawChain.RetrieveRawChainFromGameCard | source/cert.c:136-188 | A buffer comes back exactly when the secure-partition entry exists, its size is at least 0x140 and the read succeeds. The buffer is that read, and the out size is the entry size. On failure the out size is unchanged. |
| RawChain.GameCardHasNoUpperBound | source/cert.c:158-162 | A gamecard chain larger than the largest single certificate is still accepted. |

## Left out

- The mutex that serialises the public certificate entry points is left out. The model is single-threaded, and the handle state is threaded through as a value.
- Log output (`LOGFILE`) is left out. It has no effect on results.
- Memory allocation failure is left out: `calloc`/`malloc` returning NULL in `pfsInitializeContext`, chain assembly and both raw-chain producers. The model assumes memory is available.
- `save_close_savefile` (cert.c:207) is modelled only as dropping the handle; the savefile itself stays available for the next open.
- Freeing (`pfsFreeContext`, `certFreeCertificateChain`, `free`) is left out. Values here are immutable, so nothing is leaked or freed.
- On failure, `pfsInitializeContext` leaves a partly filled context (section pointer, zeroed sizes, and after offset validation the region). The model returns only the error, since callers discard the context on failure.
- NULL-pointer argument checks have no counterpart, because Dafny values cannot be NULL. The empty-string checks are modelled.
- The collaborators are not modelled beyond their results:
  - `ncaReadFsSection`, `ncaValidateHierarchicalSha256Offsets`, `ncaGenerateHierarchicalSha256Patch` and `pfsGetEntryByName`;
  - `certGetCommonBlock`, `certGetSignedCertificateSize` and `signatureGetSigType`;
  - `save_open_savefile`, `save_get_fat_storage_from_file_entry_by_path` and `save_allocation_table_storage_read`;
  - `utilsGenerateHexStringFromData`, `gamecardGetEntryInfoFromHashFileSystemPartitionByName` and `gamecardReadStorage`.
- Issuer.FormatNoArgs: a conversion other than `%%` in the counting pass's format has no argument to consume, which is undefined behaviour in C. The model prints nothing, so the count is 0 and the chain is refused.
- CertStore.RetrieveChainLocked: if the retrieval copy had more tokens than the counting copy, C would write past the `calloc`ed array. The model keeps the extra certificates instead.
- Issuer.IssuerCopy: an issuer shorter than "Root-" gives the empty copy. In C that input reads past the string; no caller can reach it, because every caller checks the length first.
- RawChain.CalculateRawChainSize: the sum is a `nat`, not a `u64`. It cannot wrap, because a chain holds at most 32 certificates of at most 0x500 bytes each.
- CertClassifier.TypeFor: HMAC-160 certificates are tagged with the same `CERT_TYPE` macro as every other family (cert.c:292-293). The public key type therefore chooses among the three HMAC tags, and the model does the same.
- A Dafny `string` stands for a C byte string: one character per byte, and no '\0' inside. Strings longer than a buffer are cut where the C code cuts them.
- CertStore.RetrieveCertificateByNameLocked: before it fails on a short read or an unknown tag, the C function has already written `dst->size` (cert.c:237) and part of `dst->data`. The model returns only the error, and callers discard the certificate on failure.

## Findings

| source | as written | input that shows it | evidently intended | confidence | as-written member | corrected member |
|---|---|---|---|---|---|---|
| source/pfs.c:120-121 | The entry guard checks `fs_entry->offset + fs_entry->size > ctx->size` in `u64`, so a huge entry size wraps and passes. The read offset `header_size + entry.offset + offset` then wraps too. | region size 0x1000, header size 0x100, entry (offset 0x10, size 2^64-8), read of 4 bytes at offset 2^64-0x10B: accepted, read from partition offset 5 (header bytes) | The entry and the read window must lie inside the region with no wrap-around | not executed | PartitionFsProps.EntryGuardWrapsAround | PartitionFs.ReadEntryDataChecked |
| source/pfs.c:139-148 | The patch guard checks `fs_entry->offset + fs_entry->size > ctx->size`, which leaves out `header_size`. No region check follows before `partition_offset` is handed to the hash-tree collaborator. | region size 0x100, header size 0x80, entry (offset 0, size 0x100), 0x10 bytes at data offset 0xF0: accepted, patch asked at 0x170..0x180, past the region's end; the entry read refuses the same window | The patch window must lie inside the region, as it must for the entry read | not executed; `ncaGenerateHierarchicalSha256Patch` is not part of this model and may bound the offset itself | PartitionFsProps.PatchGuardIgnoresHeader | PartitionFs.GenerateEntryPatchChecked |
| source/cert.c:82 | `issuer_len <= 5 \|\| strcmp(issuer, "Root-") != 0` refuses every issuer: equality with "Root-" forces length 5 | "Root-CA00000003-XS00000020" is refused, so every chain request fails | accept issuers that start with "Root-" and go on past it | not executed | CertStore.ChainAsWrittenAlwaysFails | CertStore.RetrieveChainBySignatureIssuerFixed |

The ExeFS probe inside `PartitionFs.InitializeContext` and `PartitionFs.GenerateEntryPatch` keep the entry guard as written, wrap-around included (source/pfs.c:139-140 repeats the guard of the first row). `PartitionFsProps.EntryReadAgreesWithoutWrap` shows where the two entry reads coincide.

The counting pass uses the issuer as its `snprintf` format (cert.c:360), while the retrieval pass copies it through `"%s"` (cert.c:330). An issuer with many `%%` pairs is therefore counted over more of its text than is retrieved. With the prefix guard corrected, `CertStore.PercentIssuerPadsChain` shows such an issuer giving a successful chain whose second slot is the zeroed certificate `calloc` left behind, not a valid one.
