# Page features, page encryption layout and block sizes

This project models three pieces of a PostgreSQL fork with configurable page layouts, and proves properties about them in Dafny.

- **The page-feature registry** (`src/common/pagefeat.c`). A *page feature set* is a named list of descriptors. Each descriptor reserves `size` bytes at `offset` in the trailer of every page. Descriptors are either *built-in* features, looked up in a fixed table, or *user* features. Adding a feature rounds its size up to a multiple of 8, packs it after the previous one, and refuses it in five cases:
  - the set is full;
  - the bytes do not fit;
  - the name is a duplicate;
  - the name is a built-in and the set is locked;
  - the size is zero.

  `Optimize` reorders the descriptors: built-ins first, in table order, then user features in their original order, with offsets repacked. The set is stored as text (`features <count> <bytes>`, then `<name>=<offset>,<size>` per line). Reading such a file replays the lines through the same add operation and then locks the set. Lookups turn a feature name into a size or an offset from the start of the page.
- **The page IV and AAD layout** (`src/backend/crypto/bufenc.c`).
  - **IV:** 16 bytes, built from the page LSN, the block number and a marker for non-permanent relations.
  - **AAD (additional authenticated data):** the unencrypted page-header prefix, then the file number and the block number.
  - **LSN step:** before building the IV, encryption writes a fresh LSN into non-permanent pages that do not look like GiST pages.
  - **What is encrypted:** the region after the header is encrypted in place, and the tag goes into the last bytes of the block.
  - **The cipher:** AES-GCM (NIST SP 800-38D) is kept abstract, as function parameters.
- **Block-size arithmetic** (`src/common/blocksize.c`, `src/include/common/blocksize.h`).
  - The log2 loop of `BlockSizeInit`.
  - Reserved-space rounding to 8-byte chunks.
  - The block-size identifier round trip and the segment-size scaling.
  - The switch dispatch macros, with the per-size calculation as a function parameter.

Modules:

| module | file | contents |
|---|---|---|
| `Common` | common.dfy | fixed-width integer types, `Option`, powers of two, `&`, little-endian 32-bit layout |
| `BlockSize` | blocksize.dfy | `blocksize.h` macros as functions; `BlockSizeInit` on a class holding the three globals |
| `FeatureLayout` | feature_layout.dfy | the feature set as a value (`FeatureSetState`), `AddSpec` and `OptimizeSpec`, and their invariants |
| `CatalogText` | catalog_text.dfy | the `fscanf`/`fprintf` formats as scanners and printers, with their round trips |
| `Catalog` | catalog.dfy | reading (`ReadSpec`) and writing (`WriteSpec`) the catalog text, and that reading what was written restores the set |
| `PageFeat` | page_feat.dfy | the class `PageFeatureSet`, whose methods update its fields and its descriptor array and are proved against the specifications above; the reorder passes over arrays; the page-level lookups |
| `BufEnc` | bufenc.dfy | IV and AAD construction, the LSN rule, what encryption and decryption do to a page, and the class holding the static state of bufenc.c |

The feature set's bitmap is a `set<nat>` of built-in numbers. Each mutating method of `PageFeatureSet` is tied to a specification function on `FeatureSetState`: `ensures State() == AddSpec(old(State()), ...)`. The lemmas are proved about those functions.

## Model

| member | source | states |
|---|---|---|
| Common.PowerOfTwoTest | src/include/common/blocksize.h:29-31 | `n & (n-1) == 0` holds exactly when `n` is a power of two |
| Common.LE32Injective | src/backend/crypto/bufenc.c:215-217 | the four bytes `memcpy` copies from a 32-bit number determine that number, and only it |
| BlockSize.ValidBlockSizes | src/include/common/blocksize.h:21-31 | `IsValidBlockSize(s)` holds exactly for 1024, 2048, 4096, 8192, 16384 and 32768 |
| BlockSize.FloorLog2OfPow2 | src/common/blocksize.c:45-47 | the shift-and-count loop's result, floor(log2), is exact on powers of two |
| BlockSize.FloorLog2Bounds | src/common/blocksize.c:45-47 | the shift-and-count loop computes floor(log2): for every positive size, `2^bits <= size < 2^(bits+1)` |
| BlockSize.ValidBlockSizeBits | src/common/blocksize.c:42-47 | for a valid block size, `1 << bits` gives the size back, and `bits` is between 10 and 15 |
| BlockSize.BlockSizeIdentRoundTrip | src/include/common/blocksize.h:71-72 | every identifier `BLOCK_SIZE_1K`..`BLOCK_SIZE_32K` maps to a valid size whose bit count gives the identifier back |
| BlockSize.ReservedRoundsUp | src/include/common/blocksize.h:57-63 | `SizeOfReservedBlock(ReservedBlockForSize(s))` is the least multiple of 8 that is at least `s` |
| BlockSize.ValidReservedSizes | src/include/common/blocksize.h:59-63 | a valid reserved size (0..16) maps to `RESERVED_NONE`..`RESERVED_16`, i.e. 0, 8 or 16 bytes |
| BlockSize.RelsegSizeScales | src/include/common/blocksize.h:74-75 | the segment size is `RELSEG_SIZE` at 8K and halves with each doubling of the block size |
| BlockSize.BlockSizeDispatch | src/include/common/blocksize.h:116-149 | valid (size id, reserved id) pairs dispatch to the calculation at that block and reserved size; anything else gives 0 |
| BlockSize.BlockSizeDispatch2 | src/include/common/blocksize.h:151-184 | the same dispatch for calculations with an extra argument |
| BlockSize.Dispatch2PassesArgument | src/include/common/blocksize.h:151-184 | the two-argument dispatch is the one-argument dispatch with the extra argument fixed |
| BlockSize.ClusterBlockSize.constructor | src/common/blocksize.c:26-29 | the globals start unset: `BLOCK_SIZE_UNSET`, `RESERVED_NONE`, 0 |
| BlockSize.ClusterBlockSize.BlockSizeInit | src/common/blocksize.c:36-60 | after init, the setting is `bits - 9` within 1..6, `cluster_block_size` equals the raw size, and the reserved size is the 8-rounded request in {0, 8, 16} |
| FeatureLayout.BuiltinIndex | src/common/pagefeat.c:424-440 | the built-in table scan finds the entry carrying the name, or reports that none does |
| FeatureLayout.BuiltinIndexOfName | src/common/pagefeat.c:375-381 | looking up a built-in's own name finds that built-in |
| FeatureLayout.StoredName | src/common/pagefeat.c:448 | the stored name is a prefix shorter than `PAGE_FEATURE_NAME_LEN`, and equals the given name exactly when that is short enough |
| FeatureLayout.RoundUp8Rounds | src/common/pagefeat.c:410 | `(size + 7) & ~7` is a multiple of 8 within 8 of `size`, leaves multiples of 8 alone, and wraps to 0 above 0xFFF8 |
| FeatureLayout.NameIndex | src/common/pagefeat.c:419-421 | the duplicate scan finds the first descriptor with the name, or none has it |
| FeatureLayout.NewState | src/common/pagefeat.c:644-664 | a new set is empty, unlocked, has no bits and is well formed |
| FeatureLayout.AddAppendsOne | src/common/pagefeat.c:447-459 | a successful add appends exactly one descriptor at `offset == bytes_used` with the rounded or default size, bumps `bytes_used`, keeps earlier descriptors, and sets the built-in's bit |
| FeatureLayout.AddRefusal | src/common/pagefeat.c:404-445 | an add is refused exactly when the set is full, the rounded size does not fit, the name is taken, a built-in meets a locked set, or the size is 0; a refusal changes no descriptor, at most the bit of a zero-size built-in |
| FeatureLayout.AddPreservesWellFormed | src/common/pagefeat.c:395-463 | every add, accepted or refused, keeps the set packed, within capacity, with each built-in at most once and its bit set |
| FeatureLayout.AddStaysWithinCapacity | src/common/pagefeat.c:412-414 | with a non-zero rounded request, an accepted add never overruns `bytes_managed` |
| FeatureLayout.DefaultSizeSkipsCapacityCheck | src/common/pagefeat.c:412-438 | the built-in default size is substituted after the byte check, so a default-size built-in can overrun the capacity |
| FeatureLayout.LockedSetRule | src/common/pagefeat.c:427-430 | a locked set refuses every built-in but still accepts a new user feature that fits |
| FeatureLayout.ReAddRefused | src/common/pagefeat.c:416-421 | a name short enough to be stored whole cannot be added twice |
| FeatureLayout.LongNameAddedTwice | src/common/pagefeat.c:419-421 | a 21-character name is stored truncated, so the duplicate check lets it in a second time |
| FeatureLayout.ZeroSizeBuiltinSetsBit | src/common/pagefeat.c:433-445 | a zero-size built-in with no default is refused but leaves its bit set |
| FeatureLayout.SlotImpliesBit | src/common/pagefeat.c:107-114 | a built-in that owns a slot has its bit set, so `PageFeatureSetHasFeature` reports it |
| FeatureLayout.SlotsDisjoint | src/common/pagefeat.c:447-459 | descriptors of a well-formed set occupy disjoint byte ranges, all within `bytes_used` |
| FeatureLayout.SumSizesPermutation | src/common/pagefeat.c:352-353 | any reordering of descriptors keeps the byte total |
| FeatureLayout.RelayoutPacks | src/common/pagefeat.c:325-327 | the running offset of the reorder gives each descriptor the sum of the sizes before it, packs them, and keeps the total |
| FeatureLayout.PickBuiltinsAscending | src/common/pagefeat.c:314-333 | the built-in pass collects built-ins in strictly increasing table order |
| FeatureLayout.OptimizedOrderPermutes | src/common/pagefeat.c:314-350 | the optimised order is the built-in pass followed by the user pass, and a permutation of the descriptors |
| FeatureLayout.OptimizedOrderShape | src/common/pagefeat.c:314-350 | built-ins come first in ascending table order, then exactly the user features in their original order |
| FeatureLayout.OptimizePreservesWellFormed | src/common/pagefeat.c:300-357 | optimising keeps the set well formed, its count, total, bitmap and lock, and either changes nothing or relays out the permuted order |
| FeatureLayout.OptimizeKeepsNamesDistinct | src/common/pagefeat.c:300-357 | optimising keeps names distinct |
| CatalogText.CStr | src/common/pagefeat.c:508-510 | the scanned name as C sees it: the prefix before the first NUL |
| CatalogText.CStrPrefix | src/common/pagefeat.c:508-510 | the name C sees is a prefix of the characters that were scanned |
| CatalogText.ScanName | src/common/pagefeat.c:508 | `%20[^=]` takes 1 to 20 characters and leaves the rest |
| CatalogText.DecimalValue | src/common/pagefeat.c:597 | the digits `%d` prints for a non-negative number read back as that number |
| CatalogText.ScanDecimal | src/common/pagefeat.c:508 | `%d` scans a printed non-negative number back and stops at the first non-digit |
| CatalogText.ScanHeaderText | src/common/pagefeat.c:476 | scanning the header line written by `fprintf` gives back the count and the byte total |
| CatalogText.ScanLineText | src/common/pagefeat.c:615 | scanning a written feature line gives back its name, offset and size |
| Catalog.ReadLoads | src/common/pagefeat.c:466-568 | a set that reads successfully is well formed, locked, with `feat_capacity == count` and `bytes_managed == bytes_used == size` |
| Catalog.AcceptLineKeeps | src/common/pagefeat.c:510-539 | an accepted line keeps the set well formed and its running total within the header's size |
| Catalog.ReadHeader | src/common/pagefeat.c:476-505 | a valid header makes the reader replay the lines into a fresh set sized by the header |
| Catalog.WriteOutcomes | src/common/pagefeat.c:571-641 | writing succeeds exactly when the file can be created; the set is optimised and, on success, locked; the text is the header followed by the lines of the optimised set |
| Catalog.WriteLinesPacked | src/common/pagefeat.c:605-628 | for a packed set with positive sizes, the line loop never finds bad data and its total equals `bytes_used` |
| Catalog.ReadWritten | src/common/pagefeat.c:508-558 | reading the text of packed, replayable descriptors restores exactly those descriptors, with their bits, locked |
| Catalog.WriteThenRead | src/common/pagefeat.c:571-641 | writing a well-formed set with distinct, printable names and reading the text back gives the optimised descriptors in the same order, with the same names, offsets and sizes |
| Catalog.OptimizeReplayable | src/common/pagefeat.c:582 | the optimised set's descriptors can be replayed one add at a time |
| PageFeat.NamedOffsetInTrailer | src/common/pagefeat.c:219-239 | a named offset is `BLCKSZ - offset - size`, lies in the last `bytes_used` bytes of the page, and an unknown name gives 0 |
| PageFeat.NamedSlotsDisjoint | src/common/pagefeat.c:219-239 | two different names get non-overlapping page ranges |
| PageFeat.PageFeatureSet.New | src/common/pagefeat.c:644-664 | a new set is the empty, unlocked set with the given capacities and the truncated name |
| PageFeat.PageFeatureSet.Empty | src/common/pagefeat.c:667-681 | the empty set is named "empty", holds nothing and is locked |
| PageFeat.PageFeatureSet.CalculateSize | src/common/pagefeat.c:89-93 | the size reported is the sum of the descriptor sizes |
| PageFeat.PageFeatureSet.AddFeatureByName | src/common/pagefeat.c:395-463 | the result and the new set are those of `AddSpec`, whose properties are the `FeatureLayout.Add*` lemmas |
| PageFeat.PageFeatureSet.AddFeature | src/common/pagefeat.c:375-381 | adding built-in `feature` is adding it by its table name |
| PageFeat.PageFeatureSet.Optimize | src/common/pagefeat.c:300-357 | the descriptor array becomes the relaid-out optimised order, as `OptimizeSpec` says |
| PageFeat.PageFeatureSet.Write | src/common/pagefeat.c:571-641 | the success flag, the text written and the new state are those of `WriteSpec` |
| PageFeat.PageFeatureSet.HasNamedFeature | src/common/pagefeat.c:127-137 | true exactly when some descriptor in use carries the name |
| PageFeat.PageFeatureSet.NamedFeatureOffset | src/common/pagefeat.c:219-239 | the offset from the page start of the named feature, or 0 |
| PageFeat.PageFeatureSet.FeatureOffset | src/common/pagefeat.c:211-216 | the offset of built-in `feature`, found by its table name |
| PageFeat.PageFeatureSet.NamedFeatureSize | src/common/pagefeat.c:155-168 | the size of the named feature in the cluster set, whatever set it is called on |
| PageFeat.PageFeatureSet.FeatureSize | src/common/pagefeat.c:148-152 | the size of built-in `feature` in the cluster set |
| PageFeat.Reorder | src/common/pagefeat.c:314-356 | the two passes and the copy-back leave the relaid-out optimised order in the array, and entries past the count untouched |
| PageFeat.PlaceBuiltins | src/common/pagefeat.c:314-333 | the built-in pass fills the scratch array with the relaid-out built-ins in table order and returns their count and byte total |
| PageFeat.PlaceBuiltin | src/common/pagefeat.c:316-331 | one step of the built-in pass: built-in `i`, if its bit is set and it has a slot, is appended at the running offset |
| PageFeat.FindBuiltin | src/common/pagefeat.c:319-331 | the inner loop stops at the first descriptor in use that is built-in `i`, or runs to `feat_count` when there is none |
| PageFeat.PlaceUsers | src/common/pagefeat.c:337-350 | the user pass appends the user features in their original order after the built-ins |
| PageFeat.PlaceUser | src/common/pagefeat.c:341-348 | one step of the user pass: a user descriptor is appended at the running offset |
| PageFeat.CopyPrefix | src/common/pagefeat.c:356 | the `memcpy` back copies exactly the first `feat_count` entries |
| PageFeat.ClusterNamedFeatureSize | src/common/pagefeat.c:158-167 | the scan over the cluster set returns the size of the first descriptor with the name, or 0 |
| PageFeat.BuiltinFeatureSize | src/common/pagefeat.c:140-144 | a built-in's table size is a multiple of 8 and is the default an add of size 0 receives |
| PageFeat.WriteFeatureLines | src/common/pagefeat.c:603-622 | the line loop produces the lines, stop flag and running total that `WriteLines` specifies |
| PageFeat.LastDirSeparator | src/common/pagefeat.c:470 | `last_dir_separator` returns the suffix that starts at the last `/` |
| PageFeat.ReadPageFeatureSet | src/common/pagefeat.c:466-568 | a successful read returns a fresh set named after the path's suffix from its last `/` (the `/` included, as `last_dir_separator` returns it), stored truncated, and equal to `ReadSpec(text)`; every failure returns null with the reason |
| PageFeat.ReadLines | src/common/pagefeat.c:505-559 | the line loop and the closing checks fail with the first reason `ReadBody` gives, or leave the replayed set, locked |
| PageFeat.ReadLine | src/common/pagefeat.c:510-537 | one feature line is checked in the source's order (empty name, range, offset alignment, add) and, when accepted, added |
| PageFeat.ClusterPageFeatureInit | src/common/pagefeat.c:684-706 | a missing or empty name (first character NUL) gives the empty locked set named "empty"; otherwise the set at `<data_dir>/pg_pagefeat/<name>` is loaded and named after the path's last `/` suffix, and a file that does not load stops the server |
| PageFeat.SlottedFeatureReported | src/common/pagefeat.c:97-114 | a built-in that holds a slot in a well-formed cluster set is reported by `PageFeatureSetHasFeature`, and by `PageHasFeature` on every page that uses extended features |
| PageFeat.PageHasNamedFeature | src/common/pagefeat.c:117-124 | a page has a named feature exactly when it uses extended features and the cluster set has the name |
| PageFeat.PageGetNamedFeatureOffset | src/common/pagefeat.c:194-208 | 0 for a page without features, otherwise the cluster set's offset for the name |
| PageFeat.PageGetFeatureOffset | src/common/pagefeat.c:177-183 | 0 for a page without features, otherwise the cluster set's offset for the built-in |
| PageFeat.PageGetNamedFeatureSize | src/common/pagefeat.c:266-286 | 0 for a page without features, otherwise the cluster set's size for the name |
| PageFeat.PageGetFeatureSize | src/common/pagefeat.c:249-255 | 0 for a page without features, otherwise the cluster set's size for the built-in |
| BufEnc.LsnBytesRoundTrip | src/backend/crypto/bufenc.c:138-139 | the LSN `PageSetLSN` stores is the one `PageGetLSN` reads back |
| BufEnc.PageLsnBytes | src/backend/crypto/bufenc.c:211-213 | the eight bytes copied into the IV are the bytes of the page LSN |
| BufEnc.IvLayout | src/backend/crypto/bufenc.c:203-226 | IV bytes 0-7 are `pd_lsn`, 8-11 the block number, byte 12 is 0x80 exactly for non-permanent relations, bytes 13-15 are 0 |
| BufEnc.IvInjective | src/backend/crypto/bufenc.c:209-224 | two pages get the same IV exactly when LSN, block number and permanence all agree |
| BufEnc.AadInjective | src/backend/crypto/bufenc.c:39-43 | the AAD is 24 bytes and equal for two pages exactly when header prefix, file number and block number agree |
| BufEnc.LsnRewriteRule | src/backend/crypto/bufenc.c:132-139 | encryption replaces the LSN with the fresh one exactly for non-permanent pages that are not GiST-like |
| BufEnc.EncryptedPageBytes | src/backend/crypto/bufenc.c:141-161 | byte by byte, the encrypted page is the LSN-updated page with the ciphertext over the region and the tag in the last `tagSize` bytes |
| BufEnc.EncryptChangesOnlyRegionTagAndLsn | src/backend/crypto/bufenc.c:97-161 | encryption leaves the header prefix (apart from the LSN) and any bytes between the region and the tag slot unchanged |
| BufEnc.DecryptRebuildsEncryptInputs | src/backend/crypto/bufenc.c:170-196 | on an encrypted page, decryption rebuilds the IV and AAD encryption used, and reads back its ciphertext and tag |
| BufEnc.DecryptOfEncrypted | src/backend/crypto/bufenc.c:188-196 | with a primitive whose decryption undoes its encryption, decrypting the page puts the plaintext region back |
| BufEnc.DecryptUndoesEncrypt | src/backend/crypto/bufenc.c:94-200 | decrypting an encrypted page succeeds and restores everything but the tag slot to the LSN-updated original |
| BufEnc.BufferEncryption.constructor | src/backend/crypto/bufenc.c:33-51 | the static state starts zeroed, with the method disabled and no contexts |
| BufEnc.BufferEncryption.InitializeBufferEncryption | src/backend/crypto/bufenc.c:60-91 | the disabled method changes nothing; otherwise the method is recorded, each context failure is an error, and the tag and region sizes come from the method |
| BufEnc.BufferEncryption.SetBufferEncryptionIv | src/backend/crypto/bufenc.c:203-226 | the IV buffer ends up holding the page's IV |
| BufEnc.BufferEncryption.SetupAdditionalAuthenticatedData | src/backend/crypto/bufenc.c:229-237 | `auth_data` holds the page's header prefix, file number and block number |
| BufEnc.BufferEncryption.SetupIvAndAad | src/backend/crypto/bufenc.c:141-150 | the IV is set, and the AAD is built only when the method has a tag |
| BufEnc.BufferEncryption.EncryptPage | src/backend/crypto/bufenc.c:94-164 | the page becomes `EncryptedPage` of the original; a failing primitive (all-or-nothing here) is an error that leaves the LSN-updated page |
| BufEnc.BufferEncryption.SealPage | src/backend/crypto/bufenc.c:141-163 | after the LSN step, the region and the tag slot receive the primitive's output, or the call fails with an error and, the primitive being all-or-nothing here, leaves the page alone |
| BufEnc.BufferEncryption.DecryptPage | src/backend/crypto/bufenc.c:167-200 | the page becomes `DecryptedPage` of the original; a failing primitive (all-or-nothing here) is an error that leaves the page alone |

## Left out

- Constants whose definitions are not part of this model are fixed here:
  - `BLCKSZ` = 8192 and `RELSEG_SIZE` = 131072, upstream PostgreSQL's defaults;
  - `MAX_PAGE_FEATURES` = 16 and `MaxReservedPageSize` = 256, values chosen by the model, not taken from any header. The reader's range checks (`pagefeat.c:482-488`) compare against them, so which headers are accepted depends on these choices;
  - `PAGE_FEATURE_NAME_LEN` = 21, matching the reader's `char feat_name[21]` filled by `%20[^=]`;
  - `PageEncryptOffset` = 16 (the offset of `pd_special` in upstream's page header);
  - `GIST_PAGE_ID` = 0xFF81 and `GIST_FLAG_BITMASK` = 0x1F (upstream's flag bits `F_LEAF` through `F_HAS_GARBAGE`), upstream's GiST values.
- The built-in table `builtin_feature_descs` (`pagefeat.c:78-83`) is the constant `BuiltinFeatureDescs` with the source's initial rows, `encryption_tags` of size 0 and `extended_checksums` of size 64. In the source the table is a mutable static, and `InitPageFeatures`, which is not part of this model, later sets the `encryption_tags` size once the encryption method is known. The default size 0, `FeatureLayout.ZeroSizeBuiltinSetsBit` and `PageFeat.BuiltinFeatureSize` therefore describe the table as initialised, before `InitPageFeatures` runs.
- `src/include/common/pagefeat.h` is a stale header that contradicts `pagefeat.c` (a `uint16` bitmap type, `PF_MAX_FEATURE = 0`). The model follows `pagefeat.c`.
- The bitmap is a set of built-in numbers rather than an integer with `1 << i` bits. `!builtin_bitmap` is "the set is empty".
- Types:
  - `bytes_used` is an unbounded `nat`, so a `uint16` wrap of the running total is not modelled. `RoundUp8` does model the `uint16` wrap of `(size + 7) & ~7`.
  - `%d` overflow is not modelled. Bytes are stored little-endian, so big-endian hosts are not covered.
- File I/O:
  - The catalog text is a `string` parameter. `fopen(path, "wx")` failing is the `canCreate` parameter of `Write`.
  - `fprintf`, `fsync` and `fclose` failures are not modelled.
  - `ReadPageFeatureSet` takes the file contents alongside the path.
  - `malloc` failure is not modelled.
- Write's `tot_cnt != feat_count` check (`pagefeat.c:624`) can never fire once the loop completes, so the model checks only the byte total.
- The `Assert`s of `NewPageFeatureSet` (`bytes_capacity > 0`, `max_features > 0`) are not preconditions. Like a production build, a file with header `features 0 0` proceeds.
- User descriptors have `isbuiltin = false` and `builtin = -1`; the source leaves these uninitialised. The byte after a 20-character stored name is not modelled.
- The scratch array of `OptimizePageFeatureSet` is `feat_count` entries long rather than `MAX_PAGE_FEATURES`.
- `PageFeatureSetNamedFeatureSize` and `PageFeatureSetFeatureSize` ignore the set they are called on and read the global `cluster_page_features`. The model passes that global as the `cluster` parameter.
- The page-level lookups take the page header and the cluster set as parameters. `PageGet*` require the page's feature bits to match the cluster set, as the source assumes.
- Failure paths of the catalog code: `pg_error` (`pagefeat.c:28-32`) is `pg_fatal` in the frontend and `elog(ERROR)` in the server, and neither returns. The model turns each of these non-returning errors into a returned result:
  - `PageFeat.ReadPageFeatureSet`: each `pg_error` is a `null` result carrying its `ReadError` reason. In the source the call never returns `NULL`, because the `return NULL` at `pagefeat.c:563-567` is unreachable.
  - `PageFeat.PageFeatureSet.Write`: the `pg_error` at `pagefeat.c:637` is the `false` result. In the source the call never returns `false`.
  - `PageFeat.ClusterPageFeatureInit`: its `NULL` test and `elog(PANIC)` / `pg_fatal` (`pagefeat.c:700-705`) are dead code in the source, since a bad file already stops the process through the error raised inside `ReadPageFeatureSet`. In the model, the `None` result stands for that stop, whichever error causes it. The source writes the path with `sprintf` into `path[MAXPGPATH]` (`pagefeat.c:687, 697`), so an overlong path overflows the buffer. The model's path is unbounded and does not capture this.
- `PageFeat.ReadPageFeatureSet`: a missing file is not modelled. The source does not check `fopen(path, "r")` (`pagefeat.c:471`), so `fscanf` at `pagefeat.c:476` dereferences `NULL` when the file is absent. The model takes the file's text as a parameter and cannot express this case.
- `PageFeat.ReadPageFeatureSet` and `PageFeat.LastDirSeparator` require `'/' in path`. This stands for `last_dir_separator` returning `NULL` and the `Assert(name)` in `NewPageFeatureSet` (`pagefeat.c:650`) that would reject it. The only call site in the source, `ClusterPageFeatureInit`, always builds a path containing `/`.
- Characters are bytes: a Dafny `char` stands for one C `char`, so the byte limits of the catalog code (`%20[^=]`, `strncpy(..., 20)` and `%.20s` at `pagefeat.c:448, 508, 615`) count characters here, and `IsSpace` is the C-locale `isspace`. Multi-byte encodings are not modelled.
- `SetExtendedFeatureConfigOptions` (`pagefeat.c:360-370`) only publishes GUCs through `SetConfigOption`, which is not part of this model.
- `Catalog.ReadSpec` and `Catalog.ReadBody`: these specification functions scan every feature line from the text before replaying any of them. The text is a value, so this order is equivalent to the C loop's interleaving of `fscanf` and the checks, which `PageFeat.ReadLines` follows line by line.
- `BufEnc` leaves these out:
  - **The cipher.** OpenSSL (`cipher_openssl.c`) and the key manager are not part of this model. `pg_cipher_ctx_create`, `pg_cipher_encrypt` and `pg_cipher_decrypt` are function parameters assumed to preserve lengths. `KmgrGetKey` is the `key` parameter.
  - **All-or-nothing primitive.** The primitive either returns its whole output or fails without writing anything. The real `pg_cipher_encrypt` and `pg_cipher_decrypt` write their output over the page region in place before the finalisation or the tag check can fail, so after a real failure the region may already hold ciphertext or unauthenticated plaintext. The failure clauses of `BufEnc.BufferEncryption.EncryptPage`, `BufEnc.BufferEncryption.SealPage` and `BufEnc.BufferEncryption.DecryptPage` (the region untouched) hold only for such an all-or-nothing primitive.
  - **Per-method values.** `EncryptionAlgorithm`, `EncryptionBlockLength`, `SizeOfEncryptionTag` and `SizeOfPageEncryption` are unseen. They are the `MethodInfo` parameter, and the region and tag are required to fit in the block.
  - **Other parameters.**
    - `LSNForEncryption(false)` is the `fakeLsn` parameter.
    - The special-space values `PageGetSpecialSize` and the GiST opaque fields are the `SpecialArea` parameter.
    - `cluster_block_size` is the page buffer's length.
  - **Builds.** The `FRONTEND` build of `InitializeBufferEncryption`, which always returns, is not modelled. `elog(ERROR)` is an error result that leaves the state as far as it got.
  - **Asserts.** Three `Assert`s of `bufenc.c` are preconditions: `BufEncCtx != NULL` (`encCtx.Some?` of `EncryptPage`), the permanent-page LSN check at `bufenc.c:122` (`PageLsn(page) != InvalidXLogRecPtr || !permanent` of `EncryptPage`) and `BufDecCtx != NULL` at `bufenc.c:175` (`decCtx.Some?` of `DecryptPage`). Unlike the `pagefeat.c` Asserts above, these guard states that the server never reaches, so they are kept as caller obligations.
- The `Calc*` tuple-size macros (`blocksize.h:79-114`) depend on unseen struct sizes. They are the `sizeCalc` parameter of the dispatch functions.
- `FreeSpaceMapInit` (`blocksize.c:56-59`) and `BlockSizeInitFromControlFile` are outside this model.
