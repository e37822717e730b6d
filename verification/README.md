# A verified model of the HAP re-signer

The repository re-signs HarmonyOS application packages (HAPs). A HAP is a ZIP archive with a signing
block in front of its central directory. This project models four parts of the program in Dafny and
proves what they are for:

1. **The signing block and the content digest.** A printer and a parser for the block, the chunked
   digest (APK Signature Scheme v2, "Integrity-protected contents"), and `sign_hap`, which hashes a file
   with one directory offset in its end-of-central-directory record (EOCD, section 4.3.16 of PKWARE
   APPNOTE) and ships it with another.
2. **The code signature.** The fs-verity Merkle tree and descriptor (Linux kernel fs-verity
   documentation), the property with its nested offset tables, and the alignment of ZIP entries. File
   offsets are predicted before the block that contains them exists.
3. **The pending-key protocol.** Files, passwords and a remote service during attempts to obtain a
   certificate and a profile. Every effect may fail, and attempts repeat.
4. **The GUI worker protocol.** Handlers of the user interface interleaved with worker threads that
   answer through a channel.

Each loop or state change of the source is a method, proved equal to a function of its inputs or of
the old state; the theorems are lemmas about these functions. What the functions themselves compute is
also described without them, by positions, numbers and names: see `WireFormats`, `EntryForms`,
`ReferenceVerifier`, `CodeSigningDue`, `SigningLimits`, `GuiRules` and the lemmas named `...Exactly`.

## Files

| file | contents |
|---|---|
| `ByteCodec.dfy`, `Names.dfy`, `Wrappers.dfy` | bytes, little-endian fields, chunks, byte-wise order, results |
| `WireFormats.dfy` | every printed structure byte by byte, in numbers |
| `Format.dfy`, `SigningBlocks.dfy` | parser and printer of the signing block, kept blocks |
| `ContentDigest.dfy` | the chunked digest and what it binds |
| `MerkleTree.dfy`, `FsVerity.dfy` | the tree, its verification, the level-building loop, the descriptor |
| `ZipAlign.dfy` | classification, order and alignment of entries, collecting the inputs |
| `EntryForms.dfy` | the same in the bytes of names and in numbers |
| `CodeSign.dfy`, `CodeSignProperty.dfy` | sign infos, native segment, layout of the property |
| `Sign.dfy`, `SignedFile.dfy`, `Resign.dfy` | `sign_hap`, what a verifier makes of its output, signing twice |
| `CodeSigningDue.dfy`, `SigningLimits.dfy` | when a file is code-signed, and when signing succeeds |
| `ReferenceVerifier.dfy` | a digest and a verifier written from the formats alone, which accept every output |
| `CommentAmbiguity.dfy`, `ValueBoundaries.dfy`, `RunnableArchives.dfy` | concrete files for which a property fails |
| `OneEntryZip.dfy` | ZIP archives with one stored entry, byte by byte: writer and reader |
| `Identity.dfy`, `PendingKeys.dfy` | loading an identity; effects and runs of the pending-key protocol |
| `OverlappingAttempts.dfy`, `DeliveredMaterials.dfy` | attempts that run at the same time; how long delivered materials stay usable |
| `MaterialStore.dfy`, `MaterialManager.dfy` | the stores as an object; the search and one attempt |
| `RemoteLookup.dfy`, `PemRedaction.dfy` | bounded lookups against any service; redaction of PEM blocks |
| `GuiApp.dfy`, `GuiProtocol.dfy` | handlers over their fields; all interleavings with the workers |
| `GuiRules.dfy` | what the handlers do start, and when |

## How the environment is modelled

- SHA-256, CMS construction, key stores, X.509, profile validation and the zip crate are functions that
  every theorem quantifies over. Nothing is assumed about the hash: where a claim needs it, the claim is
  "equal, or here are two different messages with the same hash, one hashed on either side". Team
  identifiers are cut hashes; they are assumed to differ for the teams of one run only (`Generator.teams`).
- CMS construction is a function of content and identity. The real one also reads the clock.
- About the zip crate, `ZipAlign.HonoursRewrite` states what is asked of it, for the one rewriting at
  hand: if the write succeeds, its archive ends with a record and the comment, and reads back with the
  requested entries in order, at the requested alignments, the last one's data ending where the directory
  starts. What the parser of the signing block makes of the archive is proved, not asked. The theorems that
  need this name it as a hypothesis. `RunnableArchives.HapIsRewritten` is an instance on real bytes.
- Sizes are 64-bit; the 32-bit fields of the formats, their limits and the 32-bit cast of the chunk count
  are explicit.
- The remote service is a record of arbitrary answers. File-system failures are arbitrary. Elapsed time
  is a flag that may hold or not at every step.

## What the code does not guarantee

Seven properties one would expect do not hold of the code as it is. Each has a lemma with a concrete
input or run, and a lemma that says exactly when the property holds.

- **A signed file may be unreadable.** Writing the new directory offset into the EOCD can spell a second
  record inside a ZIP comment of 13 bytes or more (`CommentAmbiguity.SignedButUnreadable`). The output
  parses to what was written if and only if the patched record stays the last one
  (`SignedFile.OutputLayoutExactly`). Whenever the output can be read at all, its recomputed digest is the
  signed one if and only if that holds, or a collision is at hand (`SignedFile.DigestAgreesExactly`). For the
  record that is patched, it holds under every offset if and only if at none of the places 13 to 19 all but
  the patched bytes of a record are present (`SignedFile.NeverAmbiguousExactly`). When code signing is due
  that record belongs to the rewritten archive; what a caller can check on the ZIP comment of the input, in
  either case, is `Format.ClearComment` (`SignedFile.ClearCommentStaysLast`).
- **A HAP with code may be refused.** The rewriting puts the data of the last entry right in front of the
  directory. If that data ends like a signing block, the rewritten archive is taken for a signed file and
  refused, by every attempt (`RunnableArchives.RunnableButRefused`). Collecting succeeds if and only if the
  bytes in front of the directory do not end like one (`ZipAlign.CollectsExactly`); if the entry that is
  sorted last is stored and has at least 20 bytes, its content decides (`ZipAlign.LastContentDecides`).
- **A code signature may cover nothing.** An archive whose entries are all runnable is signed, and the sign
  info in the output names zero bytes of data (`RunnableArchives.SignedButUncovered`). A runnable entry is
  covered if and only if the input has an entry, other than `.pages.info`, that is not runnable
  (`ZipAlign.AlignedInputsCollect`).
- **An installation may go to the wrong device.** A re-sign may be started while another one runs, for
  another device, and the file of the first is then installed on the second
  (`GuiProtocol.InstallOnWrongDevice`). A start is safe if and only if every running re-sign is for its
  device and the last queued message that sets the phase is not a signature for another one: otherwise, and
  only otherwise, some continuation without a further start ends, with all messages handled, in an
  installation that is due on another device than its file was signed for
  (`GuiProtocol.StartIsSafeExactly`).
- **Two attempts at once may spoil a pending key.** Two re-signs without a pending record, for one team, can
  leave the CSR that one uploaded beside the P12 of the other
  (`OverlappingAttempts.OverlappingAttemptsSpoil`). Whatever steps are taken in whatever order, a crash after
  any of them finds every pending record complete if and only if each step is harmless when it is taken: a
  password or P12 saved for a pending key fits its CSR, and a record is written beside a P12 and password
  that fit it (`OverlappingAttempts.AlwaysRecoverableExactly`). Runs about different keys may be interleaved
  in any way (`OverlappingAttempts.DifferentKeysFollow`).
- **A failed attempt may lose delivered materials.** An attempt that generates a new key for a team saves its
  password before its P12. If it fails in between, a working pair of the team is left under a password that
  does not open it (`DeliveredMaterials.FailedAttemptLosesPair`). Over any run, a delivered pair can be found
  with its saved password after every step if and only if no step replaces P12, chain, password or profile by
  one that does not fit the others (`DeliveredMaterials.AlwaysFitsExactly`).
- **The digest does not say where a value ends and of what type it is.** Bytes can move from profile to
  property, and the two can change places, under the same digest and signer block
  (`ValueBoundaries.ValuesCanMove`, `ValueBoundaries.TypesCanSwap`). Equal digests mean equal blocks if and
  only if types and lengths agree (`SignedFile.EqualDigestsBindBlocks`).

The chunk count in the digest is cut to 32 bits, so more than 2^32 chunks would not be bound
(`ContentDigest.CountWrapAround`). No file whose layout was found comes near (`SignedFile.FewChunks`).

## Model

| member | source | states |
|---|---|---|
| `Format.FindEocd` | src/hap/format.rs:84-104 | the backwards scan over the last 22 + 65535 bytes finds the last record of the whole file whose comment ends with the file, or none exists anywhere |
| `Format.ClearCommentOwnRecord` | src/hap/format.rs:84-104 | behind a record whose comment is clear, a condition on the comment alone, the scan finds no other record |
| `Format.ParseSigningBlock` | src/hap/format.rs:106-166 | the parser with its checks in order, against the specification `SigningBlockOf` |
| `Format.AcceptedRangesAreInside` | src/hap/format.rs:106-166 | for arbitrary bytes, an accepted block ends at the directory and every accepted entry lies between the table and the trailer |
| `Format.ParseHap` | src/hap/format.rs:63-82 | the layout of the file: last record, directory that ends at it, signing block in front |
| `Format.BlockExactly` | src/hap/format.rs:106-166 | in numbers: a block is there exactly if one of the two 16-byte magics is; it is accepted exactly if its size, its table and every announced value fit, each refusal has its error, and every row becomes its entry |
| `Format.LayoutExactly` | src/hap/format.rs:63-104 | in numbers: the file is read from the last `PK\5\6` whose comment ends with it, whose directory must end in front of it |
| `WireFormats.FieldBytes` | src/hap/format.rs:168-181 | fields of two, four and eight bytes are little-endian |
| `WireFormats.BlockTypes` | src/hap/format.rs:7-9 | the three block types |
| `SigningBlocks.EncodeSigningBlock` | src/hap/sign.rs:137-182 | prints exactly the encodable block lists and fails with the size limit on all others |
| `SigningBlocks.ParseEncoded` | src/hap/sign.rs:137-182 | round trip: a printed block behind any prefix and before any suffix parses to its start, version 3 and entries that denote the printed types and values |
| `WireFormats.SigningBlockLayout` | src/hap/sign.rs:137-182 | the printed block byte by byte: rows of 12 bytes, the first value behind the table and each further one behind the one before, then count, size, magic and version 3 |
| `SigningBlocks.PreservedOfDenoted` | src/hap/signing_block.rs:9-31 | what a re-sign keeps of written blocks is exactly their property blocks, in order |
| `SigningBlocks.PropertyBlocksAreProperties` | src/hap/signing_block.rs:9-31 | nothing but property blocks is kept of any file |
| `ContentDigest.CountChunks` | src/hap/digest.rs:8-11 | the count summed up from segment lengths is the number of chunks that will be hashed |
| `ContentDigest.ComputeContentDigest` | src/hap/digest.rs:7-34 | the loops compute the top-level hash over count, chunk digests and optional values, whose bytes `ReferenceVerifier.ReferenceDigestExactly` gives |
| `ReferenceVerifier.ReferenceDigestExactly` | src/hap/digest.rs:7-34 | the digest by positions alone, and no other value meets this: pieces of 1048576 bytes, each hashed behind 0xA5 and its length in four bytes; the top message has 0x5A, the count, the 32-byte hash of piece i at 5 + 32 * i, then the values |
| `ContentDigest.AllChunksConcat` | src/hap/digest.rs:14-22 | cutting into chunks loses nothing |
| `ContentDigest.TopMessageInjective` | src/hap/digest.rs:24-33 | below 2^32 chunks the top-level message determines chunk digests and concatenated values |
| `ContentDigest.DigestBinding` | src/hap/digest.rs:7-34 | equal digests below 2^32 chunks: equal chunk sequences and equal concatenated values, or an explicit collision |
| `ContentDigest.CountWrapAround` | src/hap/digest.rs:24-33 | the bound is needed: 2^32 further chunks can be traded for an optional value without changing the digest |
| `MerkleTree.ParentIsShorter` | src/hap/code_sign.rs:113-128 | a parent level is strictly shorter than a child of more than one page, and whole pages long |
| `MerkleTree.TreeSize` | src/hap/code_sign.rs:86-142 | length of the serialised tree |
| `MerkleTree.ShapeBounds` | src/hap/code_sign.rs:86-142 | for P > 1 pages the depth is the least L with 128^L >= P, and the tree has at most L + (P - 1) / 127 pages |
| `MerkleTree.TreeBlocksAtMost` | src/hap/code_sign.rs:86-142 | a tree never has more pages than its data |
| `MerkleTree.EveryPageVerifies` | src/hap/code_sign.rs:86-151 | completeness: a reader that walks only the top-level-first tree finds every page's padded hash at its computed place, every block's hash one level above, and the root |
| `MerkleTree.AcceptedPageIsGenuine` | src/hap/code_sign.rs:86-151 | soundness: against the true root and any claimed tree, an accepted page is the page of the data, or an explicit collision |
| `MerkleTree.PathWithinTree` | src/hap/code_sign.rs:86-151 | checking a page against its own tree hashes nothing that building it did not hash |
| `MerkleTree.PagesBinding` | src/hap/code_sign.rs:86-142 | equally many pages under one root are equal, or an explicit collision |
| `MerkleTree.RootBinding` | src/hap/code_sign.rs:86-142 | files of equal length under one root are equal, or an explicit collision |
| `MerkleTree.RootIgnoresTrailingZeros` | src/hap/code_sign.rs:144-151 | the length is needed: zero bytes up to the page end do not change the root |
| `WireFormats.TreeLayout` | src/hap/code_sign.rs:86-151 | the tree of a file of more than one page, in numbers: each level has one 32-byte hash for every zero-padded page of 4096 bytes below and zeros up to whole pages, levels end at the first of one page, whose hash is the root, and the bytes end with the lowest level |
| `WireFormats.SmallTrees` | src/hap/code_sign.rs:86-151 | a file of one page has no tree and the hash of its padded page as root, an empty file 32 zeros |
| `WireFormats.LevelLayout` | src/hap/code_sign.rs:98-126 | hash i of a level stands at 32 * i, and zeros follow the last |
| `FsVerity.FillLevel` | src/hap/code_sign.rs:98-126 | the slice writes fill a level buffer with the hashes of the pages below and leave the rest zero |
| `FsVerity.BuildLevels` | src/hap/code_sign.rs:112-141 | the loop over levels ends, and its top-down serialisation and root are those of the tree |
| `FsVerity.SlicesFit` | src/hap/code_sign.rs:91-136 | for any slice below half the address space no size computation overflows, so the tree is always built |
| `FsVerity.GenerateMerkleTree` | src/hap/code_sign.rs:86-142 | root and tree of any data, with the empty and the one-page case |
| `FsVerity.GenerateFsVerity` | src/hap/code_sign.rs:58-84 | tree, root and formatted digest of any data |
| `FsVerity.DescriptorFields` | src/hap/code_sign.rs:58-84 | size, root and tree offset can be read back from the descriptor |
| `WireFormats.DescriptorLayout` | src/hap/code_sign.rs:58-84 | all 256 bytes of the descriptor: version 1, SHA-256, pages of 2^12, size, root, flag for a stored tree, its offset, and zeros |
| `WireFormats.FormattedDigestLayout` | src/hap/code_sign.rs:58-84 | `FSVerity`, algorithm 1, size 32 and the hash of the descriptor |
| `FsVerity.FormattedDigestBinding` | src/hap/code_sign.rs:58-142 | equal formatted digests: equal data and tree offsets, or an explicit collision |
| `ZipAlign.HasRunnableFiles` | src/hap/code_sign.rs:167-178 | first failing entry, or whether any entry is runnable |
| `ZipAlign.AdmitExactly` | src/hap/code_sign.rs:534-571 | a pass over an archive succeeds exactly if every entry is admissible and the total is in budget, in whatever order |
| `ZipAlign.SortedInOrder` | src/hap/code_sign.rs:225-229 | the plans come out ordered by rank and then name |
| `ZipAlign.PlanEntries` | src/hap/code_sign.rs:200-224 | keeps all entries but `.pages.info`, or fails with the first entry that is not admissible |
| `ZipAlign.RequestEntries` | src/hap/code_sign.rs:235-257 | alignment and content requested for every entry, by position alone, or the first size mismatch |
| `ZipAlign.AlignZipForCodeSign` | src/hap/code_sign.rs:200-259 | the whole rewriting, with its error cases in order |
| `ZipAlign.CollectCodeSignInputs` | src/hap/code_sign.rs:376-419 | the scan for hashed prefix and native files, with its error cases in order; `EntryForms.CollectingExactly` gives both in the bytes of names |
| `ZipAlign.AlignedEntries` | src/hap/code_sign.rs:200-259 | with a writer that honours this rewriting, the output lists an ordered permutation of the input without `.pages.info` |
| `ZipAlign.AlignedInputsCollect` | src/hap/code_sign.rs:376-419 | collecting from such an output never finds an alignment error, and succeeds exactly if the layout is found and shows no signing block; then the prefix is page-aligned, in front of the directory, and covers a runnable entry exactly if the input has an entry besides `.pages.info` that is not runnable, else it is empty |
| `ZipAlign.CollectsExactly` | src/hap/code_sign.rs:376-382 | collecting succeeds exactly if the bytes in front of the directory do not end like a signing block |
| `ZipAlign.LastContentDecides` | src/hap/code_sign.rs:376-382 | if the entry sorted last is stored and has at least 20 bytes, its content decides that |
| `ZipAlign.NativeIsWritten` | src/hap/code_sign.rs:200-259 | every native file of the input is listed in the output with its name and content |
| `EntryForms.ClassesExactly` | src/hap/code_sign.rs:534-643 | a file is native exactly if its name starts with `libs/` or ends with `.an`, runnable exactly if native or ending with `.abc`, refused exactly if it starts with `hnp/` and ends with `.hnp`; no directory is any of the first two |
| `Names.LessExactly` | src/hap/code_sign.rs:225-229 | names are compared at their first different byte, and a prefix comes first |
| `EntryForms.AllowedExactly` | src/hap/code_sign.rs:534-571 | a pass succeeds exactly if no entry is a nested package or larger than 536870912 bytes, every runnable one is stored, and all together have at most 2147483648 bytes |
| `EntryForms.RefusedAt` | src/hap/code_sign.rs:534-571 | otherwise it stops at the first entry that breaks this, with the error of the first check that fails |
| `EntryForms.KeptExactly` | src/hap/code_sign.rs:206-212 | the rewriting keeps all entries but `.pages.info`, in order |
| `EntryForms.OrderExactly` | src/hap/code_sign.rs:225-229 | runnable files come first, then stored entries, then the rest, with ascending names in each of the three |
| `EntryForms.SortIsStable` | src/hap/code_sign.rs:225-229 | entries of one group and name stay in their order |
| `EntryForms.RequestsExactly` | src/hap/code_sign.rs:235-257 | every entry is written as it was; runnable files and the first other entry at multiples of 4096, further stored entries at multiples of 4 |
| `EntryForms.MismatchAt` | src/hap/code_sign.rs:573-587 | the writing stops at the first file whose content is not as long as declared |
| `EntryForms.RewriteExactly` | src/hap/code_sign.rs:200-259 | the rewriting succeeds exactly if the archive is read, what it keeps is allowed and as long as declared, and the requests for it, in order, are written |
| `EntryForms.CollectingExactly` | src/hap/code_sign.rs:376-419 | collecting accepts exactly allowed entries that start a page up to the first that is not runnable; what is hashed ends where that one starts, and exactly the native files are signed, in order |
| `OneEntryZip.ReadsBack` | src/hap/code_sign.rs:376-419 | a reader of one-entry archives lists from the bytes what was written, with its data where it stands |
| `OneEntryZip.OneEntryLayout` | src/hap/format.rs:63-82 | the layout of such an archive, by the bytes in front of its directory |
| `RunnableArchives.HapIsRewritten` | src/hap/code_sign.rs:200-259 | the assumption on the zip crate is met by this reader and writer on real bytes, and the code moves to the second page |
| `RunnableArchives.SignedButUncovered` | src/hap/code_sign.rs:376-419 | the bytes of an archive with one runnable entry are code-signed, and the sign info in the output names zero bytes of data |
| `RunnableArchives.RunnableButRefused` | src/hap/code_sign.rs:376-382 | the bytes of an archive whose code ends like a signing block: rewriting succeeds and signing fails, whoever signs |
| `CodeSign.EncodeSignInfo` | src/hap/code_sign.rs:421-462 | prints exactly the sign infos that fit their fields |
| `CodeSign.SignInfoRoundTrip` | src/hap/code_sign.rs:421-462 | a decoder that follows the offsets recovers the sign info |
| `WireFormats.SignInfoLayout` | src/hap/code_sign.rs:421-462 | the sign info byte by byte, with zeros up to a multiple of four behind the CMS |
| `WireFormats.ExtensionLayout` | src/hap/code_sign.rs:449-460 | the 88 bytes of the tree extension: type 1, length 80, tree size and offset, root, zeros |
| `CodeSign.EncodeNativeSegment` | src/hap/code_sign.rs:473-532 | prints exactly the native segments that fit their fields |
| `CodeSign.NativeOffsetsInside` | src/hap/code_sign.rs:473-532 | every name and sign info lies inside its part of the segment |
| `CodeSign.NativeSegmentRoundTrip` | src/hap/code_sign.rs:473-532 | a decoder over the position table recovers every (name, sign info) pair in order |
| `WireFormats.NativeSegmentLayout` | src/hap/code_sign.rs:473-532 | magic, size and count, and for each file a row of 16 bytes that leads to its name and sign info |
| `CodeSign.InfoOffsetAligned` | src/hap/code_sign.rs:473-532 | every sign info starts at a multiple of four in the segment |
| `CodeSignProperty.BuildCodeSignProperty` | src/hap/code_sign.rs:261-374 | the property from an aligned file, with its error cases in order; its final length check never fires |
| `CodeSignProperty.LayOutProperty` | src/hap/code_sign.rs:311-374 | the appends produce the described block, or the size limit |
| `CodeSignProperty.TreeOffsetAligned` | src/hap/code_sign.rs:267-286 | the tree starts at the first page boundary behind the header |
| `WireFormats.TreeStart` | src/hap/code_sign.rs:267-286 | in numbers: the first multiple of 4096 behind the 68 bytes of headers, and the zeros reach up to it |
| `CodeSignProperty.BlockTiles` | src/hap/code_sign.rs:311-366 | header, padding, tree and segments tile the block exactly at the offsets and sizes in the segment headers |
| `WireFormats.CodeSignHead` | src/hap/code_sign.rs:330-337 | the 32-byte header: magic, version 1, size of the block, three segments, flag 1, or 3 with native files |
| `WireFormats.SegmentTypes` | src/hap/code_sign.rs:338-350 | segments 1, 2 and 3 in this order |
| `WireFormats.PaddingIsZero` | src/hap/code_sign.rs:351-357 | zeros up to the tree |
| `WireFormats.FsVerityInfoLayout` | src/hap/code_sign.rs:464-471 | the 64 bytes of the fs-verity segment |
| `WireFormats.HapMagic` | src/hap/code_sign.rs:312-314 | the magic in front of the sign info of the HAP |
| `WireFormats.PropertyLayout` | src/hap/code_sign.rs:368-373 | the property value: type, length and file offset of the code-sign block, then the block |
| `CodeSignProperty.LoadedCodeSign` | src/hap/code_sign.rs:311-366 | a loader that follows the headers recovers the sign info of the HAP and all native pairs |
| `CodeSignProperty.NativeInfosAligned` | src/hap/code_sign.rs:311-366 | every native sign info starts at a multiple of four in the file |
| `Sign.WriteU32` | src/hap/sign.rs:184-190 | overwrites four bytes in place, or nothing if they do not fit |
| `Sign.AnnounceTwice` | src/hap/sign.rs:86-114 | only the last announced offset remains in the record |
| `Sign.DigestPairsInjective` | src/hap/sign.rs:126-135 | the signed pairs determine the digest |
| `WireFormats.DigestPairsLayout` | src/hap/sign.rs:126-135 | all 52 bytes: version 2, one pair of 40 bytes, algorithm 0x201, 32 bytes of digest |
| `Sign.CollectOptionalBlocks` | src/hap/sign.rs:56-82 | kept blocks, profile, and a generated property in front |
| `Sign.SignHap` | src/hap/sign.rs:32-124 | the whole operation, with its error cases in order; when it code-signs, when it succeeds and what its output holds is stated by `CodeSigningDue.DueExactly`, `SigningLimits.SignsExactly` and `ReferenceVerifier.SignedIsAccepted` |
| `CodeSigningDue.DueExactly` | src/hap/sign.rs:37-43 | code signing is due exactly if the parsed block has no entry of type 0x20000003 and some listed file is runnable by its name; the listing is looked at only without such an entry, and must be readable and allowed then |
| `CodeSigningDue.PropertyWrittenExactly` | src/hap/sign.rs:37-82 | an output has a property exactly if its input had one or a runnable file, so no runnable file is left without a code signature |
| `SigningLimits.PreparesWithoutCodeSign` | src/hap/sign.rs:50-60 | without code signing a readable file can always be prepared |
| `SigningLimits.PreparesWithCodeSign` | src/hap/sign.rs:44-82 | with code signing exactly the rewriting, the layout of its result, a block in it and the property can fail; the code-sign block stands 48 bytes behind the start of the signing block |
| `SigningLimits.SignsExactly` | src/hap/sign.rs:83-124 | a prepared file is signed exactly if the CMS is built and the signing block, of 32 bytes, 12 for each value and the values, ends below 4 GiB; otherwise the error says which |
| `SigningLimits.NativesSignExactly` | src/hap/code_sign.rs:300-309 | all native files are signed exactly if each has its declared size and a CMS that fits |
| `SigningLimits.PartsExactly` | src/hap/code_sign.rs:261-309 | the parts of a property are known exactly if the profile names an owner, the archive can be collected from and its data and native files are signed |
| `SigningLimits.PropertyExactly` | src/hap/code_sign.rs:311-373 | the property is built from them exactly if its block is smaller than 4 GiB |
| `SigningLimits.PropertySizeExactly` | src/hap/code_sign.rs:316-328 | the size of that block, in numbers |
| `SigningLimits.InfoSizeExactly` | src/hap/code_sign.rs:427-434 | the size of a sign info, in numbers |
| `SigningLimits.NativeSizeExactly` | src/hap/code_sign.rs:476-504 | the size of the native segment, in numbers |
| `Sign.SignPrepared` | src/hap/sign.rs:83-124 | hash with the block start announced, then ship with the new directory offset |
| `SignedFile.NewRecordsOverlap` | src/hap/sign.rs:110-114 | only a record that overlaps the patched bytes can be new, and it needs a comment of at least 13 bytes |
| `SignedFile.NewRecordExactly` | src/hap/sign.rs:110-114 | an offset makes a record at 13 to 19 exactly if the unpatched bytes of one are there and the offset supplies the others |
| `SignedFile.NeverAmbiguousExactly` | src/hap/sign.rs:110-114 | a record stays the last one under every offset exactly if nowhere all but the patched bytes of a second one are present |
| `SignedFile.NoNearRecordStaysLast` | src/hap/sign.rs:110-114 | so the record of the file that is signed (the rewritten one when code signing is due) decides before the CMS and its length are known |
| `SignedFile.ClearCommentStaysLast` | src/hap/sign.rs:32-124 | a caller can check the ZIP comment of the input: if it is clear, the record stays the last one, rewritten or not |
| `SignedFile.ShortCommentStaysLast` | src/hap/sign.rs:110-114 | with a comment below 13 bytes the patched record stays the last one |
| `SignedFile.AssembledParses` | src/hap/sign.rs:109-123 | an assembled file parses to its parts exactly if its patched tail holds no second record |
| `SignedFile.OutputLayoutExactly` | src/hap/sign.rs:32-124 | the output parses to what was written exactly if the patched record stays the last one; the blocks are in place in either case |
| `SignedFile.SignedFileVerifies` | src/hap/sign.rs:83-124 | end to end: the digest recomputed from the output alone is the one in the signed pairs, and the signer block is the CMS of these pairs |
| `ReferenceVerifier.VerifiedIsAccepted` | src/hap/digest.rs:7-34 | whatever verifies is accepted by a verifier written from the formats alone: last record, table rows, hashed pieces and pairs by position, the record hashed with the start of the block in bytes 16 to 20, and the first row of type 0x20000000 as signature |
| `ReferenceVerifier.SignedIsAccepted` | src/hap/sign.rs:32-124 | end to end: every output whose record stays the last one is accepted by it |
| `SignedFile.DigestAgreesExactly` | src/hap/sign.rs:83-124 | whenever an output can be read, the recomputed digest is the signed one exactly if the record stayed the last one, or an explicit collision |
| `SignedFile.FinalValues` | src/hap/sign.rs:97-114 | a verifier hashes the values of exactly the covered blocks, in table order, and finds the signer block |
| `SignedFile.EqualDigestsBindFiles` | src/hap/sign.rs:83-124 | files with the same recomputed digest agree on the bytes before the block, the directory and the record, one by one, and on the joined signed values, or an explicit collision |
| `SignedFile.FewChunks` | src/hap/format.rs:63-82 | a file whose layout was found has fewer than 2^32 chunks |
| `SignedFile.SameChunksSameParts` | src/hap/digest.rs:14-22 | the chunks determine the three parts: the record is the last chunk and names the sizes of the others |
| `SignedFile.EqualDigestsBindValues` | src/hap/sign.rs:93-100 | they agree on the single values exactly if the lengths agree, or an explicit collision |
| `SignedFile.EqualDigestsBindBlocks` | src/hap/sign.rs:93-100 | they agree on the blocks with their types exactly if types and lengths agree, or an explicit collision |
| `SignedFile.AssembledDigest` | src/hap/sign.rs:83-124 | the digest and signer block that a verifier finds in any assembled file whose record stays the last one |
| `ValueBoundaries.ValuesCanMove` | src/hap/digest.rs:24-33 | two files with different properties and profiles verify with the same digest and signer block |
| `ValueBoundaries.TypesCanSwap` | src/hap/digest.rs:24-33 | two files in which property and profile have changed places verify with the same digest and signer block, at equal lengths |
| `CommentAmbiguity.DemoVerifiesExactly` | src/hap/sign.rs:110-114 | over a family of inputs with a 16-byte comment, every one is signed, and its output verifies exactly if the new directory offset does not spell a record signature |
| `CommentAmbiguity.SignedButUnreadable` | src/hap/sign.rs:110-114 | a concrete input on which signing succeeds and the output has no readable directory |
| `Resign.OutputParts` | src/hap/sign.rs:32-124 | an output parses back to the parts it was assembled from, and a re-sign keeps exactly its properties |
| `Resign.ResignAbsorbs` | src/hap/sign.rs:37-60 | signing with p and then q gives what signing with q alone gives, errors included, when no code signing is due for the input; without a property block, if the reader lists the output as it lists the input |
| `Resign.OutputNeedsNone` | src/hap/sign.rs:37-43 | an output needs no code signing if its original had a property block or is listed alike |
| `Resign.OffsetPrediction` | src/hap/sign.rs:61-81 | the offset computed before the block exists is the position of the code-sign block in the output, it is the one recorded in the property, and the tree starts at the predicted page boundary |
| `Resign.CodeSignedBlocks` | src/hap/sign.rs:61-82 | after code signing there are exactly property, profile and signer, in this order |
| `Resign.CodeSignedFileLoads` | src/hap/code_sign.rs:261-374 | in the final file, the recorded offset leads to a sign info whose CMS signs the digest of the data size, root and tree position it names; nothing is asked of the zip crate |
| `Resign.CodeSignedFileAuthentic` | src/hap/code_sign.rs:261-374 | with a zip crate that writes what is requested, that data is a prefix of the final file every page of which the tree standing at the named offset authenticates |
| `Resign.ClearCommentIsUnambiguous` | src/hap/code_sign.rs:200-259 | what that asks of the comment holds of every clear comment of the input |
| `Resign.CodeSignedNativesAligned` | src/hap/code_sign.rs:344-366 | in the final file every native sign info starts at a multiple of four |
| `Resign.CodeSignedNativesGenuine` | src/hap/code_sign.rs:299-307 | in the final file there is exactly one loaded sign info for each native file of the aligned archive, in order, with the CMS of the fs-verity digest of its content |
| `Resign.EveryNativeIsSigned` | src/hap/code_sign.rs:299-307 | every file of the input with a name that starts with `libs/` or ends with `.an` has a loaded sign info with its name and the CMS of its content |
| `Resign.ResignKeepsCodeSignature` | src/hap/signing_block.rs:9-31 | re-signing a code-signed file keeps the generated property byte for byte at the same offset behind the same prefix, so it loads as before |
| `Identity.LoadSigningIdentity` | src/materials/mod.rs:33-75 | the loops against the specification: first matching certificate moved to the front, errors in order |
| `Identity.LoadedIdentity` | src/materials/mod.rs:44-68 | a loaded identity starts with a certificate of the P12's key and holds exactly the chain's certificates; it exists exactly if P12 and chain are readable and such a certificate is there |
| `Identity.IdentityExactly` | src/materials/mod.rs:33-75 | the whole outcome: alias and key of the P12; of the PEM blocks tagged `CERTIFICATE` the first with this key, and the others in order behind it; or the first of the three errors |
| `PendingKeys.StepKeepsRecoverable` | src/materials/manager.rs:207-353 | every allowed step keeps all pending records complete |
| `PendingKeys.RunKeepsRecoverable` | src/materials/manager.rs:207-353 | after every prefix of every run, each pending record has its P12 and a saved password that opens it |
| `PendingKeys.UploadedKeySurvives` | src/materials/manager.rs:308-353 | from an upload until the record is cleared, CSR, name, P12 and password are unchanged, every later upload for the team repeats CSR and name, and no key is generated for it |
| `PendingKeys.ClearedOnlyWithPair` | src/materials/manager.rs:308-353 | a record disappears only when the stored pair loads, and under the saved password if only one password opens that P12 |
| `PendingKeys.OnePendingPerTeam` | src/materials/manager.rs:208-218 | no team has two pending records, so that error is never raised |
| `PendingKeys.RefusedIdentifiers` | src/materials/store.rs:257-266 | an identifier is refused exactly if it is empty or has a byte that is no letter, no digit and none of `-`, `.` and `_` |
| `OverlappingAttempts.InterleavingExactly` | src/materials/manager.rs:207-353 | the guard of the protocol holds along a run exactly if it holds key by key, for the steps of each key taken alone |
| `OverlappingAttempts.DifferentKeysFollow` | src/materials/manager.rs:207-353 | two allowed runs about different keys, interleaved in any way, are allowed key by key and as a whole |
| `OverlappingAttempts.HarmlessExactly` | src/materials/manager.rs:207-353 | a step keeps every pending record complete exactly if it is harmless, a check on the step and the stored record alone |
| `OverlappingAttempts.AllowedIsHarmless` | src/materials/manager.rs:207-353 | every step the manager allows itself is harmless |
| `OverlappingAttempts.GuardIsStricter` | src/materials/manager.rs:313-318 | not the other way round: a key generated beside a pending record does no harm by itself |
| `OverlappingAttempts.AlwaysRecoverableExactly` | src/materials/manager.rs:207-353 | over any steps of any overlapping attempts, every prefix leaves all records complete exactly if every step is harmless when it is taken |
| `OverlappingAttempts.OverlappingRunsRecoverable` | src/materials/manager.rs:207-353 | a run whose steps are allowed key by key keeps every pending record complete |
| `OverlappingAttempts.OverlapSpoilsRecord` | src/materials/manager.rs:314-328 | two overlapping first attempts for one team, each allowed by itself, leave a record its P12 does not fit |
| `OverlappingAttempts.OverlappingAttemptsSpoil` | src/materials/manager.rs:314-328 | a concrete such run |
| `MaterialStore.ListingUnique` | src/materials/store.rs:198-219 | a listing sorted by P12 file does not depend on the order in which the directory is read |
| `MaterialStore.FileOrderIsNotStemOrder` | src/materials/store.rs:217 | the order of P12 files is not that of their stems: `a-b.p12` comes before `a.p12` |
| `MaterialStore.FileBeforeExactly` | src/materials/store.rs:217 | files are compared byte by byte with `.p12` behind the stem |
| `MaterialStore.ProblemsExactly` | src/materials/store.rs:141-180 | a record file is faulty exactly if its name is no identifier, it cannot be decoded, it carries another identifier or its P12 is missing, and the first of these is reported |
| `MaterialStore.Workspace.ListKeyPairs` | src/materials/store.rs:198-219 | the stems of all P12 files with a certificate beside them, in the order of the files |
| `MaterialStore.Workspace.ListPendingKeys` | src/materials/store.rs:141-180 | all pending records in the order of their P12 files; or a failure, which names the problem of a malformed, misnamed or orphaned record file |
| `MaterialStore.Workspace.SaveKeyPair` | src/materials/store.rs:96-110 | P12 first, certificate second; a failure leaves exactly the steps before it |
| `MaterialStore.Workspace.SavePendingKey` | src/materials/store.rs:112-139 | P12 first, record second; a failure leaves exactly the steps before it |
| `MaterialStore.Workspace.ClearPendingKey` | src/materials/store.rs:182-189 | removes exactly that record, or changes nothing |
| `MaterialManager.FindLocalMaterials` | src/materials/manager.rs:47-93 | the nested loops return the first fit over the listing in file order |
| `MaterialManager.FirstPasswordExact` | src/materials/manager.rs:70-90 | the first candidate that loads with a valid profile, or none does |
| `MaterialManager.FirstFitExact` | src/materials/manager.rs:63-92 | everything before the found pair and candidate does not fit; no result means that no combination fits |
| `MaterialManager.FitExactly` | src/materials/manager.rs:70-90 | what fits: a stored pair that loads and a profile valid for its leaf, this bundle, this device and this time |
| `MaterialManager.LocalExactly` | src/materials/manager.rs:47-93 | the search finds something exactly if a readable pair and an offered password fit the stored profile, and then the first pair in file order under its first password |
| `MaterialManager.ValidatePending` | src/materials/manager.rs:208-234 | the team's pending record is found whenever it exists, and its password is missed only if the saved one is not offered |
| `MaterialManager.GatherCandidates` | src/materials/manager.rs:236-266 | the readable local keys in listing order, the pending one narrowed down to its validated password or added last |
| `MaterialManager.CandidatesExact` | src/materials/manager.rs:236-266 | the candidates are exactly the readable listed keys and the pending one, each with the passwords it is tried with |
| `MaterialManager.CandidatesAre` | src/materials/manager.rs:236-266 | with their passwords and order: file order, and the pending key last if it is no readable pair |
| `MaterialManager.SelectCertificate` | src/materials/manager.rs:273-300 | the nested loops return the first remote fit |
| `MaterialManager.RemoteFitExact` | src/materials/manager.rs:273-300 | everything before the chosen certificate, key and password does not load; no choice means that nothing loads; it fails exactly at the first missing download |
| `MaterialManager.UsableExactly` | src/materials/manager.rs:274-280 | a certificate is considered exactly if its type is empty or `1` and it has an address and an id |
| `MaterialManager.DebugCountSteps` | src/materials/manager.rs:269-272 | the quota counts exactly the certificates of type `1` |
| `MaterialManager.EnsurePending` | src/materials/manager.rs:314-328 | the pending record is taken over unchanged, or created behind its password and P12 |
| `MaterialManager.CertifyPending` | src/materials/manager.rs:313-353 | at most one upload; a success leaves a stored pair that loads and no pending record |
| `MaterialManager.UploadPending` | src/materials/manager.rs:330-352 | uploads the pending CSR under its name; if nothing fails and this upload is answered with a certificate of the key, the pair is stored |
| `MaterialManager.PrepareMaterials` | src/materials/manager.rs:181-391 | if something stored fits, the first fit is returned, nothing is written and nothing asked of the service, whatever it would answer; otherwise the certificate used is the first of the service's list that a local key loads, and a CSR, the pending one or one under the requested name, is uploaded exactly when there is none and fewer than three debug certificates; the delivered profile is the one issued for that certificate and device; whatever the service answers and wherever a step fails, only allowed steps are taken; a success is stored, matching and valid; one upload at most, none with a full quota; progress: whatever earlier attempts left behind, an attempt in which nothing fails delivers, unless the quota is full, no key is pending and none can be generated, or the service fails a request the attempt did send |
| `MaterialManager.Obtain` | src/materials/manager.rs:308-391 | the changing half of an attempt: pair stored and record cleared before the profile is asked for; delivered are the used pair and the profile issued for it; if nothing fails it delivers, unless the upload of its own CSR or the profile for its own certificate is refused |
| `MaterialManager.ObtainProfile` | src/materials/manager.rs:355-391 | no key is generated and nothing uploaded; the delivered identity is the chosen one, its profile is stored and valid for its leaf |
| `MaterialManager.DeliveredIsFoundLocally` | src/materials/manager.rs:47-93 | delivered materials are found by a later local search, without the service |
| `DeliveredMaterials.ServiceNeedNotFail` | src/materials/manager.rs:268-391 | the requests of an attempt can all be answered while every profile is valid for one leaf only |
| `DeliveredMaterials.DeliveredIsSavedFit` | src/materials/manager.rs:383-390 | delivered under the saved password, the stored parts fit together |
| `DeliveredMaterials.SavedFitIsFound` | src/materials/manager.rs:47-93 | a search that may read such a pair and is offered its saved password succeeds |
| `DeliveredMaterials.UntouchedKeepsFit` | src/materials/manager.rs:207-391 | steps about other keys and profiles of other bundles keep a delivered pair usable |
| `DeliveredMaterials.AlwaysFitsExactly` | src/materials/manager.rs:207-391 | over any run a delivered pair stays usable after every step exactly if no step replaces a part of it by one that does not fit |
| `DeliveredMaterials.RegenerationLosesPair` | src/materials/manager.rs:318-327 | the first two steps of generating a new key are allowed beside a pair in use, and leave it under a password that does not open it |
| `DeliveredMaterials.FailedAttemptLosesPair` | src/materials/manager.rs:318-327 | a concrete such run |
| `MaterialManager.RunAttempts` | src/materials/manager.rs:181-391 | over any sequence of attempts, retries repeat the uploaded CSR and name until the record is cleared, and generate no key for that team |
| `RemoteLookup.UniqueCompleteDevice` | src/agc/client.rs:564-583 | the only complete match, none, or the number of matches |
| `RemoteLookup.DeviceMatchesMatch` | src/agc/client.rs:560-583 | the matches are exactly the complete records of that device |
| `RemoteLookup.CertificateMatchesMatch` | src/agc/client.rs:314-320 | the matches are exactly the complete certificates of that name |
| `RemoteLookup.PollExact` | src/agc/client.rs:239-259 | a lookup ends at the first received list with a match, and gives up only if none of five had one |
| `RemoteLookup.RegistrationOutcome` | src/agc/client.rs:191-260 | against any service: an add exactly if the first list arrives without any record of the device, six lists at most, and only complete records of that device, unique in the last list unless the add's own answer |
| `RemoteLookup.UploadOutcome` | src/agc/client.rs:277-341 | against any service: one add, five lists at most, and only complete certificates, unique by name in the last list unless the add's own answer; a duplicate name is looked up, a full quota is not |
| `RemoteLookup.RegistrationExactly` | src/agc/client.rs:191-260 | every case of a registration: the only complete record of the first list is returned without an add; an incomplete record, a duplicate and an answer for another device are looked up; a rejection and an empty answer are errors; what an accepted answer leaves out is filled in from the request |
| `RemoteLookup.UploadExactly` | src/agc/client.rs:277-341 | every case of an upload: a full quota before a duplicate, a duplicate and an incomplete answer looked up, any other rejection and an empty answer as errors |
| `RemoteLookup.DeviceLookupExactly` | src/agc/client.rs:239-259 | up to five lists; the first with a match decides, one match is the result and several are an error |
| `RemoteLookup.CertificateLookupExactly` | src/agc/client.rs:308-340 | the same for certificates |
| `RemoteLookup.CaseExactly` | src/agc/client.rs:564-583 | UDIDs are compared up to the case of ASCII letters |
| `RemoteLookup.DeviceMatchesSteps` | src/agc/client.rs:564-583 | every complete record of the device counts, equal ones too |
| `RemoteLookup.CertificateMatchesSteps` | src/agc/client.rs:314-320 | every complete certificate of the name counts |
| `RemoteLookup.AgcClient.RegisterDevice` | src/agc/client.rs:191-260 | result and number of requests are those of the specification |
| `RemoteLookup.AgcClient.UploadCsr` | src/agc/client.rs:277-341 | result and number of requests are those of the specification |
| `PemRedaction.ReplaceFirst` | src/agc/client.rs:697-706 | every pass strictly shortens the text; what it removes is stated by `PemRedaction.BlockDisappears` and `PemRedaction.UnfinishedDisappears` |
| `PemRedaction.RedactPemBlocks` | src/agc/client.rs:689-710 | the loops end and apply the four labels in order; what that does to a text is stated by `PemRedaction.BlockDisappears`, `PemRedaction.UnfinishedDisappears` and `PemRedaction.OneBlockRedacted` |
| `PemRedaction.SeamMakesNoMarker` | src/agc/client.rs:697-706 | inserting the placeholder creates no marker across its edges |
| `PemRedaction.NoMarkerSurvives` | src/agc/client.rs:689-710 | the result contains none of the four BEGIN markers; no later label brings an earlier one back |
| `PemRedaction.CleanTextUnchanged` | src/agc/client.rs:689-710 | text without markers is unchanged |
| `PemRedaction.BlockDisappears` | src/agc/client.rs:697-706 | a text with a block is redacted like the same text with the placeholder instead of the markers and everything between the first BEGIN and the first END behind it |
| `PemRedaction.UnfinishedDisappears` | src/agc/client.rs:697-706 | without an END everything from the BEGIN on becomes the placeholder |
| `PemRedaction.FourLabels` | src/agc/client.rs:691-696 | the four labels, in order |
| `PemRedaction.OneBlockRedacted` | src/agc/client.rs:689-710 | over all four labels, a text with one block of any of them loses exactly that block |
| `PemRedaction.PrivateKeyRedacted` | src/agc/client.rs:689-710 | a private key between `x` and `y` leaves `x<redacted-pem>y` |
| `GuiApp.AppState.Apply` | src/app/state.rs:81-129 | the new value of every field, for every event |
| `GuiApp.ResolveSelected` | src/app/gui.rs:791-805 | a single device is selected; otherwise the current one if listed, else the remembered one if listed, else none |
| `GuiApp.FindDevice` | src/app/gui.rs:799-805 | the first listed device of that UDID, or there is none |
| `GuiApp.HapResignerApp.HandleEvent` | src/app/gui.rs:165-190 | new fields and started scan |
| `GuiApp.HapResignerApp.RequestDeviceScan` | src/app/gui.rs:192-206 | new flags and started scan |
| `GuiApp.HapResignerApp.StartResign` | src/app/gui.rs:208-224 | new fields and started re-sign, or the missing device |
| `GuiApp.HapResignerApp.StartInstall` | src/app/gui.rs:239-255 | new flag and started installation |
| `GuiApp.HapResignerApp.Retry` | src/app/gui.rs:257-267 | starts the last file again, or reports the missing device |
| `GuiApp.HapResignerApp.ChooseDevice` | src/app/gui.rs:397-403 | remembers the choice and selects it if it is listed |
| `GuiRules.EventsExactly` | src/app/state.rs:81-129 | phase, error, process, devices, signed file and logs after every event |
| `GuiRules.ScanStartsExactly` | src/app/gui.rs:45-61 | a scan starts exactly if one is wanted (pending, menu opened or three seconds passed), none runs and no operation does; a wanted one waits for the running one; nothing else changes |
| `GuiRules.WaitingScanIsServed` | src/app/gui.rs:165-206 | the result of a scan starts the one that waits for it, unless an operation has begun |
| `GuiRules.ResignStartsExactly` | src/app/gui.rs:208-224 | a re-sign starts exactly if no operation runs and a device is selected, with that file and device |
| `GuiRules.InstallStartsExactly` | src/app/gui.rs:239-255 | an installation starts exactly once for a signed file, with what was delivered and the device of the re-sign |
| `GuiRules.RetryStartsExactly` | src/app/gui.rs:257-267 | the last file starts again under the same conditions |
| `GuiRules.ChoiceExactly` | src/app/gui.rs:397-403 | a chosen device is remembered, and selected if it is listed |
| `GuiRules.StartLeadsToInstalled` | src/app/gui.rs:208-255 | in a quiet application with a selected device, a start, the signed file and the end of its installation lead through exactly one installation on that device to the phase Done |
| `GuiProtocol.ScanFlags` | src/app/gui.rs:45-61 | a step starts a scan only when none runs, and clears the running flag only when one ends |
| `GuiProtocol.OneScanKept` | src/app/gui.rs:165-206 | every step keeps the running flag equal to the number of scans that are live or queued |
| `GuiProtocol.RunIsGood` | src/app/gui.rs:140-325 | the invariants hold in every state of every interleaving |
| `GuiProtocol.SingleDeviceScan` | src/app/gui.rs:165-206 | in every reachable state the running flag holds exactly if one scan is live or queued, never more; pending implies running; the selected device is listed |
| `GuiProtocol.InstallOncePerResign` | src/app/gui.rs:208-255 | installations started never exceed re-signs started; when the phase is ready everything an installation needs is present, so the fallback is unreachable |
| `GuiProtocol.OnTargetKept` | src/app/gui.rs:208-255 | no step but the start of a re-sign can make a file ready for another device than the target |
| `GuiProtocol.StartCanMisdirect` | src/app/gui.rs:208-224 | a start that is not safe has a continuation without further starts that, with all messages handled, makes a wrong installation due |
| `GuiProtocol.StartIsSafeExactly` | src/app/gui.rs:208-224 | in every reachable state, a start is followed by no wrong installation, whatever happens before the next start, exactly if all running re-signs are for its device and the last queued message that sets the phase is not a signature for another |
| `GuiProtocol.CarefulRunsHitTheirTarget` | src/app/gui.rs:208-255 | if every start of a run is safe, no installation is ever due on another device than its file was signed for |
| `GuiProtocol.InstallOnWrongDevice` | src/app/state.rs:70-75 | a run, with all phase messages of its workers, after which a file signed for one device is due for installation on another |

## Left out

- SHA-256, ECDSA, DER, X.509, PKCS#12, CMS and profile validation (`src/hap/cms.rs`,
  `src/materials/profile.rs`, `src/materials/generate.rs`): parameters of the model.
- The zip crate: its encoding, compression and the decoding of names and comments are parameters. Entries
  that cannot be opened and read errors inside an entry count as a failure to open the archive, and
  failures of single writes as a failure of the whole write.
- `MaterialStore.Workspace.ListPendingKeys`: a record file either decodes or is malformed; JSON itself and file
  names that are not UTF-8 are not modelled. Which of several faulty files is reported is left open, as the
  order of a directory is.
- `MaterialStore.Workspace.Perform`: the object takes one attempt at a time; attempts that overlap, which the
  application does not prevent, are treated as runs of steps in `OverlappingAttempts`. Which steps fail is arbitrary; a ghost flag records that one has.
- `MaterialManager.PrepareMaterials`: a P12 may be overwritten beside an older certificate of the same
  identifier, as in the source. The claim is that a mismatched pair is never returned.
- `PendingKeys.UploadedKeySurvives`: two teams whose identifiers coincide would share their files. The model
  takes the identifiers of the teams at hand to be distinct.
- `RemoteLookup.RegistrationOutcome`: a request that fails in any way (transport, status, undecodable
  body) is one kind of missing answer. Waiting times and the texts kept for error messages are not modelled.
- Message classifiers (duplicate names, quota): their verdict is part of an answer.
- HTTP, OAuth and the login callback, JSON decoding, previews other than PEM redaction.
- `OneEntryZip.ReadOne`: a reader for the concrete archives only; checksums are a parameter it does not look
  at.
- `GuiProtocol.Enabled`: workers may send their messages in any number and the frame's actions may come in
  any order, which includes what the program does. File dialogs count as a start with any path.
- Logs: only the entries the handlers add, with English texts.
- Rendering, fonts, storage of the selected device, `src/device/hdc.rs`, `src/cli.rs`, `src/hap/info.rs`.
- `src/app/workflow.rs`: only the order and alphabet of the workers' messages.
- Liveness of the GUI: that scans, re-signs and installations eventually end. What a handler starts, and what
  follows if the workers end, is in `GuiRules`.
