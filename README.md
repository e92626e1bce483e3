# MCStream container codec in Dafny

MCStream is a binary container for Minecraft builds. It stores blocks grouped
into 16 x 16 chunk columns. A file is laid out as follows:

- a 20-byte header: the magic `MCSTRM\0\0`, the big-endian version `0x0100`,
  the compression id, a flags byte, the little-endian offset of the index
  table, and four reserved bytes;
- a chunk index: a u32 count, then one 16-byte entry per chunk (its
  coordinate, the offset of its payload and the payload's length);
- the chunk payloads, back to back, each compressed with the file's
  algorithm;
- optionally, a signature that runs to the end of the file.

A chunk payload holds the chunk's palette (u16 count, u16-length-prefixed
identifiers, no air), a u32 block count, one 7-byte record per block, a u32
count of blocks with NBT metadata, and those blobs, length-prefixed, in block
order.

This project models, over in-memory byte images:

- the coordinate mapping;
- the header, palette, chunk-payload and index codecs;
- the compression adapter;
- the encoder `McsEncoder`. It collects blocks into a chunk map and writes the
  file in two passes: first placeholders, then the real offsets patched in.
- the decoder `McsDecoder::from_file`. It runs its checks in order, decodes
  every index entry's byte range and extracts the trailing signature.
- the small validators: the 4 GiB file-size bound, the length-prefixed
  signature codec and the NBT root-tag sniffer.

The codec is proved to round-trip at every level: field, entry, palette,
chunk, index, header and whole file. The whole-file result is
`RoundTrip.EncodedFileDecodes`: decoding what `write_to_writer` produces gives
back the encoder's chunk map, header and signature.

## Structure

- **Bytes and streams.**
  - `bytes.dfy`: fixed-width integers, little- and big-endian encodings,
    well-formed UTF-8 and the air-marker test.
  - `errors.dfy`: the `McStreamError` variants and `Result`/`Option`.
  - `streams.dfy`: the reader and writer the source uses through `Read`,
    `Write` and `Seek`. They are classes over a byte sequence plus a cursor:
    `Source` reads and `Sink` writes in place. Byte-level specification
    functions sit beside them, and each parse function says what a read at a
    position yields.
- **Types and small codecs.**
  - `types.dfy`: the value types and the coordinate mapping.
  - `compression.dfy`: the algorithm ids and the pass-through arm. The foreign
    codecs are supplied as a `Library` parameter.
  - `header.dfy`, `palette.dfy`, `chunk.dfy`, `utils.dfy` and `nbt.dfy`: one
    module per source file.
  - Each stateful operation is a method over `Sink`/`Source`, proved against a
    function on byte sequences. The round-trip lemmas are stated about those
    functions.
- **Encoder and decoder.**
  - `packer.dfy`: the encoder state as a class with the Rust fields. Each
    mutating method is specified by a function on the chunk map.
  - `unpacker.dfy`: `from_file` as a method over the file image. It is proved
    equal to the function `DecodeFile`.
  - `roundtrip.dfy`: the encoder and the decoder together.

`HashMap` iteration order is not fixed. The encoder therefore takes a visiting
order `order`, any sequence that lists every key of the map exactly once
(`Enumerates`). Every result about written files holds for every such order.

Two `as` casts of the source are modelled explicitly:

- `as u16` of `y + 64` keeps the low 16 bits (`AsU16`);
- the u32 additions `data_offset + compressed_size` and `current_offset +=`
  wrap modulo 2^32 (`AsU32`), as in a release build.

Two places where the source's own text says more than its code does; the model follows the code:

- The `FileTooLarge` message speaks of a 4GB limit (src/error.rs:33), and so does the comment on `validate_file_size` (src/utils.rs:35). The test itself is `size > 0xFFFFFFFF` (src/utils.rs:39), so a file of exactly 4 GiB is already refused.
- The flags byte is documented as announcing a signature, but nothing checks what follows the last chunk when flag bit 0 is clear. Those bytes are silently ignored: neither refused nor kept (src/unpacker.rs:124-132, `Unpacker.TrailingSignature`).

The whole-file round trip needs a file of at most `0xFFFFFFFF` bytes. The
decoder itself refuses larger images, and in such files no sum wraps.

## Model

| member | source | states |
|---|---|---|
| Types.ChunkPosOf | src/types.rs:17-22 | the chunk coordinate c satisfies 16c <= x < 16c + 16 on x and on z, so the shift is floor division (x = -1 lies in chunk -1) |
| Types.LocalPosOf | src/types.rs:25-31 | local x and z lie in 0..=15, and chunk * 16 + local gives back the global x and z for every i32 |
| Types.ActualY | src/types.rs:61-63 | the rebuilt height lies in -64 .. 65471 |
| Types.LocalYRoundTrip | src/types.rs:25-63 | for heights -64..=319 the stored height is at most 383 and `actual_y` returns the original height |
| Types.StoredYIsTruncated | src/types.rs:28 | the stored height is y + 64 modulo 2^16, and equals y + 64 whenever that fits in a u16 |
| Types.GlobalPosRoundTrip | src/types.rs:17-63 | chunk and local position together give back the global position over the supported heights |
| Compression.CompressionId | src/lib.rs:25-30 | the discriminant of each algorithm is at most 3 |
| Compression.CompressionTypeFromU8 | src/compression.rs:83-90 | succeeds exactly for 0..=3, yields the algorithm whose id is the byte, and otherwise fails with `UnsupportedCompression(value)` |
| Compression.CompressionIdRoundTrip | src/compression.rs:83-90 | `compression_type_from_u8(t as u8) == Ok(t)` for every algorithm |
| Compression.CompressData | src/compression.rs:9-14 | the pass-through algorithm returns the data unchanged |
| Compression.DecompressData | src/compression.rs:49-54 | the pass-through algorithm returns the data unchanged |
| Compression.CompressRoundTrip | src/compression.rs:9-80 | decompressing what was compressed restores the data: always for pass-through, and for the library algorithms when the library is lossless |
| Header.Flags | src/header.rs:11-12 | definition: bit 0 set exactly when a signature is announced; properties in Header.HeaderBytes and Header.HeaderRoundTrip |
| Header.HeaderBytes | src/header.rs:6-21 | 20 bytes: magic, `01 00`, compression id, flag byte, the offset in LE at 12..16, zero reserved bytes |
| Header.HeaderEncoding | src/header.rs:6-21 | what `write_header` emits: 20 bytes, magic, version `01 00`, id, flags 1 or 0 by signature, zero offset and zero reserved bytes |
| Header.WriteHeader | src/header.rs:6-21 | the writer's bytes at the cursor become the header encoding and the cursor advances by 20 |
| Header.ParseHeader | src/header.rs:24-54 | a wrong magic gives `InvalidMagic` before any other check, then a wrong version gives `UnsupportedVersion(v)`, then an id above 3 gives `UnsupportedCompression(id)`; success exactly when all three pass and 20 bytes are present, keeping flags and offset as read and dropping the reserved bytes |
| Header.ReadHeader | src/header.rs:24-54 | reading from the cursor yields what `ParseHeader` specifies and leaves the cursor after it |
| Header.HeaderRoundTrip | src/header.rs:6-54 | a written header reads back as version 0x0100, the algorithm's id, the signature flag and the offset written |
| Header.UpdateIndexTableOffset | src/header.rs:57-60 | bytes 12..16 are overwritten with the offset in LE and nothing else changes |
| Header.PatchIndexOffset | src/header.rs:57-60 | patching changes only bytes 12..16, and reading back yields the new offset with every other field as before |
| Header.PatchedHeader | src/packer.rs:143-150 | patching the placeholder offset of a fresh header gives the header with that offset |
| Palette.ValidatePalette | src/palette.rs:7-13 | fails, with `AirInPalette`, exactly when some entry contains "minecraft:air" |
| Palette.EncodePalette | src/palette.rs:16-43 | air is refused before anything else, then more than 65535 entries, then an over-long entry; on success the bytes are the u16 count followed by the length-prefixed entries, `2 + sum(2 + len)` bytes |
| Palette.WritePalette | src/palette.rs:16-43 | the result is that of `EncodePalette`, and the writer holds exactly the bytes emitted before any refusal |
| Palette.WriteEntries | src/palette.rs:29-40 | the loop writes entries up to the first over-long one and stops there |
| Palette.WriteEntry | src/palette.rs:35-39 | one entry is its u16 LE length followed by its bytes |
| Palette.EntriesSize | src/palette.rs:26-40 | the entries take `sum(2 + len)` bytes |
| Palette.FirstTooLong | src/palette.rs:29-33 | the position of the first entry longer than 65535 bytes, or the length when there is none |
| Palette.ParseEntry | src/palette.rs:53-69 | a length and that many bytes; too few bytes give `Io`, non-UTF-8 bytes give `PaletteError`, air-marked ones give `AirInPalette`, otherwise the entry and the position after it |
| Palette.ParsePalette | src/palette.rs:46-73 | a decoded palette never contains air |
| Palette.ReadPalette | src/palette.rs:46-73 | reading from the cursor yields what `ParsePalette` specifies |
| Palette.ReadEntry | src/palette.rs:53-69 | one loop step yields what `ParseEntry` specifies |
| Palette.ReadEntries | src/palette.rs:51-70 | the loop yields the entries in order and stops at the first failure |
| Palette.EntryRoundTrip | src/palette.rs:29-69 | a written entry reads back and consumes `2 + len` bytes |
| Palette.EntriesReadable | src/palette.rs:29-69 | every storable entry reads back from wherever it was written |
| Palette.EntriesRoundTrip | src/palette.rs:29-70 | the written entries read back in order |
| Palette.PaletteRoundTrip | src/palette.rs:16-73 | `read_palette(write_palette(p)) == p` for an air-free palette within bounds, consuming exactly the bytes written |
| Palette.Dedup | src/palette.rs:76-92 | the deduplicated list has no duplicates and holds exactly the non-air identifiers of the input |
| Palette.DedupFirstSeen | src/palette.rs:80-92 | the deduplicated list lists identifiers in the order of their first occurrence in the input |
| Palette.IndexLookup | src/palette.rs:86-91 | a map that sends each list element to its position satisfies `list[map[id]] == id` for every key |
| Palette.CreatePalette | src/palette.rs:76-99 | fails with `PaletteError` exactly when there are more than 65535 distinct non-air ids; otherwise the list is the first-seen deduplication, the map's keys are its elements, and `list[map[id]] == id` |
| Chunk.ValidateLocalPos | src/chunk.rs:12-17 | fails with `CoordinateOutOfRange` exactly when x > 15, z > 15 or y > 383 |
| Chunk.HeightWrapPassesGuard | src/packer.rs:59-65 | y = 65472 wraps to the stored height 0, passes the range check and reads back as -64 |
| Chunk.IndexEntryBytes | src/chunk.rs:27-30 | one index entry takes 16 bytes |
| Chunk.IndexEntriesBytes | src/chunk.rs:26-31 | n entries take 16n bytes |
| Chunk.IndexLayout | src/chunk.rs:20-34 | the index takes `4 + 16n` bytes, depending only on n, with entry i at `4 + 16i` |
| Chunk.IndexEncoding | src/chunk.rs:20-34 | definition: the u32 entry count then the entries back to back; properties in Chunk.IndexLayout and Chunk.IndexRoundTrip |
| Chunk.WriteChunkIndex | src/chunk.rs:20-34 | the writer's bytes at the cursor become the index encoding and the cursor advances by `4 + 16n` |
| Chunk.WriteIndexEntries | src/chunk.rs:26-31 | the loop writes the entries back to back |
| Chunk.WriteIndexEntry | src/chunk.rs:27-30 | x, z as i32 LE, then offset and size as u32 LE |
| Chunk.ParseIndexEntry | src/chunk.rs:42-47 | succeeds exactly when 16 bytes remain, else `Io` |
| Chunk.ParseIndexEntries | src/chunk.rs:41-48 | n entries read exactly when `16n` bytes remain, consuming them |
| Chunk.ParseChunkIndex | src/chunk.rs:37-51 | a decoded index of n entries consumes `4 + 16n` bytes |
| Chunk.ReadChunkIndex | src/chunk.rs:37-51 | reading from the cursor yields what `ParseChunkIndex` specifies |
| Chunk.ReadIndexEntry | src/chunk.rs:42-47 | one loop step yields what `ParseIndexEntry` specifies |
| Chunk.ReadIndexEntries | src/chunk.rs:40-48 | the loop yields what `ParseIndexEntries` specifies |
| Chunk.IndexEntryRoundTrip | src/chunk.rs:27-47 | a written entry reads back unchanged |
| Chunk.IndexEntriesReadable | src/chunk.rs:27-47 | every entry reads back from wherever it was written |
| Chunk.IndexEntriesRoundTrip | src/chunk.rs:26-48 | written entries read back in order |
| Chunk.IndexRoundTrip | src/chunk.rs:20-51 | `read_chunk_index(write_chunk_index(es)) == es` when the count fits a u32 |
| Chunk.FlagByte | src/chunk.rs:71 | definition: 0x01 exactly when the block carries NBT, else 0x00; properties in Chunk.RecordLayout and Chunk.RecordRoundTrip |
| Chunk.RecordBytes | src/chunk.rs:67-71 | a block record takes 7 bytes |
| Chunk.RecordsBytes | src/chunk.rs:66-72 | n records take 7n bytes |
| Chunk.RecordLayout | src/chunk.rs:67-71 | a record is the u16 LE palette index, x, the u16 LE y, z, then a flag byte with bit 0 set exactly when NBT is present |
| Chunk.FlaggedIndices | src/chunk.rs:60-64 | lists positions of blocks carrying NBT, each in range |
| Chunk.FlaggedIndicesComplete | src/chunk.rs:60-64 | the flagged positions are increasing and include every block with NBT |
| Chunk.FlaggedIndicesAppend | src/chunk.rs:112-114 | appending a block adds its position exactly when it carries NBT |
| Chunk.FlaggedIndicesSameFlags | src/chunk.rs:103-114 | blocks with the same NBT presence have the same flagged positions |
| Chunk.NbtBlobs | src/chunk.rs:74-81 | one blob per flagged block, so the count written equals the number of flagged records |
| Chunk.BlobBytes | src/chunk.rs:78-79 | a blob is its length in 4 bytes followed by its bytes |
| Chunk.BlobsBytes | src/chunk.rs:76-81 | the blobs back to back, of total size `sum(4 + len)` |
| Chunk.BlobsLength | src/chunk.rs:76-81 | the blob section takes `sum(4 + len)` bytes |
| Chunk.ChunkEncoding | src/chunk.rs:54-84 | serialisation fails exactly when, and with the error that, the palette encoding fails |
| Chunk.BlocksBytes | src/chunk.rs:58-81 | definition: block count, records, NBT count, blobs; properties in Chunk.BlocksParts and Chunk.BlocksRoundTrip |
| Chunk.PayloadLayout | src/chunk.rs:54-84 | the payload is the palette, the u32 block count, record i at `p + 4 + 7i` with its fields and flag bit, the u32 NBT count, then the blobs |
| Chunk.PayloadFrame | src/chunk.rs:54-84 | the palette, block count, NBT count and blob section lie at their offsets |
| Chunk.RecordIn | src/chunk.rs:66-72 | record i lies at `p + 4 + 7i` within the payload |
| Chunk.SerializeChunk | src/chunk.rs:54-84 | the buffer built equals `ChunkEncoding(c)` |
| Chunk.WriteRecord | src/chunk.rs:67-71 | one record is written at the cursor, which advances by 7 |
| Chunk.WriteRecords | src/chunk.rs:66-72 | the records are written back to back |
| Chunk.WriteBlob | src/chunk.rs:78-79 | the length and the bytes are written at the cursor |
| Chunk.WriteBlobs | src/chunk.rs:76-81 | the blobs of the flagged blocks are written in block order |
| Chunk.ParseRecord | src/chunk.rs:97-110 | succeeds exactly when 7 bytes remain, and only bit 0 of the flag byte decides the NBT placeholder |
| Chunk.ParseRecords | src/chunk.rs:96-115 | n records read exactly when 7n bytes remain |
| Chunk.ParseBlob | src/chunk.rs:126-128 | a blob consumes its 4-byte length plus that many bytes |
| Chunk.ParseBlobs | src/chunk.rs:125-133 | n blobs read in order, or `Io` |
| Chunk.Patch | src/chunk.rs:130-132 | only block i receives the data |
| Chunk.PatchAll | src/chunk.rs:125-133 | patching keeps the number of blocks |
| Chunk.PatchAllStep | src/chunk.rs:125-133 | the patch loop's step attaches the next blob to the next flagged block |
| Chunk.PatchAllAssigns | src/chunk.rs:125-133 | blob k goes to the k-th flagged block and the other blocks are unchanged |
| Chunk.ParseNbt | src/chunk.rs:117-133 | keeps the number of blocks; the only failures are `Io` and `NbtError(CountMismatch)` |
| Chunk.NbtCountChecked | src/chunk.rs:117-123 | a count differing from the number of flagged records fails with `NbtError(CountMismatch)` before any blob is read |
| Chunk.ParseNbtAssigns | src/chunk.rs:103-133 | the blobs read go in order to the flagged blocks; unflagged blocks keep their records |
| Chunk.CountMismatchRefused | src/chunk.rs:117-123 | a payload whose NBT count differs from the flagged records fails with `NbtError` |
| Chunk.ParseBlocks | src/chunk.rs:91-133 | a block list that decodes has at most `0xFFFFFFFF` blocks |
| Chunk.ParseChunk | src/chunk.rs:87-140 | a decoded chunk is at the given position and has an air-free palette |
| Chunk.DeserializeChunk | src/chunk.rs:87-140 | reading over a cursor yields `ParseChunk` |
| Chunk.ReadRecord | src/chunk.rs:97-110 | one loop step yields what `ParseRecord` specifies |
| Chunk.ReadRecords | src/chunk.rs:93-115 | the loop yields `ParseRecords` and the flagged positions of the records read |
| Chunk.NoteFlagged | src/chunk.rs:112-114 | the list of flagged positions after one more record |
| Chunk.ReadBlob | src/chunk.rs:126-128 | one blob read yields what `ParseBlob` specifies |
| Chunk.ReadBlobs | src/chunk.rs:125-133 | the blob loop yields the blocks patched with the blobs of `ParseBlobs`, or its error |
| Chunk.Stubs | src/chunk.rs:106-110 | blocks as the record loop builds them, with empty NBT where flagged |
| Chunk.RecordRoundTrip | src/chunk.rs:66-110 | a written record reads back as the block with an empty NBT placeholder when flagged |
| Chunk.RecordsReadable | src/chunk.rs:66-110 | every record reads back from wherever it was written |
| Chunk.RecordsRoundTrip | src/chunk.rs:66-115 | written records read back in order |
| Chunk.BlobRoundTrip | src/chunk.rs:76-128 | a written blob reads back |
| Chunk.BlobsReadable | src/chunk.rs:76-128 | every blob within the u32 bound reads back from wherever it was written |
| Chunk.BlobsRoundTrip | src/chunk.rs:76-133 | written blobs read back in order |
| Chunk.PatchRestores | src/chunk.rs:103-133 | patching the flagged placeholders with the NBT blobs gives back the original blocks |
| Chunk.ChunkParts | src/chunk.rs:54-84 | where each part of the payload lies and its total length |
| Chunk.BlocksParts | src/chunk.rs:58-81 | where each part after the palette lies |
| Chunk.BlocksRoundTrip | src/chunk.rs:58-133 | the block part reads back as the blocks |
| Chunk.NbtPartRoundTrip | src/chunk.rs:74-133 | the NBT count and blobs read back and restore the blocks' NBT |
| Chunk.NbtRoundTrip | src/chunk.rs:76-133 | the blobs of the flagged blocks read back |
| Chunk.ChunkRoundTrip | src/chunk.rs:54-140 | `deserialize_chunk(serialize_chunk(c), c.pos) == c` for a sound palette, at most 2^32 - 1 blocks and NBT blobs within the u32 bound |
| Chunk.ReadsChunk | src/chunk.rs:87-140 | a palette followed by the block part decodes as the chunk |
| Chunk.CompressChunk | src/chunk.rs:143-148 | a serialisation error propagates; pass-through compression gives the payload itself |
| Chunk.DecompressChunk | src/chunk.rs:151-158 | an id above 3 fails with `UnsupportedCompression` before any decompression; id 0 gives `ParseChunk` |
| Chunk.CompressedChunkRoundTrip | src/chunk.rs:143-158 | a compressed chunk decompresses back to itself |
| Utils.ValidateFileSize | src/utils.rs:36-46 | fails with `FileTooLarge` exactly when the image exceeds `0xFFFFFFFF` bytes, and on success leaves the position at 0 |
| Utils.SignatureEncoding | src/utils.rs:58-69 | fails with `ValidationError` exactly above 65535 bytes; otherwise the u16 LE length then the bytes |
| Utils.WriteSignature | src/utils.rs:58-69 | the writer is unchanged on refusal and otherwise holds the encoding at the cursor |
| Utils.ParseSignature | src/utils.rs:49-55 | a read signature consumes `2 + len` bytes; the only failure is `Io` |
| Utils.ReadSignature | src/utils.rs:49-55 | reading from the cursor yields what `ParseSignature` specifies |
| Utils.SignatureRoundTrip | src/utils.rs:49-69 | `read_signature(write_signature(s)) == s`, consuming `2 + len` bytes |
| Nbt.TagValue | src/nbt.rs:24-38 | each tag's discriminant is at most 12 |
| Nbt.ValidateNbt | src/nbt.rs:8-19 | empty data is accepted; otherwise success exactly when the first byte is at most 12, else `NbtError` |
| Nbt.TagFromU8 | src/nbt.rs:40-63 | succeeds exactly for 0..=12 with `tag as u8 == v` |
| Nbt.TagRoundTrip | src/nbt.rs:24-63 | `try_from(tag as u8) == Ok(tag)` for every tag |
| Nbt.GetNbtRootType | src/nbt.rs:67-73 | empty data fails with `NbtError`; otherwise success exactly when `validate_nbt` succeeds, with the tag of the first byte |
| Packer.FindEntry | src/packer.rs:73 | the linear scan finds the first palette position holding the id, or none when it is absent |
| Packer.ChunkAt | src/packer.rs:67-71 | the stored chunk, or an empty chunk at that position |
| Packer.WithBlock | src/packer.rs:73-85 | definition: the first palette position equal to the id, or the id appended and its new position, cast to u16, then the block pushed; properties in Packer.AddBlockPlacement and Packer.AddBlockPalette |
| Packer.BlockAdded | src/packer.rs:42-88 | air is skipped with the map unchanged; an out-of-range local position fails with `CoordinateOutOfRange`; nothing else fails |
| Packer.AddBlockPlacement | src/packer.rs:54-85 | the block is appended to chunk `(x >> 4, z >> 4)`, created when missing, with its NBT and a local position that gives back x, z and y over the supported heights; the other chunks are unchanged |
| Packer.AddBlockPalette | src/packer.rs:73-79 | the palette gains the id only when missing, stays duplicate-free and air-free, and every block's index is below the palette length; the new block's index names the id while the palette fits u16 indices |
| Packer.AddBlockWellKeyed | src/packer.rs:54-85 | adding a block keeps every chunk under its own coordinate with only in-range positions |
| Packer.BlocksAdded | src/packer.rs:91-101 | any failure is `CoordinateOutOfRange`; air positions change nothing |
| Packer.BlocksAddedSplit | src/packer.rs:97-100 | adding in order is `add_block` one at a time; the first error stops and earlier insertions remain |
| Packer.BlocksAddedWellKeyed | src/packer.rs:91-101 | adding blocks keeps the map well keyed |
| Packer.Payloads | src/packer.rs:159-168 | one payload per visited chunk |
| Packer.PayloadsAre | src/packer.rs:159-168 | the payloads exist exactly when every chunk compresses, and payload i is that of chunk i |
| Packer.PayloadsFirstError | src/packer.rs:159-168 | a failure is the error of the first chunk that fails, all before it having compressed |
| Packer.EncodedFile | src/packer.rs:134-200 | fails exactly with no chunks (`ValidationError`) or when a chunk fails to compress |
| Packer.EncodedFileIs | src/packer.rs:134-200 | the file is the header with offset 20, the final index, the payloads in visiting order, and the signature last when present |
| Packer.WrappingAdd | src/packer.rs:184 | the wrapping u32 running offset equals the wrapped sum of the lengths |
| Packer.WritePatchedHeader | src/packer.rs:143-150 | the header is written and its offset field set to 20 |
| Packer.Placeholders | src/packer.rs:159-168 | definition: one entry per visited chunk with its coordinate, offset 0 and the payload length as u32; properties in Packer.McsEncoder.CompressAll |
| Packer.Placed | src/packer.rs:174-185 | definition: entry i gets `base` plus the lengths of the earlier payloads, wrapped to u32; properties in Packer.PlacePayloads and RoundTrip.IndexEntryIs |
| Packer.IndexFor | src/packer.rs:159-189 | definition: the placeholders placed from the first byte after the index; properties in RoundTrip.IndexEntryIs, RoundTrip.NextEntryStarts and RoundTrip.IndexDecodes |
| Packer.Trailer | src/packer.rs:195-197 | definition: the signature when the flag is set and one is held, else nothing; properties in RoundTrip.ExpectedSignature and RoundTrip.SignatureDecodes |
| Packer.PlacePayloads | src/packer.rs:174-185 | the payloads are appended and entry i records the u32 position of payload i |
| Packer.WriteIndexAndPayloads | src/packer.rs:171-189 | the index, rewritten over the placeholders, is followed by the payloads |
| Packer.McsEncoder.constructor | src/packer.rs:25-32 | a new encoder has the algorithm, no chunks and no signature |
| Packer.McsEncoder.WithSignature | src/packer.rs:35-39 | the flag is set and the signature held; the chunks are unchanged |
| Packer.McsEncoder.AddBlock | src/packer.rs:42-88 | the chunk map becomes `BlockAdded` of the old one, or is unchanged on error; the signature is untouched |
| Packer.McsEncoder.AddBlocks | src/packer.rs:91-101 | map and result are those of `BlocksAdded` |
| Packer.McsEncoder.AddChunk | src/packer.rs:104-110 | succeeds exactly when every block position is in range, replacing any chunk at that position; on error the map is unchanged |
| Packer.McsEncoder.GetChunks | src/packer.rs:203-205 | the map returned is well keyed |
| Packer.McsEncoder.WriteToWriter | src/packer.rs:134-200 | an empty map fails with `ValidationError` before writing; otherwise the writer holds exactly `EncodedFile`, or only the header when a chunk fails to compress |
| Packer.McsEncoder.CompressAll | src/packer.rs:156-168 | the loop yields the payloads in visiting order with placeholder entries, or the first error |
| Packer.McsEncoder.Clear | src/packer.rs:208-210 | the map is emptied and the signature kept |
| Unpacker.EntryEnd | src/unpacker.rs:63 | definition: `data_offset + compressed_size` wrapped to u32, also used at src/unpacker.rs:99-101; properties in Unpacker.CheckRanges and Unpacker.MaxEnd |
| Unpacker.CheckRanges | src/unpacker.rs:62-70 | passes exactly when every entry's wrapped u32 end is within the file; otherwise reports the first entry that is not |
| Unpacker.CheckEntryRanges | src/unpacker.rs:62-70 | the loop yields `CheckRanges` |
| Unpacker.DecodeEntry | src/unpacker.rs:76-92 | definition: the `compressed_size` bytes from `data_offset`, or `Io` past the end, decoded at the entry's coordinate; properties in Unpacker.DecodeAllLastWins |
| Unpacker.DecodeAll | src/unpacker.rs:74-96 | definition: the entries decoded in index order into a map, stopping at the first error; properties in Unpacker.DecodeAllOk, Unpacker.DecodeAllKeys, Unpacker.DecodeAllLastWins and Unpacker.DecodeAllFirstError |
| Unpacker.DecodeAllOk | src/unpacker.rs:74-96 | the collection succeeds exactly when every entry decodes |
| Unpacker.DecodeAllKeys | src/unpacker.rs:74-96 | the map's keys are exactly the entries' coordinates |
| Unpacker.DecodeAllLastWins | src/unpacker.rs:74-96 | each coordinate's value is the decoding of exactly bytes `[offset, offset + size)` of the last entry naming it |
| Unpacker.DecodeAllFirstError | src/unpacker.rs:74-96 | a failure is the error of the first failing entry in index order |
| Unpacker.ReadChunks | src/unpacker.rs:74-96 | the sequential fold yields `DecodeAll` |
| Unpacker.MaxEnd | src/unpacker.rs:99-101 | the largest entry end, attained by some entry |
| Unpacker.TrailingSignature | src/unpacker.rs:112-135 | a signature exactly when bytes follow the footer and flag bit 0 is set, and then it is all of them |
| Unpacker.DecodeFile | src/unpacker.rs:27-153 | a file under 20 bytes fails with `ValidationError`, one above `0xFFFFFFFF` bytes with `FileTooLarge` |
| Unpacker.DecodeFileChecks | src/unpacker.rs:31-70 | header errors propagate; then an index offset not below the size fails with `ValidationError`, an unreadable index with its error, an empty index with `ChunkIndexError`, and an out-of-range entry with `ValidationError` before any chunk is decoded |
| Unpacker.FromFile | src/unpacker.rs:27-153 | the method over a reader yields `DecodeFile` |
| Unpacker.DecodeFileOk | src/unpacker.rs:27-153 | success exactly when the size, header, offset, index, non-empty and range checks pass and every entry decodes; the footer check adds nothing |
| Unpacker.DecodedFile | src/unpacker.rs:27-153 | a decoded file has the parsed header, the map collected from the entries, and the bytes after the largest entry end as signature |
| Unpacker.GetChunk | src/unpacker.rs:161-163 | the chunk stored at `(x, z)`, or none |
| Unpacker.DecodedChunkAt | src/unpacker.rs:74-163 | `get_chunk(x, z)` is present exactly when some entry names `(x, z)`, and is the decoding of the last such entry's bytes |
| Unpacker.CompressionTypeOf | src/unpacker.rs:191-199 | the algorithm of the header id, or pass-through for an id above 3 |
| Unpacker.DecodedCompressionType | src/unpacker.rs:191-199 | for a decoded file it is `compression_type_from_u8` of the header id |
| Unpacker.McsIndex | src/unpacker.rs:203-215 | failures are header errors or `Io` |
| Unpacker.ReadMcsIndex | src/unpacker.rs:203-215 | the method yields `McsIndex` |
| Unpacker.IndexListsDecodedChunks | src/unpacker.rs:203-215 | for a decodable file the bare index lists exactly the coordinates of the decoded chunks |
| RoundTrip.EncodedFileLayout | src/packer.rs:143-197 | header with offset 20 at [0, 20), index at [20, 24 + 16n), payload i at the offset and length entry i records, contiguous, following the index, and the signature last |
| RoundTrip.IndexEntryIs | src/packer.rs:156-185 | entry i names the chunk's coordinate, offset `24 + 16n + sum of earlier sizes` and its size |
| RoundTrip.NextEntryStarts | src/packer.rs:174-185 | each payload starts where the previous one ends |
| RoundTrip.ExpectedSignature | src/packer.rs:195-197 | what the decoder should report: the appended bytes exactly when some were appended |
| RoundTrip.CodecInverts | src/chunk.rs:143-158 | decompressing a compressed chunk restores it at its coordinate |
| RoundTrip.IndexDecodes | src/unpacker.rs:74-96 | the entries of a written index decode to exactly the encoder's map |
| RoundTrip.IndexRanges | src/unpacker.rs:99-109 | every written entry ends within the payload area and the largest end is its end |
| RoundTrip.HeaderDecodes | src/unpacker.rs:41 | a written header reads back with offset 20 |
| RoundTrip.SignatureDecodes | src/unpacker.rs:112-135 | the bytes after the payloads are read as the signature that was appended |
| RoundTrip.EncodedFileDecodes | src/packer.rs:134-200 | decoding a written file gives the encoder's chunk map, a header with version 0x0100, the id, the flag and offset 20, and the appended signature |
| RoundTrip.WrittenChunksReadBack | src/unpacker.rs:27-163 | after writing and decoding, `get_chunk(x, z)` returns the encoder's chunk at `(x, z)` and `compression_type` the encoder's algorithm |

## Left out

- src/main.rs and the examples: a CLI with JSON import/export and printing. They only call `add_block`, `write_to_file` and `from_file`.
- The Zstandard, LZ4 and Brotli arms of `compress_data` and `decompress_data` (RFC 8878; LZ4 frame format; RFC 7932). They are calls into foreign libraries. They form the `Library` parameter, and their losslessness is the hypothesis `Lawful` of the round-trip lemmas. The Brotli tuning constants (src/compression.rs:4-6) have no effect visible without the library.
- SHA-256: `calculate_sha256`, `calculate_file_hash`, `verify_file_hash`, the `data_hash` field and accessor, and the hashing inside `from_file`. They are a foreign algorithm, so `McsDecoder` keeps no hash.
- `to_mcs_data`, `header` and `signature`. These are accessors that copy fields of the decoded value; the fields themselves are modelled.
- `write_to_file`: directory creation, deletion of an existing file, exclusive creation and `BufWriter`, which are filesystem plumbing. `write_to_writer` is modelled over an in-memory writer starting empty.
- I/O failures of the writer and of re-opening the file. A writer never fails, and every `File::open` of the path is a fresh reader over the same image. A read past the end fails with `Io`.
- The rayon `par_iter` in `from_file`. It becomes a sequential fold in index order that stops at the first failing entry. The source reports some failing entry; here it is always the first.
- The LZ4 arm of `compress_data` (src/compression.rs:26-28) writes through an `lz4::Encoder` and drops it without calling `finish()`. The Zstandard arm calls `finish()` (src/compression.rs:20) and the Brotli arm flushes and drops its writer (src/compression.rs:41-42). In the lz4 crate only `finish()` writes the end of the frame and any data still buffered, so the LZ4 output as written is probably not a complete frame. For LZ4, then, `Lawful` is an assumption about the code and not a property of it, and so are the LZ4 cases of Compression.CompressRoundTrip, Chunk.CompressedChunkRoundTrip, RoundTrip.CodecInverts and RoundTrip.EncodedFileDecodes. The lz4 crate is not part of this model, so no concrete failing input can be given.
- Allocation before reading. `read_chunk_index` reserves `entry_count` entries (src/chunk.rs:40) and `deserialize_chunk` reserves `block_count` blocks (src/chunk.rs:94) before reading any of them. A count such as 0xFFFFFFFF asks for tens of GiB, and where the host refuses, the process aborts. Chunk.ParseChunkIndex and Chunk.ParseBlocks do not model allocation failure: they report `Io` when the bytes run out, where the source may abort first.
- Unpacker.DecodeAll: when two index entries name the same coordinate, the later entry's chunk is kept. This is the model's choice. The source's `collect()` from `par_iter` into a `HashMap` (src/unpacker.rs:74-93) does not document which one survives. Unpacker.DecodeAllLastWins and Unpacker.DecodedChunkAt state this choice. The round-trip lemmas do not depend on it, because a written index names each coordinate once.
- Debug-build overflow panics. The u32 additions wrap as in a release build; the `as u16` and `as u32` casts truncate.
- `HashMap` order: the encoder writes chunks in the visiting order `order`, and every lemma about written files holds for any order listing each key once.
- The decoder's footer check: `FromFile` asserts that it cannot fail once every entry passed the range check, and `DecodeFile` keeps it as a branch.
- Unpacker.MaxEnd: requires a non-empty index. The source's `None` arm of `max_by_key` cannot be reached, because `from_file` refuses an empty index first.
- Chunk.ChunkRoundTrip: requires at most `0xFFFFFFFF` blocks and NBT blobs of at most `0xFFFFFFFF` bytes, because the source writes those lengths as u32 and a longer one would be read back truncated.
- RoundTrip.EncodedFileDecodes: requires the written file to be at most `0xFFFFFFFF` bytes, because the decoder refuses larger files and the u32 offsets would wrap.
- Chunk.ParseBlobs: states only the count and the `Io` failure, not the consumed length. Bounds for written blobs come from `Chunk.BlobsRoundTrip`.
- Packer.McsEncoder.GetChunks: returns the map itself and states only that the map is well keyed. The Rust method hands out a reference to the map, so it copies nothing.
