/** The per-chunk payload (palette, fixed-size block records, NBT blobs), the
    chunk index table, and the compression wrapper around a payload. */
module Chunk {
  import opened Bytes
  import opened Errors
  import opened Streams
  import opened Types
  import opened Compression
  import opened Palette

  /** `validate_local_pos`: x and z within a chunk column, y within the 384
      stored heights. */
  function ValidateLocalPos(l: LocalBlockPos): (r: Result<()>)
    ensures r.Ok? <==> l.x <= 15 && l.z <= 15 && l.y <= 383
    ensures r.Err? ==> r.error == CoordinateOutOfRange
  {
    if l.x > 15 || l.z > 15 || l.y > 383 then Err(CoordinateOutOfRange) else Ok(())
  }

  /** The range guard does not catch every out-of-range height: y = 65472 (at
      x = z = 0) is stored as 0 and read back as -64. */
  lemma HeightWrapPassesGuard()
    ensures var l := LocalPosOf(BlockPos(0, 65472, 0));
      l.y == 0 && ValidateLocalPos(l).Ok? && ActualY(l) == -64
  {
  }

  // ----- The chunk index table -----

  /** One 16-byte index entry: x and z as i32, offset and size as u32, all little-endian. */
  function IndexEntryBytes(e: ChunkIndexEntry): (b: seq<u8>)
    ensures |b| == 16
  {
    I32Le(e.chunkX) + I32Le(e.chunkZ) + U32Le(e.dataOffset) + U32Le(e.compressedSize)
  }

  /** The entries back to back. */
  function IndexEntriesBytes(es: seq<ChunkIndexEntry>): (b: seq<u8>)
    ensures |b| == 16 * |es|
  {
    FlattenWidth(IndexEntryBytes, 16, es);
    Flatten(IndexEntryBytes, es)
  }

  /** What `write_chunk_index` emits: the entry count as a u32, then the entries. */
  function IndexEncoding(es: seq<ChunkIndexEntry>): seq<u8> {
    U32Le(AsU32(|es|)) + IndexEntriesBytes(es)
  }

  /** The index occupies `4 + 16 n` bytes, a length that depends on nothing but
      `n`, and entry `i` sits at offset `4 + 16 i`. */
  lemma IndexLayout(es: seq<ChunkIndexEntry>, i: nat)
    requires i < |es|
    ensures |IndexEncoding(es)| == 4 + 16 * |es|
    ensures IndexEncoding(es)[4 + 16 * i..4 + 16 * i + 16] == IndexEntryBytes(es[i])
  {
    FlattenAt(IndexEntryBytes, 16, es, i);
  }

  method WriteChunkIndex(w: Sink, es: seq<ChunkIndexEntry>)
    modifies w
    ensures w.data == Overwrite(old(w.data), old(w.pos), IndexEncoding(es))
    ensures w.pos == old(w.pos) + 4 + 16 * |es|
  {
    ghost var d0, p0 := w.data, w.pos;
    w.WriteU32Le(AsU32(|es|));
    WriteIndexEntries(w, es);
    OverwriteThen(d0, p0, U32Le(AsU32(|es|)), IndexEntriesBytes(es));
  }

  /** The loop of `write_chunk_index`. */
  method WriteIndexEntries(w: Sink, es: seq<ChunkIndexEntry>)
    modifies w
    ensures w.data == Overwrite(old(w.data), old(w.pos), IndexEntriesBytes(es))
    ensures w.pos == old(w.pos) + 16 * |es|
  {
    ghost var d0, p0 := w.data, w.pos;
    assert es[..0] == [];
    for i := 0 to |es|
      invariant w.data == Overwrite(d0, p0, IndexEntriesBytes(es[..i]))
      invariant w.pos == p0 + 16 * i
    {
      WriteIndexEntry(w, es[i]);
      OverwriteThen(d0, p0, IndexEntriesBytes(es[..i]), IndexEntryBytes(es[i]));
      assert es[..i + 1] == es[..i] + [es[i]];
      FlattenAppend(IndexEntryBytes, es[..i], es[i]);
    }
    assert es[..|es|] == es;
  }

  /** The body of `write_chunk_index`'s loop. */
  method WriteIndexEntry(w: Sink, e: ChunkIndexEntry)
    modifies w
    ensures w.data == Overwrite(old(w.data), old(w.pos), IndexEntryBytes(e))
    ensures w.pos == old(w.pos) + 16
  {
    ghost var d0, p0 := w.data, w.pos;
    ghost var a, b, c, f := I32Le(e.chunkX), I32Le(e.chunkZ), U32Le(e.dataOffset), U32Le(e.compressedSize);
    w.WriteI32Le(e.chunkX);
    w.WriteI32Le(e.chunkZ);
    OverwriteThen(d0, p0, a, b);
    w.WriteU32Le(e.dataOffset);
    OverwriteThen(d0, p0, a + b, c);
    w.WriteU32Le(e.compressedSize);
    OverwriteThen(d0, p0, a + b + c, f);
  }

  /** One index entry as `read_chunk_index` reads it at `p`. */
  function ParseIndexEntry(d: seq<u8>, p: nat): (r: Result<(ChunkIndexEntry, nat)>)
    ensures r.Ok? <==> p + 16 <= |d|
    ensures r.Ok? ==> r.value.1 == p + 16
    ensures r.Err? ==> r.error == Io
  {
    var x :- ParseI32Le(d, p);
    var z :- ParseI32Le(d, x.1);
    var offset :- ParseU32Le(d, z.1);
    var size :- ParseU32Le(d, offset.1);
    Ok((ChunkIndexEntry(x.0, z.0, offset.0, size.0), size.1))
  }

  /** `read_chunk_index`'s loop: `n` entries in a row. */
  function ParseIndexEntries(d: seq<u8>, p: nat, n: nat): (r: Result<(seq<ChunkIndexEntry>, nat)>)
    ensures r.Ok? <==> n == 0 || p + 16 * n <= |d|
    ensures r.Ok? ==> |r.value.0| == n && r.value.1 == p + 16 * n
    ensures r.Err? ==> r.error == Io
  {
    ManyWidth(ParseIndexEntry, d, 16, p, n);
    ManyErr(ParseIndexEntry, Io, d, p, n);
    Many(ParseIndexEntry, d, p, n)
  }

  /** `read_chunk_index`: a u32 count, then that many entries. */
  function ParseChunkIndex(d: seq<u8>, p: nat): (r: Result<(seq<ChunkIndexEntry>, nat)>)
    ensures r.Ok? ==> r.value.1 == p + 4 + 16 * |r.value.0| <= |d|
    ensures r.Err? ==> r.error == Io
  {
    var count :- ParseU32Le(d, p);
    ParseIndexEntries(d, count.1, count.0)
  }

  method ReadChunkIndex(r: Source) returns (res: Result<seq<ChunkIndexEntry>>)
    modifies r
    ensures Follows(ParseChunkIndex(r.data, old(r.pos)), res, r.pos)
  {
    var count :- r.ReadU32Le();
    res := ReadIndexEntries(r, count);
  }

  /** The body of `read_chunk_index`'s loop. */
  method ReadIndexEntry(r: Source) returns (res: Result<ChunkIndexEntry>)
    modifies r
    ensures Follows(ParseIndexEntry(r.data, old(r.pos)), res, r.pos)
  {
    var x :- r.ReadI32Le();
    var z :- r.ReadI32Le();
    var offset :- r.ReadU32Le();
    var size :- r.ReadU32Le();
    res := Ok(ChunkIndexEntry(x, z, offset, size));
  }

  /** The loop of `read_chunk_index`. */
  method ReadIndexEntries(r: Source, count: nat) returns (res: Result<seq<ChunkIndexEntry>>)
    modifies r
    ensures Follows(ParseIndexEntries(r.data, old(r.pos), count), res, r.pos)
  {
    var entries: seq<ChunkIndexEntry> := [];
    PrefixedNothing(ParseIndexEntries(r.data, r.pos, count));
    for i := 0 to count
      invariant ParseIndexEntries(r.data, old(r.pos), count) == Prefixed(entries, ParseIndexEntries(r.data, r.pos, count - i))
    {
      var e :- ReadIndexEntry(r);
      PrefixedTwice(entries, [e], ParseIndexEntries(r.data, r.pos, count - i - 1));
      entries := entries + [e];
    }
    assert entries + [] == entries;
    res := Ok(entries);
  }

  lemma IndexEntryRoundTrip(e: ChunkIndexEntry, d: seq<u8>, at: nat)
    requires At(d, at, IndexEntryBytes(e))
    ensures ParseIndexEntry(d, at) == Ok((e, at + 16))
  {
    var x, z, offset, size := I32Le(e.chunkX), I32Le(e.chunkZ), U32Le(e.dataOffset), U32Le(e.compressedSize);
    SliceSplit(d, at, x + z + offset, size);
    SliceSplit(d, at, x + z, offset);
    SliceSplit(d, at, x, z);
    I32At(d, at, e.chunkX);
    I32At(d, at + 4, e.chunkZ);
    U32At(d, at + 8, e.dataOffset);
    U32At(d, at + 12, e.compressedSize);
  }

  /** Any entry is read back from wherever it was written. */
  lemma IndexEntriesReadable(d: seq<u8>)
    ensures ReadsBack<ChunkIndexEntry, ChunkIndexEntry>(IndexEntryBytes, ParseIndexEntry, Same, Always, d)
  {
    forall e: ChunkIndexEntry, q: nat | At(d, q, IndexEntryBytes(e))
      ensures ParseIndexEntry(d, q) == Ok((e, q + 16))
    {
      IndexEntryRoundTrip(e, d, q);
    }
  }

  /** Entries written back to back are read back, in order. */
  lemma IndexEntriesRoundTrip(es: seq<ChunkIndexEntry>, d: seq<u8>, at: nat)
    requires At(d, at, IndexEntriesBytes(es))
    ensures ParseIndexEntries(d, at, |es|) == Ok((es, at + 16 * |es|))
  {
    IndexEntriesReadable(d);
    FlattenReads<ChunkIndexEntry, ChunkIndexEntry>(IndexEntryBytes, ParseIndexEntry, Same, Always, d, at, es, es);
  }

  /** Reading back a written index table gives the same entries, in order, and
      consumes exactly the `4 + 16 n` bytes written (for at most 2^32 - 1 entries,
      the most the u32 count can say). */
  lemma IndexRoundTrip(es: seq<ChunkIndexEntry>, d: seq<u8>, at: nat)
    requires |es| <= U32_MAX
    requires At(d, at, IndexEncoding(es))
    ensures ParseChunkIndex(d, at) == Ok((es, at + 4 + 16 * |es|))
  {
    SliceSplit(d, at, U32Le(|es|), IndexEntriesBytes(es));
    U32At(d, at, |es|);
    IndexEntriesRoundTrip(es, d, at + 4);
  }

  // ----- The chunk payload -----

  /** Bit 0 of a record's flags byte: the block carries NBT data. */
  function FlagByte(b: Block): u8 {
    if b.nbt.Some? then 0x01 else 0x00
  }

  /** One 7-byte block record: palette index (u16), x (u8), y (u16), z (u8), flags (u8). */
  function RecordBytes(b: Block): (r: seq<u8>)
    ensures |r| == 7
  {
    U16Le(b.paletteIndex) + [b.pos.x] + U16Le(b.pos.y) + [b.pos.z] + [FlagByte(b)]
  }

  /** The records back to back. */
  function RecordsBytes(bs: seq<Block>): (r: seq<u8>)
    ensures |r| == 7 * |bs|
  {
    FlattenWidth(RecordBytes, 7, bs);
    Flatten(RecordBytes, bs)
  }

  /** The positions of the blocks that carry NBT data, in block order (the
      `nbt_blocks` list of both the serialiser and the deserialiser). */
  function FlaggedIndices(bs: seq<Block>): (f: seq<nat>)
    ensures |f| <= |bs|
    ensures forall k :: 0 <= k < |f| ==> f[k] < |bs| && bs[f[k]].nbt.Some?
  {
    if bs == [] then []
    else
      var f := FlaggedIndices(bs[..|bs| - 1]);
      if bs[|bs| - 1].nbt.Some? then f + [|bs| - 1] else f
  }

  lemma FlaggedIndicesAppend(bs: seq<Block>, b: Block)
    ensures FlaggedIndices(bs + [b]) == FlaggedIndices(bs) + if b.nbt.Some? then [|bs|] else []
  {
    assert (bs + [b])[..|bs|] == bs;
  }

  /** The flagged positions are increasing and miss no flagged block. */
  lemma {:induction false} FlaggedIndicesComplete(bs: seq<Block>)
    ensures var f := FlaggedIndices(bs);
      && (forall k, l :: 0 <= k < l < |f| ==> f[k] < f[l])
      && (forall i :: 0 <= i < |bs| && bs[i].nbt.Some? ==> i in f)
  {
    if bs != [] {
      FlaggedIndicesComplete(bs[..|bs| - 1]);
    }
  }

  /** Which blocks are flagged is all that decides the flagged positions. */
  lemma {:induction false} FlaggedIndicesSameFlags(a: seq<Block>, b: seq<Block>)
    requires |a| == |b|
    requires forall i :: 0 <= i < |a| ==> (a[i].nbt.Some? <==> b[i].nbt.Some?)
    ensures FlaggedIndices(a) == FlaggedIndices(b)
  {
    if a != [] {
      FlaggedIndicesSameFlags(a[..|a| - 1], b[..|b| - 1]);
    }
  }

  /** The NBT data of the flagged blocks, in block order. */
  function NbtBlobs(bs: seq<Block>): (r: seq<seq<u8>>)
    ensures |r| == |FlaggedIndices(bs)|
  {
    var f := FlaggedIndices(bs);
    seq(|f|, k requires 0 <= k < |f| => bs[f[k]].nbt.value)
  }

  /** One NBT blob: its length as a u32, then its bytes. */
  function BlobBytes(d: seq<u8>): (b: seq<u8>)
    ensures |b| == 4 + |d|
  {
    U32Le(AsU32(|d|)) + d
  }

  /** The encoded size of the blobs: four length bytes plus the bytes of each. */
  function BlobsSize(ds: seq<seq<u8>>): nat {
    if ds == [] then 0 else 4 + |ds[0]| + BlobsSize(ds[1..])
  }

  /** The blobs back to back. */
  function BlobsBytes(ds: seq<seq<u8>>): (b: seq<u8>)
    ensures |b| == BlobsSize(ds)
  {
    BlobsLength(ds);
    Flatten(BlobBytes, ds)
  }

  lemma {:induction false} BlobsLength(ds: seq<seq<u8>>)
    ensures |Flatten(BlobBytes, ds)| == BlobsSize(ds)
  {
    if ds != [] {
      BlobsLength(ds[1..]);
    }
  }

  /** What `serialize_chunk` produces: the palette, the u32 block count, the
      records, the u32 count of flagged blocks and their blobs; or the palette's
      error. */
  function ChunkEncoding(c: ChunkData): (r: Result<seq<u8>>)
    ensures r.Ok? <==> EncodePalette(c.palette).Ok?
    ensures r.Err? ==> r.error == EncodePalette(c.palette).error
  {
    var palette :- EncodePalette(c.palette);
    Ok(palette + BlocksBytes(c.blocks))
  }

  /** The blocks part of a payload, after the palette. */
  function BlocksBytes(bs: seq<Block>): seq<u8> {
    U32Le(AsU32(|bs|)) + RecordsBytes(bs) + U32Le(AsU32(|FlaggedIndices(bs)|)) + BlobsBytes(NbtBlobs(bs))
  }

  lemma BlocksAfter(palette: seq<u8>, bs: seq<Block>)
    ensures palette + BlocksBytes(bs) == palette + U32Le(AsU32(|bs|)) + RecordsBytes(bs)
      + U32Le(AsU32(|FlaggedIndices(bs)|)) + BlobsBytes(NbtBlobs(bs))
  {
  }

  /** The payload layout: block `i`'s record sits right after the palette and the
      block count, 7 bytes per block, with bit 0 of its flags byte set exactly
      when the block has NBT data; the flagged count and the blobs follow. */
  lemma {:induction false} PayloadLayout(c: ChunkData, i: nat)
    requires ChunkEncoding(c).Ok? && i < |c.blocks|
    ensures var e, p := ChunkEncoding(c).value, |EncodePalette(c.palette).value|;
      var rec := e[p + 4 + 7 * i..p + 4 + 7 * i + 7];
      && e[..p] == EncodePalette(c.palette).value
      && e[p..p + 4] == U32Le(AsU32(|c.blocks|))
      && rec[..2] == U16Le(c.blocks[i].paletteIndex) && rec[2] == c.blocks[i].pos.x
      && rec[3..5] == U16Le(c.blocks[i].pos.y) && rec[5] == c.blocks[i].pos.z
      && (rec[6] % 2 == 1 <==> c.blocks[i].nbt.Some?)
      && e[p + 4 + 7 * |c.blocks|..p + 8 + 7 * |c.blocks|] == U32Le(AsU32(|NbtBlobs(c.blocks)|))
      && e[p + 8 + 7 * |c.blocks|..] == BlobsBytes(NbtBlobs(c.blocks))
  {
    PayloadFrame(c);
    RecordIn(c, i);
    RecordLayout(c.blocks[i]);
  }

  /** The palette, the block count, the flagged count and the blobs inside the
      serialised chunk. */
  lemma PayloadFrame(c: ChunkData)
    requires ChunkEncoding(c).Ok?
    ensures var e, p, n := ChunkEncoding(c).value, |EncodePalette(c.palette).value|, |c.blocks|;
      && p + 8 + 7 * n <= |e|
      && e[..p] == EncodePalette(c.palette).value
      && e[p..p + 4] == U32Le(AsU32(n))
      && e[p + 4 + 7 * n..p + 8 + 7 * n] == U32Le(AsU32(|NbtBlobs(c.blocks)|))
      && e[p + 8 + 7 * n..] == BlobsBytes(NbtBlobs(c.blocks))
  {
    var e, p, n := ChunkEncoding(c).value, |EncodePalette(c.palette).value|, |c.blocks|;
    BlocksAfter(EncodePalette(c.palette).value, c.blocks);
    FiveSlices(e, EncodePalette(c.palette).value, U32Le(AsU32(n)), RecordsBytes(c.blocks),
               U32Le(AsU32(|FlaggedIndices(c.blocks)|)), BlobsBytes(NbtBlobs(c.blocks)),
               p, p + 4, p + 4 + 7 * n, p + 8 + 7 * n);
  }

  /** Block `i`'s record inside the serialised chunk. */
  lemma {:induction false} RecordIn(c: ChunkData, i: nat)
    requires ChunkEncoding(c).Ok? && i < |c.blocks|
    ensures var e, p := ChunkEncoding(c).value, |EncodePalette(c.palette).value|;
      p + 4 + 7 * i + 7 <= |e| && e[p + 4 + 7 * i..p + 4 + 7 * i + 7] == RecordBytes(c.blocks[i])
  {
    ChunkParts(c);
    RecordAt(ChunkEncoding(c).value, |EncodePalette(c.palette).value| + 4, c.blocks, i);
  }

  /** Record `i` of records written at `at`. */
  lemma RecordAt(d: seq<u8>, at: nat, bs: seq<Block>, i: nat)
    requires At(d, at, RecordsBytes(bs)) && i < |bs|
    ensures at + 7 * i + 7 <= |d| && d[at + 7 * i..at + 7 * i + 7] == RecordBytes(bs[i])
  {
    FlattenAt(RecordBytes, 7, bs, i);
    SliceInside(d, at, RecordsBytes(bs), 7 * i, 7 * i + 7);
  }

  /** The fields of one record. */
  lemma RecordLayout(b: Block)
    ensures var r := RecordBytes(b);
      && r[..2] == U16Le(b.paletteIndex) && r[2] == b.pos.x
      && r[3..5] == U16Le(b.pos.y) && r[5] == b.pos.z
      && (r[6] % 2 == 1 <==> b.nbt.Some?)
  {
  }

  /** `serialize_chunk`, into a fresh in-memory buffer. */
  method SerializeChunk(c: ChunkData) returns (r: Result<seq<u8>>)
    ensures r == ChunkEncoding(c)
  {
    var buffer := new Sink();
    var written := WritePalette(buffer, c.palette);
    if written.Err? {
      return Err(written.error);
    }
    ghost var palette := buffer.data;
    assert palette == EncodePalette(c.palette).value;
    buffer.WriteU32Le(AsU32(|c.blocks|));
    OverwriteAtEnd(palette, U32Le(AsU32(|c.blocks|)));
    var flagged := FlaggedIndices(c.blocks);
    ghost var head := buffer.data;
    WriteRecords(buffer, c.blocks);
    OverwriteAtEnd(head, RecordsBytes(c.blocks));
    ghost var body := buffer.data;
    buffer.WriteU32Le(AsU32(|flagged|));
    OverwriteAtEnd(body, U32Le(AsU32(|flagged|)));
    ghost var counted := buffer.data;
    WriteBlobs(buffer, c.blocks, flagged);
    OverwriteAtEnd(counted, BlobsBytes(NbtBlobs(c.blocks)));
    BlocksAfter(palette, c.blocks);
    r := Ok(buffer.data);
  }

  /** The body of `serialize_chunk`'s record loop. */
  method WriteRecord(w: Sink, b: Block)
    modifies w
    ensures w.data == Overwrite(old(w.data), old(w.pos), RecordBytes(b))
    ensures w.pos == old(w.pos) + 7
  {
    ghost var d0, p0 := w.data, w.pos;
    w.WriteU16Le(b.paletteIndex);
    w.WriteU8(b.pos.x);
    OverwriteThen(d0, p0, U16Le(b.paletteIndex), [b.pos.x]);
    w.WriteU16Le(b.pos.y);
    OverwriteThen(d0, p0, U16Le(b.paletteIndex) + [b.pos.x], U16Le(b.pos.y));
    w.WriteU8(b.pos.z);
    OverwriteThen(d0, p0, U16Le(b.paletteIndex) + [b.pos.x] + U16Le(b.pos.y), [b.pos.z]);
    w.WriteU8(if b.nbt.Some? then 0x01 else 0x00);
    OverwriteThen(d0, p0, U16Le(b.paletteIndex) + [b.pos.x] + U16Le(b.pos.y) + [b.pos.z], [FlagByte(b)]);
  }

  /** The record loop of `serialize_chunk`. */
  method WriteRecords(w: Sink, bs: seq<Block>)
    modifies w
    ensures w.data == Overwrite(old(w.data), old(w.pos), RecordsBytes(bs))
    ensures w.pos == old(w.pos) + 7 * |bs|
  {
    ghost var d0, p0 := w.data, w.pos;
    assert bs[..0] == [];
    for i := 0 to |bs|
      invariant w.data == Overwrite(d0, p0, RecordsBytes(bs[..i]))
      invariant w.pos == p0 + 7 * i
    {
      WriteRecord(w, bs[i]);
      OverwriteThen(d0, p0, RecordsBytes(bs[..i]), RecordBytes(bs[i]));
      assert bs[..i + 1] == bs[..i] + [bs[i]];
      FlattenAppend(RecordBytes, bs[..i], bs[i]);
    }
    assert bs[..|bs|] == bs;
  }

  /** The body of `serialize_chunk`'s blob loop. */
  method WriteBlob(w: Sink, data: seq<u8>)
    modifies w
    ensures w.data == Overwrite(old(w.data), old(w.pos), BlobBytes(data))
    ensures w.pos == old(w.pos) + 4 + |data|
  {
    ghost var d0, p0 := w.data, w.pos;
    w.WriteU32Le(AsU32(|data|));
    w.WriteAll(data);
    OverwriteThen(d0, p0, U32Le(AsU32(|data|)), data);
  }

  /** The blob loop of `serialize_chunk`: the NBT data of each flagged block. */
  method WriteBlobs(w: Sink, bs: seq<Block>, flagged: seq<nat>)
    requires flagged == FlaggedIndices(bs)
    modifies w
    ensures w.data == Overwrite(old(w.data), old(w.pos), BlobsBytes(NbtBlobs(bs)))
    ensures w.pos == old(w.pos) + BlobsSize(NbtBlobs(bs))
  {
    ghost var d0, p0 := w.data, w.pos;
    ghost var blobs := NbtBlobs(bs);
    assert blobs[..0] == [];
    for k := 0 to |flagged|
      invariant w.data == Overwrite(d0, p0, BlobsBytes(blobs[..k]))
      invariant w.pos == p0 + |BlobsBytes(blobs[..k])|
    {
      var data := bs[flagged[k]].nbt.value;
      assert data == blobs[k];
      WriteBlob(w, data);
      OverwriteThen(d0, p0, BlobsBytes(blobs[..k]), BlobBytes(data));
      assert blobs[..k + 1] == blobs[..k] + [data];
      FlattenAppend(BlobBytes, blobs[..k], data);
    }
    assert blobs[..|flagged|] == blobs;
  }

  /** One record as `deserialize_chunk` reads it at `p`: only bit 0 of the flags
      byte is consulted, and a flagged block gets empty NBT data until its blob
      is read. */
  function ParseRecord(d: seq<u8>, p: nat): (r: Result<(Block, nat)>)
    ensures r.Ok? <==> p + 7 <= |d|
    ensures r.Ok? ==> r.value.1 == p + 7
    ensures r.Ok? ==> r.value.0.nbt == if d[p + 6] % 2 == 1 then Some([]) else None
    ensures r.Err? ==> r.error == Io
  {
    var index :- ParseU16Le(d, p);
    var x :- ParseU8(d, index.1);
    var y :- ParseU16Le(d, x.1);
    var z :- ParseU8(d, y.1);
    var flags :- ParseU8(d, z.1);
    var hasNbt := flags.0 % 2 == 1;
    Ok((Block(index.0, LocalBlockPos(x.0, y.0, z.0), if hasNbt then Some([]) else None), flags.1))
  }

  /** The record loop of `deserialize_chunk`: `n` records in a row. */
  function ParseRecords(d: seq<u8>, p: nat, n: nat): (r: Result<(seq<Block>, nat)>)
    ensures r.Ok? <==> n == 0 || p + 7 * n <= |d|
    ensures r.Ok? ==> |r.value.0| == n && r.value.1 == p + 7 * n
    ensures r.Err? ==> r.error == Io
  {
    ManyWidth(ParseRecord, d, 7, p, n);
    ManyErr(ParseRecord, Io, d, p, n);
    Many(ParseRecord, d, p, n)
  }

  /** One blob at `p`: a u32 length, then that many bytes. */
  function ParseBlob(d: seq<u8>, p: nat): (r: Result<(seq<u8>, nat)>)
    ensures r.Ok? ==> r.value.1 == p + 4 + |r.value.0| <= |d|
    ensures r.Err? ==> r.error == Io
  {
    var len :- ParseU32Le(d, p);
    TakeBytes(d, len.1, len.0)
  }

  /** The blob loop of `deserialize_chunk`: `n` blobs in a row. */
  function ParseBlobs(d: seq<u8>, p: nat, n: nat): (r: Result<(seq<seq<u8>>, nat)>)
    ensures r.Ok? ==> |r.value.0| == n
    ensures r.Err? ==> r.error == Io
  {
    ManyErr(ParseBlob, Io, d, p, n);
    Many(ParseBlob, d, p, n)
  }

  /** `blocks.get_mut(i)` then `block.nbt = Some(data)`: no change when `i` is out of range. */
  function Patch(bs: seq<Block>, i: nat, data: seq<u8>): (r: seq<Block>)
    ensures |r| == |bs|
    ensures forall j :: 0 <= j < |bs| ==> r[j] == if j == i then bs[j].(nbt := Some(data)) else bs[j]
  {
    if i < |bs| then bs[i := bs[i].(nbt := Some(data))] else bs
  }

  /** The blob loop of `deserialize_chunk`: blob `k` patched into block `idx[k]`, in order. */
  function PatchAll(bs: seq<Block>, idx: seq<nat>, blobs: seq<seq<u8>>): (r: seq<Block>)
    requires |idx| == |blobs|
    ensures |r| == |bs|
  {
    if idx == [] then bs
    else
      var n := |idx| - 1;
      Patch(PatchAll(bs, idx[..n], blobs[..n]), idx[n], blobs[n])
  }

  lemma PatchAllStep(bs: seq<Block>, idx: seq<nat>, blobs: seq<seq<u8>>, k: nat, d: seq<u8>)
    requires k < |idx| && |blobs| == k
    ensures PatchAll(bs, idx[..k + 1], blobs + [d]) == Patch(PatchAll(bs, idx[..k], blobs), idx[k], d)
  {
    assert idx[..k + 1][..k] == idx[..k];
    assert (blobs + [d])[..k] == blobs;
  }

  /** What `deserialize_chunk` makes of a payload: the palette, the records,
      the cross-check of the NBT count against the flagged records, then the
      blobs assigned to the flagged blocks. Bytes after the last blob are
      ignored. */
  function ParseChunk(d: seq<u8>, pos: ChunkPos): (r: Result<ChunkData>)
    ensures r.Ok? ==> r.value.pos == pos && !HasAir(r.value.palette)
  {
    var palette :- ParsePalette(d, 0);
    var blocks :- ParseBlocks(d, palette.1);
    Ok(ChunkData(pos, palette.0, blocks.0))
  }

  /** The blocks part of a payload at `p`: the u32 block count, the records,
      then the NBT part. */
  function ParseBlocks(d: seq<u8>, p: nat): (r: Result<(seq<Block>, nat)>)
    ensures r.Ok? ==> |r.value.0| <= U32_MAX
  {
    var count :- ParseU32Le(d, p);
    var records :- ParseRecords(d, count.1, count.0);
    ParseNbt(d, records.1, records.0)
  }

  /** The NBT part at `p`, for the records `records` already read: a u32 count
      that must equal the number of flagged records, then that many blobs,
      each patched into its flagged block. */
  function ParseNbt(d: seq<u8>, p: nat, records: seq<Block>): (r: Result<(seq<Block>, nat)>)
    ensures r.Ok? ==> |r.value.0| == |records|
    ensures r.Err? ==> r.error == Io || r.error == NbtError(CountMismatch)
  {
    var nbtCount :- ParseU32Le(d, p);
    var flagged := FlaggedIndices(records);
    if nbtCount.0 != |flagged| then Err(NbtError(CountMismatch))
    else
      var blobs :- ParseBlobs(d, nbtCount.1, nbtCount.0);
      Ok((PatchAll(records, flagged, blobs.0), blobs.1))
  }

  /** The blobs read after the count go, in order, to the blocks whose flag
      bit was set; a block without the flag keeps its record as read. */
  lemma ParseNbtAssigns(d: seq<u8>, p: nat, records: seq<Block>)
    requires ParseNbt(d, p, records).Ok?
    ensures var f, bs := FlaggedIndices(records), ParseNbt(d, p, records).value.0;
      && ParseBlobs(d, p + 4, |f|).Ok?
      && (forall k :: 0 <= k < |f| ==> bs[f[k]] == records[f[k]].(nbt := Some(ParseBlobs(d, p + 4, |f|).value.0[k])))
      && (forall i :: 0 <= i < |records| && records[i].nbt.None? ==> bs[i] == records[i])
  {
    var f := FlaggedIndices(records);
    var blobs := ParseBlobs(d, p + 4, |f|).value.0;
    FlaggedIndicesComplete(records);
    assert NoDuplicates(f);
    PatchAllAssigns(records, f, blobs);
  }

  /** A count that differs from the number of flagged records is refused
      before any blob is read. */
  lemma NbtCountChecked(d: seq<u8>, p: nat, records: seq<Block>)
    requires p + 4 <= |d| && FromU32Le(d[p..p + 4]) != |FlaggedIndices(records)|
    ensures ParseNbt(d, p, records) == Err(NbtError(CountMismatch))
  {
  }

  /** A payload whose NBT count differs from the number of flagged records is
      refused, whatever follows. */
  lemma CountMismatchRefused(d: seq<u8>, pos: ChunkPos, palette: seq<Str>, q: nat, count: u32, q1: nat,
                             records: seq<Block>, q2: nat)
    requires ParsePalette(d, 0) == Ok((palette, q))
    requires ParseU32Le(d, q) == Ok((count, q1)) && ParseRecords(d, q1, count) == Ok((records, q2))
    requires q2 + 4 <= |d| && FromU32Le(d[q2..q2 + 4]) != |FlaggedIndices(records)|
    ensures ParseChunk(d, pos) == Err(NbtError(CountMismatch))
  {
    NbtCountChecked(d, q2, records);
  }

  /** `deserialize_chunk`, over a cursor on the payload. */
  method DeserializeChunk(data: seq<u8>, pos: ChunkPos) returns (r: Result<ChunkData>)
    ensures r == ParseChunk(data, pos)
  {
    var cursor := new Source(data);
    var palette :- ReadPalette(cursor);
    var count :- cursor.ReadU32Le();
    var blocks, flagged :- ReadRecords(cursor, count);
    var nbtCount :- cursor.ReadU32Le();
    if nbtCount != |flagged| {
      return Err(NbtError(CountMismatch));
    }
    blocks :- ReadBlobs(cursor, blocks, flagged);
    r := Ok(ChunkData(pos, palette, blocks));
  }

  /** The body of `deserialize_chunk`'s record loop. */
  method ReadRecord(r: Source) returns (res: Result<Block>)
    modifies r
    ensures Follows(ParseRecord(r.data, old(r.pos)), res, r.pos)
  {
    var paletteIndex :- r.ReadU16Le();
    var x :- r.ReadU8();
    var y :- r.ReadU16Le();
    var z :- r.ReadU8();
    var flags :- r.ReadU8();
    var hasNbt := flags % 2 == 1;
    res := Ok(Block(paletteIndex, LocalBlockPos(x, y, z), if hasNbt then Some([]) else None));
  }

  /** The record loop of `deserialize_chunk`, which also lists the flagged blocks. */
  method ReadRecords(r: Source, count: nat) returns (res: Result<seq<Block>>, flagged: seq<nat>)
    modifies r
    ensures Follows(ParseRecords(r.data, old(r.pos), count), res, r.pos)
    ensures res.Ok? ==> flagged == FlaggedIndices(res.value)
  {
    var blocks: seq<Block> := [];
    flagged := [];
    PrefixedNothing(ParseRecords(r.data, r.pos, count));
    for i := 0 to count
      invariant ParseRecords(r.data, old(r.pos), count) == Prefixed(blocks, ParseRecords(r.data, r.pos, count - i))
      invariant flagged == FlaggedIndices(blocks)
    {
      var b :- ReadRecord(r);
      PrefixedTwice(blocks, [b], ParseRecords(r.data, r.pos, count - i - 1));
      flagged := NoteFlagged(flagged, blocks, b);
      blocks := blocks + [b];
    }
    assert blocks + [] == blocks;
    res := Ok(blocks);
  }

  /** Record the position of a block just read when it is flagged. */
  method NoteFlagged(flagged: seq<nat>, blocks: seq<Block>, b: Block) returns (f: seq<nat>)
    requires flagged == FlaggedIndices(blocks)
    ensures f == FlaggedIndices(blocks + [b])
  {
    FlaggedIndicesAppend(blocks, b);
    f := flagged;
    if b.nbt.Some? {
      f := f + [|blocks|];
    }
  }

  /** The body of `deserialize_chunk`'s blob loop: the length, then the bytes. */
  method ReadBlob(r: Source) returns (res: Result<seq<u8>>)
    modifies r
    ensures Follows(ParseBlob(r.data, old(r.pos)), res, r.pos)
  {
    var len :- r.ReadU32Le();
    res := r.ReadExact(len);
  }

  /** The blob loop of `deserialize_chunk`: read blob `k` and patch it into
      block `flagged[k]`. */
  method ReadBlobs(r: Source, blocks: seq<Block>, flagged: seq<nat>) returns (res: Result<seq<Block>>)
    modifies r
    ensures match ParseBlobs(r.data, old(r.pos), |flagged|)
      case Ok(p) => res == Ok(PatchAll(blocks, flagged, p.0)) && r.pos == p.1
      case Err(e) => res == Err(e)
  {
    ghost var blobs: seq<seq<u8>> := [];
    var patched := blocks;
    PrefixedNothing(ParseBlobs(r.data, r.pos, |flagged|));
    for k := 0 to |flagged|
      invariant |blobs| == k
      invariant ParseBlobs(r.data, old(r.pos), |flagged|) == Prefixed(blobs, ParseBlobs(r.data, r.pos, |flagged| - k))
      invariant patched == PatchAll(blocks, flagged[..k], blobs)
    {
      var data :- ReadBlob(r);
      PrefixedTwice(blobs, [data], ParseBlobs(r.data, r.pos, |flagged| - k - 1));
      PatchAllStep(blocks, flagged, blobs, k, data);
      patched := Patch(patched, flagged[k], data);
      blobs := blobs + [data];
    }
    assert blobs + [] == blobs;
    assert flagged[..|flagged|] == flagged;
    res := Ok(patched);
  }

  // ----- Reading back a serialised chunk -----

  /** A block as its record alone describes it: NBT data, if any, replaced by
      the empty placeholder. */
  function Stub(b: Block): Block {
    b.(nbt := if b.nbt.Some? then Some([]) else None)
  }

  /** `Stub` as a value, for the generic run lemmas. */
  const AsRead: Block -> Block := b => Stub(b)

  function Stubs(bs: seq<Block>): (r: seq<Block>)
    ensures |r| == |bs| && forall i :: 0 <= i < |bs| ==> r[i] == Stub(bs[i])
  {
    seq(|bs|, i requires 0 <= i < |bs| => Stub(bs[i]))
  }

  lemma RecordRoundTrip(b: Block, d: seq<u8>, at: nat)
    requires At(d, at, RecordBytes(b))
    ensures ParseRecord(d, at) == Ok((Stub(b), at + 7))
  {
    var index, x, y, z, f := U16Le(b.paletteIndex), [b.pos.x], U16Le(b.pos.y), [b.pos.z], [FlagByte(b)];
    SliceSplit(d, at, index + x + y + z, f);
    SliceSplit(d, at, index + x + y, z);
    SliceSplit(d, at, index + x, y);
    SliceSplit(d, at, index, x);
    U16LeRoundTrip(b.paletteIndex);
    U16LeRoundTrip(b.pos.y);
    assert d[at + 2] == b.pos.x && d[at + 5] == b.pos.z && d[at + 6] == FlagByte(b);
  }

  /** Any block's record is read back, as its stub, from wherever it was written. */
  lemma RecordsReadable(d: seq<u8>)
    ensures ReadsBack<Block, Block>(RecordBytes, ParseRecord, AsRead, Always, d)
  {
    forall b: Block, q: nat | At(d, q, RecordBytes(b))
      ensures ParseRecord(d, q) == Ok((Stub(b), q + 7))
    {
      RecordRoundTrip(b, d, q);
    }
  }

  /** The records read back describe the blocks written, with placeholder NBT data. */
  lemma RecordsRoundTrip(bs: seq<Block>, d: seq<u8>, at: nat)
    requires At(d, at, RecordsBytes(bs))
    ensures ParseRecords(d, at, |bs|) == Ok((Stubs(bs), at + 7 * |bs|))
  {
    RecordsReadable(d);
    FlattenReads<Block, Block>(RecordBytes, ParseRecord, AsRead, Always, d, at, bs, Stubs(bs));
  }

  lemma BlobRoundTrip(b: seq<u8>, d: seq<u8>, at: nat)
    requires |b| <= U32_MAX
    requires At(d, at, BlobBytes(b))
    ensures ParseBlob(d, at) == Ok((b, at + 4 + |b|))
  {
    SliceSplit(d, at, U32Le(|b|), b);
    U32At(d, at, |b|);
    AtSlice(d, at + 4, b);
  }

  /** A blob whose length fits the u32 length prefix. */
  predicate ShortBlob(b: seq<u8>) {
    |b| <= U32_MAX
  }

  predicate ShortBlobs(ds: seq<seq<u8>>) {
    forall k :: 0 <= k < |ds| ==> |ds[k]| <= U32_MAX
  }

  /** Any short blob is read back from wherever it was written. */
  lemma BlobsReadable(d: seq<u8>)
    ensures ReadsBack<seq<u8>, seq<u8>>(BlobBytes, ParseBlob, Same, ShortBlob, d)
  {
    forall b: seq<u8>, q: nat | ShortBlob(b) && At(d, q, BlobBytes(b))
      ensures ParseBlob(d, q) == Ok((Same(b), q + |BlobBytes(b)|))
    {
      BlobRoundTrip(b, d, q);
    }
  }

  /** Blobs written back to back are read back, in order. */
  lemma BlobsRoundTrip(ds: seq<seq<u8>>, d: seq<u8>, at: nat)
    requires ShortBlobs(ds)
    requires At(d, at, BlobsBytes(ds))
    ensures ParseBlobs(d, at, |ds|) == Ok((ds, at + BlobsSize(ds)))
  {
    BlobsReadable(d);
    BlobsLength(ds);
    FlattenReads<seq<u8>, seq<u8>>(BlobBytes, ParseBlob, Same, ShortBlob, d, at, ds, ds);
  }

  /** The blob loop's effect: with distinct target positions, blob `k` lands in
      block `idx[k]` and every block not targeted is left as it was. */
  lemma {:induction false} PatchAllAssigns(bs: seq<Block>, idx: seq<nat>, blobs: seq<seq<u8>>)
    requires |idx| == |blobs| && NoDuplicates(idx)
    requires forall k :: 0 <= k < |idx| ==> idx[k] < |bs|
    ensures forall k :: 0 <= k < |idx| ==> PatchAll(bs, idx, blobs)[idx[k]] == bs[idx[k]].(nbt := Some(blobs[k]))
    ensures forall i :: 0 <= i < |bs| && i !in idx ==> PatchAll(bs, idx, blobs)[i] == bs[i]
  {
    if idx != [] {
      var n := |idx| - 1;
      var front, last := idx[..n], idx[n];
      PatchAllAssigns(bs, front, blobs[..n]);
      var q := PatchAll(bs, front, blobs[..n]);
      assert last !in front;
      forall k | 0 <= k < |idx| ensures PatchAll(bs, idx, blobs)[idx[k]] == bs[idx[k]].(nbt := Some(blobs[k])) {
        if k < n {
          assert idx[k] == front[k] && idx[k] != last;
        }
      }
      forall i | 0 <= i < |bs| && i !in idx ensures PatchAll(bs, idx, blobs)[i] == bs[i] {
        assert i !in front && i != last;
      }
    }
  }

  /** Patching the placeholder records with the flagged blocks' data, in order,
      restores the blocks. */
  lemma PatchRestores(bs: seq<Block>)
    ensures PatchAll(Stubs(bs), FlaggedIndices(bs), NbtBlobs(bs)) == bs
  {
    var f := FlaggedIndices(bs);
    FlaggedIndicesComplete(bs);
    PatchAllAssigns(Stubs(bs), f, NbtBlobs(bs));
    var r := PatchAll(Stubs(bs), f, NbtBlobs(bs));
    forall i | 0 <= i < |bs| ensures r[i] == bs[i] {
      if i in f {
        var k :| 0 <= k < |f| && f[k] == i;
      }
    }
  }

  /** The five parts of a serialised chunk and where each starts. */
  lemma {:induction false} ChunkParts(c: ChunkData)
    requires ChunkEncoding(c).Ok?
    ensures var e, p, n := ChunkEncoding(c).value, |EncodePalette(c.palette).value|, |c.blocks|;
      && |e| == p + 8 + 7 * n + BlobsSize(NbtBlobs(c.blocks))
      && At(e, 0, EncodePalette(c.palette).value)
      && At(e, p, U32Le(AsU32(n)))
      && At(e, p + 4, RecordsBytes(c.blocks))
      && At(e, p + 4 + 7 * n, U32Le(AsU32(|FlaggedIndices(c.blocks)|)))
      && At(e, p + 8 + 7 * n, BlobsBytes(NbtBlobs(c.blocks)))
  {
    var palette := EncodePalette(c.palette).value;
    var e := ChunkEncoding(c).value;
    assert e == palette + BlocksBytes(c.blocks);
    JoinedAt(palette, BlocksBytes(c.blocks));
    BlocksParts(c.blocks, e, |palette|);
  }

  /** The four parts of the blocks part, wherever it is found. */
  lemma {:induction false} BlocksParts(bs: seq<Block>, d: seq<u8>, at: nat)
    requires At(d, at, BlocksBytes(bs))
    ensures |BlocksBytes(bs)| == 8 + 7 * |bs| + BlobsSize(NbtBlobs(bs))
    ensures At(d, at, U32Le(AsU32(|bs|))) && At(d, at + 4, RecordsBytes(bs))
    ensures At(d, at + 4 + 7 * |bs|, U32Le(AsU32(|FlaggedIndices(bs)|)))
    ensures At(d, at + 4 + 7 * |bs| + 4, BlobsBytes(NbtBlobs(bs)))
  {
    FourParts(d, at, U32Le(AsU32(|bs|)), RecordsBytes(bs), U32Le(AsU32(|FlaggedIndices(bs)|)), BlobsBytes(NbtBlobs(bs)));
  }

  /** Every block's NBT data fits the u32 length prefix. */
  predicate ShortNbt(bs: seq<Block>) {
    forall i :: 0 <= i < |bs| && bs[i].nbt.Some? ==> |bs[i].nbt.value| <= U32_MAX
  }

  lemma NbtBlobsShort(bs: seq<Block>)
    requires ShortNbt(bs)
    ensures ShortBlobs(NbtBlobs(bs))
  {
    var f, blobs := FlaggedIndices(bs), NbtBlobs(bs);
    forall k | 0 <= k < |blobs| ensures |blobs[k]| <= U32_MAX {
      assert blobs[k] == bs[f[k]].nbt.value;
    }
  }

  /** The blocks part is read back from wherever it was written, provided the
      block count and every NBT length fit the u32 fields that record them. */
  lemma {:induction false} BlocksRoundTrip(bs: seq<Block>, d: seq<u8>, at: nat)
    requires |bs| <= U32_MAX && ShortNbt(bs)
    requires At(d, at, BlocksBytes(bs))
    ensures ParseBlocks(d, at) == Ok((bs, at + |BlocksBytes(bs)|))
  {
    BlocksSize(bs);
    BlocksFrom(bs, d, at);
  }

  /** The three parts of the blocks part read back one after the other. */
  lemma BlocksFrom(bs: seq<Block>, d: seq<u8>, at: nat)
    requires |bs| <= U32_MAX && ShortNbt(bs)
    requires At(d, at, BlocksBytes(bs))
    ensures ParseBlocks(d, at) == Ok((bs, at + 4 + 7 * |bs| + 4 + BlobsSize(NbtBlobs(bs))))
  {
    BlockCountAt(bs, d, at);
    BlockRecordsAt(bs, d, at);
    BlockNbtAt(bs, d, at);
    ReadsBlocks(d, at, bs, Stubs(bs), at + 4 + 7 * |bs| + 4 + BlobsSize(NbtBlobs(bs)));
  }

  lemma BlocksSize(bs: seq<Block>)
    ensures |BlocksBytes(bs)| == 8 + 7 * |bs| + BlobsSize(NbtBlobs(bs))
  {
  }

  /** The block count reads back from the blocks part. */
  lemma BlockCountAt(bs: seq<Block>, d: seq<u8>, at: nat)
    requires At(d, at, BlocksBytes(bs))
    ensures ParseU32Le(d, at) == Ok((AsU32(|bs|), at + 4))
  {
    BlocksParts(bs, d, at);
    U32At(d, at, AsU32(|bs|));
  }

  /** The block records read back, as stubs, from the blocks part. */
  lemma BlockRecordsAt(bs: seq<Block>, d: seq<u8>, at: nat)
    requires At(d, at, BlocksBytes(bs))
    ensures ParseRecords(d, at + 4, |bs|) == Ok((Stubs(bs), at + 4 + 7 * |bs|))
  {
    BlocksParts(bs, d, at);
    RecordsRoundTrip(bs, d, at + 4);
  }

  /** The NBT part of the blocks part restores the blocks from their stubs. */
  lemma BlockNbtAt(bs: seq<Block>, d: seq<u8>, at: nat)
    requires |bs| <= U32_MAX && ShortNbt(bs) && At(d, at, BlocksBytes(bs))
    ensures ParseNbt(d, at + 4 + 7 * |bs|, Stubs(bs)) == Ok((bs, at + 4 + 7 * |bs| + 4 + BlobsSize(NbtBlobs(bs))))
  {
    BlocksParts(bs, d, at);
    NbtPartRoundTrip(bs, d, at + 4 + 7 * |bs|, AsU32(|FlaggedIndices(bs)|));
  }

  /** The blocks part reads as the blocks `bs` ending at `q` once its count,
      its records `recs` and its NBT part do. */
  lemma ReadsBlocks(d: seq<u8>, at: nat, bs: seq<Block>, recs: seq<Block>, q: nat)
    requires |bs| <= U32_MAX
    requires ParseU32Le(d, at) == Ok((AsU32(|bs|), at + 4))
    requires ParseRecords(d, at + 4, |bs|) == Ok((recs, at + 4 + 7 * |bs|))
    requires ParseNbt(d, at + 4 + 7 * |bs|, recs) == Ok((bs, q))
    ensures ParseBlocks(d, at) == Ok((bs, q))
  {
    assert AsU32(|bs|) == |bs|;
  }

  /** The NBT part written after the records of `bs` restores, from those
      records, the blocks `bs` themselves; `f` is the flagged count. */
  lemma {:induction false} NbtPartRoundTrip(bs: seq<Block>, d: seq<u8>, at: nat, f: u32)
    requires f == |FlaggedIndices(bs)| && ShortNbt(bs)
    requires At(d, at, U32Le(f))
    requires At(d, at + 4, BlobsBytes(NbtBlobs(bs)))
    ensures ParseNbt(d, at, Stubs(bs)) == Ok((bs, at + 4 + BlobsSize(NbtBlobs(bs))))
  {
    U32At(d, at, f);
    NbtRoundTrip(bs, d, at + 4);
    ParseNbtOf(d, at, bs);
  }

  /** `ParseNbt` over the stubs of `bs` restores `bs` once the count and the
      blobs are read. */
  lemma {:induction false} ParseNbtOf(d: seq<u8>, at: nat, bs: seq<Block>)
    requires |FlaggedIndices(bs)| <= U32_MAX
    requires ParseU32Le(d, at) == Ok((|FlaggedIndices(bs)|, at + 4))
    requires ParseBlobs(d, at + 4, |FlaggedIndices(bs)|) == Ok((NbtBlobs(bs), at + 4 + BlobsSize(NbtBlobs(bs))))
    ensures ParseNbt(d, at, Stubs(bs)) == Ok((bs, at + 4 + BlobsSize(NbtBlobs(bs))))
  {
    StubsPatched(bs);
  }

  /** The stubs are flagged where the blocks are, and patching them with the
      blocks' NBT data restores the blocks. */
  lemma StubsPatched(bs: seq<Block>)
    ensures FlaggedIndices(Stubs(bs)) == FlaggedIndices(bs)
    ensures PatchAll(Stubs(bs), FlaggedIndices(Stubs(bs)), NbtBlobs(bs)) == bs
  {
    FlaggedIndicesSameFlags(Stubs(bs), bs);
    PatchRestores(bs);
  }

  /** The blobs of the flagged blocks are read back, as many as are flagged. */
  lemma {:induction false} NbtRoundTrip(bs: seq<Block>, d: seq<u8>, at: nat)
    requires ShortNbt(bs) && At(d, at, BlobsBytes(NbtBlobs(bs)))
    ensures ParseBlobs(d, at, |FlaggedIndices(bs)|) == Ok((NbtBlobs(bs), at + BlobsSize(NbtBlobs(bs))))
  {
    NbtBlobsShort(bs);
    BlobsRoundTrip(NbtBlobs(bs), d, at);
  }

  /** Deserialising a serialised chunk gives the chunk back, provided its block
      count and every NBT length fit the u32 fields that record them. */
  lemma {:induction false} ChunkRoundTrip(c: ChunkData)
    requires ChunkEncoding(c).Ok?
    requires |c.blocks| <= U32_MAX && ShortNbt(c.blocks)
    ensures ParseChunk(ChunkEncoding(c).value, c.pos) == Ok(c)
  {
    var palette := EncodePalette(c.palette).value;
    var d := palette + BlocksBytes(c.blocks);
    JoinedAt(palette, BlocksBytes(c.blocks));
    PaletteRoundTrip(c.palette, d, 0);
    ReadsChunk(d, c, |palette|);
  }

  /** A chunk is read back from any payload whose palette part reads back as
      its palette and is followed by its blocks: the parse does not look past
      the last blob. */
  lemma {:induction false} ReadsChunk(d: seq<u8>, c: ChunkData, pend: nat)
    requires |c.blocks| <= U32_MAX && ShortNbt(c.blocks)
    requires ParsePalette(d, 0) == Ok((c.palette, pend))
    requires At(d, pend, BlocksBytes(c.blocks))
    ensures ParseChunk(d, c.pos) == Ok(c)
  {
    BlocksRoundTrip(c.blocks, d, pend);
  }

  // ----- The compression wrapper -----

  /** `compress_chunk`: the serialised chunk, compressed with `t`. */
  function CompressChunk(lib: Library, c: ChunkData, t: CompressionType): (r: Result<seq<u8>>)
    ensures ChunkEncoding(c).Err? ==> r == Err(ChunkEncoding(c).error)
    ensures t == Uncompressed ==> r == ChunkEncoding(c)
  {
    var payload :- ChunkEncoding(c);
    CompressData(lib, payload, t)
  }

  /** `decompress_chunk`: the algorithm named by the id, then decompression,
      then deserialisation at `pos`; an unknown id fails before anything is
      decompressed. */
  function DecompressChunk(lib: Library, data: seq<u8>, id: u8, pos: ChunkPos): (r: Result<ChunkData>)
    ensures id > 3 ==> r == Err(UnsupportedCompression(id))
    ensures id == 0 ==> r == ParseChunk(data, pos)
    ensures r.Ok? ==> r.value.pos == pos
  {
    var t :- CompressionTypeFromU8(id);
    var payload :- DecompressData(lib, data, t);
    ParseChunk(payload, pos)
  }

  /** A compressed chunk decompresses, under the id written for its algorithm,
      to the chunk itself: always without compression, and with the library
      algorithms when they are lossless. */
  lemma CompressedChunkRoundTrip(lib: Library, c: ChunkData, t: CompressionType)
    requires t == Uncompressed || Lawful(lib)
    requires ChunkEncoding(c).Ok? && |c.blocks| <= U32_MAX && ShortNbt(c.blocks)
    ensures CompressChunk(lib, c, t).Ok? ==>
      DecompressChunk(lib, CompressChunk(lib, c, t).value, CompressionId(t), c.pos) == Ok(c)
  {
    var payload := ChunkEncoding(c).value;
    ChunkRoundTrip(c);
    CompressRoundTrip(lib, t, payload);
    CompressionIdRoundTrip(t);
  }
}
