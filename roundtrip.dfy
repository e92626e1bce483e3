/** The encoder and the decoder together: a file written by `write_to_writer`
    is read back by `from_file` as the same chunks, the header the encoder
    wrote and the signature it appended. */
module RoundTrip {
  import opened Bytes
  import opened Errors
  import opened Streams
  import opened Types
  import opened Compression
  import opened Header
  import opened Chunk
  import opened Packer
  import opened Unpacker

  // ----- Where the payloads lie -----

  /** The payloads of a leading part, back to back, begin the concatenation of all. */
  lemma {:induction false} ConcatPrefix(ps: seq<seq<u8>>, j: nat)
    requires j <= |ps|
    ensures |Concat(ps[..j])| <= |Concat(ps)| && Concat(ps)[..|Concat(ps[..j])|] == Concat(ps[..j])
    decreases |ps|
  {
    if j < |ps| {
      var n := |ps| - 1;
      assert ps[..n][..j] == ps[..j];
      ConcatPrefix(ps[..n], j);
      assert Concat(ps) == Concat(ps[..n]) + ps[n];
    } else {
      assert ps[..j] == ps;
    }
  }

  /** Payload `i` follows the payloads before it. */
  lemma PayloadInConcat(ps: seq<seq<u8>>, i: nat)
    requires i < |ps|
    ensures |Concat(ps[..i])| + |ps[i]| <= |Concat(ps)|
    ensures Concat(ps)[|Concat(ps[..i])|..|Concat(ps[..i])| + |ps[i]|] == ps[i]
  {
    ConcatPrefix(ps, i + 1);
    assert ps[..i + 1][..i] == ps[..i];
    var o := |Concat(ps[..i])|;
    assert Concat(ps[..i + 1]) == Concat(ps[..i]) + ps[i];
    assert Concat(ps)[o..o + |ps[i]|] == Concat(ps[..i + 1])[o..];
  }

  /** The last payload ends where the concatenation does. */
  lemma LastPayloadEnds(ps: seq<seq<u8>>)
    requires |ps| > 0
    ensures |Concat(ps[..|ps| - 1])| + |ps[|ps| - 1]| == |Concat(ps)|
  {
  }

  /** Entry `i` of the final index names the chunk's coordinate, the offset of
      payload `i` and its length, exactly, in a file of at most 2^32 - 1 bytes. */
  lemma IndexEntryIs(chunks: map<ChunkPos, ChunkData>, order: seq<ChunkPos>, ps: seq<seq<u8>>, i: nat)
    requires (forall i :: 0 <= i < |order| ==> order[i] in chunks) && |ps| == |order| && i < |order|
    requires DataStart(|order|) + |Concat(ps)| <= U32_MAX
    ensures var e := IndexFor(chunks, order, ps)[i];
      && EntryPos(e) == chunks[order[i]].pos
      && e.dataOffset == DataStart(|order|) + |Concat(ps[..i])|
      && e.compressedSize == |ps[i]|
      && EntryEnd(e) == DataStart(|order|) + |Concat(ps[..i])| + |ps[i]|
  {
    PayloadInConcat(ps, i);
  }

  /** The file `write_to_writer` produces: the header with index offset 20,
      then the index in bytes [20, 24 + 16 n), then payload `i` at the offset
      and with the length that index entry `i` records, each payload starting
      where the one before it ends, and the trailer after the last payload. */
  lemma EncodedFileLayout(compress: ChunkData -> Result<seq<u8>>, t: CompressionType, hasSignature: bool,
                          signature: Option<seq<u8>>, chunks: map<ChunkPos, ChunkData>, order: seq<ChunkPos>,
                          ps: seq<seq<u8>>, f: seq<u8>, i: nat)
    requires Enumerates(order, chunks) && Payloads(compress, chunks, order) == Ok(ps) && |ps| == |order|
    requires EncodedFile(compress, t, hasSignature, signature, chunks, order) == Ok(f)
    requires DataStart(|order|) + |Concat(ps)| <= U32_MAX && i < |order|
    ensures |f| == DataStart(|order|) + |Concat(ps)| + |Trailer(hasSignature, signature)|
    ensures f[..HEADER_SIZE] == HeaderBytes(t, hasSignature, HEADER_SIZE)
    ensures f[HEADER_SIZE..DataStart(|order|)] == IndexEncoding(IndexFor(chunks, order, ps))
    ensures f[DataStart(|order|) + |Concat(ps)|..] == Trailer(hasSignature, signature)
    ensures var e := IndexFor(chunks, order, ps)[i];
      && EntryPos(e) == chunks[order[i]].pos
      && e.dataOffset == DataStart(|order|) + |Concat(ps[..i])| && e.compressedSize == |ps[i]|
      && EntryEnd(e) == e.dataOffset + e.compressedSize <= DataStart(|order|) + |Concat(ps)|
      && f[e.dataOffset..EntryEnd(e)] == ps[i]
    ensures i + 1 < |order| ==> IndexFor(chunks, order, ps)[i + 1].dataOffset == EntryEnd(IndexFor(chunks, order, ps)[i])
  {
    EncodedFileIs(compress, t, hasSignature, signature, chunks, order, ps);
    PartsLaidOut(chunks, order, ps, f, HeaderBytes(t, hasSignature, HEADER_SIZE), Trailer(hasSignature, signature), i);
  }

  /** The layout of a file made of a 20-byte header, the final index, the
      payloads and a trailer. */
  lemma PartsLaidOut(chunks: map<ChunkPos, ChunkData>, order: seq<ChunkPos>, ps: seq<seq<u8>>,
                     f: seq<u8>, h: seq<u8>, tr: seq<u8>, i: nat)
    requires (forall i :: 0 <= i < |order| ==> order[i] in chunks) && |ps| == |order| && i < |order|
    requires |h| == HEADER_SIZE && f == h + IndexEncoding(IndexFor(chunks, order, ps)) + Concat(ps) + tr
    requires DataStart(|order|) + |Concat(ps)| <= U32_MAX
    ensures |f| == DataStart(|order|) + |Concat(ps)| + |tr|
    ensures f[..HEADER_SIZE] == h
    ensures f[HEADER_SIZE..DataStart(|order|)] == IndexEncoding(IndexFor(chunks, order, ps))
    ensures f[DataStart(|order|) + |Concat(ps)|..] == tr
    ensures var e := IndexFor(chunks, order, ps)[i];
      && EntryPos(e) == chunks[order[i]].pos
      && e.dataOffset == DataStart(|order|) + |Concat(ps[..i])| && e.compressedSize == |ps[i]|
      && EntryEnd(e) == e.dataOffset + e.compressedSize <= DataStart(|order|) + |Concat(ps)|
      && f[e.dataOffset..EntryEnd(e)] == ps[i]
    ensures i + 1 < |order| ==> IndexFor(chunks, order, ps)[i + 1].dataOffset == EntryEnd(IndexFor(chunks, order, ps)[i])
  {
    var es := IndexFor(chunks, order, ps);
    IndexLayout(es, 0);
    PayloadsLaidOut(f, h, IndexEncoding(es), ps, tr, |order|, i);
    IndexEntryIs(chunks, order, ps, i);
    if i + 1 < |order| {
      NextEntryStarts(chunks, order, ps, i);
    }
  }

  /** Payload `i` of a file made of header, index, payloads and trailer lies
      after the index and the payloads before it. */
  lemma PayloadsLaidOut(f: seq<u8>, h: seq<u8>, ix: seq<u8>, ps: seq<seq<u8>>, tr: seq<u8>, n: nat, i: nat)
    requires f == h + ix + Concat(ps) + tr && |h| == HEADER_SIZE && |ix| == 4 + 16 * n && i < |ps|
    ensures |f| == DataStart(n) + |Concat(ps)| + |tr|
    ensures f[..HEADER_SIZE] == h && f[HEADER_SIZE..DataStart(n)] == ix && f[DataStart(n) + |Concat(ps)|..] == tr
    ensures |Concat(ps[..i])| + |ps[i]| <= |Concat(ps)|
    ensures f[DataStart(n) + |Concat(ps[..i])|..DataStart(n) + |Concat(ps[..i])| + |ps[i]|] == ps[i]
  {
    FileSlices(f, h, ix, Concat(ps), tr, n);
    PayloadInConcat(ps, i);
    PayloadAt(f, DataStart(n), Concat(ps), |Concat(ps[..i])|, ps[i]);
  }

  /** Entry `i + 1` of the final index starts where entry `i` ends. */
  lemma NextEntryStarts(chunks: map<ChunkPos, ChunkData>, order: seq<ChunkPos>, ps: seq<seq<u8>>, i: nat)
    requires (forall i :: 0 <= i < |order| ==> order[i] in chunks) && |ps| == |order| && i + 1 < |order|
    requires DataStart(|order|) + |Concat(ps)| <= U32_MAX
    ensures IndexFor(chunks, order, ps)[i + 1].dataOffset == EntryEnd(IndexFor(chunks, order, ps)[i])
  {
    IndexEntryIs(chunks, order, ps, i);
    IndexEntryIs(chunks, order, ps, i + 1);
    assert ps[..i + 1][..i] == ps[..i];
    assert Concat(ps[..i + 1]) == Concat(ps[..i]) + ps[i];
  }

  /** A file made of header, index, payloads and trailer, cut into its four parts. */
  lemma FileSlices(f: seq<u8>, h: seq<u8>, ix: seq<u8>, body: seq<u8>, tr: seq<u8>, n: nat)
    requires f == h + ix + body + tr && |h| == HEADER_SIZE && |ix| == 4 + 16 * n
    ensures |f| == DataStart(n) + |body| + |tr|
    ensures f[..HEADER_SIZE] == h && f[HEADER_SIZE..DataStart(n)] == ix
    ensures f[DataStart(n)..DataStart(n) + |body|] == body && f[DataStart(n) + |body|..] == tr
  {
    assert h + ix + [] == h + ix;
    FiveSlices(f, h, ix, [], body, tr, HEADER_SIZE, DataStart(n), DataStart(n), DataStart(n) + |body|);
  }

  /** A piece of a part lies in the file at the part's start plus its offset in the part. */
  lemma PayloadAt(f: seq<u8>, at: nat, c: seq<u8>, o: nat, p: seq<u8>)
    requires at + |c| <= |f| && f[at..at + |c|] == c
    requires o + |p| <= |c| && c[o..o + |p|] == p
    ensures f[at + o..at + o + |p|] == p
  {
    forall k | 0 <= k < |p|
      ensures f[at + o..at + o + |p|][k] == p[k]
    {
      assert c[o..o + |p|][k] == c[o + k];
      assert f[at..at + |c|][o + k] == f[at + o + k];
    }
  }

  // ----- Reading the entries back -----

  /** `decode` undoes `compress` on every chunk of `chunks` that compresses,
      restoring it at its own coordinate. */
  ghost predicate Inverts(compress: ChunkData -> Result<seq<u8>>, decode: (seq<u8>, ChunkPos) -> Result<ChunkData>,
                          chunks: map<ChunkPos, ChunkData>)
  {
    forall k :: k in chunks && compress(chunks[k]).Ok? ==> decode(compress(chunks[k]).value, chunks[k].pos) == Ok(chunks[k])
  }

  /** `decompress_chunk` under the written id undoes `compress_chunk` on chunks
      whose counts fit their u32 fields, when the codecs are lossless (or unused). */
  lemma CodecInverts(lib: Library, t: CompressionType, chunks: map<ChunkPos, ChunkData>)
    requires t == Uncompressed || Lawful(lib)
    requires forall k :: k in chunks ==> |chunks[k].blocks| <= U32_MAX && ShortNbt(chunks[k].blocks)
    ensures Inverts(Compressor(lib, t), Decompressor(lib, CompressionId(t)), chunks)
  {
    forall k | k in chunks && Compressor(lib, t)(chunks[k]).Ok?
      ensures Decompressor(lib, CompressionId(t))(Compressor(lib, t)(chunks[k]).value, chunks[k].pos) == Ok(chunks[k])
    {
      CompressedChunkRoundTrip(lib, chunks[k], t);
    }
  }

  /** Entry `i` reads back, from a file holding the payloads at the data start,
      as the chunk it was written for. */
  lemma EntryDecodes(compress: ChunkData -> Result<seq<u8>>, decode: (seq<u8>, ChunkPos) -> Result<ChunkData>,
                     chunks: map<ChunkPos, ChunkData>, order: seq<ChunkPos>, ps: seq<seq<u8>>, f: seq<u8>, i: nat)
    requires Inverts(compress, decode, chunks)
    requires (forall i :: 0 <= i < |order| ==> order[i] in chunks) && |ps| == |order| && i < |order|
    requires compress(chunks[order[i]]) == Ok(ps[i])
    requires At(f, DataStart(|order|), Concat(ps)) && DataStart(|order|) + |Concat(ps)| <= U32_MAX
    ensures DecodeEntry(decode, f, IndexFor(chunks, order, ps)[i]) == Ok(chunks[order[i]])
  {
    var c := chunks[order[i]];
    var e := IndexFor(chunks, order, ps)[i];
    IndexEntryIs(chunks, order, ps, i);
    PayloadInConcat(ps, i);
    var o := |Concat(ps[..i])|;
    SliceInside(f, DataStart(|order|), Concat(ps), o, o + |ps[i]|);
    assert TakeBytes(f, e.dataOffset, e.compressedSize) == Ok((ps[i], e.dataOffset + e.compressedSize));
    assert EntryPos(e) == c.pos;
  }

  /** Entries that each read back as the chunk of their coordinate collect
      into the map of exactly the coordinates listed. */
  lemma {:induction false} CollectsChunks(decode: (seq<u8>, ChunkPos) -> Result<ChunkData>, f: seq<u8>,
                                          es: seq<ChunkIndexEntry>, chunks: map<ChunkPos, ChunkData>, order: seq<ChunkPos>, j: nat)
    requires |es| == |order| && j <= |es|
    requires forall i :: 0 <= i < |es| ==> order[i] in chunks && EntryPos(es[i]) == order[i]
    requires forall i :: 0 <= i < |es| ==> DecodeEntry(decode, f, es[i]) == Ok(chunks[order[i]])
    ensures DecodeAll(decode, f, es[..j]) == Ok(map k | k in order[..j] :: chunks[k])
    decreases j
  {
    if j > 0 {
      var n := j - 1;
      assert es[..j][..n] == es[..n];
      CollectsChunks(decode, f, es, chunks, order, n);
      assert order[..j] == order[..n] + [order[n]];
      assert (map k | k in order[..n] :: chunks[k])[order[n] := chunks[order[n]]] == map k | k in order[..j] :: chunks[k];
    }
  }

  /** The entries of the final index read back as the encoder's chunks. */
  lemma IndexDecodes(compress: ChunkData -> Result<seq<u8>>, decode: (seq<u8>, ChunkPos) -> Result<ChunkData>,
                     chunks: map<ChunkPos, ChunkData>, order: seq<ChunkPos>, ps: seq<seq<u8>>, f: seq<u8>)
    requires Inverts(compress, decode, chunks)
    requires WellKeyed(chunks) && Enumerates(order, chunks)
    requires Payloads(compress, chunks, order) == Ok(ps)
    requires At(f, DataStart(|order|), Concat(ps)) && DataStart(|order|) + |Concat(ps)| <= U32_MAX
    ensures DecodeAll(decode, f, IndexFor(chunks, order, ps)) == Ok(chunks)
  {
    PayloadsAre(compress, chunks, order);
    KeyedOrder(chunks, order);
    EntriesDecode(compress, decode, chunks, order, ps, f);
    CollectsAll(decode, f, IndexFor(chunks, order, ps), chunks, order);
  }

  /** Every coordinate visited names the chunk stored under it. */
  lemma KeyedOrder(chunks: map<ChunkPos, ChunkData>, order: seq<ChunkPos>)
    requires WellKeyed(chunks) && Enumerates(order, chunks)
    ensures forall i :: 0 <= i < |order| ==> order[i] in chunks && chunks[order[i]].pos == order[i]
  {
  }

  /** Each entry of the final index names its coordinate and reads back as the
      chunk stored there. */
  lemma EntriesDecode(compress: ChunkData -> Result<seq<u8>>, decode: (seq<u8>, ChunkPos) -> Result<ChunkData>,
                      chunks: map<ChunkPos, ChunkData>, order: seq<ChunkPos>, ps: seq<seq<u8>>, f: seq<u8>)
    requires Inverts(compress, decode, chunks)
    requires forall i :: 0 <= i < |order| ==> order[i] in chunks && chunks[order[i]].pos == order[i]
    requires |ps| == |order| && forall i :: 0 <= i < |order| ==> compress(chunks[order[i]]) == Ok(ps[i])
    requires At(f, DataStart(|order|), Concat(ps)) && DataStart(|order|) + |Concat(ps)| <= U32_MAX
    ensures var es := IndexFor(chunks, order, ps);
      && |es| == |order|
      && (forall i :: 0 <= i < |es| ==> order[i] in chunks && EntryPos(es[i]) == order[i])
      && (forall i :: 0 <= i < |es| ==> DecodeEntry(decode, f, es[i]) == Ok(chunks[order[i]]))
  {
    var es := IndexFor(chunks, order, ps);
    forall i | 0 <= i < |es|
      ensures order[i] in chunks && EntryPos(es[i]) == order[i]
      ensures DecodeEntry(decode, f, es[i]) == Ok(chunks[order[i]])
    {
      IndexEntryIs(chunks, order, ps, i);
      EntryDecodes(compress, decode, chunks, order, ps, f, i);
    }
  }

  /** Entries that each read back as the chunk of their coordinate, over a
      visiting order of the whole map, collect into that map. */
  lemma CollectsAll(decode: (seq<u8>, ChunkPos) -> Result<ChunkData>, f: seq<u8>,
                    es: seq<ChunkIndexEntry>, chunks: map<ChunkPos, ChunkData>, order: seq<ChunkPos>)
    requires Enumerates(order, chunks) && |es| == |order|
    requires forall i :: 0 <= i < |es| ==> order[i] in chunks && EntryPos(es[i]) == order[i]
    requires forall i :: 0 <= i < |es| ==> DecodeEntry(decode, f, es[i]) == Ok(chunks[order[i]])
    ensures DecodeAll(decode, f, es) == Ok(chunks)
  {
    CollectsChunks(decode, f, es, chunks, order, |es|);
    assert es[..|es|] == es && order[..|es|] == order;
    assert (map k | k in order :: chunks[k]) == chunks;
  }

  /** All entries of the final index end within the payloads, the last one
      exactly at their end. */
  lemma IndexRanges(chunks: map<ChunkPos, ChunkData>, order: seq<ChunkPos>, ps: seq<seq<u8>>)
    requires (forall i :: 0 <= i < |order| ==> order[i] in chunks) && |ps| == |order| && |order| > 0
    requires DataStart(|order|) + |Concat(ps)| <= U32_MAX
    ensures var es := IndexFor(chunks, order, ps);
      (forall i :: 0 <= i < |es| ==> EntryEnd(es[i]) <= DataStart(|order|) + |Concat(ps)|)
      && MaxEnd(es) == DataStart(|order|) + |Concat(ps)|
  {
    var es := IndexFor(chunks, order, ps);
    EntriesEndWithin(chunks, order, ps);
    LastEntryEnds(chunks, order, ps);
    MaxEndIs(es, DataStart(|order|) + |Concat(ps)|, |es| - 1);
  }

  lemma EntriesEndWithin(chunks: map<ChunkPos, ChunkData>, order: seq<ChunkPos>, ps: seq<seq<u8>>)
    requires (forall i :: 0 <= i < |order| ==> order[i] in chunks) && |ps| == |order|
    requires DataStart(|order|) + |Concat(ps)| <= U32_MAX
    ensures var es := IndexFor(chunks, order, ps);
      forall i :: 0 <= i < |es| ==> EntryEnd(es[i]) <= DataStart(|order|) + |Concat(ps)|
  {
    var es := IndexFor(chunks, order, ps);
    forall i | 0 <= i < |es| ensures EntryEnd(es[i]) <= DataStart(|order|) + |Concat(ps)| {
      IndexEntryIs(chunks, order, ps, i);
      PayloadInConcat(ps, i);
    }
  }

  lemma LastEntryEnds(chunks: map<ChunkPos, ChunkData>, order: seq<ChunkPos>, ps: seq<seq<u8>>)
    requires (forall i :: 0 <= i < |order| ==> order[i] in chunks) && |ps| == |order| && |order| > 0
    requires DataStart(|order|) + |Concat(ps)| <= U32_MAX
    ensures var es := IndexFor(chunks, order, ps);
      EntryEnd(es[|es| - 1]) == DataStart(|order|) + |Concat(ps)|
  {
    IndexEntryIs(chunks, order, ps, |order| - 1);
    LastPayloadEnds(ps);
  }

  // ----- The whole file -----

  /** The signature `from_file` finds after the payloads: the one the encoder
      appended, unless it is empty. */
  function ExpectedSignature(hasSignature: bool, signature: Option<seq<u8>>): (s: Option<seq<u8>>)
    ensures s.Some? <==> Trailer(hasSignature, signature) != []
    ensures s.Some? ==> s.value == Trailer(hasSignature, signature) && hasSignature
  {
    if hasSignature && signature.Some? && signature.value != [] then Some(signature.value) else None
  }

  /** Decoding what the encoder wrote gives back its chunks, the header it wrote
      (version 0x0100, the algorithm's id, the signature flag, the index at
      byte 20) and the signature it appended: when the chunks' block counts
      and NBT lengths fit their u32 fields, the codecs are lossless (or unused)
      and the file stays within the 4 GiB the decoder accepts. */
  lemma EncodedFileDecodes(lib: Library, t: CompressionType, hasSignature: bool, signature: Option<seq<u8>>,
                           chunks: map<ChunkPos, ChunkData>, order: seq<ChunkPos>)
    requires t == Uncompressed || Lawful(lib)
    requires WellKeyed(chunks) && Enumerates(order, chunks)
    requires forall k :: k in chunks ==> |chunks[k].blocks| <= U32_MAX && ShortNbt(chunks[k].blocks)
    requires EncodedFile(Compressor(lib, t), t, hasSignature, signature, chunks, order).Ok?
    requires |EncodedFile(Compressor(lib, t), t, hasSignature, signature, chunks, order).value| <= U32_MAX
    ensures DecodeFile(lib, EncodedFile(Compressor(lib, t), t, hasSignature, signature, chunks, order).value) ==
      Ok(McsDecoder(McsHeader(MCS_VERSION, CompressionId(t), Flags(hasSignature), HEADER_SIZE as u32), chunks,
                    ExpectedSignature(hasSignature, signature)))
  {
    var f := EncodedFile(Compressor(lib, t), t, hasSignature, signature, chunks, order).value;
    var ps := Payloads(Compressor(lib, t), chunks, order).value;
    EncodedFileIs(Compressor(lib, t), t, hasSignature, signature, chunks, order, ps);
    AtSlice(f, 0, f);
    assert f[0..|f|] == f;
    LaidOutFileDecodes(lib, t, hasSignature, signature, chunks, order, ps, f);
  }

  /** Reading back what the encoder wrote: `get_chunk` finds exactly the
      encoder's chunks, and `get_compression_type` names the algorithm used. */
  lemma WrittenChunksReadBack(lib: Library, t: CompressionType, hasSignature: bool, signature: Option<seq<u8>>,
                              chunks: map<ChunkPos, ChunkData>, order: seq<ChunkPos>, x: i32, z: i32)
    requires t == Uncompressed || Lawful(lib)
    requires WellKeyed(chunks) && Enumerates(order, chunks)
    requires forall k :: k in chunks ==> |chunks[k].blocks| <= U32_MAX && ShortNbt(chunks[k].blocks)
    requires EncodedFile(Compressor(lib, t), t, hasSignature, signature, chunks, order).Ok?
    requires |EncodedFile(Compressor(lib, t), t, hasSignature, signature, chunks, order).value| <= U32_MAX
    ensures var r := DecodeFile(lib, EncodedFile(Compressor(lib, t), t, hasSignature, signature, chunks, order).value);
      && r.Ok?
      && GetChunk(r.value, x, z) == (if ChunkPos(x, z) in chunks then Some(chunks[ChunkPos(x, z)]) else None)
      && CompressionTypeOf(r.value) == t
  {
    EncodedFileDecodes(lib, t, hasSignature, signature, chunks, order);
  }

  /** `EncodedFileDecodes` over any image holding the header, the index, the
      payloads and the trailer in turn. */
  lemma LaidOutFileDecodes(lib: Library, t: CompressionType, hasSignature: bool, signature: Option<seq<u8>>,
                           chunks: map<ChunkPos, ChunkData>, order: seq<ChunkPos>, ps: seq<seq<u8>>, f: seq<u8>)
    requires t == Uncompressed || Lawful(lib)
    requires WellKeyed(chunks) && Enumerates(order, chunks) && |chunks| > 0
    requires forall k :: k in chunks ==> |chunks[k].blocks| <= U32_MAX && ShortNbt(chunks[k].blocks)
    requires Payloads(Compressor(lib, t), chunks, order) == Ok(ps)
    requires var file := HeaderBytes(t, hasSignature, HEADER_SIZE) + IndexEncoding(IndexFor(chunks, order, ps))
                          + Concat(ps) + Trailer(hasSignature, signature);
      At(f, 0, file) && |f| == |file| && |f| <= U32_MAX
    ensures DecodeFile(lib, f) ==
      Ok(McsDecoder(McsHeader(MCS_VERSION, CompressionId(t), Flags(hasSignature), HEADER_SIZE as u32), chunks,
                    ExpectedSignature(hasSignature, signature)))
  {
    var es := IndexFor(chunks, order, ps);
    IndexLayout(es, 0);
    FileParts(f, HeaderBytes(t, hasSignature, HEADER_SIZE), IndexEncoding(es), Concat(ps), Trailer(hasSignature, signature), |order|);
    PartsDecode(lib, t, hasSignature, signature, chunks, order, ps, f);
  }

  /** `EncodedFileDecodes` over any image holding the header, the index, the
      payloads and the trailer at their places. */
  lemma PartsDecode(lib: Library, t: CompressionType, hasSignature: bool, signature: Option<seq<u8>>,
                    chunks: map<ChunkPos, ChunkData>, order: seq<ChunkPos>, ps: seq<seq<u8>>, f: seq<u8>)
    requires t == Uncompressed || Lawful(lib)
    requires WellKeyed(chunks) && Enumerates(order, chunks) && |chunks| > 0
    requires forall k :: k in chunks ==> |chunks[k].blocks| <= U32_MAX && ShortNbt(chunks[k].blocks)
    requires Payloads(Compressor(lib, t), chunks, order) == Ok(ps)
    requires |f| == DataStart(|order|) + |Concat(ps)| + |Trailer(hasSignature, signature)| && |f| <= U32_MAX
    requires At(f, 0, HeaderBytes(t, hasSignature, HEADER_SIZE)) && At(f, HEADER_SIZE, IndexEncoding(IndexFor(chunks, order, ps)))
    requires At(f, DataStart(|order|), Concat(ps))
    requires DataStart(|order|) + |Concat(ps)| <= |f| && f[DataStart(|order|) + |Concat(ps)|..] == Trailer(hasSignature, signature)
    ensures DecodeFile(lib, f) ==
      Ok(McsDecoder(McsHeader(MCS_VERSION, CompressionId(t), Flags(hasSignature), HEADER_SIZE as u32), chunks,
                    ExpectedSignature(hasSignature, signature)))
  {
    SignatureDecodes(hasSignature, signature, f, DataStart(|order|) + |Concat(ps)|);
    var es := IndexFor(chunks, order, ps);
    assert |es| == |order| > 0;
    HeaderDecodes(t, hasSignature, f, |es|);
    IndexRoundTrip(es, f, HEADER_SIZE);
    IndexRanges(chunks, order, ps);
    CodecInverts(lib, t, chunks);
    IndexDecodes(Compressor(lib, t), Decompressor(lib, CompressionId(t)), chunks, order, ps, f);
    DecodeFileIs(lib, f, McsHeader(MCS_VERSION, CompressionId(t), Flags(hasSignature), HEADER_SIZE as u32), es, chunks);
  }

  /** Where header, index, payloads and trailer lie in a file made of them. */
  lemma FileParts(f: seq<u8>, h: seq<u8>, ix: seq<u8>, body: seq<u8>, tr: seq<u8>, n: nat)
    requires At(f, 0, h + ix + body + tr) && |f| == |h + ix + body + tr|
    requires |h| == HEADER_SIZE && |ix| == 4 + 16 * n
    ensures |f| == DataStart(n) + |body| + |tr|
    ensures At(f, 0, h) && At(f, HEADER_SIZE, ix) && At(f, DataStart(n), body)
    ensures DataStart(n) + |body| <= |f| && f[DataStart(n) + |body|..] == tr
  {
    PartsAt(f, h, ix, body, tr, HEADER_SIZE, DataStart(n), DataStart(n) + |body|);
    AtSlice(f, DataStart(n) + |body|, tr);
  }

  /** The written header reads back with the index offset 20, inside the file. */
  lemma HeaderDecodes(t: CompressionType, hasSignature: bool, f: seq<u8>, n: nat)
    requires At(f, 0, HeaderBytes(t, hasSignature, HEADER_SIZE)) && |f| >= DataStart(n)
    ensures ParseHeader(f, 0) == Ok((McsHeader(MCS_VERSION, CompressionId(t), Flags(hasSignature), HEADER_SIZE as u32), HEADER_SIZE))
  {
    HeaderRoundTrip(t, hasSignature, HEADER_SIZE, f, 0);
  }

  /** The bytes after the payloads are the trailer the encoder appended. */
  lemma SignatureDecodes(hasSignature: bool, signature: Option<seq<u8>>, f: seq<u8>, footer: nat)
    requires footer <= |f| && f[footer..] == Trailer(hasSignature, signature)
    ensures TrailingSignature(f, footer, Flags(hasSignature)) == ExpectedSignature(hasSignature, signature)
  {
  }

  /** `from_file` on a file whose header, index, ranges and entries are all
      known to read. */
  lemma DecodeFileIs(lib: Library, f: seq<u8>, header: McsHeader, es: seq<ChunkIndexEntry>, chunks: map<ChunkPos, ChunkData>)
    requires HEADER_SIZE <= |f| <= U32_MAX
    requires ParseHeader(f, 0) == Ok((header, HEADER_SIZE)) && header.indexTableOffset < |f|
    requires ParseChunkIndex(f, header.indexTableOffset).Ok? && ParseChunkIndex(f, header.indexTableOffset).value.0 == es
    requires |es| > 0 && (forall i :: 0 <= i < |es| ==> EntryEnd(es[i]) <= |f|)
    requires DecodeAll(Decompressor(lib, header.compression), f, es) == Ok(chunks)
    ensures DecodeFile(lib, f) == Ok(McsDecoder(header, chunks, TrailingSignature(f, MaxEnd(es), header.flags)))
  {
  }
}
