/** The decoder: `McsDecoder::from_file` reads a whole MCS image, checks the
    header, the index table and the payload ranges, decompresses every chunk
    and keeps whatever follows the last payload as the signature.

    The file is modelled by its byte image; every `File::open` of the path is
    a fresh `Source` over that image. */
module Unpacker {
  import opened Bytes
  import opened Errors
  import opened Streams
  import opened Types
  import opened Compression
  import opened Header
  import opened Chunk
  import opened Utils

  /** What `from_file` keeps of a file (the SHA-256 `data_hash` is not modelled). */
  datatype McsDecoder = McsDecoder(header: McsHeader, chunks: map<ChunkPos, ChunkData>, signature: Option<seq<u8>>)

  /** The coordinate an index entry names. */
  function EntryPos(e: ChunkIndexEntry): ChunkPos {
    ChunkPos(e.chunkX, e.chunkZ)
  }

  /** `data_offset + compressed_size`, a u32 sum that wraps (release build). */
  function EntryEnd(e: ChunkIndexEntry): u32 {
    AsU32(e.dataOffset + e.compressedSize)
  }

  /** The range check of `from_file`: entries are looked at in index order and
      the first one ending past `size` is reported; the check passes exactly
      when every entry ends within the file. */
  function CheckRanges(es: seq<ChunkIndexEntry>, size: nat): (r: Result<()>)
    ensures r.Ok? <==> forall i :: 0 <= i < |es| ==> EntryEnd(es[i]) <= size
    ensures r.Err? ==> exists k :: (0 <= k < |es| && r.error == ValidationError(ChunkBeyondFile(EntryEnd(es[k]), size))
      && EntryEnd(es[k]) > size && forall j :: 0 <= j < k ==> EntryEnd(es[j]) <= size)
    decreases |es|
  {
    if es == [] then Ok(())
    else if EntryEnd(es[0]) > size then Err(ValidationError(ChunkBeyondFile(EntryEnd(es[0]), size)))
    else
      var r := CheckRanges(es[1..], size);
      assert forall i :: 1 <= i < |es| ==> es[1..][i - 1] == es[i];
      r
  }

  /** An entry that ends within the file passes the check, which goes on with the next one. */
  lemma CheckRangesStep(es: seq<ChunkIndexEntry>, size: nat, i: nat)
    requires i < |es|
    ensures CheckRanges(es[i..], size) ==
      if EntryEnd(es[i]) > size then Err(ValidationError(ChunkBeyondFile(EntryEnd(es[i]), size)))
      else CheckRanges(es[i + 1..], size)
  {
    assert es[i..][1..] == es[i + 1..];
  }

  /** The `for entry in &index_entries` loop of `from_file`. */
  method CheckEntryRanges(es: seq<ChunkIndexEntry>, size: nat) returns (r: Result<()>)
    ensures r == CheckRanges(es, size)
  {
    for i := 0 to |es|
      invariant CheckRanges(es, size) == CheckRanges(es[i..], size)
    {
      CheckRangesStep(es, size, i);
      var chunkEnd := AsU32(es[i].dataOffset + es[i].compressedSize);
      if chunkEnd > size {
        return Err(ValidationError(ChunkBeyondFile(chunkEnd, size)));
      }
    }
    r := Ok(());
  }

  /** `decompress_chunk` with the header's compression id and the codecs of `lib`. */
  function Decompressor(lib: Library, id: u8): (seq<u8>, ChunkPos) -> Result<ChunkData> {
    (data, pos) => DecompressChunk(lib, data, id, pos)
  }

  /** One entry as the parallel map reads it: its `compressed_size` bytes from
      `data_offset`, decoded by `decode` at the entry's coordinate. */
  function DecodeEntry(decode: (seq<u8>, ChunkPos) -> Result<ChunkData>, d: seq<u8>, e: ChunkIndexEntry): Result<ChunkData> {
    var bytes :- TakeBytes(d, e.dataOffset, e.compressedSize);
    decode(bytes.0, EntryPos(e))
  }

  /** The chunks collected from the entries into a map, in index order: the
      first entry that fails stops the collection, and of two entries naming
      one coordinate the later one is kept. */
  function DecodeAll(decode: (seq<u8>, ChunkPos) -> Result<ChunkData>, d: seq<u8>, es: seq<ChunkIndexEntry>)
    : Result<map<ChunkPos, ChunkData>>
    decreases |es|
  {
    if es == [] then Ok(map[])
    else
      var n := |es| - 1;
      var m :- DecodeAll(decode, d, es[..n]);
      var c :- DecodeEntry(decode, d, es[n]);
      Ok(m[EntryPos(es[n]) := c])
  }

  /** The collection succeeds exactly when every entry decodes. */
  lemma {:induction false} DecodeAllOk(decode: (seq<u8>, ChunkPos) -> Result<ChunkData>, d: seq<u8>, es: seq<ChunkIndexEntry>)
    ensures DecodeAll(decode, d, es).Ok? <==> forall i :: 0 <= i < |es| ==> DecodeEntry(decode, d, es[i]).Ok?
    decreases |es|
  {
    if es != [] {
      var n := |es| - 1;
      DecodeAllOk(decode, d, es[..n]);
      assert forall i :: 0 <= i < n ==> es[..n][i] == es[i];
    }
  }

  /** A successful collection has exactly the entries' coordinates as keys. */
  lemma {:induction false} DecodeAllKeys(decode: (seq<u8>, ChunkPos) -> Result<ChunkData>, d: seq<u8>, es: seq<ChunkIndexEntry>)
    requires DecodeAll(decode, d, es).Ok?
    ensures forall i :: 0 <= i < |es| ==> EntryPos(es[i]) in DecodeAll(decode, d, es).value
    ensures forall k :: k in DecodeAll(decode, d, es).value ==> exists i :: 0 <= i < |es| && EntryPos(es[i]) == k
    decreases |es|
  {
    if es != [] {
      var n := |es| - 1;
      var front := DecodeAll(decode, d, es[..n]).value;
      var m := DecodeAll(decode, d, es).value;
      assert m == front[EntryPos(es[n]) := DecodeEntry(decode, d, es[n]).value];
      DecodeAllKeys(decode, d, es[..n]);
      assert forall i :: 0 <= i < n ==> es[..n][i] == es[i];
      forall k | k in m
        ensures exists i :: 0 <= i < |es| && EntryPos(es[i]) == k
      {
        if k != EntryPos(es[n]) {
          var i :| 0 <= i < n && EntryPos(es[..n][i]) == k;
          assert EntryPos(es[i]) == k;
        }
      }
    }
  }

  /** In a successful collection, the coordinate of an entry that no later
      entry names holds what that entry decodes to: the later entry wins. */
  lemma {:induction false} DecodeAllLastWins(decode: (seq<u8>, ChunkPos) -> Result<ChunkData>, d: seq<u8>, es: seq<ChunkIndexEntry>)
    requires DecodeAll(decode, d, es).Ok?
    ensures forall i :: 0 <= i < |es| && (forall j :: i < j < |es| ==> EntryPos(es[j]) != EntryPos(es[i])) ==>
      EntryPos(es[i]) in DecodeAll(decode, d, es).value
      && DecodeEntry(decode, d, es[i]) == Ok(DecodeAll(decode, d, es).value[EntryPos(es[i])])
    decreases |es|
  {
    if es != [] {
      var n := |es| - 1;
      var front := DecodeAll(decode, d, es[..n]).value;
      var m := DecodeAll(decode, d, es).value;
      assert m == front[EntryPos(es[n]) := DecodeEntry(decode, d, es[n]).value];
      DecodeAllLastWins(decode, d, es[..n]);
      assert forall i :: 0 <= i < n ==> es[..n][i] == es[i];
    }
  }

  /** When the collection stops, its error is that of the first entry that fails. */
  lemma {:induction false} DecodeAllFirstError(decode: (seq<u8>, ChunkPos) -> Result<ChunkData>, d: seq<u8>, es: seq<ChunkIndexEntry>)
    requires DecodeAll(decode, d, es).Err?
    ensures exists k :: (0 <= k < |es| && DecodeEntry(decode, d, es[k]) == Err(DecodeAll(decode, d, es).error)
      && forall j :: 0 <= j < k ==> DecodeEntry(decode, d, es[j]).Ok?)
    decreases |es|
  {
    var n := |es| - 1;
    assert forall i :: 0 <= i < n ==> es[..n][i] == es[i];
    if DecodeAll(decode, d, es[..n]).Err? {
      DecodeAllFirstError(decode, d, es[..n]);
      var k :| 0 <= k < n && DecodeEntry(decode, d, es[..n][k]) == Err(DecodeAll(decode, d, es[..n]).error)
        && forall j :: 0 <= j < k ==> DecodeEntry(decode, d, es[..n][j]).Ok?;
      assert DecodeEntry(decode, d, es[k]) == Err(DecodeAll(decode, d, es).error);
    } else {
      DecodeAllOk(decode, d, es[..n]);
      assert DecodeEntry(decode, d, es[n]) == Err(DecodeAll(decode, d, es).error);
    }
  }

  /** A failure among the leading entries is the failure of the whole collection. */
  lemma {:induction false} DecodeAllStop(decode: (seq<u8>, ChunkPos) -> Result<ChunkData>, d: seq<u8>, es: seq<ChunkIndexEntry>, k: nat)
    requires k <= |es| && DecodeAll(decode, d, es[..k]).Err?
    ensures DecodeAll(decode, d, es) == DecodeAll(decode, d, es[..k])
    decreases |es|
  {
    if k < |es| {
      var n := |es| - 1;
      assert es[..n][..k] == es[..k];
      DecodeAllStop(decode, d, es[..n], k);
    } else {
      assert es[..k] == es;
    }
  }

  /** The parallel read of `from_file`, one entry after another: each entry is
      read through a reader of its own, sought to its offset. */
  method ReadChunks(decode: (seq<u8>, ChunkPos) -> Result<ChunkData>, file: seq<u8>, entries: seq<ChunkIndexEntry>)
    returns (r: Result<map<ChunkPos, ChunkData>>)
    ensures r == DecodeAll(decode, file, entries)
  {
    var chunks := map[];
    for i := 0 to |entries|
      invariant DecodeAll(decode, file, entries[..i]) == Ok(chunks)
    {
      var entry := entries[i];
      assert entries[..i + 1][..i] == entries[..i];
      var chunkReader := new Source(file);
      chunkReader.Seek(entry.dataOffset);
      var compressed := chunkReader.ReadExact(entry.compressedSize);
      if compressed.Err? {
        DecodeAllStop(decode, file, entries, i + 1);
        return Err(compressed.error);
      }
      var pos := ChunkPos(entry.chunkX, entry.chunkZ);
      var chunk := decode(compressed.value, pos);
      if chunk.Err? {
        DecodeAllStop(decode, file, entries, i + 1);
        return Err(chunk.error);
      }
      chunks := chunks[pos := chunk.value];
    }
    assert entries[..|entries|] == entries;
    r := Ok(chunks);
  }

  /** `max_by_key` over the entry ends: the largest end, which some entry has. */
  function MaxEnd(es: seq<ChunkIndexEntry>): (r: u32)
    requires |es| > 0
    ensures forall i :: 0 <= i < |es| ==> EntryEnd(es[i]) <= r
    ensures exists i :: 0 <= i < |es| && EntryEnd(es[i]) == r
    decreases |es|
  {
    var n := |es| - 1;
    if n == 0 then EntryEnd(es[0])
    else
      var front := MaxEnd(es[..n]);
      assert forall i :: 0 <= i < n ==> es[..n][i] == es[i];
      if EntryEnd(es[n]) >= front then EntryEnd(es[n]) else front
  }

  /** The largest end is one that some entry reaches and none passes. */
  lemma MaxEndIs(es: seq<ChunkIndexEntry>, x: nat, j: nat)
    requires j < |es| && EntryEnd(es[j]) == x
    requires forall i :: 0 <= i < |es| ==> EntryEnd(es[i]) <= x
    ensures MaxEnd(es) == x
  {
  }

  /** The signature: the bytes after `footer`, kept when there are any and bit
      0 of the header flags is set. */
  function TrailingSignature(d: seq<u8>, footer: nat, flags: u8): (s: Option<seq<u8>>)
    ensures s.Some? <==> footer < |d| && flags % 2 == 1
    ensures s.Some? ==> |s.value| > 0 && d == d[..footer] + s.value
  {
    if footer < |d| && |d[footer..]| > 0 && flags % 2 == 1 then Some(d[footer..]) else None
  }

  /** `from_file` on the image `d`, check by check in the source's order. */
  function DecodeFile(lib: Library, d: seq<u8>): (r: Result<McsDecoder>)
    ensures |d| < HEADER_SIZE ==> r == Err(ValidationError(FileTooSmall(|d|)))
    ensures HEADER_SIZE <= |d| && |d| > U32_MAX ==> r == Err(FileTooLarge)
  {
    if |d| < HEADER_SIZE then Err(ValidationError(FileTooSmall(|d|)))
    else if |d| > U32_MAX then Err(FileTooLarge)
    else
      var h :- ParseHeader(d, 0);
      var header := h.0;
      if header.indexTableOffset >= |d| then
        Err(ValidationError(IndexOffsetBeyondFile(header.indexTableOffset, |d|)))
      else
        var index :- ParseChunkIndex(d, header.indexTableOffset);
        var es := index.0;
        if |es| == 0 then Err(ChunkIndexError)
        else
          var inRange :- CheckRanges(es, |d|);
          var chunks :- DecodeAll(Decompressor(lib, header.compression), d, es);
          var footer := MaxEnd(es);
          if footer > |d| then Err(ValidationError(FooterBeyondFile(footer, |d|)))
          else Ok(McsDecoder(header, chunks, TrailingSignature(d, footer, header.flags)))
  }

  /** The checks of `from_file` in order: the first that fails decides the
      error, and an entry ending past the file stops the decoder before any
      chunk is decompressed. */
  lemma DecodeFileChecks(lib: Library, d: seq<u8>)
    ensures HEADER_SIZE <= |d| <= U32_MAX && ParseHeader(d, 0).Err? ==> DecodeFile(lib, d) == Err(ParseHeader(d, 0).error)
    ensures HEADER_SIZE <= |d| <= U32_MAX && ParseHeader(d, 0).Ok? ==>
      var offset := ParseHeader(d, 0).value.0.indexTableOffset;
      var index := ParseChunkIndex(d, offset);
      && (offset >= |d| ==> DecodeFile(lib, d) == Err(ValidationError(IndexOffsetBeyondFile(offset, |d|))))
      && (offset < |d| && index.Err? ==> DecodeFile(lib, d) == Err(index.error))
      && (offset < |d| && index.Ok? && |index.value.0| == 0 ==> DecodeFile(lib, d) == Err(ChunkIndexError))
      && (offset < |d| && index.Ok? && CheckRanges(index.value.0, |d|).Err? ==> DecodeFile(lib, d) == Err(CheckRanges(index.value.0, |d|).error))
  {
  }

  /** `McsDecoder::from_file`. */
  method FromFile(lib: Library, file: seq<u8>) returns (res: Result<McsDecoder>)
    ensures res == DecodeFile(lib, file)
  {
    var fileSize := |file|;
    if fileSize < HEADER_SIZE {
      return Err(ValidationError(FileTooSmall(fileSize)));
    }
    var reader := new Source(file);
    var sized := ValidateFileSize(reader);
    if sized.Err? {
      return Err(sized.error);
    }
    var header :- ReadHeader(reader);
    if header.indexTableOffset >= fileSize {
      return Err(ValidationError(IndexOffsetBeyondFile(header.indexTableOffset, fileSize)));
    }
    reader.Seek(header.indexTableOffset);
    var entries :- ReadChunkIndex(reader);
    if |entries| == 0 {
      return Err(ChunkIndexError);
    }
    var inRange := CheckEntryRanges(entries, fileSize);
    if inRange.Err? {
      return Err(inRange.error);
    }
    var chunks :- ReadChunks(Decompressor(lib, header.compression), file, entries);
    var footer := MaxEnd(entries);
    // The footer check of `from_file` cannot fail here: every entry, the
    // last-ending one included, passed the range check.
    assert footer <= fileSize;
    var signature := None;
    if footer < fileSize {
      reader.Seek(footer);
      var rest := reader.ReadToEnd();
      if |rest| > 0 && header.flags % 2 == 1 {
        signature := Some(rest);
      }
    }
    res := Ok(McsDecoder(header, chunks, signature));
  }

  /** A file decodes exactly when it passes the size, header, index-offset,
      index, non-empty and range checks and every entry decodes; the footer
      check asks nothing more, since the last payload ends where some entry
      ends. */
  lemma DecodeFileOk(lib: Library, d: seq<u8>)
    ensures DecodeFile(lib, d).Ok? <==>
      && HEADER_SIZE <= |d| <= U32_MAX
      && ParseHeader(d, 0).Ok?
      && var header := ParseHeader(d, 0).value.0;
      && header.indexTableOffset < |d|
      && ParseChunkIndex(d, header.indexTableOffset).Ok?
      && var es := ParseChunkIndex(d, header.indexTableOffset).value.0;
      && |es| > 0
      && CheckRanges(es, |d|).Ok?
      && DecodeAll(Decompressor(lib, header.compression), d, es).Ok?
  {
  }

  /** What a successful decode holds: the header as read at byte 0, the index
      as read at its offset, in range and not empty, every entry decoded, and
      the signature after the last payload. */
  lemma DecodedFile(lib: Library, d: seq<u8>)
    requires DecodeFile(lib, d).Ok?
    ensures var dec := DecodeFile(lib, d).value;
      && HEADER_SIZE <= |d| <= U32_MAX
      && ParseHeader(d, 0) == Ok((dec.header, HEADER_SIZE))
      && dec.header.indexTableOffset < |d|
      && ParseChunkIndex(d, dec.header.indexTableOffset).Ok?
      && var es := ParseChunkIndex(d, dec.header.indexTableOffset).value.0;
      && |es| > 0
      && (forall i :: 0 <= i < |es| ==> EntryEnd(es[i]) <= |d|)
      && DecodeAll(Decompressor(lib, dec.header.compression), d, es) == Ok(dec.chunks)
      && dec.signature == TrailingSignature(d, MaxEnd(es), dec.header.flags)
  {
  }

  /** `get_chunk`: the chunk stored at `(x, z)`, if any. */
  function GetChunk(dec: McsDecoder, x: i32, z: i32): (r: Option<ChunkData>)
    ensures r.Some? <==> ChunkPos(x, z) in dec.chunks
    ensures r.Some? ==> r.value == dec.chunks[ChunkPos(x, z)]
  {
    if ChunkPos(x, z) in dec.chunks then Some(dec.chunks[ChunkPos(x, z)]) else None
  }

  /** In a decoded file, `get_chunk(x, z)` finds a chunk exactly when some index
      entry names `(x, z)`, and then it is what the last such entry decodes to. */
  lemma DecodedChunkAt(lib: Library, d: seq<u8>, x: i32, z: i32)
    requires DecodeFile(lib, d).Ok?
    ensures var dec := DecodeFile(lib, d).value;
      var es := ParseChunkIndex(d, dec.header.indexTableOffset).value.0;
      && (GetChunk(dec, x, z).Some? <==> exists i :: 0 <= i < |es| && EntryPos(es[i]) == ChunkPos(x, z))
      && forall i :: 0 <= i < |es| && EntryPos(es[i]) == ChunkPos(x, z)
                     && (forall j :: i < j < |es| ==> EntryPos(es[j]) != ChunkPos(x, z)) ==>
           GetChunk(dec, x, z).Some?
           && DecodeEntry(Decompressor(lib, dec.header.compression), d, es[i]) == Ok(GetChunk(dec, x, z).value)
  {
    var dec := DecodeFile(lib, d).value;
    DecodedFile(lib, d);
    var es := ParseChunkIndex(d, dec.header.indexTableOffset).value.0;
    var decode := Decompressor(lib, dec.header.compression);
    DecodeAllKeys(decode, d, es);
    DecodeAllLastWins(decode, d, es);
  }

  /** `compression_type`: the algorithm named by the header's id, with ids past
      3 falling back to no compression. */
  function CompressionTypeOf(dec: McsDecoder): (t: CompressionType)
    ensures dec.header.compression <= 3 ==> CompressionId(t) == dec.header.compression
    ensures dec.header.compression > 3 ==> t == Uncompressed
  {
    match dec.header.compression
    case 0 => Uncompressed
    case 1 => Zstandard
    case 2 => Lz4
    case 3 => Brotli
    case _ => Uncompressed
  }

  /** The fallback is never taken for a decoded file: its id was accepted when
      the header was read. */
  lemma DecodedCompressionType(lib: Library, d: seq<u8>)
    requires DecodeFile(lib, d).Ok?
    ensures CompressionTypeFromU8(DecodeFile(lib, d).value.header.compression) == Ok(CompressionTypeOf(DecodeFile(lib, d).value))
  {
    DecodedFile(lib, d);
  }

  /** `read_mcs_index`: the header at byte 0, then the index table at its
      offset, with none of the checks of `from_file`. */
  function McsIndex(d: seq<u8>): (r: Result<seq<ChunkIndexEntry>>)
    ensures r.Err? ==> ParseHeader(d, 0).Err? || r.error == Io
  {
    var h :- ParseHeader(d, 0);
    var index :- ParseChunkIndex(d, h.0.indexTableOffset);
    Ok(index.0)
  }

  method ReadMcsIndex(file: seq<u8>) returns (res: Result<seq<ChunkIndexEntry>>)
    ensures res == McsIndex(file)
  {
    var reader := new Source(file);
    var header :- ReadHeader(reader);
    reader.Seek(header.indexTableOffset);
    res := ReadChunkIndex(reader);
  }

  /** The index `read_mcs_index` lists is the one `from_file` decoded: whenever
      a file decodes, its index reads, and its coordinates are the keys of the
      decoded chunks. */
  lemma IndexListsDecodedChunks(lib: Library, d: seq<u8>)
    requires DecodeFile(lib, d).Ok?
    ensures McsIndex(d).Ok? && |McsIndex(d).value| > 0
    ensures var es := McsIndex(d).value;
      && (forall i :: 0 <= i < |es| ==> EntryPos(es[i]) in DecodeFile(lib, d).value.chunks)
      && (forall k :: k in DecodeFile(lib, d).value.chunks ==> exists i :: 0 <= i < |es| && EntryPos(es[i]) == k)
  {
    var dec := DecodeFile(lib, d).value;
    DecodedFile(lib, d);
    DecodeAllKeys(Decompressor(lib, dec.header.compression), d, ParseChunkIndex(d, dec.header.indexTableOffset).value.0);
  }
}
