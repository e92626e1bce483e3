/** The fixed 20-byte preamble: magic, big-endian version, compression id,
    flags, little-endian index-table offset and four reserved bytes. */
module Header {
  import opened Bytes
  import opened Errors
  import opened Streams
  import opened Types
  import opened Compression

  /** "MCSTRM\0\0". */
  const MCS_MAGIC: seq<u8> := [0x4D, 0x43, 0x53, 0x54, 0x52, 0x4D, 0x00, 0x00]
  const MCS_VERSION: u16 := 0x0100
  const HEADER_SIZE: nat := 20
  /** Where the index-table offset field starts. */
  const INDEX_OFFSET_FIELD: nat := 12

  /** The flags byte: bit 0 announces a trailing signature. */
  function Flags(hasSignature: bool): u8 {
    if hasSignature then 0x01 else 0x00
  }

  /** The 20 header bytes, with `offset` in the index-table offset field. */
  function HeaderBytes(c: CompressionType, hasSignature: bool, offset: u32): (h: seq<u8>)
    ensures |h| == HEADER_SIZE
    ensures h[..8] == MCS_MAGIC && h[8..10] == [0x01, 0x00]
    ensures h[10] == CompressionId(c) && h[11] == Flags(hasSignature)
    ensures h[12..16] == U32Le(offset) && h[16..20] == [0, 0, 0, 0]
  {
    MCS_MAGIC + U16Be(MCS_VERSION) + [CompressionId(c), Flags(hasSignature)] + U32Le(offset) + [0, 0, 0, 0]
  }

  /** What `write_header` emits, with the offset field still the placeholder 0. */
  function HeaderEncoding(c: CompressionType, hasSignature: bool): (h: seq<u8>)
    ensures |h| == HEADER_SIZE
    ensures h[..8] == MCS_MAGIC
    ensures h[8..10] == [0x01, 0x00]
    ensures h[10] == CompressionId(c)
    ensures h[11] == if hasSignature then 1 else 0
    ensures h[12..16] == [0, 0, 0, 0] && h[16..20] == [0, 0, 0, 0]
  {
    HeaderBytes(c, hasSignature, 0)
  }

  method WriteHeader(w: Sink, c: CompressionType, hasSignature: bool)
    modifies w
    ensures w.data == Overwrite(old(w.data), old(w.pos), HeaderEncoding(c, hasSignature))
    ensures w.pos == old(w.pos) + HEADER_SIZE
  {
    ghost var d0, p0 := w.data, w.pos;
    ghost var magic, version, id, flags, offset := MCS_MAGIC, U16Be(MCS_VERSION), [CompressionId(c)], [Flags(hasSignature)], U32Le(0);
    ghost var reserved: seq<u8> := [0, 0, 0, 0];
    w.WriteAll(MCS_MAGIC);
    w.WriteU16Be(MCS_VERSION);
    OverwriteThen(d0, p0, magic, version);
    w.WriteU8(CompressionId(c));
    OverwriteThen(d0, p0, magic + version, id);
    w.WriteU8(Flags(hasSignature));
    OverwriteThen(d0, p0, magic + version + id, flags);
    w.WriteU32Le(0);
    OverwriteThen(d0, p0, magic + version + id + flags, offset);
    w.WriteAll([0, 0, 0, 0]);
    OverwriteThen(d0, p0, magic + version + id + flags + offset, reserved);
    assert magic + version + id + flags + offset + reserved == HeaderEncoding(c, hasSignature);
  }

  /** What `read_header` makes of the bytes of `d` from position `p`: the magic
      is checked first, then the version, then the compression id; flags,
      offset and reserved bytes are taken as they are and the reserved bytes
      are dropped. */
  function ParseHeader(d: seq<u8>, p: nat): (r: Result<(McsHeader, nat)>)
    ensures p + 8 <= |d| && d[p..p + 8] != MCS_MAGIC ==> r == Err(InvalidMagic)
    ensures p + 10 <= |d| && d[p..p + 8] == MCS_MAGIC && FromU16Be(d[p + 8..p + 10]) != MCS_VERSION ==>
      r == Err(UnsupportedVersion(FromU16Be(d[p + 8..p + 10])))
    ensures p + 11 <= |d| && d[p..p + 8] == MCS_MAGIC && FromU16Be(d[p + 8..p + 10]) == MCS_VERSION && d[p + 10] > 3 ==>
      r == Err(UnsupportedCompression(d[p + 10]))
    ensures r.Ok? <==>
      p + HEADER_SIZE <= |d| && d[p..p + 8] == MCS_MAGIC && FromU16Be(d[p + 8..p + 10]) == MCS_VERSION && d[p + 10] <= 3
    ensures r.Ok? ==> r.value == (McsHeader(MCS_VERSION, d[p + 10], d[p + 11], FromU32Le(d[p + 12..p + 16])), p + HEADER_SIZE)
  {
    if |d| < p + 8 then Err(Io)
    else if d[p..p + 8] != MCS_MAGIC then Err(InvalidMagic)
    else if |d| < p + 10 then Err(Io)
    else
      var version := FromU16Be(d[p + 8..p + 10]);
      if version != MCS_VERSION then Err(UnsupportedVersion(version))
      else if |d| < p + 11 then Err(Io)
      else if d[p + 10] > 3 then Err(UnsupportedCompression(d[p + 10]))
      else if |d| < p + HEADER_SIZE then Err(Io)
      else Ok((McsHeader(version, d[p + 10], d[p + 11], FromU32Le(d[p + 12..p + 16])), p + HEADER_SIZE))
  }

  method ReadHeader(r: Source) returns (res: Result<McsHeader>)
    modifies r
    ensures Follows(ParseHeader(r.data, old(r.pos)), res, r.pos)
  {
    var magic :- r.ReadExact(8);
    if magic != MCS_MAGIC {
      return Err(InvalidMagic);
    }
    var version :- r.ReadU16Be();
    if version != MCS_VERSION {
      return Err(UnsupportedVersion(version));
    }
    var compression :- r.ReadU8();
    if compression > 3 {
      return Err(UnsupportedCompression(compression));
    }
    var flags :- r.ReadU8();
    var offset :- r.ReadU32Le();
    var reserved :- r.ReadExact(4);
    res := Ok(McsHeader(version, compression, flags, offset));
  }

  /** Reading a written header gives version 0x0100, the algorithm's id, the
      signature flag and the offset in the offset field (the placeholder 0 for
      a freshly written one). */
  lemma HeaderRoundTrip(c: CompressionType, hasSignature: bool, offset: u32, d: seq<u8>, p: nat)
    requires At(d, p, HeaderBytes(c, hasSignature, offset))
    ensures ParseHeader(d, p) ==
      Ok((McsHeader(MCS_VERSION, CompressionId(c), Flags(hasSignature), offset), p + HEADER_SIZE))
  {
    AtSlice(d, p, HeaderBytes(c, hasSignature, offset));
    var h := HeaderBytes(c, hasSignature, offset);
    assert d[p..p + HEADER_SIZE] == h;
    assert d[p..p + 8] == h[..8] == MCS_MAGIC;
    assert d[p + 8..p + 10] == [h[8], h[9]] == [0x01, 0x00];
    SliceInside(d, p, h, 12, 16);
    assert d[p + 10] == h[10] && d[p + 11] == h[11];
    U32LeRoundTrip(offset);
  }

  /** `update_index_table_offset`: seek to byte 12 and overwrite the offset field. */
  method UpdateIndexTableOffset(w: Sink, offset: u32)
    modifies w
    ensures w.data == Overwrite(old(w.data), INDEX_OFFSET_FIELD, U32Le(offset))
    ensures w.pos == INDEX_OFFSET_FIELD + 4
  {
    w.Seek(INDEX_OFFSET_FIELD);
    w.WriteU32Le(offset);
  }

  /** Patching a complete header changes bytes 12..16 only, and reading it back
      yields the new offset with every other field as before. */
  lemma PatchIndexOffset(d: seq<u8>, offset: u32)
    requires HEADER_SIZE <= |d|
    ensures var p := Overwrite(d, INDEX_OFFSET_FIELD, U32Le(offset));
      && |p| == |d| && p[..12] == d[..12] && p[12..16] == U32Le(offset) && p[16..] == d[16..]
      && ParseHeader(p, 0) == (if ParseHeader(d, 0).Ok?
                               then Ok((ParseHeader(d, 0).value.0.(indexTableOffset := offset), HEADER_SIZE))
                               else ParseHeader(d, 0))
  {
    var p := Overwrite(d, INDEX_OFFSET_FIELD, U32Le(offset));
    assert p[..12] == d[..12];
    assert p[12..16] == U32Le(offset);
    assert p[16..] == d[16..];
    assert p[..8] == d[..8] && p[8..10] == d[8..10] && p[10] == d[10] && p[11] == d[11];
    U32LeRoundTrip(offset);
  }

  /** Overwriting the placeholder offset of a fresh header gives the header with that offset. */
  lemma PatchedHeader(c: CompressionType, hasSignature: bool, offset: u32)
    ensures Overwrite(HeaderEncoding(c, hasSignature), INDEX_OFFSET_FIELD, U32Le(offset)) == HeaderBytes(c, hasSignature, offset)
  {
    var h, p := HeaderEncoding(c, hasSignature), HeaderBytes(c, hasSignature, offset);
    var o := Overwrite(h, INDEX_OFFSET_FIELD, U32Le(offset));
    assert o == h[..12] + U32Le(offset) + h[16..];
    assert h[..12] == p[..12] && h[16..] == p[16..] && p[12..16] == U32Le(offset);
    assert p == p[..12] + p[12..16] + p[16..];
  }
}
