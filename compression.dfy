/** The compression adapter: the algorithm ids and a uniform compress /
    decompress over the four algorithms. Only the pass-through arm is code of
    this system; the Zstandard, LZ4 and Brotli arms call foreign libraries and
    are supplied as a `Library` parameter. */
module Compression {
  import opened Bytes
  import opened Errors

  datatype CompressionType = Uncompressed | Zstandard | Lz4 | Brotli

  /** `compression as u8`: the discriminant written into the header. */
  function CompressionId(t: CompressionType): (id: u8)
    ensures id <= 3
  {
    match t
    case Uncompressed => 0
    case Zstandard => 1
    case Lz4 => 2
    case Brotli => 3
  }

  /** `compression_type_from_u8`. */
  function CompressionTypeFromU8(v: u8): (r: Result<CompressionType>)
    ensures r.Ok? <==> v <= 3
    ensures r.Ok? ==> CompressionId(r.value) == v
    ensures r.Err? ==> r.error == UnsupportedCompression(v)
  {
    match v
    case 0 => Ok(Uncompressed)
    case 1 => Ok(Zstandard)
    case 2 => Ok(Lz4)
    case 3 => Ok(Brotli)
    case _ => Err(UnsupportedCompression(v))
  }

  lemma CompressionIdRoundTrip(t: CompressionType)
    ensures CompressionTypeFromU8(CompressionId(t)) == Ok(t)
  {
  }

  /** The foreign codecs behind the Zstandard, LZ4 and Brotli arms, each with its
      fixed parameters. Their failures come back as errors. */
  datatype Library = Library(
    compress: (CompressionType, seq<u8>) -> Result<seq<u8>>,
    decompress: (CompressionType, seq<u8>) -> Result<seq<u8>>)

  /** The library codecs are lossless: what one compressed, the same one restores.
      For LZ4 this is an assumption about `compress_data` and not only about
      the library: its LZ4 arm drops the encoder without `finish()`, so
      whether its output is a complete frame is not modelled here. */
  ghost predicate Lawful(lib: Library) {
    forall t: CompressionType, d: seq<u8> ::
      t != Uncompressed && lib.compress(t, d).Ok? ==>
        lib.decompress(t, lib.compress(t, d).value) == Ok(d)
  }

  /** `compress_data`. */
  function CompressData(lib: Library, data: seq<u8>, t: CompressionType): (r: Result<seq<u8>>)
    ensures t == Uncompressed ==> r == Ok(data)
  {
    match t
    case Uncompressed => Ok(data)
    case _ => lib.compress(t, data)
  }

  /** `decompress_data`. */
  function DecompressData(lib: Library, data: seq<u8>, t: CompressionType): (r: Result<seq<u8>>)
    ensures t == Uncompressed ==> r == Ok(data)
  {
    match t
    case Uncompressed => Ok(data)
    case _ => lib.decompress(t, data)
  }

  /** Decompressing what was compressed gives the original bytes: always for the
      pass-through arm, and for the others when the library is lossless. */
  lemma CompressRoundTrip(lib: Library, t: CompressionType, d: seq<u8>)
    requires t == Uncompressed || Lawful(lib)
    ensures CompressData(lib, d, t).Ok? ==> DecompressData(lib, CompressData(lib, d, t).value, t) == Ok(d)
  {
  }
}
