/** The error variants of the codec and the result and option types built on them. */
module Errors {
  import opened Bytes

  /** The message carried by `PaletteError`. */
  datatype PaletteProblem = TooManyEntries | EntryTooLong | NotUtf8

  /** The message carried by `NbtError`. */
  datatype NbtProblem =
    | CountMismatch              // metadata count differs from the flagged records
    | InvalidTagType             // first byte is no tag type (validate_nbt)
    | InvalidTagValue(value: u8) // the same, naming the byte (NbtTagType::try_from)
    | EmptyData                  // no byte to inspect (get_nbt_root_type)

  /** The message carried by `ValidationError`, with the numbers it reports. */
  datatype ValidationProblem =
    | FileTooSmall(size: nat)
    | IndexOffsetBeyondFile(offset: u32, size: nat)
    | ChunkBeyondFile(chunkEnd: u32, size: nat)
    | FooterBeyondFile(footer: u32, size: nat)
    | NoChunks
    | SignatureTooLarge

  datatype McStreamError =
    | Io                                // a byte stream ended early (or a foreign codec failed)
    | InvalidMagic
    | UnsupportedVersion(version: u16)
    | UnsupportedCompression(id: u8)
    | ChunkIndexError
    | CompressionError
    | DecompressionError
    | NbtError(nbt: NbtProblem)
    | PaletteError(palette: PaletteProblem)
    | FileTooLarge
    | CoordinateOutOfRange
    | AirInPalette
    | ValidationError(validation: ValidationProblem)

  datatype Result<+T> = Ok(value: T) | Err(error: McStreamError) {
    predicate IsFailure() {
      Err?
    }

    function PropagateFailure<U>(): Result<U>
      requires Err?
    {
      Err(error)
    }

    function Extract(): T
      requires Ok?
    {
      value
    }
  }

  datatype Option<+T> = None | Some(value: T)
}
