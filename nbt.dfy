/** The first-byte sniffer for attached metadata (NBT). The container stores
    metadata as opaque bytes; these checks only look at the root tag byte. */
module Nbt {
  import opened Bytes
  import opened Errors

  datatype NbtTagType =
    | End | Byte | Short | Int | Long | Float | Double
    | ByteArray | String | List | Compound | IntArray | LongArray

  /** `tag as u8`. */
  function TagValue(t: NbtTagType): (v: u8)
    ensures v <= 12
  {
    match t
    case End => 0
    case Byte => 1
    case Short => 2
    case Int => 3
    case Long => 4
    case Float => 5
    case Double => 6
    case ByteArray => 7
    case String => 8
    case List => 9
    case Compound => 10
    case IntArray => 11
    case LongArray => 12
  }

  /** `validate_nbt`: empty metadata is accepted; otherwise the first byte must be a tag type. */
  function ValidateNbt(data: seq<u8>): (r: Result<()>)
    ensures data == [] ==> r.Ok?
    ensures data != [] ==> (r.Ok? <==> data[0] <= 12)
    ensures r.Err? ==> r.error == NbtError(InvalidTagType)
  {
    if data == [] then Ok(())
    else if data[0] <= 12 then Ok(())
    else Err(NbtError(InvalidTagType))
  }

  /** `NbtTagType::try_from(u8)`. */
  function TagFromU8(v: u8): (r: Result<NbtTagType>)
    ensures r.Ok? <==> v <= 12
    ensures r.Ok? ==> TagValue(r.value) == v
    ensures r.Err? ==> r.error == NbtError(InvalidTagValue(v))
  {
    match v
    case 0 => Ok(End)
    case 1 => Ok(Byte)
    case 2 => Ok(Short)
    case 3 => Ok(Int)
    case 4 => Ok(Long)
    case 5 => Ok(Float)
    case 6 => Ok(Double)
    case 7 => Ok(ByteArray)
    case 8 => Ok(String)
    case 9 => Ok(List)
    case 10 => Ok(Compound)
    case 11 => Ok(IntArray)
    case 12 => Ok(LongArray)
    case _ => Err(NbtError(InvalidTagValue(v)))
  }

  lemma TagRoundTrip(t: NbtTagType)
    ensures TagFromU8(TagValue(t)) == Ok(t)
  {
  }

  /** `get_nbt_root_type`. */
  function GetNbtRootType(data: seq<u8>): (r: Result<NbtTagType>)
    ensures data == [] ==> r == Err(NbtError(EmptyData))
    ensures data != [] ==> (r.Ok? <==> ValidateNbt(data).Ok?)
    ensures r.Ok? ==> TagValue(r.value) == data[0]
  {
    if data == [] then Err(NbtError(EmptyData)) else TagFromU8(data[0])
  }
}
