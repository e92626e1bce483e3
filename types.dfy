/** The value types of the container: positions, blocks, chunks, index
    entries and the parsed header, with the coordinate mapping between a
    global block position and a chunk plus a local position. */
module Types {
  import opened Bytes
  import opened Errors

  /** An absolute block coordinate. */
  datatype BlockPos = BlockPos(x: i32, y: i32, z: i32)

  /** A chunk coordinate: a 16 x 16 column of the world. */
  datatype ChunkPos = ChunkPos(x: i32, z: i32)

  /** A position inside a chunk; `y` is re-based so that world height -64 is stored as 0. */
  datatype LocalBlockPos = LocalBlockPos(x: u8, y: u16, z: u8)

  datatype Block = Block(paletteIndex: u16, pos: LocalBlockPos, nbt: Option<seq<u8>>)

  datatype ChunkData = ChunkData(pos: ChunkPos, palette: seq<Str>, blocks: seq<Block>)

  datatype ChunkIndexEntry = ChunkIndexEntry(chunkX: i32, chunkZ: i32, dataOffset: u32, compressedSize: u32)

  datatype McsHeader = McsHeader(version: u16, compression: u8, flags: u8, indexTableOffset: u32)

  /** `chunk_pos`: `x >> 4` and `z >> 4` on i32, an arithmetic shift, which is
      floor division by 16 (Dafny's `/` by a positive divisor floors too). */
  function ChunkPosOf(p: BlockPos): (c: ChunkPos)
    ensures 16 * c.x <= p.x < 16 * c.x + 16
    ensures 16 * c.z <= p.z < 16 * c.z + 16
  {
    ChunkPos(p.x / 16, p.z / 16)
  }

  /** `local_pos`: `x & 0xF`, `(y + 64) as u16`, `z & 0xF`. On i32 the mask keeps
      the low four bits of the two's complement form, the non-negative remainder
      mod 16; the cast keeps the low 16 bits of the sum. */
  function LocalPosOf(p: BlockPos): (l: LocalBlockPos)
    ensures l.x <= 15 && l.z <= 15
    ensures ChunkPosOf(p).x * 16 + l.x == p.x
    ensures ChunkPosOf(p).z * 16 + l.z == p.z
  {
    LocalBlockPos(p.x % 16, AsU16(p.y + 64), p.z % 16)
  }

  /** `actual_y`: undo the re-basing of the stored height. */
  function ActualY(l: LocalBlockPos): (y: i32)
    ensures -64 <= y < 0x1_0000 - 64
  {
    l.y - 64
  }

  /** Over the supported heights -64..=319 the stored height lies in 0..=383
      and `actual_y` gives back the original height. */
  lemma LocalYRoundTrip(p: BlockPos)
    requires -64 <= p.y <= 319
    ensures LocalPosOf(p).y <= 383
    ensures ActualY(LocalPosOf(p)) == p.y
  {
  }

  /** The stored height is `y + 64` reduced modulo 2^16, for every i32 height. */
  lemma StoredYIsTruncated(p: BlockPos)
    ensures (LocalPosOf(p).y - (p.y + 64)) % 0x1_0000 == 0
    ensures 0 <= p.y + 64 <= U16_MAX ==> LocalPosOf(p).y == p.y + 64
  {
  }

  /** The global coordinates the decoder's callers rebuild from a chunk and a
      local position are the original ones (x and z for every i32, y over the
      supported heights). */
  lemma GlobalPosRoundTrip(p: BlockPos)
    requires -64 <= p.y <= 319
    ensures var c, l := ChunkPosOf(p), LocalPosOf(p);
      BlockPos(c.x * 16 + l.x, ActualY(l), c.z * 16 + l.z) == p
  {
  }
}
