/** The encoder: blocks and chunks collected into a map keyed by chunk
    coordinate, and the file layout `write_to_writer` produces from it
    (header, chunk index, chunk payloads, optional signature). */
module Packer {
  import opened Bytes
  import opened Errors
  import opened Streams
  import opened Types
  import opened Compression
  import opened Header
  import opened Palette
  import opened Chunk

  // ----- Collecting blocks -----

  /** `palette.iter().position(|id| *id == block_id)`: a scan for the first
      entry equal to `id`. */
  method FindEntry(palette: seq<Str>, id: Str) returns (k: Option<nat>)
    ensures k.Some? <==> id in palette
    ensures k.Some? ==> k.value == FirstIndex(palette, id)
  {
    var i := 0;
    while i < |palette|
      invariant i <= |palette|
      invariant forall j :: 0 <= j < i ==> palette[j] != id
    {
      if palette[i] == id {
        return Some(i);
      }
      i := i + 1;
    }
    return None;
  }

  /** The chunk `add_block` fills: the one stored under `pos`, or a new empty
      one at `pos` (`entry(..).or_insert_with`). */
  function ChunkAt(chunks: map<ChunkPos, ChunkData>, pos: ChunkPos): (c: ChunkData)
    ensures pos in chunks ==> c == chunks[pos]
    ensures pos !in chunks ==> c.pos == pos && c.palette == [] && c.blocks == []
  {
    if pos in chunks then chunks[pos] else ChunkData(pos, [], [])
  }

  /** `c` with a block of identifier `id` appended at `local`: its palette
      index is the first entry equal to `id`, or, when there is none, `id` is
      appended to the palette and indexed there; both indices are cast to u16. */
  function WithBlock(c: ChunkData, id: Str, local: LocalBlockPos, nbt: Option<seq<u8>>): ChunkData {
    if id in c.palette then
      c.(blocks := c.blocks + [Block(AsU16(FirstIndex(c.palette, id)), local, nbt)])
    else
      c.(palette := c.palette + [id], blocks := c.blocks + [Block(AsU16(|c.palette|), local, nbt)])
  }

  /** What `add_block` makes of the chunk map: air-marked identifiers are
      skipped, a position whose local coordinates fail the range check is
      refused, and otherwise the block goes into the chunk `(x >> 4, z >> 4)`. */
  function BlockAdded(chunks: map<ChunkPos, ChunkData>, id: Str, x: i32, y: i32, z: i32, nbt: Option<seq<u8>>)
    : (r: Result<map<ChunkPos, ChunkData>>)
    ensures IsAir(id) ==> r == Ok(chunks)
    ensures r.Err? <==> !IsAir(id) && ValidateLocalPos(LocalPosOf(BlockPos(x, y, z))).Err?
    ensures r.Err? ==> r.error == CoordinateOutOfRange
  {
    if IsAir(id) then Ok(chunks)
    else
      var p := BlockPos(x, y, z);
      var local := LocalPosOf(p);
      if ValidateLocalPos(local).Err? then Err(CoordinateOutOfRange)
      else
        var pos := ChunkPosOf(p);
        Ok(chunks[pos := WithBlock(ChunkAt(chunks, pos), id, local, nbt)])
  }

  /** Every block position passes the local range check. */
  predicate PositionsValid(c: ChunkData) {
    forall i :: 0 <= i < |c.blocks| ==> ValidateLocalPos(c.blocks[i].pos).Ok?
  }

  /** The encoder's invariant on its map: each chunk is stored under its own
      coordinate and holds only in-range positions. */
  predicate WellKeyed(chunks: map<ChunkPos, ChunkData>) {
    forall k :: k in chunks ==> chunks[k].pos == k && PositionsValid(chunks[k])
  }

  /** A non-air block lands in the chunk containing `(x, z)`, appended after
      the blocks already there, at the local position from which `x` and `z`
      (and, over the supported heights, `y`) are recovered; every other chunk
      is left alone. */
  lemma AddBlockPlacement(chunks: map<ChunkPos, ChunkData>, id: Str, x: i32, y: i32, z: i32, nbt: Option<seq<u8>>)
    requires BlockAdded(chunks, id, x, y, z, nbt).Ok? && !IsAir(id)
    ensures var m, c := BlockAdded(chunks, id, x, y, z, nbt).value, ChunkPosOf(BlockPos(x, y, z));
      var before := ChunkAt(chunks, c).blocks;
      && m.Keys == chunks.Keys + {c}
      && (forall k :: k in chunks && k != c ==> m[k] == chunks[k])
      && m[c].pos == ChunkAt(chunks, c).pos
      && |m[c].blocks| == |before| + 1 && m[c].blocks[..|before|] == before
      && var b := m[c].blocks[|before|];
        && b.nbt == nbt
        && 16 * c.x + b.pos.x == x && 16 * c.z + b.pos.z == z
        && (-64 <= y <= 319 ==> ActualY(b.pos) == y)
  {
    var c := ChunkPosOf(BlockPos(x, y, z));
    var before := ChunkAt(chunks, c).blocks;
    var m := BlockAdded(chunks, id, x, y, z, nbt).value;
    assert m[c].blocks[..|before|] == before;
    if -64 <= y <= 319 {
      LocalYRoundTrip(BlockPos(x, y, z));
    }
  }

  /** The palette discipline of a chunk built by `add_block`: identifiers
      appear once, none is air-marked, and every block indexes an entry. */
  predicate PaletteConsistent(c: ChunkData) {
    && NoDuplicates(c.palette)
    && !HasAir(c.palette)
    && forall i :: 0 <= i < |c.blocks| ==> c.blocks[i].paletteIndex < |c.palette|
  }

  /** Adding a block keeps the target chunk's palette consistent; the palette
      only grows, by `id` at the end when it was missing, so earlier blocks
      keep their entries; and while the palette has at most 65536 entries the
      new block's index names `id`. */
  lemma AddBlockPalette(chunks: map<ChunkPos, ChunkData>, id: Str, x: i32, y: i32, z: i32, nbt: Option<seq<u8>>)
    requires BlockAdded(chunks, id, x, y, z, nbt).Ok? && !IsAir(id)
    requires PaletteConsistent(ChunkAt(chunks, ChunkPosOf(BlockPos(x, y, z))))
    ensures var m, c := BlockAdded(chunks, id, x, y, z, nbt).value, ChunkPosOf(BlockPos(x, y, z));
      var old_ := ChunkAt(chunks, c);
      && PaletteConsistent(m[c])
      && m[c].palette == (if id in old_.palette then old_.palette else old_.palette + [id])
      && (|m[c].palette| <= 0x1_0000 ==> m[c].palette[m[c].blocks[|old_.blocks|].paletteIndex] == id)
  {
    var c := ChunkPosOf(BlockPos(x, y, z));
    var old_ := ChunkAt(chunks, c);
    var m := BlockAdded(chunks, id, x, y, z, nbt).value;
    var p := m[c].palette;
    assert forall i :: 0 <= i < |old_.blocks| ==> m[c].blocks[i] == old_.blocks[i];
    if id !in old_.palette {
      assert p == old_.palette + [id];
      assert NoDuplicates(p) by {
        forall i, j | 0 <= i < j < |p| ensures p[i] != p[j] {
          if j == |old_.palette| {
            assert p[i] in old_.palette;
          }
        }
      }
      assert forall i :: 0 <= i < |old_.palette| ==> p[i] == old_.palette[i];
    }
  }

  /** Adding a block keeps the map well keyed. */
  lemma AddBlockWellKeyed(chunks: map<ChunkPos, ChunkData>, id: Str, x: i32, y: i32, z: i32, nbt: Option<seq<u8>>)
    requires WellKeyed(chunks) && BlockAdded(chunks, id, x, y, z, nbt).Ok?
    ensures WellKeyed(BlockAdded(chunks, id, x, y, z, nbt).value)
  {
    if !IsAir(id) {
      var c := ChunkPosOf(BlockPos(x, y, z));
      var m := BlockAdded(chunks, id, x, y, z, nbt).value;
      var before := ChunkAt(chunks, c);
      assert forall i :: 0 <= i < |before.blocks| ==> m[c].blocks[i] == before.blocks[i];
    }
  }

  /** What `add_blocks` makes of the chunk map: `add_block` at each position
      in order, stopping at the first refusal; blocks added before it stay. */
  function BlocksAdded(chunks: map<ChunkPos, ChunkData>, id: Str, ps: seq<(i32, i32, i32)>, nbt: Option<seq<u8>>)
    : (r: (map<ChunkPos, ChunkData>, Result<()>))
    ensures r.1.Err? ==> r.1.error == CoordinateOutOfRange
    ensures IsAir(id) ==> r == (chunks, Ok(()))
    decreases |ps|
  {
    if ps == [] then (chunks, Ok(()))
    else
      match BlockAdded(chunks, id, ps[0].0, ps[0].1, ps[0].2, nbt)
      case Err(e) => (chunks, Err(e))
      case Ok(m) => BlocksAdded(m, id, ps[1..], nbt)
  }

  /** Adding a run of positions is adding its first part and then, if that
      succeeded, its second part. */
  lemma {:induction false} BlocksAddedSplit(chunks: map<ChunkPos, ChunkData>, id: Str, ps: seq<(i32, i32, i32)>,
                                            qs: seq<(i32, i32, i32)>, nbt: Option<seq<u8>>)
    ensures BlocksAdded(chunks, id, ps + qs, nbt) ==
      var first := BlocksAdded(chunks, id, ps, nbt);
      if first.1.Err? then first else BlocksAdded(first.0, id, qs, nbt)
    decreases |ps|
  {
    if ps == [] {
      assert ps + qs == qs;
    } else {
      assert (ps + qs)[0] == ps[0] && (ps + qs)[1..] == ps[1..] + qs;
      var step := BlockAdded(chunks, id, ps[0].0, ps[0].1, ps[0].2, nbt);
      if step.Ok? {
        BlocksAddedSplit(step.value, id, ps[1..], qs, nbt);
      }
    }
  }

  /** Adding a run of positions keeps the map well keyed, whatever the outcome. */
  lemma {:induction false} BlocksAddedWellKeyed(chunks: map<ChunkPos, ChunkData>, id: Str, ps: seq<(i32, i32, i32)>, nbt: Option<seq<u8>>)
    requires WellKeyed(chunks)
    ensures WellKeyed(BlocksAdded(chunks, id, ps, nbt).0)
    decreases |ps|
  {
    if ps != [] {
      var step := BlockAdded(chunks, id, ps[0].0, ps[0].1, ps[0].2, nbt);
      if step.Ok? {
        AddBlockWellKeyed(chunks, id, ps[0].0, ps[0].1, ps[0].2, nbt);
        BlocksAddedWellKeyed(step.value, id, ps[1..], nbt);
      }
    }
  }

  // ----- The file `write_to_writer` produces -----

  /** `order` lists the keys of `chunks`, every key and as many entries as
      there are keys, so each key once: the order in which the map's values
      are visited. */
  predicate Enumerates(order: seq<ChunkPos>, chunks: map<ChunkPos, ChunkData>) {
    && |order| == |chunks|
    && (forall i :: 0 <= i < |order| ==> order[i] in chunks)
    && (forall k :: k in chunks ==> k in order)
  }

  /** `compress_chunk` with the algorithm `t` and the codecs of `lib`. */
  function Compressor(lib: Library, t: CompressionType): ChunkData -> Result<seq<u8>> {
    c => CompressChunk(lib, c, t)
  }

  /** The payload `compress` makes of each chunk, in visiting order; the
      first chunk that fails stops the run. */
  function Payloads(compress: ChunkData -> Result<seq<u8>>, chunks: map<ChunkPos, ChunkData>, order: seq<ChunkPos>)
    : (r: Result<seq<seq<u8>>>)
    requires forall i :: 0 <= i < |order| ==> order[i] in chunks
    ensures r.Ok? ==> |r.value| == |order|
    decreases |order|
  {
    if order == [] then Ok([])
    else
      var n := |order| - 1;
      var front :- Payloads(compress, chunks, order[..n]);
      var last :- compress(chunks[order[n]]);
      Ok(front + [last])
  }

  /** The payloads are, one by one, what `compress` makes of the chunks, and
      there are payloads exactly when every chunk compresses. */
  lemma {:induction false} PayloadsAre(compress: ChunkData -> Result<seq<u8>>, chunks: map<ChunkPos, ChunkData>, order: seq<ChunkPos>)
    requires forall i :: 0 <= i < |order| ==> order[i] in chunks
    ensures Payloads(compress, chunks, order).Ok? <==>
      forall i :: 0 <= i < |order| ==> compress(chunks[order[i]]).Ok?
    ensures Payloads(compress, chunks, order).Ok? ==>
      forall i :: 0 <= i < |order| ==> compress(chunks[order[i]]) == Ok(Payloads(compress, chunks, order).value[i])
    decreases |order|
  {
    if order != [] {
      var n := |order| - 1;
      PayloadsAre(compress, chunks, order[..n]);
      assert forall i :: 0 <= i < n ==> order[..n][i] == order[i];
    }
  }

  /** When the run stops, its error is that of the first chunk that fails. */
  lemma {:induction false} PayloadsFirstError(compress: ChunkData -> Result<seq<u8>>, chunks: map<ChunkPos, ChunkData>, order: seq<ChunkPos>)
    requires forall i :: 0 <= i < |order| ==> order[i] in chunks
    requires Payloads(compress, chunks, order).Err?
    ensures exists k :: (0 <= k < |order|
      && compress(chunks[order[k]]) == Err(Payloads(compress, chunks, order).error)
      && forall j :: 0 <= j < k ==> compress(chunks[order[j]]).Ok?)
    decreases |order|
  {
    var n := |order| - 1;
    assert forall i :: 0 <= i < n ==> order[..n][i] == order[i];
    if Payloads(compress, chunks, order[..n]).Err? {
      PayloadsFirstError(compress, chunks, order[..n]);
      var k :| 0 <= k < n
        && compress(chunks[order[..n][k]]) == Err(Payloads(compress, chunks, order[..n]).error)
        && forall j :: 0 <= j < k ==> compress(chunks[order[..n][j]]).Ok?;
      assert compress(chunks[order[k]]) == Err(Payloads(compress, chunks, order).error);
    } else {
      PayloadsAre(compress, chunks, order[..n]);
      assert compress(chunks[order[n]]) == Err(Payloads(compress, chunks, order).error);
    }
  }

  /** One more chunk: the run so far, extended by its payload or stopped by its error. */
  lemma PayloadsStep(compress: ChunkData -> Result<seq<u8>>, chunks: map<ChunkPos, ChunkData>, order: seq<ChunkPos>, i: nat,
                     front: seq<seq<u8>>)
    requires forall i :: 0 <= i < |order| ==> order[i] in chunks
    requires i < |order| && Payloads(compress, chunks, order[..i]) == Ok(front)
    ensures Payloads(compress, chunks, order[..i + 1]) ==
      match compress(chunks[order[i]])
      case Ok(p) => Ok(front + [p])
      case Err(e) => Err(e)
  {
    assert order[..i + 1][..i] == order[..i];
  }

  /** A failure in a leading part of the run is the failure of the whole run. */
  lemma {:induction false} PayloadsStop(compress: ChunkData -> Result<seq<u8>>, chunks: map<ChunkPos, ChunkData>, order: seq<ChunkPos>, k: nat)
    requires forall i :: 0 <= i < |order| ==> order[i] in chunks
    requires k <= |order| && Payloads(compress, chunks, order[..k]).Err?
    ensures Payloads(compress, chunks, order) == Payloads(compress, chunks, order[..k])
    decreases |order|
  {
    if k < |order| {
      var n := |order| - 1;
      assert order[..n][..k] == order[..k];
      PayloadsStop(compress, chunks, order[..n], k);
    } else {
      assert order[..k] == order;
    }
  }

  /** Byte strings back to back. */
  function Concat(ps: seq<seq<u8>>): seq<u8>
    decreases |ps|
  {
    if ps == [] then [] else Concat(ps[..|ps| - 1]) + ps[|ps| - 1]
  }

  /** The index entry written before the payloads are placed: the chunk's
      coordinate, offset 0, and the payload length cast to u32. */
  function Placeholder(c: ChunkData, p: seq<u8>): ChunkIndexEntry {
    ChunkIndexEntry(c.pos.x, c.pos.z, 0, AsU32(|p|))
  }

  /** The index as first written: one placeholder per payload. */
  function Placeholders(chunks: map<ChunkPos, ChunkData>, order: seq<ChunkPos>, ps: seq<seq<u8>>): (es: seq<ChunkIndexEntry>)
    requires (forall i :: 0 <= i < |order| ==> order[i] in chunks) && |ps| == |order|
  {
    seq(|order|, i requires 0 <= i < |order| => Placeholder(chunks[order[i]], ps[i]))
  }

  /** The index as rewritten: entry `i` records `base` plus the lengths of the
      payloads before it, in wrapping u32 arithmetic. */
  function Placed(es: seq<ChunkIndexEntry>, ps: seq<seq<u8>>, base: nat): seq<ChunkIndexEntry>
    requires |ps| == |es|
  {
    seq(|es|, i requires 0 <= i < |es| => es[i].(dataOffset := AsU32(base + |Concat(ps[..i])|)))
  }

  /** The final index of the chunks visited in `order` with payloads `ps`. */
  function IndexFor(chunks: map<ChunkPos, ChunkData>, order: seq<ChunkPos>, ps: seq<seq<u8>>): seq<ChunkIndexEntry>
    requires (forall i :: 0 <= i < |order| ==> order[i] in chunks) && |ps| == |order|
  {
    Placed(Placeholders(chunks, order, ps), ps, DataStart(|order|))
  }

  /** The bytes appended after the payloads: the signature, when the flag is
      set and a signature is held. */
  function Trailer(hasSignature: bool, signature: Option<seq<u8>>): seq<u8> {
    if hasSignature && signature.Some? then signature.value else []
  }

  /** The first byte after the index of `n` chunks. */
  function DataStart(n: nat): nat {
    HEADER_SIZE + 4 + 16 * n
  }

  /** The image `write_to_writer` leaves in an empty writer when chunks are
      compressed by `compress` with algorithm `t`: the header with the index
      offset 20, the index, the payloads in visiting order, and the trailer;
      or the error that stops it. */
  function EncodedFile(compress: ChunkData -> Result<seq<u8>>, t: CompressionType, hasSignature: bool,
                       signature: Option<seq<u8>>, chunks: map<ChunkPos, ChunkData>, order: seq<ChunkPos>): (r: Result<seq<u8>>)
    requires Enumerates(order, chunks)
    ensures r.Err? <==> |chunks| == 0 || Payloads(compress, chunks, order).Err?
    ensures |chunks| == 0 ==> r == Err(ValidationError(NoChunks))
  {
    if |chunks| == 0 then Err(ValidationError(NoChunks))
    else
      var ps :- Payloads(compress, chunks, order);
      Ok(HeaderBytes(t, hasSignature, HEADER_SIZE) + IndexEncoding(IndexFor(chunks, order, ps))
         + Concat(ps) + Trailer(hasSignature, signature))
  }

  /** The encoded file once every chunk has compressed. */
  lemma EncodedFileIs(compress: ChunkData -> Result<seq<u8>>, t: CompressionType, hasSignature: bool,
                      signature: Option<seq<u8>>, chunks: map<ChunkPos, ChunkData>, order: seq<ChunkPos>, ps: seq<seq<u8>>)
    requires Enumerates(order, chunks) && |chunks| > 0 && Payloads(compress, chunks, order) == Ok(ps)
    ensures EncodedFile(compress, t, hasSignature, signature, chunks, order) ==
      Ok(HeaderBytes(t, hasSignature, HEADER_SIZE) + IndexEncoding(IndexFor(chunks, order, ps)) + Concat(ps) + Trailer(hasSignature, signature))
  {
  }

  /** `as u32` of a sum is the wrapping sum of the `as u32` parts. */
  lemma WrappingAdd(a: nat, b: nat)
    ensures AsU32(AsU32(a) + AsU32(b)) == AsU32(a + b)
  {
    var m := 0x1_0000_0000;
    assert a == (a / m) * m + AsU32(a);
    assert b == (b / m) * m + AsU32(b);
    var s := AsU32(a) + AsU32(b);
    if s < m {
      assert a + b == (a / m + b / m) * m + s;
    } else {
      assert a + b == (a / m + b / m + 1) * m + (s - m);
    }
  }

  /** Steps 1 to 3 of `write_to_writer`: the header, then its index offset
      field set to 20, leaving the cursor where the index starts. */
  method WritePatchedHeader(w: Sink, c: CompressionType, hasSignature: bool)
    requires w.data == [] && w.pos == 0
    modifies w
    ensures w.data == HeaderBytes(c, hasSignature, HEADER_SIZE) && w.pos == HEADER_SIZE
  {
    WriteHeader(w, c, hasSignature);
    assert w.data == HeaderEncoding(c, hasSignature) by {
      OverwriteAtEnd([], HeaderEncoding(c, hasSignature));
    }
    var indexTableOffset: u32 := 20;
    w.Seek(INDEX_OFFSET_FIELD);
    w.WriteU32Le(indexTableOffset);
    PatchedHeader(c, hasSignature, indexTableOffset);
    w.Seek(indexTableOffset);
  }

  /** Steps 5 to 7 of `write_to_writer`, from the end of the header: the index
      of placeholders, the payloads after it, and the index written again over
      the first one with the payload offsets filled in. */
  method WriteIndexAndPayloads(w: Sink, es: seq<ChunkIndexEntry>, ps: seq<seq<u8>>) returns (placed: seq<ChunkIndexEntry>)
    requires |ps| == |es| && w.pos == |w.data|
    modifies w
    ensures placed == Placed(es, ps, |old(w.data)| + 4 + 16 * |es|)
    ensures w.data == old(w.data) + IndexEncoding(placed) + Concat(ps)
  {
    ghost var header := w.data;
    var indexTableOffset := w.pos;
    WriteChunkIndex(w, es);
    OverwriteAtEnd(header, IndexEncoding(es));
    placed := PlacePayloads(w, es, ps);
    w.Seek(indexTableOffset);
    WriteChunkIndex(w, placed);
    OverwriteMiddle(header, IndexEncoding(es), Concat(ps), IndexEncoding(placed));
  }

  /** Step 6 of `write_to_writer`: append the payloads at the end of the
      writer, recording in each entry the (u32) position its payload starts at. */
  method PlacePayloads(w: Sink, es: seq<ChunkIndexEntry>, ps: seq<seq<u8>>) returns (placed: seq<ChunkIndexEntry>)
    requires |ps| == |es| && w.pos == |w.data|
    modifies w
    ensures w.data == old(w.data) + Concat(ps) && w.pos == |w.data|
    ensures placed == Placed(es, ps, |old(w.data)|)
  {
    ghost var start := w.data;
    placed := es;
    var currentOffset: u32 := AsU32(w.pos);
    for i := 0 to |ps|
      invariant |placed| == |es|
      invariant w.data == start + Concat(ps[..i]) && w.pos == |w.data|
      invariant currentOffset == AsU32(|start| + |Concat(ps[..i])|)
      invariant forall j :: 0 <= j < |es| ==> placed[j] == if j < i then Placed(es, ps, |start|)[j] else es[j]
    {
      placed := placed[i := placed[i].(dataOffset := currentOffset)];
      OverwriteAtEnd(w.data, ps[i]);
      w.WriteAll(ps[i]);
      assert ps[..i + 1][..i] == ps[..i];
      WrappingAdd(|start| + |Concat(ps[..i])|, |ps[i]|);
      currentOffset := AsU32(currentOffset + AsU32(|ps[i]|));
    }
    assert ps[..|ps|] == ps;
  }

  // ----- The encoder object -----

  class McsEncoder {
    const compression: CompressionType
    var hasSignature: bool
    var chunks: map<ChunkPos, ChunkData>
    var signature: Option<seq<u8>>

    /** The map is well keyed, and the flag is set exactly when a signature is held. */
    predicate Valid()
      reads this
    {
      WellKeyed(chunks) && (hasSignature <==> signature.Some?)
    }

    /** `new`: no chunks and no signature. */
    constructor (compression: CompressionType)
      ensures Valid()
      ensures this.compression == compression && chunks == map[]
      ensures !hasSignature && signature == None
    {
      this.compression := compression;
      hasSignature := false;
      chunks := map[];
      signature := None;
    }

    /** `with_signature`: set the flag and keep the bytes. */
    method WithSignature(sig: seq<u8>)
      requires Valid()
      modifies this
      ensures Valid()
      ensures hasSignature && signature == Some(sig) && chunks == old(chunks)
    {
      hasSignature := true;
      signature := Some(sig);
    }

    /** `add_block`. */
    method AddBlock(id: Str, x: i32, y: i32, z: i32, nbt: Option<seq<u8>>) returns (r: Result<()>)
      requires Valid()
      modifies this
      ensures Valid()
      ensures hasSignature == old(hasSignature) && signature == old(signature)
      ensures match BlockAdded(old(chunks), id, x, y, z, nbt)
        case Ok(m) => r == Ok(()) && chunks == m
        case Err(e) => r == Err(e) && chunks == old(chunks)
    {
      if IsAir(id) {
        return Ok(());
      }
      var p := BlockPos(x, y, z);
      var pos := ChunkPosOf(p);
      var local := LocalPosOf(p);
      var valid := ValidateLocalPos(local);
      if valid.Err? {
        return Err(valid.error);
      }
      var chunk := if pos in chunks then chunks[pos] else ChunkData(pos, [], []);
      var found := FindEntry(chunk.palette, id);
      var index: u16;
      if found.Some? {
        index := AsU16(found.value);
      } else {
        chunk := chunk.(palette := chunk.palette + [id]);
        index := AsU16(|chunk.palette| - 1);
      }
      chunk := chunk.(blocks := chunk.blocks + [Block(index, local, nbt)]);
      AddBlockWellKeyed(chunks, id, x, y, z, nbt);
      chunks := chunks[pos := chunk];
      r := Ok(());
    }

    /** `add_blocks`: `add_block` at each position, returning the first error. */
    method AddBlocks(id: Str, ps: seq<(i32, i32, i32)>, nbt: Option<seq<u8>>) returns (r: Result<()>)
      requires Valid()
      modifies this
      ensures Valid()
      ensures hasSignature == old(hasSignature) && signature == old(signature)
      ensures (chunks, r) == BlocksAdded(old(chunks), id, ps, nbt)
    {
      var i := 0;
      while i < |ps|
        invariant i <= |ps| && Valid()
        invariant hasSignature == old(hasSignature) && signature == old(signature)
        invariant BlocksAdded(old(chunks), id, ps, nbt) == BlocksAdded(chunks, id, ps[i..], nbt)
      {
        assert ps[i..][1..] == ps[i + 1..];
        var (x, y, z) := ps[i];
        r := AddBlock(id, x, y, z, nbt);
        if r.Err? {
          return;
        }
        i := i + 1;
      }
      r := Ok(());
    }

    /** `add_chunk`: every block position is range-checked first, and only then
        is the chunk stored under its own coordinate, replacing any chunk there. */
    method AddChunk(c: ChunkData) returns (r: Result<()>)
      requires Valid()
      modifies this
      ensures Valid()
      ensures hasSignature == old(hasSignature) && signature == old(signature)
      ensures r.Ok? <==> PositionsValid(c)
      ensures r.Ok? ==> chunks == old(chunks)[c.pos := c]
      ensures r.Err? ==> r.error == CoordinateOutOfRange && chunks == old(chunks)
    {
      for i := 0 to |c.blocks|
        invariant forall j :: 0 <= j < i ==> ValidateLocalPos(c.blocks[j].pos).Ok?
      {
        var valid := ValidateLocalPos(c.blocks[i].pos);
        if valid.Err? {
          return Err(valid.error);
        }
      }
      chunks := chunks[c.pos := c];
      r := Ok(());
    }

    /** `get_chunks`: the map, each chunk under its own coordinate. */
    function GetChunks(): (m: map<ChunkPos, ChunkData>)
      reads this
      requires Valid()
      ensures WellKeyed(m)
    {
      chunks
    }

    /** `write_to_writer`, into an empty writer, with the map visited in
        `order`: on success the writer holds exactly the encoded file; when a
        chunk fails to compress only the header has been written; with no
        chunks nothing is written. */
    method WriteToWriter(lib: Library, w: Sink, order: seq<ChunkPos>) returns (r: Result<()>)
      requires Enumerates(order, chunks)
      requires w.data == [] && w.pos == 0
      modifies w
      ensures var f := EncodedFile(Compressor(lib, compression), compression, hasSignature, signature, chunks, order);
        && (f.Ok? ==> r == Ok(()) && w.data == f.value)
        && (f.Err? ==> r == Err(f.error))
      ensures r.Err? ==> w.data == if |chunks| == 0 then [] else HeaderBytes(compression, hasSignature, HEADER_SIZE)
    {
      if |chunks| == 0 {
        return Err(ValidationError(NoChunks));
      }
      WritePatchedHeader(w, compression, hasSignature);
      var compress := Compressor(lib, compression);
      var chunkIndex, chunkData, compressed := CompressAll(compress, order);
      if compressed.Err? {
        return Err(compressed.error);
      }
      assert chunkIndex == Placeholders(chunks, order, chunkData);
      assert |w.data| + 4 + 16 * |chunkIndex| == DataStart(|order|);
      chunkIndex := WriteIndexAndPayloads(w, chunkIndex, chunkData);
      assert chunkIndex == IndexFor(chunks, order, chunkData);
      ghost var body := w.data;
      w.SeekEnd();
      if hasSignature && signature.Some? {
        OverwriteAtEnd(w.data, signature.value);
        w.WriteAll(signature.value);
      }
      assert w.data == body + Trailer(hasSignature, signature);
      EncodedFileIs(compress, compression, hasSignature, signature, chunks, order, chunkData);
      r := Ok(());
    }

    /** Step 4 of `write_to_writer`: compress every chunk in visiting order and
        note a placeholder entry for each; the first failure is returned. */
    method CompressAll(compress: ChunkData -> Result<seq<u8>>, order: seq<ChunkPos>)
      returns (chunkIndex: seq<ChunkIndexEntry>, chunkData: seq<seq<u8>>, r: Result<()>)
      requires forall i :: 0 <= i < |order| ==> order[i] in chunks
      ensures Payloads(compress, chunks, order).Ok? ==>
        r == Ok(()) && chunkData == Payloads(compress, chunks, order).value
        && chunkIndex == Placeholders(chunks, order, chunkData)
      ensures Payloads(compress, chunks, order).Err? ==> r == Err(Payloads(compress, chunks, order).error)
    {
      chunkIndex, chunkData := [], [];
      for i := 0 to |order|
        invariant Payloads(compress, chunks, order[..i]) == Ok(chunkData)
        invariant |chunkIndex| == i
        invariant forall j :: 0 <= j < i ==> chunkIndex[j] == Placeholder(chunks[order[j]], chunkData[j])
      {
        var chunk := chunks[order[i]];
        var compressed := compress(chunk);
        PayloadsStep(compress, chunks, order, i, chunkData);
        if compressed.Err? {
          PayloadsStop(compress, chunks, order, i + 1);
          return chunkIndex, chunkData, Err(compressed.error);
        }
        chunkIndex := chunkIndex + [ChunkIndexEntry(chunk.pos.x, chunk.pos.z, 0, AsU32(|compressed.value|))];
        chunkData := chunkData + [compressed.value];
      }
      assert order[..|order|] == order;
      r := Ok(());
    }

    /** `clear`: drop every chunk; the settings stay. */
    method Clear()
      requires Valid()
      modifies this
      ensures Valid()
      ensures chunks == map[] && hasSignature == old(hasSignature) && signature == old(signature)
    {
      chunks := map[];
    }
  }
}
