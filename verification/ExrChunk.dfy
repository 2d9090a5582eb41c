/** A chunk's byte layout, and what decoding reads of its data. */
module ExrChunk {
  import opened Wrappers
  import opened Bytes
  import opened Inventory
  import ExrPiz
  import ExrZlib
  import ExrRle

  datatype Tile = Tile(x: nat, y: nat, levelX: nat, levelY: nat)

  /** The coordinates a chunk declares. */
  datatype Coord = Line(y: int) | TileCoord(tile: Tile)

  /** A pixel rectangle. */
  datatype Rect = Rect(x: int, y: int, w: nat, h: nat)

  datatype Blocks = ScanLines | Tiles(width: nat, height: nat)

  datatype Compression = Uncompressed | Rle | Zip | Pxr24 | Piz | B44 | Dwa | Htj2k

  /** What the walk uses of a parsed header. */
  datatype Header = Header(
    blocks: Blocks,
    deep: bool,
    compression: Compression,
    bytesPerPixel: nat,
    packedBytesPerPixel: nat,
    linesPerBlock: nat,
    layerWidth: nat
  )

  /**
   The parts of exr this walk calls and does not define: the tile coordinate
   parser, the rectangle of a block and the raw inflater.
   */
  datatype Exr = Exr(
    tile: seq<byte> -> Option<Tile>,
    rect: (Header, Coord) -> Option<Rect>,
    inflate: seq<byte> -> (nat -> ExrZlib.Reply)
  )

  /** The file and its parsed headers. */
  datatype File = File(data: seq<byte>, multipart: bool, headers: seq<Header>, exr: Exr)

  /** `part_field`, `size_fields` and `data` hold byte ranges of the file. */
  datatype Layout = Layout(
    start: nat,
    part: nat,
    partField: seq<Range>,
    coord: Coord,
    coordField: Range,
    sizeFields: seq<Range>,
    data: seq<Range>,
    end: nat
  ) {
    /** Every field in file order. */
    function Pieces(): (p: seq<Range>) {
      partField + [coordField] + sizeFields + data
    }
  }

  function Checked(n: nat): (r: Option<nat>) { if n < U64 then Some(n) else None }

  /** `Header::max_block_byte_size` with checked arithmetic. */
  function MaxBlockBytes(h: Header): (r: Option<nat>) {
    var area := match h.blocks
      case Tiles(w, t) => Checked(w * t)
      case ScanLines => Checked(h.linesPerBlock * h.layerWidth);
    if area.None? then None else Checked(h.bytesPerPixel * area.value)
  }

  /** The part number, in multi-part files: the part, and where its field ends. */
  function ReadPart(f: File, pos: nat): (r: Result<(nat, nat), nat>)
    requires |f.headers| > 0
    ensures r.Ok? ==> r.value.0 < |f.headers| && r.value.1 == (if f.multipart then pos + 4 else pos)
    ensures r.Ok? && f.multipart ==> pos + 4 <= |f.data|
  {
    if !f.multipart then Ok((0, pos))
    else if pos + 4 > |f.data| then Err(|f.data|)
    else
      var part := Signed32(U32At(f.data, pos));
      if part < 0 || part >= |f.headers| then Err(pos + 4) else Ok((part, pos + 4))
  }

  /** The coordinates at `p`, and where they end. */
  function ReadCoord(f: File, h: Header, p: nat): (r: Result<(Coord, nat), nat>)
    ensures r.Ok? ==> p < r.value.1 <= |f.data|
  {
    match h.blocks
    case ScanLines =>
      if p + 4 > |f.data| then Err(|f.data|) else Ok((Line(Signed32(U32At(f.data, p))), p + 4))
    case Tiles(_, _) =>
      if p + 16 > |f.data| then Err(|f.data|) else
      match f.exr.tile(f.data[p..p + 16])
      case None => Err(p + 16)
      case Some(t) => Ok((TileCoord(t), p + 16))
  }

  /** The sizes at `p` and the data after them: their fields, the pieces of data, and the end. */
  function ReadContent(data: seq<byte>, deep: bool, p: nat, hardMax: Option<nat>)
    : (r: Result<(seq<Range>, seq<Range>, nat), nat>)
  {
    var total := |data|;
    if deep then
      if p + 24 > total then Err(total) else
      var q := p + 24;
      var mid := q + U64At(data, p);
      if mid > total then Err(total) else
      var end := mid + U64At(data, p + 8);
      if end > total then Err(total)
      else Ok(([Range(p, p + 8), Range(p + 8, p + 16), Range(p + 16, q)], [Range(q, mid), Range(mid, end)], end))
    else
      if p + 4 > total then Err(total) else
      var size := Signed32(U32At(data, p));
      if size < 0 || (hardMax.Some? && size > hardMax.value) then Err(p + 4) else
      var end := p + 4 + size;
      if end > total then Err(total) else Ok(([Range(p, p + 4)], [Range(p + 4, end)], end))
  }

  /** `Chunk::read` at `pos`. An error carries how far the reader got. */
  function ReadChunk(f: File, pos: nat, hardMax: Option<nat>): (r: Result<Layout, nat>)
    requires |f.headers| > 0
    ensures r.Ok? ==> r.value.start == pos && r.value.part < |f.headers|
  {
    match ReadPart(f, pos)
    case Err(upto) => Err(upto)
    case Ok((part, p0)) =>
      match ReadCoord(f, f.headers[part], p0)
      case Err(upto) => Err(upto)
      case Ok((coord, p)) =>
        match ReadContent(f.data, f.headers[part].deep, p, hardMax)
        case Err(upto) => Err(upto)
        case Ok((sizes, data, end)) =>
          Ok(Layout(pos, part, if f.multipart then [Range(pos, p0)] else [], coord, Range(p0, p), sizes, data, end))
  }

  /** A chunk that reads advances and stays in the file, and so do its data. */
  lemma ReadChunkBounds(f: File, pos: nat, hardMax: Option<nat>)
    requires |f.headers| > 0
    ensures var r := ReadChunk(f, pos, hardMax);
      r.Ok? ==>
        && pos < r.value.end <= |f.data| && |r.value.data| > 0
        && r.value.coordField.start < r.value.coordField.end
        && forall d :: d in r.value.data ==> d.start <= d.end <= |f.data|
  {
  }

  lemma PiecesTile(a: seq<Range>, b: Range, c: seq<Range>, d: seq<Range>, start: nat, end: nat)
    requires |c| > 0 && |d| > 0 && Tiling(a, start, b.start) && b.start <= b.end
    requires Tiling(c, b.end, d[0].start) && Tiling(d, d[0].start, end)
    ensures Tiling(a + [b] + c + d, start, end)
  {
  }

  /** The fields of a chunk that reads tile it, in file order. */
  lemma ReadChunkTiles(f: File, pos: nat, hardMax: Option<nat>)
    requires |f.headers| > 0
    ensures var r := ReadChunk(f, pos, hardMax);
      r.Ok? ==> Tiling(r.value.Pieces(), pos, r.value.end)
  {
    hide U32At, U64At;
    var r := ReadChunk(f, pos, hardMax);
    if r.Ok? {
      var Layout(_, _, partField, _, coordField, sizeFields, data, end) := r.value;
      PiecesTile(partField, coordField, sizeFields, data, pos, end);
    }
  }

  // ---- What decoding reads of a chunk's data ----

  datatype DataUse =
    | Whole
    | Split(used: nat)
    | Fields(fields: seq<ExrPiz.Field>)

  /** The use tiles `len` bytes of data. */
  ghost predicate UseTiles(u: DataUse, len: nat) {
    match u
    case Whole => true
    case Split(used) => used < len
    case Fields(fields) => Tiling(ExrPiz.RangesOf(fields), 0, len)
  }

  function Saturate(n: nat): (s: nat) { if n < U64 then n else U64 - 1 }

  /** What decoding reads of one chunk's data; `None` when it rejects the chunk. */
  function DataUseOf(f: File, h: Header, rect: Rect, bytes: seq<byte>): (u: Option<DataUse>)
  {
    var expected := Saturate(rect.w * rect.h * h.bytesPerPixel);
    if |bytes| == expected then Some(Whole) else
    match h.compression
    case Uncompressed => None
    case Rle => if ExrRle.Consumed(bytes, expected) == Ok((|bytes|, expected)) then Some(Whole) else None
    case Zip => ZlibUse(f, bytes, expected)
    case Pxr24 => ZlibUse(f, bytes, Saturate(rect.w * rect.h * h.packedBytesPerPixel))
    case Piz =>
      if ExrPiz.FramingError(bytes).Some? then None else
      Some(Fields(ExrPiz.PizLayout(
        ExrPiz.PizBitmapEnd(bytes), ExrPiz.TableEnd(ExrPiz.ChunkTable(bytes).value), |bytes|)))
    case B44 => Some(Whole)
    case Dwa => Some(Whole)
    case Htj2k => None
  }

  /** A zlib block of `want` bytes: bytes after the stream's Adler-32 are never read. */
  function ZlibUse(f: File, bytes: seq<byte>, want: nat): (u: Option<DataUse>) {
    if ExrZlib.HeaderError(bytes).Some? then None else
    match ExrZlib.StreamEnd(f.exr.inflate(bytes), bytes, want, 0, 2, [])
    case Ok((end, produced)) =>
      if produced != want then None else if end < |bytes| then Some(Split(end)) else Some(Whole)
    case Err(Corrupt) => Some(Whole)
    case Err(_) => None
  }

  lemma DataUseTiles(f: File, h: Header, rect: Rect, bytes: seq<byte>)
    ensures DataUseOf(f, h, rect, bytes).Some? ==> UseTiles(DataUseOf(f, h, rect, bytes).value, |bytes|)
  {
    hide ExrPiz.FramingError, ExrPiz.PizLayout, ExrPiz.TableEnd, ExrPiz.ChunkTable, ExrPiz.PizBitmapEnd, Saturate;
    hide ExrRle.Consumed, ExrZlib.StreamEnd, ExrZlib.HeaderError, Tiling;
    var unpacked := Saturate(rect.w * rect.h * h.bytesPerPixel);
    if |bytes| != unpacked && h.compression.Piz? && ExrPiz.FramingError(bytes).None? {
      ExrPiz.PizFieldsTile(bytes);
    }
  }
}
