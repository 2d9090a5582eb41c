/** Chunks as a file stores them, field by field, and that reading one gives it back. */
module ExrStored {
  import opened Wrappers
  import opened Bytes
  import opened Inventory
  import opened ExrChunk
  import ExrPiz
  import ExrRle
  import ExrZlib

  // ---- The bytes of a chunk ----

  /** A scan line, or the sixteen bytes of tile coordinates. */
  datatype Place = LineAt(y: int) | TileAt(raw: seq<byte>)

  datatype Content = Flat(bytes: seq<byte>) | Deep(table: seq<byte>, samples: seq<byte>, unpacked: nat)

  datatype Stored = Stored(part: nat, place: Place, content: Content)

  /** Sizes are 31 bits in a flat chunk and 64 bits in a deep one. */
  predicate Sized(c: Content) {
    match c
    case Flat(bytes) => |bytes| < 0x8000_0000
    case Deep(table, samples, unpacked) => |table| < U64 && |samples| < U64 && unpacked < U64
  }

  predicate Placed(p: Place) {
    match p
    case LineAt(y) => IsI32(y)
    case TileAt(raw) => |raw| == 16
  }

  function PartBytes(multipart: bool, part: nat): (b: seq<byte>)
    requires part < 0x8000_0000
  {
    if multipart then Le32(part) else []
  }

  function PlaceBytes(p: Place): (b: seq<byte>)
    requires Placed(p)
  {
    match p
    case LineAt(y) => Le32(Unsigned32(y))
    case TileAt(raw) => raw
  }

  function SizeBytes(c: Content): (b: seq<byte>)
    requires Sized(c)
  {
    match c
    case Flat(bytes) => Le32(|bytes|)
    case Deep(table, samples, unpacked) => Le64(|table|) + Le64(|samples|) + Le64(unpacked)
  }

  function DataBytes(c: Content): (b: seq<byte>) {
    match c
    case Flat(bytes) => bytes
    case Deep(table, samples, _) => table + samples
  }

  /** A chunk that file `f` can hold and its reader accepts. */
  predicate Fits(f: File, c: Stored, hardMax: Option<nat>) {
    && c.part < |f.headers| && c.part < 0x8000_0000 && (!f.multipart ==> c.part == 0)
    && Placed(c.place) && Sized(c.content)
    && var h := f.headers[c.part];
       && (match c.place
           case LineAt(_) => h.blocks.ScanLines?
           case TileAt(raw) => h.blocks.Tiles? && f.exr.tile(raw).Some?)
       && (match c.content
           case Flat(bytes) => !h.deep && (hardMax.Some? ==> |bytes| <= hardMax.value)
           case Deep(_, _, _) => h.deep)
  }

  /** Part number, coordinates, sizes and data, all little-endian. */
  ghost predicate StoredAt(f: File, pos: nat, c: Stored)
    requires c.part < 0x8000_0000 && Placed(c.place) && Sized(c.content)
  {
    HoldsAt(f.data, pos, PartBytes(f.multipart, c.part) + PlaceBytes(c.place) + SizeBytes(c.content)
                         + DataBytes(c.content))
  }

  /** Where its fields are. */
  function LayoutAt(f: File, pos: nat, c: Stored): (l: Layout)
    requires c.place.TileAt? ==> f.exr.tile(c.place.raw).Some?
  {
    var a := if f.multipart then pos + 4 else pos;
    var partField := if f.multipart then [Range(pos, pos + 4)] else [];
    var (coord, b) := match c.place
      case LineAt(y) => (Line(y), a + 4)
      case TileAt(raw) => (TileCoord(f.exr.tile(raw).value), a + 16);
    match c.content
    case Flat(bytes) =>
      Layout(pos, c.part, partField, coord, Range(a, b), [Range(b, b + 4)], [Range(b + 4, b + 4 + |bytes|)],
             b + 4 + |bytes|)
    case Deep(table, samples, _) =>
      var (d, e) := (b + 24 + |table|, b + 24 + |table| + |samples|);
      Layout(pos, c.part, partField, coord, Range(a, b), [Range(b, b + 8), Range(b + 8, b + 16), Range(b + 16, b + 24)],
             [Range(b + 24, d), Range(d, e)], e)
  }

  // ---- What is stored is read ----

  lemma {:induction false} FourHeld(data: seq<byte>, pos: nat, w: seq<byte>, x: seq<byte>, y: seq<byte>, z: seq<byte>)
    ensures HoldsAt(data, pos, w + x + y + z) <==>
      && HoldsAt(data, pos, w) && HoldsAt(data, pos + |w|, x) && HoldsAt(data, pos + |w| + |x|, y)
      && HoldsAt(data, pos + |w| + |x| + |y|, z)
  {
    hide HoldsAt;
    if HoldsAt(data, pos, w + x + y + z) {
      HoldsParts(data, pos, w + x + y, z);
      HoldsParts(data, pos, w + x, y);
      HoldsParts(data, pos, w, x);
    }
    if HoldsAt(data, pos, w) && HoldsAt(data, pos + |w|, x) && HoldsAt(data, pos + |w| + |x|, y)
       && HoldsAt(data, pos + |w| + |x| + |y|, z)
    {
      HoldsBoth(data, pos, w, x);
      HoldsBoth(data, pos, w + x, y);
      HoldsBoth(data, pos, w + x + y, z);
    }
  }

  lemma {:induction false} PartIsRead(f: File, pos: nat, part: nat)
    requires part < |f.headers| && part < 0x8000_0000 && (!f.multipart ==> part == 0)
    requires HoldsAt(f.data, pos, PartBytes(f.multipart, part))
    ensures ReadPart(f, pos) == Ok((part, if f.multipart then pos + 4 else pos))
  {
    if f.multipart { ReadLe32(f.data, pos, part); }
  }

  lemma {:induction false} PlaceIsRead(f: File, h: Header, p: nat, place: Place)
    requires Placed(place) && HoldsAt(f.data, p, PlaceBytes(place))
    requires match place
      case LineAt(_) => h.blocks.ScanLines?
      case TileAt(raw) => h.blocks.Tiles? && f.exr.tile(raw).Some?
    ensures ReadCoord(f, h, p) == Ok(match place
      case LineAt(y) => (Line(y), p + 4)
      case TileAt(raw) => (TileCoord(f.exr.tile(raw).value), p + 16))
  {
    match place
    case LineAt(y) =>
      ReadLe32(f.data, p, Unsigned32(y));
      SignedBack(y);
    case TileAt(raw) =>
      assert f.data[p..p + 16] == raw;
  }

  lemma SignedBack(z: int)
    requires IsI32(z)
    ensures Signed32(Unsigned32(z)) == z
  {
  }

  /** The ranges of the sizes and of the data, and the end. */
  function ContentAt(p: nat, c: Content): (r: (seq<Range>, seq<Range>, nat)) {
    match c
    case Flat(bytes) => ([Range(p, p + 4)], [Range(p + 4, p + 4 + |bytes|)], p + 4 + |bytes|)
    case Deep(table, samples, _) =>
      var (d, e) := (p + 24 + |table|, p + 24 + |table| + |samples|);
      ([Range(p, p + 8), Range(p + 8, p + 16), Range(p + 16, p + 24)], [Range(p + 24, d), Range(d, e)], e)
  }

  lemma {:induction false} ContentIsRead(data: seq<byte>, p: nat, c: Content, hardMax: Option<nat>)
    requires Sized(c) && (c.Flat? && hardMax.Some? ==> |c.bytes| <= hardMax.value)
    requires HoldsAt(data, p, SizeBytes(c)) && HoldsAt(data, p + |SizeBytes(c)|, DataBytes(c))
    ensures ReadContent(data, c.Deep?, p, hardMax) == Ok(ContentAt(p, c))
  {
    hide Le32, Le64, U32At, U64At;
    match c
    case Flat(bytes) => ReadLe32(data, p, |bytes|);
    case Deep(table, samples, unpacked) =>
      HoldsParts(data, p, Le64(|table|) + Le64(|samples|), Le64(unpacked));
      HoldsParts(data, p, Le64(|table|), Le64(|samples|));
      ReadLe64(data, p, |table|);
      ReadLe64(data, p + 8, |samples|);
  }

  /** A chunk the file stores is read as exactly its part, coordinates, fields and data. */
  lemma {:induction false} StoredIsRead(f: File, pos: nat, c: Stored, hardMax: Option<nat>)
    requires Fits(f, c, hardMax) && StoredAt(f, pos, c)
    ensures ReadChunk(f, pos, hardMax) == Ok(LayoutAt(f, pos, c))
  {
    hide ReadPart, ReadCoord, ReadContent, Le32, Le64, U32At, U64At, HoldsAt;
    var (w, x, y, z) :=
      (PartBytes(f.multipart, c.part), PlaceBytes(c.place), SizeBytes(c.content), DataBytes(c.content));
    FourHeld(f.data, pos, w, x, y, z);
    PartIsRead(f, pos, c.part);
    PlaceIsRead(f, f.headers[c.part], pos + |w|, c.place);
    ContentIsRead(f.data, pos + |w| + |x|, c.content, hardMax);
  }

  // ---- What is read is stored ----

  lemma {:induction false} PartIsHeld(f: File, pos: nat)
    requires |f.headers| > 0 && ReadPart(f, pos).Ok?
    ensures
      var part := ReadPart(f, pos).value.0;
      && part < 0x8000_0000 && (!f.multipart ==> part == 0)
      && (pos <= |f.data| ==> HoldsAt(f.data, pos, PartBytes(f.multipart, part)))
  {
    hide Le32, U32At;
    if f.multipart { HeldLe32(f.data, pos); }
  }

  lemma {:induction false} PlaceIsHeld(f: File, h: Header, p: nat) returns (place: Place)
    requires ReadCoord(f, h, p).Ok?
    ensures Placed(place) && HoldsAt(f.data, p, PlaceBytes(place))
    ensures match place
      case LineAt(y) => h.blocks.ScanLines? && ReadCoord(f, h, p).value == (Line(y), p + 4)
      case TileAt(raw) =>
        h.blocks.Tiles? && f.exr.tile(raw).Some?
        && ReadCoord(f, h, p).value == (TileCoord(f.exr.tile(raw).value), p + 16)
  {
    hide Le32, U32At;
    match h.blocks
    case ScanLines =>
      HeldLe32(f.data, p);
      place := LineAt(Signed32(U32At(f.data, p)));
    case Tiles(_, _) =>
      place := TileAt(f.data[p..p + 16]);
  }

  lemma {:induction false} ContentIsHeld(data: seq<byte>, deep: bool, p: nat, hardMax: Option<nat>)
      returns (c: Content)
    requires ReadContent(data, deep, p, hardMax).Ok?
    ensures Sized(c) && c.Deep? == deep && (c.Flat? && hardMax.Some? ==> |c.bytes| <= hardMax.value)
    ensures HoldsAt(data, p, SizeBytes(c)) && HoldsAt(data, p + |SizeBytes(c)|, DataBytes(c))
    ensures ReadContent(data, deep, p, hardMax) == Ok(ContentAt(p, c))
  {
    hide Le32, Le64, U32At, U64At;
    if deep {
      var (q, n) := (p + 24, U64At(data, p));
      c := Deep(data[q..q + n], data[q + n..q + n + U64At(data, p + 8)], U64At(data, p + 16));
      HeldLe64(data, p);
      HeldLe64(data, p + 8);
      HeldLe64(data, p + 16);
      HoldsBoth(data, p, Le64(n), Le64(|c.samples|));
      HoldsBoth(data, p, Le64(n) + Le64(|c.samples|), Le64(c.unpacked));
      HoldsBoth(data, q, c.table, c.samples);
    } else {
      HeldLe32(data, p);
      c := Flat(data[p + 4..p + 4 + U32At(data, p)]);
    }
  }

  /** And whatever is read is stored there: reading accepts exactly the chunks that fit. */
  lemma {:induction false} ReadIsStored(f: File, pos: nat, hardMax: Option<nat>) returns (c: Stored)
    requires |f.headers| > 0 && ReadChunk(f, pos, hardMax).Ok?
    ensures Fits(f, c, hardMax) && StoredAt(f, pos, c) && ReadChunk(f, pos, hardMax) == Ok(LayoutAt(f, pos, c))
  {
    hide ReadPart, ReadCoord, ReadContent, Le32, Le64, HoldsAt;
    PartIsHeld(f, pos);
    var (part, p0) := ReadPart(f, pos).value;
    var place := PlaceIsHeld(f, f.headers[part], p0);
    var p := ReadCoord(f, f.headers[part], p0).value.1;
    var content := ContentIsHeld(f.data, f.headers[part].deep, p, hardMax);
    c := Stored(part, place, content);
    FourHeld(f.data, pos, PartBytes(f.multipart, part), PlaceBytes(place), SizeBytes(content), DataBytes(content));
  }

  // ---- What is refused ----

  /** The part number at `pos` names no header. */
  ghost predicate BadPart(f: File, pos: nat) {
    f.multipart && exists n: nat :: n < U32 && HoldsAt(f.data, pos, Le32(n)) && (n >= 0x8000_0000 || n >= |f.headers|)
  }

  /** The tile coordinates at `p` are refused. */
  ghost predicate BadTile(f: File, h: Header, p: nat) {
    h.blocks.Tiles? && p + 16 <= |f.data| && f.exr.tile(f.data[p..p + 16]).None?
  }

  /** The size at `p` is negative or over the maximum. */
  ghost predicate BadSize(f: File, h: Header, p: nat, hardMax: Option<nat>) {
    !h.deep
    && exists n: nat ::
         n < U32 && HoldsAt(f.data, p, Le32(n)) && (n >= 0x8000_0000 || (hardMax.Some? && n > hardMax.value))
  }

  /**
   How far the reader got with a chunk it refuses: past the part number, past the tile
   coordinates or past the size if that is what is wrong, and otherwise to the end of
   the file, which the chunk runs past.
   */
  lemma {:induction false} RefusalEnds(f: File, pos: nat, hardMax: Option<nat>)
    requires |f.headers| > 0 && ReadChunk(f, pos, hardMax).Err?
    ensures
      var upto := ReadChunk(f, pos, hardMax).error;
      if BadPart(f, pos) then upto == pos + 4
      else if ReadPart(f, pos).Err? then upto == |f.data| && f.multipart && pos + 4 > |f.data|
      else
        var part := ReadPart(f, pos).value.0;
        var p0 := if f.multipart then pos + 4 else pos;
        var p := p0 + if f.headers[part].blocks.Tiles? then 16 else 4;
        && (part < 0x8000_0000 && (if f.multipart then HoldsAt(f.data, pos, Le32(part)) else part == 0))
        && if BadTile(f, f.headers[part], p0) then upto == p
           else if p <= |f.data| && BadSize(f, f.headers[part], p, hardMax) then upto == p + 4
           else upto == |f.data|
  {
    hide Le32, Le64, U32At, U64At;
    PartRefused(f, pos);
    if ReadPart(f, pos).Ok? {
      PartIsHeld(f, pos);
      var (part, p0) := ReadPart(f, pos).value;
      if ReadCoord(f, f.headers[part], p0).Ok? {
        ContentRefused(f, f.headers[part], ReadCoord(f, f.headers[part], p0).value.1, hardMax);
      }
    }
  }

  lemma {:induction false} PartRefused(f: File, pos: nat)
    requires |f.headers| > 0
    ensures ReadPart(f, pos).Err? <==> (f.multipart && pos + 4 > |f.data|) || BadPart(f, pos)
    ensures BadPart(f, pos) ==> ReadPart(f, pos) == Err(pos + 4)
    ensures ReadPart(f, pos).Err? && !BadPart(f, pos) ==> ReadPart(f, pos) == Err(|f.data|)
  {
    hide Le32, U32At;
    if f.multipart && pos + 4 <= |f.data| { HeldLe32(f.data, pos); }
    if n: nat :| f.multipart && n < U32 && HoldsAt(f.data, pos, Le32(n)) && (n >= 0x8000_0000 || n >= |f.headers|) {
      ReadLe32(f.data, pos, n);
    }
  }

  lemma {:induction false} ContentRefused(f: File, h: Header, p: nat, hardMax: Option<nat>)
    requires p <= |f.data|
    ensures BadSize(f, h, p, hardMax) ==> ReadContent(f.data, h.deep, p, hardMax) == Err(p + 4)
    ensures ReadContent(f.data, h.deep, p, hardMax).Err? && !BadSize(f, h, p, hardMax) ==>
      ReadContent(f.data, h.deep, p, hardMax) == Err(|f.data|)
  {
    hide Le32, U32At, U64At;
    if !h.deep && p + 4 <= |f.data| { HeldLe32(f.data, p); }
    if n: nat :| !h.deep && n < U32 && HoldsAt(f.data, p, Le32(n))
                 && (n >= 0x8000_0000 || (hardMax.Some? && n > hardMax.value))
    {
      ReadLe32(f.data, p, n);
    }
  }

  /** So the reader always gets past the first byte, and never past the file. */
  lemma {:induction false} RefusalInFile(f: File, pos: nat, hardMax: Option<nat>)
    requires |f.headers| > 0 && pos < |f.data| && ReadChunk(f, pos, hardMax).Err?
    ensures pos < ReadChunk(f, pos, hardMax).error <= |f.data|
  {
    hide Le32, Le64, U32At, U64At;
    RefusalEnds(f, pos, hardMax);
  }

  // ---- The maximum ----

  /** Width and height of a whole block. */
  function BlockSize(h: Header): (s: (nat, nat)) {
    match h.blocks
    case Tiles(w, t) => (w, t)
    case ScanLines => (h.layerWidth, h.linesPerBlock)
  }

  /** No block stored raw is over the maximum, and a whole one is exactly at it. */
  lemma {:induction false} RawBlocksFit(h: Header, w: nat, t: nat)
    requires MaxBlockBytes(h).Some? && w <= BlockSize(h).0 && t <= BlockSize(h).1
    ensures w * t * h.bytesPerPixel <= MaxBlockBytes(h).value < U64
    ensures (w, t) == BlockSize(h) ==> w * t * h.bytesPerPixel == MaxBlockBytes(h).value
  {
    var (bw, bt) := BlockSize(h);
    Grows(w, bw, t, bt);
    Grows(w * t, bw * bt, h.bytesPerPixel, h.bytesPerPixel);
  }

  lemma Grows(a: nat, b: nat, c: nat, d: nat)
    requires a <= b && c <= d
    ensures a * c <= b * d
  {
    assert a * c <= b * c <= b * d;
  }

  /** There is no maximum exactly when the bytes of a whole block, or its pixels, do not fit 64 bits. */
  lemma {:induction false} NoMaximumIff(h: Header)
    ensures
      var (w, t) := BlockSize(h);
      MaxBlockBytes(h).None? <==> w * t >= U64 || w * t * h.bytesPerPixel >= U64
  {
  }

  // ---- What decoding reads of the data ----

  /** The bytes a block needs, in 64 bits. */
  function Needed(rect: Rect, perPixel: nat): (n: nat) { Min(rect.w * rect.h * perPixel, U64 - 1) }

  /** The two bytes that RFC 1950 demands: deflate, a window of at most 32 KiB, and a multiple of 31. */
  predicate ZlibHeader(bytes: seq<byte>) {
    && |bytes| >= 6 && bytes[0] % 16 == 8 && bytes[0] / 16 <= 7
    && (bytes[0] as int * 256 + bytes[1] as int) % 31 == 0
  }

  /** A zlib stream in `bytes` that ends at `end` having given `want` bytes. */
  ghost predicate ZlibGives(f: File, bytes: seq<byte>, want: nat, end: nat) {
    && ZlibHeader(bytes)
    && ExrZlib.StreamEnd(f.exr.inflate(bytes), bytes, want, 0, 2, []) == Ok((end, want))
  }

  /** All of a stream's bytes are used, and those after it are slack; a stream that breaks off is not told apart. */
  ghost predicate ZlibUsed(f: File, bytes: seq<byte>, want: nat, u: Option<DataUse>) {
    && (u.Some? ==> u.value.Split? || u.value.Whole?)
    && (forall end: nat :: ZlibGives(f, bytes, want, end) ==> u == Some(if end < |bytes| then Split(end) else Whole))
    && ((forall end: nat :: !ZlibGives(f, bytes, want, end)) ==>
          (u.Some? <==> ZlibHeader(bytes)
                        && ExrZlib.StreamEnd(f.exr.inflate(bytes), bytes, want, 0, 2, []) == Err(ExrZlib.Corrupt)))
  }

  lemma {:induction false} ZlibUseIs(f: File, bytes: seq<byte>, want: nat)
    ensures ZlibUsed(f, bytes, want, ZlibUse(f, bytes, want))
  {
    hide ExrZlib.StreamEnd;
    if ZlibHeader(bytes) {
      match ExrZlib.StreamEnd(f.exr.inflate(bytes), bytes, want, 0, 2, [])
      case Ok((at, produced)) =>
        if produced == want { assert ZlibGives(f, bytes, want, at); }
      case Err(_) =>
    }
  }

  /**
   What decoding reads of a block's data, by compression: the raw bytes whenever there
   are exactly as many as the block needs, whatever the compression; otherwise nothing
   uncompressed or HTJ2K, RLE tokens that give the block, a zlib stream of the block or,
   for PXR24, of the packed block, PIZ data whose framing holds, and any B44 or DWA data.
   */
  lemma {:induction false} DataUseIs(f: File, h: Header, rect: Rect, bytes: seq<byte>)
    ensures
      var (u, size) := (DataUseOf(f, h, rect, bytes), Needed(rect, h.bytesPerPixel));
      if |bytes| == size then u == Some(Whole)
      else
        match h.compression
        case Uncompressed => u.None?
        case Htj2k => u.None?
        case Rle => u == if exists ts :: ExrRle.Tokenizes(bytes, 0, size, ts) then Some(Whole) else None
        case Zip => ZlibUsed(f, bytes, size, u)
        case Pxr24 => ZlibUsed(f, bytes, Needed(rect, h.packedBytesPerPixel), u)
        case Piz => u.Some? == ExrPiz.FramingError(bytes).None? && (u.Some? ==> u.value.Fields?)
        case B44 => u == Some(Whole)
        case Dwa => u == Some(Whole)
  {
    hide ExrRle.Consumed, ExrRle.Tokenizes, ExrPiz.FramingError, ExrPiz.PizLayout, ExrZlib.StreamEnd;
    hide ZlibUse, ZlibUsed;
    ZlibUseIs(f, bytes, Needed(rect, h.bytesPerPixel));
    ZlibUseIs(f, bytes, Needed(rect, h.packedBytesPerPixel));
    ExrRle.AcceptedIsTokenized(bytes, Needed(rect, h.bytesPerPixel));
  }
}
