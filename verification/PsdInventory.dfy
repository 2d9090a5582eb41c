/** The byte map of a parsed file: sections, their segments, and the resource blocks the decoder kept. */
module PsdInventory {
  import opened Wrappers
  import opened Bytes
  import opened Planes
  import Bits
  import opened Inventory
  import opened Nesting
  import opened PsdPredictor
  import opened PsdHeader
  import opened PsdPlanes
  import opened PsdResources
  import opened PsdLayout
  import opened PsdMerged

  // ---- Pieces of a section ----

  /** A piece from where the last one ended to `end`. */
  datatype Piece = Piece(end: nat, disposition: Disposition)

  /** Where piece `i` begins. */
  function Begins(from: nat, pieces: seq<Piece>, i: nat): (at: nat)
    requires i <= |pieces|
  {
    if i == 0 then from else pieces[i - 1].end
  }

  /** The pieces go up from `from` to `end`. */
  ghost predicate Cut(from: nat, pieces: seq<Piece>, end: nat) {
    && Begins(from, pieces, |pieces|) == end
    && forall i :: 0 <= i < |pieces| ==> Begins(from, pieces, i) <= pieces[i].end
  }

  lemma {:induction false} CutJoins(from: nat, a: seq<Piece>, mid: nat, b: seq<Piece>, end: nat)
    requires Cut(from, a, mid) && Cut(mid, b, end)
    ensures Cut(from, a + b, end)
  {
    var c := a + b;
    forall i | 0 <= i < |c| ensures Begins(from, c, i) <= c[i].end {
      if i < |a| { assert Begins(from, a, i) <= a[i].end; } else { assert Begins(mid, b, i - |a|) <= b[i - |a|].end; }
    }
  }

  lemma {:induction false} CutOrdered(from: nat, pieces: seq<Piece>, end: nat, i: nat)
    requires Cut(from, pieces, end) && i <= |pieces|
    ensures from <= Begins(from, pieces, i)
    decreases i
  {
    if i > 0 {
      CutOrdered(from, pieces, end, i - 1);
      assert Begins(from, pieces, i - 1) <= pieces[i - 1].end;
    }
  }

  lemma {:induction false} CutEnds(from: nat, pieces: seq<Piece>, end: nat)
    requires Cut(from, pieces, end)
    ensures Begins(from, pieces, |pieces|) == end
  {
  }

  /** The parts of the first `n` pieces; an empty piece has none. */
  function PieceParts(parent: nat, kind: Kind, from: nat, pieces: seq<Piece>, n: nat): (parts: seq<Part>)
    requires n <= |pieces|
    ensures forall i :: 0 <= i < |parts| ==> parts[i].parent == Some(parent) && parts[i].kind == kind
    decreases n
  {
    if n == 0 then []
    else
      var at := Begins(from, pieces, n - 1);
      PieceParts(parent, kind, from, pieces, n - 1)
      + (if at < pieces[n - 1].end
         then [Part(Some(parent), kind, Range(at, pieces[n - 1].end), pieces[n - 1].disposition)]
         else [])
  }

  /** Exactly the pieces that are not empty have parts, each from where the one before it ends. */
  lemma {:induction false} PartsOfPieces(parent: nat, kind: Kind, from: nat, pieces: seq<Piece>, n: nat)
    requires n <= |pieces|
    ensures forall p :: p in PieceParts(parent, kind, from, pieces, n) <==>
      exists i :: 0 <= i < n && IsPiece(parent, kind, from, pieces, i, p)
    decreases n
  {
    if n > 0 { PartsOfPieces(parent, kind, from, pieces, n - 1); }
    var (now, before) := (PieceParts(parent, kind, from, pieces, n),
                          if n > 0 then PieceParts(parent, kind, from, pieces, n - 1) else []);
    forall p ensures p in now <==> exists i :: 0 <= i < n && IsPiece(parent, kind, from, pieces, i, p) {
      if n > 0 { assert p in now <==> p in before || IsPiece(parent, kind, from, pieces, n - 1, p); }
    }
  }

  ghost predicate IsPiece(parent: nat, kind: Kind, from: nat, pieces: seq<Piece>, i: nat, p: Part)
    requires i < |pieces|
  {
    var at := Begins(from, pieces, i);
    at < pieces[i].end && p == Part(Some(parent), kind, Range(at, pieces[i].end), pieces[i].disposition)
  }

  /** Records the pieces that are not empty. */
  method AddPieces(w: Recorder, parent: nat, kind: Kind, from: nat, pieces: seq<Piece>, ghost start: nat,
      ghost end: nat)
    requires WellParented(w.parts) && parent < |w.parts| && OpenAt(w.parts, Some(parent), start, from)
      && Cut(from, pieces, end)
    modifies w
    ensures AddsUnder(old(w.parts), w.parts, Some(parent)) && OpenAt(w.parts, Some(parent), start, end)
    ensures w.parts == old(w.parts) + PieceParts(parent, kind, from, pieces, |pieces|)
  {
    hide OpenAt, Tiling, ChildRanges, WellParented, AddsUnder;
    ghost var before := w.parts;
    AddsNothing(before, Some(parent));
    var i, pos: nat := 0, from;
    while i < |pieces|
      invariant i <= |pieces| && pos == Begins(from, pieces, i)
      invariant WellParented(w.parts) && parent < |w.parts| && AddsUnder(before, w.parts, Some(parent))
      invariant OpenAt(w.parts, Some(parent), start, pos)
      invariant w.parts == before + PieceParts(parent, kind, from, pieces, i)
    {
      if pos < pieces[i].end {
        ghost var mid := w.parts;
        var _ := Add(w, Some(parent), kind, Range(pos, pieces[i].end), pieces[i].disposition, start);
        AddsTwice(before, mid, w.parts, Some(parent), Some(parent));
        KeepsParts(mid, w.parts, Some(parent));
      }
      pos := pieces[i].end;
      i := i + 1;
    }
  }

  /** A section's own part, then its pieces'. */
  function SectionParts(id: nat, parent: Option<nat>, kind: Kind, range: Range, disposition: Disposition,
    pieceKind: Kind, pieces: seq<Piece>): (parts: seq<Part>)
  {
    [Part(parent, kind, range, disposition)] + PieceParts(id, pieceKind, range.start, pieces, |pieces|)
  }

  /** A section and its pieces. */
  method AddSection(w: Recorder, parent: Option<nat>, kind: Kind, range: Range, disposition: Disposition,
    pieceKind: Kind, pieces: seq<Piece>, ghost start: nat) returns (id: nat)
    requires WellParented(w.parts) && (parent.Some? ==> parent.value < |w.parts|) &&
      OpenAt(w.parts, parent, start, range.start)
    requires Cut(range.start, pieces, range.end)
    modifies w
    ensures id == |old(w.parts)| < |w.parts|
    ensures w.parts == old(w.parts) + SectionParts(id, parent, kind, range, disposition, pieceKind, pieces)
    ensures AddsUnder(old(w.parts), w.parts, parent) && OpenAt(w.parts, parent, start, range.end) && Tiled(w.parts, id)
  {
    hide OpenAt, Tiling, ChildRanges, WellParented, AddsUnder, Cut;
    ghost var before := w.parts;
    CutOrdered(range.start, pieces, range.end, |pieces|);
    CutEnds(range.start, pieces, range.end);
    id := AddOpen(w, parent, kind, range, disposition, start);
    ghost var mid := w.parts;
    KeepsParts(before, mid, parent);
    AddPieces(w, id, pieceKind, range.start, pieces, range.start, range.end);
    KeepsParts(mid, w.parts, Some(id));
    AddsTwice(before, mid, w.parts, parent, Some(id));
    StillOpen(mid, w.parts, Some(id), parent, start, range.end);
  }

  // ---- The sections' pieces ----

  function StructureIf(accepted: bool): (d: Disposition) { if accepted then Structure else Dropped }

  function HeaderPieces(d: Disposition, reserved: Disposition): (p: seq<Piece>)
    ensures Cut(0, p, HEADER_LEN)
  {
    [Piece(4, d), Piece(6, d), Piece(12, reserved), Piece(14, d), Piece(18, d), Piece(22, d), Piece(24, d),
      Piece(26, d)]
  }

  function ColorPieces(l: Layout, accepted: bool): (p: seq<Piece>)
    requires HEADER_LEN + 4 <= l.colorEnd
    ensures Cut(HEADER_LEN, p, l.colorEnd)
  {
    var d :=
      if l.header.mode.Indexed? then StructureIf(accepted) else if l.header.mode.Duotone? then Skipped else Dropped;
    [Piece(HEADER_LEN + 4, StructureIf(accepted)), Piece(l.colorEnd, d)]
  }

  /**
   The header's fields: signature, version, reserved bytes, channels, height, width, depth
   and mode. In a file that is decoded they are structure, and otherwise dropped; so is a
   palette, while duotone data is passed over and any other color mode data dropped.
   */
  lemma {:induction false} HeaderFieldsAre(l: Layout, accepted: bool, reserved: Disposition)
    requires HEADER_LEN + 4 <= l.colorEnd
    ensures
      var d := if accepted then Structure else Dropped;
      && HeaderPieces(StructureIf(accepted), reserved)
           == [Piece(4, d), Piece(6, d), Piece(12, reserved), Piece(14, d), Piece(18, d), Piece(22, d), Piece(24, d),
               Piece(26, d)]
      && ColorPieces(l, accepted)
           == [Piece(30, d),
               Piece(l.colorEnd,
                     match l.header.mode case Indexed => d case Duotone => Skipped case _ => Dropped)]
  {
  }

  /** What becomes of the six reserved bytes. */
  function ReservedFate(data: seq<byte>, strict: bool): (d: Disposition)
    requires |data| >= HEADER_LEN
  {
    if data[6..12] == [0, 0, 0, 0, 0, 0] then Padding else if strict then Disposition.Malformed else Skipped
  }

  /** All six zero are padding; anything else is passed over, or malformed to a strict reader. */
  lemma {:induction false} ReservedIs(data: seq<byte>, strict: bool)
    requires |data| >= 26
    ensures
      var zero := forall i :: 6 <= i < 12 ==> data[i] == 0;
      ReservedFate(data, strict) == if zero then Padding else if strict then Disposition.Malformed else Skipped
  {
    var (six, zeros) := (data[6..12], [0, 0, 0, 0, 0, 0]);
    if forall i :: 6 <= i < 12 ==> data[i] == 0 { assert six == zeros; }
    forall i | 6 <= i < 12 ensures six == zeros ==> data[i] == 0 { assert six[i - 6] == data[i]; }
  }

  // ---- Resource blocks ----

  /** What the caller wants kept. */
  datatype Keep = Keep(accepted: bool, indexed: bool, icc: bool, exif: bool, xmp: bool)

  /** The fate of block `idx`'s payload. */
  function PayloadDisposition(res: seq<byte>, bs: seq<Block>, idx: nat, k: Keep): (d: Disposition)
    requires idx < |bs| && bs[idx].dataStart <= bs[idx].dataEnd <= |res|
  {
    var (b, w) := (bs[idx], WinnersOf(bs));
    var exif := if w.exif1.Some? then w.exif1 else w.exif3;
    if b.id == ICC then if k.accepted && k.icc && Some(idx) == w.icc then Metadata else Dropped
    else if b.id == EXIF_1 || b.id == EXIF_3 then
      if k.accepted && k.exif && Some(idx) == exif then Metadata else Dropped
    else if b.id == XMP then if k.accepted && k.xmp && Some(idx) == w.xmp then Metadata else Dropped
    else if b.id == TRANSPARENCY then
      var p := Payload(res, b);
      if k.accepted && k.indexed && Some(idx) == w.trans && |p| >= 2 && BeU16At(p, 0) < 256 then Structure else Dropped
    else Skipped
  }

  /**
   The fate of every payload: ICC is 1039, XMP 1060, EXIF 1058 or without a non-empty one
   of these 1059, and the last non-empty one is metadata if it is wanted; the transparency
   index is 1047, and the last of two bytes or more is structure if it is one and the
   image indexed; any other is passed over.
   */
  lemma {:induction false} PayloadIs(res: seq<byte>, bs: seq<Block>, idx: nat, k: Keep)
    requires idx < |bs| && bs[idx].dataStart <= bs[idx].dataEnd <= |res|
    ensures
      var (b, d) := (bs[idx], PayloadDisposition(res, bs, idx, k));
      match b.id
      case 1039 => d == if k.accepted && k.icc && Wins(bs, idx, 1039, 1) then Metadata else Dropped
      case 1060 => d == if k.accepted && k.xmp && Wins(bs, idx, 1060, 1) then Metadata else Dropped
      case 1058 => d == if k.accepted && k.exif && Wins(bs, idx, 1058, 1) then Metadata else Dropped
      case 1059 =>
        var first := exists j :: 0 <= j < |bs| && bs[j].id == 1058 && bs[j].Len() >= 1;
        d == if k.accepted && k.exif && Wins(bs, idx, 1059, 1) && !first then Metadata else Dropped
      case 1047 =>
        d == if k.accepted && k.indexed && Wins(bs, idx, 1047, 2) && res[b.dataStart] == 0 then Structure else Dropped
      case _ => d == Skipped
  {
    hide Last, Wins;
    LastWins(bs, idx, ICC, 1);
    LastWins(bs, idx, XMP, 1);
    LastWins(bs, idx, EXIF_1, 1);
    LastWins(bs, idx, EXIF_3, 1);
    LastWins(bs, idx, TRANSPARENCY, 2);
    SameLen(bs, idx);
  }

  lemma {:induction false} SameLen(bs: seq<Block>, i: nat)
    requires i < |bs|
    ensures Wins(bs, i, bs[i].id, 2) ==> bs[i].Len() >= 2
    ensures forall id, least :: Wins(bs, i, id, least) ==> bs[i].id == id
    ensures forall id, least :: Last(bs, id, least) == Some(i) ==> bs[i].id == id && bs[i].Len() >= least
  {
  }

  /**
   A payload marked metadata is the very one the parser kept: for ICC, XMP and the
   first EXIF id always, for the second EXIF id when the two walks agree. So is a
   transparency index marked structure.
   */
  lemma {:induction false} MarkedIsKept(res: seq<byte>, bs: seq<Block>, idx: nat, k: Keep)
    requires Inside(res, bs) && idx < |bs| && bs[idx].dataStart <= bs[idx].dataEnd <= |res|
    ensures
      var (d, b, meta) := (PayloadDisposition(res, bs, idx, k), bs[idx], MetadataOf(res, bs));
      var p := Payload(res, b);
      && (d == Metadata ==> b.id in {ICC, XMP, EXIF_1, EXIF_3})
      && (d == Metadata && b.id == ICC ==> meta.icc == Some(p))
      && (d == Metadata && b.id == XMP ==> meta.xmp == Some(p))
      && (d == Metadata && (b.id == EXIF_1 || (b.id == EXIF_3 && ExifKept(bs) == ExifMapped(bs))) ==>
        meta.exif == Some(p))
      && (d == Structure ==> b.id == TRANSPARENCY && |p| >= 2 && meta.transparency == Some(BeU16At(p, 0)))
  {
    hide MetadataOf, Last, First, BeU16At;
    ParserKeepsIcc(res, bs);
    ParserKeepsXmp(res, bs);
    ParserKeepsExif(res, bs);
    ParserKeepsTransparency(res, bs);
  }

  /** Some block with one of the ids has this payload and this fate. */
  ghost predicate Marked(res: seq<byte>, bs: seq<Block>, k: Keep, ids: set<nat>, payload: seq<byte>, d: Disposition) {
    exists i :: 0 <= i < |bs| && bs[i].id in ids && IsMarked(res, bs, k, i, payload, d)
  }

  ghost predicate IsMarked(res: seq<byte>, bs: seq<Block>, k: Keep, i: nat, payload: seq<byte>, d: Disposition) {
    && i < |bs| && bs[i].dataStart <= bs[i].dataEnd <= |res|
    && PayloadDisposition(res, bs, i, k) == d && Payload(res, bs[i]) == payload
  }

  /**
   And what the parser kept is marked, when the file was decoded and the caller wants it; EXIF when the
   walks agree.
   */
  lemma {:induction false} KeptIsMarked(res: seq<byte>, bs: seq<Block>, k: Keep)
    requires Inside(res, bs) && k.accepted
    ensures
      var meta := MetadataOf(res, bs);
      && (k.icc && meta.icc.Some? ==> Marked(res, bs, k, {ICC}, meta.icc.value, Metadata))
      && (k.xmp && meta.xmp.Some? ==> Marked(res, bs, k, {XMP}, meta.xmp.value, Metadata))
      && (k.exif && meta.exif.Some? && ExifKept(bs) == ExifMapped(bs) ==>
            Marked(res, bs, k, {EXIF_1, EXIF_3}, meta.exif.value, Metadata))
  {
    hide MetadataOf, First, Last;
    ParserKeepsIcc(res, bs);
    ParserKeepsXmp(res, bs);
    ParserKeepsExif(res, bs);
    var (i, x, e) := (Last(bs, ICC, 1), Last(bs, XMP, 1), ExifKept(bs));
    if i.Some? { assert IsMarked(res, bs, k.(icc := true), i.value, Payload(res, bs[i.value]), Metadata); }
    if x.Some? { assert IsMarked(res, bs, k.(xmp := true), x.value, Payload(res, bs[x.value]), Metadata); }
    if e.Some? && e == ExifMapped(bs) {
      assert IsMarked(res, bs, k.(exif := true), e.value, Payload(res, bs[e.value]), Metadata);
    }
  }

  /** The transparency index the decoder uses is the one marked structure. */
  lemma {:induction false} TransparencyIsMarked(res: seq<byte>, bs: seq<Block>, k: Keep)
    requires Inside(res, bs) && k.accepted && k.indexed
    ensures
      var t := MetadataOf(res, bs).transparency;
      t.Some? && t.value < 256 ==>
        exists p :: Marked(res, bs, k, {TRANSPARENCY}, p, Structure) && |p| >= 2 && BeU16At(p, 0) == t.value
  {
    hide MetadataOf, Last, BeU16At;
    ParserKeepsTransparency(res, bs);
    var i := Last(bs, TRANSPARENCY, 2);
    var t := MetadataOf(res, bs).transparency;
    if i.Some? && t.value < 256 {
      var p := Payload(res, bs[i.value]);
      assert IsMarked(res, bs, k, i.value, p, Structure);
    }
  }

  function BlockPieces(base: nat, b: Block, d: Disposition, header: Disposition): (p: seq<Piece>)
    requires b.start <= b.dataStart <= b.dataEnd <= b.paddedEnd
    ensures Cut(base + b.start, p, base + b.paddedEnd)
  {
    [Piece(base + b.dataStart, header), Piece(base + b.dataEnd, d), Piece(base + b.paddedEnd, Padding)]
  }

  /** Every resource block among the parts is tiled by its own. */
  ghost predicate BlocksTiled(parts: seq<Part>, section: nat) {
    forall i :: section < i < |parts| && parts[i].parent == Some(section) && parts[i].kind == ChunkPart ==>
      Tiled(parts, i)
  }

  lemma {:induction false} BlocksStayTiled(before: seq<Part>, after: seq<Part>, section: nat, id: nat)
    requires BlocksTiled(before, section) && AddsUnder(before, after, Some(section)) && Tiled(after, id)
      && id == |before|
    requires forall i :: |before| < i < |after| ==> after[i].parent != Some(section)
    ensures BlocksTiled(after, section)
  {
    forall i | section < i < |after| && after[i].parent == Some(section) && after[i].kind == ChunkPart
      ensures Tiled(after, i)
    {
      if i < |before| {
        assert after[i] == after[..|before|][i];
        StillTiled(before, after, Some(section), i);
      }
    }
  }

  lemma {:induction false} BlocksEmpty(parts: seq<Part>, section: nat)
    requires |parts| == section + 1
    ensures BlocksTiled(parts, section)
  {
  }

  /** Pieces added under a section that are not blocks leave its blocks as they were. */
  lemma {:induction false} SegmentsLeaveBlocks(before: seq<Part>, after: seq<Part>, section: nat)
    requires BlocksTiled(before, section) && AddsUnder(before, after, Some(section))
    requires forall i :: |before| <= i < |after| ==> after[i].kind != ChunkPart
    ensures BlocksTiled(after, section)
  {
    forall i | section < i < |after| && after[i].parent == Some(section) && after[i].kind == ChunkPart
      ensures Tiled(after, i)
    {
      assert after[i] == after[..|before|][i];
      StillTiled(before, after, Some(section), i);
    }
  }

  /** `map_image_resources`: the section, its length, and every block of the parser's. */
  method MapImageResources(w: Recorder, data: seq<byte>, l: Layout, k: Keep) returns (id: nat)
    requires l.Valid(data) && WellParented(w.parts) && OpenAt(w.parts, None, 0, l.colorEnd)
    modifies w
    ensures id == |old(w.parts)| < |w.parts| && AddsUnder(old(w.parts), w.parts, None)
    ensures OpenAt(w.parts, None, 0, l.resourcesEnd) && Tiled(w.parts, id) && BlocksTiled(w.parts, id)
    ensures w.parts == old(w.parts) + ResourceParts(id, data, l, k)
  {
    hide OpenAt, Tiling, ChildRanges, WellParented, AddsUnder, Blocks, BlocksTiled, WinnersOf, Last, PayloadDisposition;
    hide AllBlockParts, InPlace;
    var base := l.colorEnd + 4;
    var res := data[base..l.resourcesEnd];
    var d := StructureIf(k.accepted);
    ghost var before := w.parts;
    id := AddOpen(w, None, ChunkPart, Range(l.colorEnd, l.resourcesEnd), d, 0);
    ghost var shell := w.parts;
    KeepsParts(before, shell, None);
    BlocksEmpty(shell, id);
    var seg := Add(w, Some(id), SegmentPart, Range(l.colorEnd, base), d, l.colorEnd);
    SegmentsLeaveBlocks(shell, w.parts, id);
    KeepsParts(shell, w.parts, Some(id));
    var bs, _ := FindBlocks(res);
    AddBlocks(w, id, l.colorEnd, base, res, bs, k, shell);
    KeepsParts(shell, w.parts, Some(id));
    AddsTwice(before, shell, w.parts, None, Some(id));
    StillOpen(shell, w.parts, Some(id), None, 0, l.resourcesEnd);
    TiledIfOpen(w.parts, id, l.colorEnd, l.resourcesEnd);
  }

  lemma {:induction false} TiledIfOpen(parts: seq<Part>, id: nat, start: nat, end: nat)
    requires id < |parts| && parts[id].range == Range(start, end) && OpenAt(parts, Some(id), start, end)
    ensures Tiled(parts, id)
  {
  }

  lemma {:induction false} BlocksInOrder(res: seq<byte>, bs: seq<Block>, i: nat)
    requires Blocks(res, 0) == Some(bs) && i <= |bs|
    ensures i < |bs| ==> BlockAt(res, bs[i].start) == Some(bs[i])
    ensures (if i == 0 then 0 else bs[i - 1].paddedEnd) == (if i < |bs| then bs[i].start else |res|)
  {
    BlocksTile(res, 0);
    if i < |bs| { EveryBlockIs(res, 0, i); }
    var s := BlockRanges(bs);
    if 0 < i < |bs| { assert s[i - 1].end == s[i].start; }
    if 0 == i < |bs| { assert s[0].start == 0; }
    if 0 < i == |bs| { assert s[i - 1].end == |res|; }
  }

  /** The parts of block `i`, recorded as part `id`. */
  function BlockParts(section: nat, id: nat, base: nat, res: seq<byte>, bs: seq<Block>, i: nat, k: Keep): (p: seq<Part>)
    requires i < |bs| && bs[i].start <= bs[i].dataStart <= bs[i].dataEnd <= bs[i].paddedEnd <= |res|
  {
    var (b, d, header) := (bs[i], PayloadDisposition(res, bs, i, k), StructureIf(k.accepted));
    SectionParts(id, Some(section), ChunkPart, Range(base + b.start, base + b.paddedEnd),
                 if Consumed(d) then Structure else header, SegmentPart, BlockPieces(base, b, d, header))
  }

  /** The part is a segment of `id` that takes `[start, end)`, which is not empty. */
  ghost predicate Lies(p: Part, id: nat, start: nat, end: nat, d: Disposition) {
    start < end && p == Part(Some(id), SegmentPart, Range(start, end), d)
  }

  /**
   A block's part is structure if the file is decoded or its payload is kept, and dropped
   otherwise; in it lie, as far as they are not empty, its header, its payload with its
   own fate, and padding.
   */
  lemma {:induction false} BlockIs(section: nat, id: nat, base: nat, res: seq<byte>, bs: seq<Block>, i: nat, k: Keep)
    requires i < |bs| && bs[i].start <= bs[i].dataStart <= bs[i].dataEnd <= bs[i].paddedEnd <= |res|
    ensures
      var (parts, b, d) := (BlockParts(section, id, base, res, bs, i, k), bs[i], PayloadDisposition(res, bs, i, k));
      var header := if k.accepted then Structure else Dropped;
      && |parts| > 0
      && parts[0] == Part(Some(section), ChunkPart, Range(base + b.start, base + b.paddedEnd),
                          if d == Metadata || d == Structure then Structure else header)
      && forall p :: p in parts[1..] <==>
           || Lies(p, id, base + b.start, base + b.dataStart, header)
           || Lies(p, id, base + b.dataStart, base + b.dataEnd, d)
           || Lies(p, id, base + b.dataEnd, base + b.paddedEnd, Padding)
  {
    hide PayloadDisposition, PieceParts, IsPiece;
    var (b, d, header) := (bs[i], PayloadDisposition(res, bs, i, k), StructureIf(k.accepted));
    ThreePieces(id, base + b.start, BlockPieces(base, b, d, header));
    DispositionKept(res, bs, i, k);
  }

  lemma {:induction false} ThreePieces(id: nat, from: nat, pieces: seq<Piece>)
    requires |pieces| == 3
    ensures forall p :: p in PieceParts(id, SegmentPart, from, pieces, 3) <==>
      || Lies(p, id, from, pieces[0].end, pieces[0].disposition)
      || Lies(p, id, pieces[0].end, pieces[1].end, pieces[1].disposition)
      || Lies(p, id, pieces[1].end, pieces[2].end, pieces[2].disposition)
  {
    hide PieceParts;
    PartsOfPieces(id, SegmentPart, from, pieces, 3);
    var parts := PieceParts(id, SegmentPart, from, pieces, 3);
    forall p
      ensures p in parts <==>
        || IsPiece(id, SegmentPart, from, pieces, 0, p) || IsPiece(id, SegmentPart, from, pieces, 1, p)
        || IsPiece(id, SegmentPart, from, pieces, 2, p)
    {
      assert p in parts <==> exists i :: 0 <= i < 3 && IsPiece(id, SegmentPart, from, pieces, i, p);
    }
  }

  lemma {:induction false} DispositionKept(res: seq<byte>, bs: seq<Block>, i: nat, k: Keep)
    requires i < |bs| && bs[i].dataStart <= bs[i].dataEnd <= |res|
    ensures PayloadDisposition(res, bs, i, k) in {Metadata, Structure, Dropped, Skipped}
  {
    hide Last;
  }

  ghost predicate InPlace(res: seq<byte>, bs: seq<Block>) {
    forall i :: 0 <= i < |bs| ==> bs[i].start <= bs[i].dataStart <= bs[i].dataEnd <= bs[i].paddedEnd <= |res|
  }

  lemma {:induction false} BlocksInPlace(res: seq<byte>, bs: seq<Block>)
    requires Blocks(res, 0) == Some(bs)
    ensures InPlace(res, bs)
  {
    forall i | 0 <= i < |bs| ensures bs[i].start <= bs[i].dataStart <= bs[i].dataEnd <= bs[i].paddedEnd <= |res| {
      EveryBlockIs(res, 0, i);
    }
  }

  /** The parts of the first `n` blocks, recorded from part `id` on. */
  ghost function AllBlockParts(section: nat, id: nat, base: nat, res: seq<byte>, bs: seq<Block>, n: nat, k: Keep)
    : (p: seq<Part>)
    requires n <= |bs| && InPlace(res, bs)
    decreases n
  {
    if n == 0 then []
    else
      var before := AllBlockParts(section, id, base, res, bs, n - 1, k);
      before + BlockParts(section, id + |before|, base, res, bs, n - 1, k)
  }

  /** The resources section: its length and its blocks. */
  ghost function ResourceParts(id: nat, data: seq<byte>, l: Layout, k: Keep): (p: seq<Part>)
    requires l.Valid(data)
  {
    var (base, d) := (l.colorEnd + 4, StructureIf(k.accepted));
    var res := data[base..l.resourcesEnd];
    var bs := Blocks(res, 0).value;
    BlocksInPlace(res, bs);
    [Part(None, ChunkPart, Range(l.colorEnd, l.resourcesEnd), d),
      Part(Some(id), SegmentPart, Range(l.colorEnd, base), d)]
    + AllBlockParts(id, id + 2, base, res, bs, |bs|, k)
  }

  /** Every block, its header, its payload and its padding. */
  method AddBlocks(w: Recorder, section: nat, start: nat, base: nat, res: seq<byte>, bs: seq<Block>, k: Keep,
      ghost shell: seq<Part>)
    requires Blocks(res, 0) == Some(bs) && section < |w.parts| && AddsUnder(shell, w.parts, Some(section))
      && section < |shell|
    requires WellParented(w.parts) && OpenAt(w.parts, Some(section), start, base) && BlocksTiled(w.parts, section)
    modifies w
    ensures AddsUnder(shell, w.parts, Some(section))
    ensures OpenAt(w.parts, Some(section), start, base + |res|) && BlocksTiled(w.parts, section)
    ensures InPlace(res, bs)
    ensures w.parts == old(w.parts) + AllBlockParts(section, |old(w.parts)|, base, res, bs, |bs|, k)
  {
    hide OpenAt, Tiling, ChildRanges, WellParented, AddsUnder, Blocks, BlockAt, BlocksTiled, WinnersOf, Last;
    hide PayloadDisposition, Cut, Tiled, SectionParts, PieceParts;
    ghost var first := w.parts;
    BlocksInPlace(res, bs);
    var i := 0;
    BlocksInOrder(res, bs, 0);
    while i < |bs|
      invariant 0 <= i <= |bs| && WellParented(w.parts) && section < |w.parts|
      invariant AddsUnder(shell, w.parts, Some(section))
      invariant OpenAt(w.parts, Some(section), start, base + (if i == 0 then 0 else bs[i - 1].paddedEnd))
      invariant BlocksTiled(w.parts, section)
      invariant w.parts == first + AllBlockParts(section, |first|, base, res, bs, i, k)
    {
      BlocksInOrder(res, bs, i);
      var b := bs[i];
      var d := PayloadDisposition(res, bs, i, k);
      var header := StructureIf(k.accepted);
      var pieces := BlockPieces(base, b, d, header);
      ghost var before := w.parts;
      var id := AddSection(w, Some(section), ChunkPart, Range(base + b.start, base + b.paddedEnd),
                           if Consumed(d) then Structure else header, SegmentPart, pieces, start);
      KeepsParts(before, w.parts, Some(section));
      AddsTwice(shell, before, w.parts, Some(section), Some(section));
      PiecesElsewhere(before, w.parts, section, BlockParts(section, id, base, res, bs, i, k));
      BlocksStayTiled(before, w.parts, section, id);
      Assoc(first, AllBlockParts(section, |first|, base, res, bs, i, k), BlockParts(section, id, base, res, bs, i, k));
      i := i + 1;
    }
    BlocksInOrder(res, bs, i);
  }

  /** Only the first of a section's parts lies directly in what the section lies in. */
  lemma {:induction false} PiecesElsewhere(before: seq<Part>, after: seq<Part>, section: nat, added: seq<Part>)
    requires section < |before| && after == before + added
    requires exists kind, range, disposition, pieceKind, pieces ::
      added == SectionParts(|before|, Some(section), kind, range, disposition, pieceKind, pieces)
    ensures |after| > |before| && forall i :: |before| < i < |after| ==> after[i].parent != Some(section)
  {
  }

  // ---- Image data ----

  /** Channel after channel; those past `used` are not image data. */
  function RawPieces(start: nat, planeBytes: nat, used: nat, n: nat): (p: seq<Piece>)
    ensures |p| == n
    decreases n
  {
    if n == 0 then []
    else
      var d := if n - 1 < used then ImageData else Dropped;
      RawPieces(start, planeBytes, used, n - 1) + [Piece(start + n * planeBytes, d)]
  }

  /** Channel `i` takes its own bytes; it is image data exactly when it is used. */
  lemma {:induction false} RawPieceIs(start: nat, planeBytes: nat, used: nat, n: nat, i: nat)
    requires i < n
    ensures
      var p := RawPieces(start, planeBytes, used, n);
      && Begins(start, p, i) == start + i * planeBytes && p[i].end == start + (i + 1) * planeBytes
      && p[i].disposition == if i < used then ImageData else Dropped
    decreases n
  {
    if i < n - 1 { RawPieceIs(start, planeBytes, used, n - 1, i); }
    if i == n - 1 > 0 { RawPieceIs(start, planeBytes, used, n - 1, i - 1); }
  }

  lemma {:induction false} RawCuts(start: nat, planeBytes: nat, used: nat, n: nat)
    ensures Cut(start, RawPieces(start, planeBytes, used, n), start + n * planeBytes)
    decreases n
  {
    if n > 0 {
      RawCuts(start, planeBytes, used, n - 1);
      StepProduct(n - 1, n, planeBytes);
      var p := Piece(start + n * planeBytes, if n - 1 < used then ImageData else Dropped);
      assert Cut(start + (n - 1) * planeBytes, [p], start + n * planeBytes);
      CutJoins(start, RawPieces(start, planeBytes, used, n - 1), start + (n - 1) * planeBytes, [p],
        start + n * planeBytes);
    }
  }

  /** The table and the scanlines, each split where the used channels end. */
  function RlePieces(usedTableEnd: nat, tableEnd: nat, usedDataEnd: nat, end: nat): (p: seq<Piece>)
    requires usedTableEnd <= tableEnd <= usedDataEnd <= end
    ensures forall start: nat :: start <= usedTableEnd ==> Cut(start, p, end)
  {
    [Piece(usedTableEnd, Structure), Piece(tableEnd, Structure), Piece(usedDataEnd, ImageData), Piece(end, Dropped)]
  }

  /**
   The table is structure and the used channels' scanlines image data; the others' are dropped. Both parts of
   the table and of the scanlines end where their entries and lengths say.
   */
  lemma {:induction false} RlePiecesAre(h: Header, payload: seq<byte>, lengths: seq<nat>, start: nat)
    requires Accepted(h) && RleOf(h, payload).Ok? && |lengths| == Lines(h) && TableHeld(payload, h.large, lengths)
    ensures UsedLines(h) <= |lengths|
    ensures
      var (entry, used) := (if h.large then 4 else 2, UsedLines(h));
      var data := start + |lengths| * entry;
      PiecesOfRle(h, payload, start) ==
        [Piece(start + used * entry, Structure), Piece(data, Structure),
         Piece(data + Sum(lengths[..used]), ImageData), Piece(data + Sum(lengths), Dropped)]
  {
    hide Accepted, RowsOf, LinesLength, Sum, TableHeld;
    CutsAre(h, payload);
    HeldTableIsRead(payload, h.large, lengths, UsedLines(h));
    HeldTableIsRead(payload, h.large, lengths, |lengths|);
    assert lengths[..|lengths|] == lengths;
  }

  lemma {:induction false} SameLength(p: seq<byte>, n: nat, large: bool, line: nat, lines: nat)
    requires line < lines && lines * CountSize(large) <= n <= |p|
    ensures LineLength(p[..n], large, line) == LineLength(p, large, line)
  {
    StepProduct(line, lines, CountSize(large));
  }

  /** The table read from the decoded bytes is the table the decoder read. */
  lemma {:induction false} SameLengths(p: seq<byte>, n: nat, large: bool, k: nat, lines: nat)
    requires k <= lines && lines * CountSize(large) <= n <= |p|
    ensures LinesLength(p[..n], large, k) == LinesLength(p, large, k)
    decreases k
  {
    if k > 0 {
      SameLengths(p, n, large, k - 1, lines);
      SameLength(p, n, large, k - 1, lines);
    }
  }

  /** Adds up the used scanlines' lengths, reading the table without checking again. */
  method SumUsed(payload: seq<byte>, large: bool, usedLines: nat, totalLines: nat) returns (sum: nat)
    requires usedLines <= totalLines && totalLines * CountSize(large) <= |payload|
    ensures sum == LinesLength(payload, large, usedLines)
  {
    hide LineLength, CountSize;
    sum := 0;
    var line := 0;
    while line < usedLines
      invariant 0 <= line <= usedLines && sum == LinesLength(payload, large, line)
    {
      var len := ReadLength(payload, large, line, totalLines);
      sum := sum + len;
      line := line + 1;
    }
  }

  /** Where the table and the scanlines of the used channels end, in a payload that decodes. */
  ghost function RleCuts(h: Header, payload: seq<byte>): (c: (nat, nat, nat))
    requires Accepted(h) && RleOf(h, payload).Ok?
    ensures c.0 <= c.1 <= c.2 <= RleOf(h, payload).value.1 <= |payload|
  {
    UsedAtMostAll(h);
    Bits.MulStep(UsedLines(h), Lines(h), CountSize(h.large));
    RleEnd(payload, h.large, Lines(h), UsedLines(h), RowBytesOf(h), RleOf(h, payload).value.1);
    (UsedLines(h) * CountSize(h.large), TableBytes(h), TableBytes(h) + LinesLength(payload, h.large, UsedLines(h)))
  }

  /** The pieces of an RLE payload at `start`. */
  ghost function PiecesOfRle(h: Header, payload: seq<byte>, start: nat): (p: seq<Piece>)
    requires Accepted(h) && RleOf(h, payload).Ok?
  {
    var (usedTable, table, usedData) := RleCuts(h, payload);
    RlePieces(start + usedTable, start + table, start + usedData, start + RleOf(h, payload).value.1)
  }

  /** What is marked image data is, scanline after scanline, what the decoder expands. */
  lemma {:induction false} UsedScanlinesAreImageData(h: Header, payload: seq<byte>, line: nat)
    requires Accepted(h) && RleOf(h, payload).Ok? && line < UsedLines(h)
    ensures
      var (_, table, usedData) := RleCuts(h, payload);
      var from := table + LinesLength(payload, h.large, line);
      && from + LineLength(payload, h.large, line) == table + LinesLength(payload, h.large, line + 1) <= usedData
      && LineSource(payload, h.large, table, line) == payload[from..from + LineLength(payload, h.large, line)]
      && (line == 0 ==> from == table)
      && (line + 1 == UsedLines(h) ==> from + LineLength(payload, h.large, line) == usedData)
  {
    hide RleOf, LineLength, Accepted;
    LinesMonotone(payload, h.large, line + 1, UsedLines(h));
  }

  /** The pieces of RLE image data. */
  method MapRle(data: seq<byte>, l: Layout, end: nat) returns (pieces: seq<Piece>)
    requires l.Valid(data) && l.compression == RLE && Decoded(data, l, end)
    ensures Cut(l.PayloadStart(), pieces, end)
    ensures pieces == PiecesOfRle(l.header, data[l.PayloadStart()..], l.PayloadStart())
  {
    hide RleOf, Accepted, Blocks, UsedChannels, LineLength, LinesLength, CountSize, Lines, UsedLines, Cut, RleCuts;
    var (h, start) := (l.header, l.PayloadStart());
    var (totalLines, usedLines) := (Lines(h), UsedLines(h));
    ghost var whole := data[start..];
    DecodedRle(data, l, end);
    CutsAre(h, whole);
    var payload := data[start..end];
    assert payload == whole[..end - start];
    var (tableEnd, usedTableEnd) := (start + totalLines * CountSize(h.large), start + usedLines * CountSize(h.large));
    SameLengths(whole, end - start, h.large, usedLines, totalLines);
    var used := SumUsed(payload, h.large, usedLines, totalLines);
    pieces := RlePieces(usedTableEnd, tableEnd, tableEnd + used, end);
  }

  lemma {:induction false} DecodedRle(data: seq<byte>, l: Layout, end: nat)
    requires l.Valid(data) && l.compression == RLE && Decoded(data, l, end)
    ensures
      var r := RleOf(l.header, data[l.PayloadStart()..]);
      r.Ok? && end == l.PayloadStart() + r.value.1
  {
    hide RlePlanes, Accepted, Blocks;
  }

  lemma {:induction false} CutsAre(h: Header, payload: seq<byte>)
    requires Accepted(h) && RleOf(h, payload).Ok?
    ensures UsedLines(h) <= Lines(h)
    ensures
      var (size, c) := (CountSize(h.large), RleCuts(h, payload));
      c == (UsedLines(h) * size, Lines(h) * size, Lines(h) * size + LinesLength(payload, h.large, UsedLines(h)))
  {
    hide RleOf, Accepted, LinesLength, CountSize;
    UsedAtMostAll(h);
  }

  lemma {:induction false} RleEnd(payload: seq<byte>, large: bool, totalLines: nat, usedLines: nat, rowBytes: nat,
      consumed: nat)
    requires usedLines <= totalLines && RlePlanes(payload, large, totalLines, usedLines, rowBytes).Ok?
    requires consumed == RlePlanes(payload, large, totalLines, usedLines, rowBytes).value.1
    ensures totalLines * CountSize(large) + LinesLength(payload, large, usedLines) <= consumed <= |payload|
  {
    LinesMonotone(payload, large, usedLines, totalLines);
  }

  /** The pieces of the image data section, given where decoding stopped if it succeeded. */
  ghost function ImagePieces(data: seq<byte>, l: Layout, decodedEnd: Option<nat>): (p: seq<Piece>)
    requires l.Valid(data) && (decodedEnd.Some? ==> Decoded(data, l, decodedEnd.value))
  {
    var (h, start) := (l.header, l.PayloadStart());
    [Piece(start, StructureIf(decodedEnd.Some?))]
    + if decodedEnd.None? then [Piece(|data|, Disposition.Malformed)]
      else if l.compression == RAW then RawPieces(start, PlaneBytesOf(h), UsedChannels(h), h.channels)
      else if l.compression == RLE then PiecesOfRle(h, data[start..], start)
      else [Piece(decodedEnd.value, ImageData)]
  }

  /** `map_image_data`: the compression code, and the decoded bytes or the rest that could not be. */
  method MapImageData(w: Recorder, data: seq<byte>, l: Layout, decodedEnd: Option<nat>) returns (id: nat)
    requires l.Valid(data) && (decodedEnd.Some? ==> Decoded(data, l, decodedEnd.value))
    requires WellParented(w.parts) && OpenAt(w.parts, None, 0, l.layerEnd)
    modifies w
    ensures id == |old(w.parts)| < |w.parts| && AddsUnder(old(w.parts), w.parts, None) && Tiled(w.parts, id)
    ensures OpenAt(w.parts, None, 0, if decodedEnd.Some? then decodedEnd.value else |data|)
    ensures decodedEnd.Some? ==> decodedEnd.value <= |data|
    ensures
      var end := if decodedEnd.Some? then decodedEnd.value else |data|;
      var d := if decodedEnd.Some? then ImageData else Dropped;
      w.parts == old(w.parts)
        + SectionParts(id, None, ChunkPart, Range(l.layerEnd, end), d, SegmentPart, ImagePieces(data, l, decodedEnd))
  {
    hide SectionParts, PiecesOfRle, RawPieces, Accepted, Blocks;
    hide OpenAt, Tiling, ChildRanges, WellParented, AddsUnder, Cut, Tiled, RlePlanes;
    var accepted := decodedEnd.Some?;
    var end := if accepted then decodedEnd.value else |data|;
    var start := l.PayloadStart();
    var pieces: seq<Piece>;
    if !accepted {
      pieces := [Piece(end, Disposition.Malformed)];
      OneCut(start, pieces[0], end);
    } else if l.compression == RAW {
      pieces := RawPieces(start, PlaneBytesOf(l.header), UsedChannels(l.header), l.header.channels);
      RawCuts(start, PlaneBytesOf(l.header), UsedChannels(l.header), l.header.channels);
    } else if l.compression == RLE {
      pieces := MapRle(data, l, end);
    } else {
      pieces := [Piece(end, ImageData)];
      OneCut(start, pieces[0], end);
    }
    DecodedInside(data, l, decodedEnd);
    OneCut(l.layerEnd, Piece(start, StructureIf(accepted)), start);
    CutJoins(l.layerEnd, [Piece(start, StructureIf(accepted))], start, pieces, end);
    id := AddSection(w, None, ChunkPart, Range(l.layerEnd, end), if accepted then ImageData else Dropped, SegmentPart,
                     [Piece(start, StructureIf(accepted))] + pieces, 0);
  }

  lemma {:induction false} OneCut(from: nat, p: Piece, end: nat)
    requires from <= p.end == end
    ensures Cut(from, [p], end)
  {
  }

  lemma {:induction false} DecodedInside(data: seq<byte>, l: Layout, end: Option<nat>)
    requires l.Valid(data) && (end.Some? ==> Decoded(data, l, end.value))
    ensures end.Some? ==> l.PayloadStart() <= end.value <= |data|
  {
    hide RlePlanes, Accepted, Blocks, UsedChannels, ScanlineBytes;
    if end.Some? && l.compression == RLE {
      UsedAtMostAll(l.header);
      RleEnd(data[l.PayloadStart()..], l.header.large, l.header.channels * l.header.height,
             UsedChannels(l.header) * l.header.height, RowBytesOf(l.header), end.value - l.PayloadStart());
    }
  }

  // ---- The whole file ----

  /** The layer and mask section: its length and its bytes. */
  function LayerParts(id: nat, l: Layout, accepted: bool): (p: seq<Part>) {
    var d := StructureIf(accepted);
    [Part(None, ChunkPart, Range(l.resourcesEnd, l.layerEnd), d),
      Part(Some(id), SegmentPart, Range(l.resourcesEnd, l.layerStart), d)]
    + if l.layerStart < l.layerEnd then [Part(Some(id), ChunkPart, Range(l.layerStart, l.layerEnd), Skipped)] else []
  }

  /** Records the layer and mask section. */
  method MapLayers(w: Recorder, l: Layout, accepted: bool) returns (id: nat)
    requires l.resourcesEnd <= l.layerStart <= l.layerEnd
    requires WellParented(w.parts) && OpenAt(w.parts, None, 0, l.resourcesEnd)
    modifies w
    ensures id == |old(w.parts)| < |w.parts| && AddsUnder(old(w.parts), w.parts, None)
    ensures OpenAt(w.parts, None, 0, l.layerEnd) && Tiled(w.parts, id)
    ensures w.parts == old(w.parts) + LayerParts(id, l, accepted)
  {
    hide OpenAt, Tiling, ChildRanges, WellParented, AddsUnder;
    var d := StructureIf(accepted);
    ghost var before := w.parts;
    id := AddOpen(w, None, ChunkPart, Range(l.resourcesEnd, l.layerEnd), d, 0);
    ghost var shell := w.parts;
    KeepsParts(before, shell, None);
    var _ := Add(w, Some(id), SegmentPart, Range(l.resourcesEnd, l.layerStart), d, l.resourcesEnd);
    ghost var mid := w.parts;
    KeepsParts(shell, mid, Some(id));
    if l.layerStart < l.layerEnd {
      var _ := Add(w, Some(id), ChunkPart, Range(l.layerStart, l.layerEnd), Skipped, l.resourcesEnd);
      AddsTwice(shell, mid, w.parts, Some(id), Some(id));
      KeepsParts(shell, w.parts, Some(id));
    }
    AddsTwice(before, shell, w.parts, None, Some(id));
    StillOpen(shell, w.parts, Some(id), None, 0, l.layerEnd);
    TiledIfOpen(w.parts, id, l.resourcesEnd, l.layerEnd);
  }

  /** Where the image data section ends: where decoding stopped, or the end of the file. */
  function ImageEnd(data: seq<byte>, decodedEnd: Option<nat>): (end: nat) {
    if decodedEnd.Some? then decodedEnd.value else |data|
  }

  /** The five sections' own parts, in file order. */
  function Sections(data: seq<byte>, l: Layout, decodedEnd: Option<nat>): (heads: seq<Part>) {
    var d := if decodedEnd.Some? then Structure else Dropped;
    [Part(None, HeaderPart, Range(0, 26), d),
      Part(None, ChunkPart, Range(26, l.colorEnd), d),
      Part(None, ChunkPart, Range(l.colorEnd, l.resourcesEnd), d),
      Part(None, ChunkPart, Range(l.resourcesEnd, l.layerEnd), d),
      Part(None, ChunkPart, Range(l.layerEnd, ImageEnd(data, decodedEnd)),
           if decodedEnd.Some? then ImageData else Dropped)]
  }

  /** What is left of the file. */
  function TrailingParts(data: seq<byte>, decodedEnd: Option<nat>): (p: seq<Part>) {
    var end := ImageEnd(data, decodedEnd);
    if end < |data| then [Part(None, GapPart, Range(end, |data|), Trailing)] else []
  }

  /**
   The parts at `ids` are these sections, in this order and each tiled by what lies in
   it, and nothing else is at top level but `rest` after them.
   */
  ghost predicate Sectioned(parts: seq<Part>, ids: seq<nat>, heads: seq<Part>, rest: seq<Part>) {
    && |ids| == |heads| && (forall i, j :: 0 <= i < j < |ids| ==> ids[i] < ids[j])
    && (forall i :: 0 <= i < |ids| ==> Tiled(parts, ids[i]) && parts[ids[i]] == heads[i])
    && ChildRanges(parts, None) == Inventory.RangesOf(heads) + Inventory.RangesOf(rest)
  }

  /** One part at top level, and others inside it. */
  ghost predicate OneOnTop(added: seq<Part>, head: Part) {
    |added| > 0 && added[0] == head && head.parent.None? && forall i :: 0 < i < |added| ==> added[i].parent.Some?
  }

  lemma {:induction false} TopRanges(before: seq<Part>, added: seq<Part>, head: Part)
    requires OneOnTop(added, head)
    ensures ChildRanges(before + added, None) == ChildRanges(before, None) + [head.range]
    decreases |added|
  {
    var n := |added| - 1;
    assert before + added == (before + added[..n]) + [added[n]];
    ChildSnoc(before + added[..n], added[n], None);
    if n > 0 { TopRanges(before, added[..n], head); } else { assert before + added[..n] == before; }
  }

  /** One more of the sections recorded. */
  lemma {:induction false} OneMoreSection(before: seq<Part>, after: seq<Part>, ids: seq<nat>, heads: seq<Part>, n: nat,
      added: seq<Part>)
    requires n < |heads| && Sectioned(before, ids, heads[..n], []) && AddsUnder(before, after, None)
    requires after == before + added && OneOnTop(added, heads[n]) && Tiled(after, |before|)
    ensures Sectioned(after, ids + [|before|], heads[..n + 1], [])
  {
    hide AddsUnder, ChildRanges, OpenAt;
    KeepsParts(before, after, None);
    TopRanges(before, added, heads[n]);
    forall i | 0 <= i < |ids| ensures Tiled(after, ids[i]) { StillTiled(before, after, None, ids[i]); }
    assert heads[..n] + [heads[n]] == heads[..n + 1];
  }

  lemma {:induction false} RestOnTop(before: seq<Part>, after: seq<Part>, ids: seq<nat>, heads: seq<Part>, rest: Part)
    requires Sectioned(before, ids, heads, []) && AddsUnder(before, after, None)
    requires after == before + [rest] && rest.parent.None?
    ensures Sectioned(after, ids, heads, [rest])
  {
    hide AddsUnder, ChildRanges, OpenAt;
    KeepsParts(before, after, None);
    ChildSnoc(before, rest, None);
    forall i | 0 <= i < |ids| ensures Tiled(after, ids[i]) { StillTiled(before, after, None, ids[i]); }
  }

  lemma {:induction false} SectionOnTop(id: nat, kind: Kind, range: Range, d: Disposition, pieceKind: Kind,
      pieces: seq<Piece>)
    ensures OneOnTop(SectionParts(id, None, kind, range, d, pieceKind, pieces), Part(None, kind, range, d))
  {
  }

  lemma {:induction false} HeaderOnTop(data: seq<byte>, l: Layout, decodedEnd: Option<nat>, strict: bool)
    requires l.Valid(data)
    ensures OneOnTop(HeaderParts(data, l, decodedEnd.Some?, strict), Sections(data, l, decodedEnd)[0])
  {
    hide SectionParts, OneOnTop, Accepted, Blocks;
    var d := StructureIf(decodedEnd.Some?);
    SectionOnTop(0, HeaderPart, Range(0, HEADER_LEN), d, FieldPart, HeaderPieces(d, ReservedFate(data, strict)));
  }

  lemma {:induction false} ColorOnTop(id: nat, data: seq<byte>, l: Layout, decodedEnd: Option<nat>)
    requires HEADER_LEN + 4 <= l.colorEnd
    ensures OneOnTop(ColorParts(id, l, decodedEnd.Some?), Sections(data, l, decodedEnd)[1])
  {
    hide SectionParts, OneOnTop;
    SectionOnTop(id, ChunkPart, Range(HEADER_LEN, l.colorEnd), StructureIf(decodedEnd.Some?), SegmentPart,
                 ColorPieces(l, decodedEnd.Some?));
  }

  lemma {:induction false} ImageOnTop(id: nat, data: seq<byte>, l: Layout, decodedEnd: Option<nat>)
    requires l.Valid(data) && (decodedEnd.Some? ==> Decoded(data, l, decodedEnd.value))
    ensures OneOnTop(ImageParts(id, data, l, decodedEnd), Sections(data, l, decodedEnd)[4])
  {
    hide SectionParts, OneOnTop, Accepted, Blocks, Decoded, ImagePieces;
    SectionOnTop(id, ChunkPart, Range(l.layerEnd, ImageEnd(data, decodedEnd)),
                 if decodedEnd.Some? then ImageData else Dropped, SegmentPart, ImagePieces(data, l, decodedEnd));
  }

  lemma {:induction false} LayersOnTop(id: nat, l: Layout, accepted: bool)
    ensures OneOnTop(LayerParts(id, l, accepted),
                     Part(None, ChunkPart, Range(l.resourcesEnd, l.layerEnd), StructureIf(accepted)))
  {
  }

  lemma {:induction false} NoBlockOnTop(section: nat, id: nat, base: nat, res: seq<byte>, bs: seq<Block>, n: nat,
      k: Keep)
    requires n <= |bs| && InPlace(res, bs)
    ensures forall i :: 0 <= i < |AllBlockParts(section, id, base, res, bs, n, k)| ==>
      AllBlockParts(section, id, base, res, bs, n, k)[i].parent.Some?
    decreases n
  {
    hide PayloadDisposition;
    if n > 0 { NoBlockOnTop(section, id, base, res, bs, n - 1, k); }
  }

  lemma {:induction false} ResourcesOnTop(id: nat, data: seq<byte>, l: Layout, k: Keep)
    requires l.Valid(data)
    ensures OneOnTop(ResourceParts(id, data, l, k),
                     Part(None, ChunkPart, Range(l.colorEnd, l.resourcesEnd), StructureIf(k.accepted)))
  {
    hide AllBlockParts, Blocks, Accepted;
    var res := data[l.colorEnd + 4..l.resourcesEnd];
    var bs := Blocks(res, 0).value;
    BlocksInPlace(res, bs);
    NoBlockOnTop(id, id + 2, l.colorEnd + 4, res, bs, |bs|, k);
  }

  /** What the caller wants kept of a file decoded this far. */
  function KeepOf(l: Layout, decodedEnd: Option<nat>, icc: bool, exif: bool, xmp: bool): (k: Keep) {
    Keep(decodedEnd.Some?, l.header.mode.Indexed?, icc, exif, xmp)
  }

  lemma {:induction false} KeepIs(l: Layout, decodedEnd: Option<nat>, icc: bool, exif: bool, xmp: bool)
    ensures
      var k := KeepOf(l, decodedEnd, icc, exif, xmp);
      && (k.icc <==> icc) && (k.exif <==> exif) && (k.xmp <==> xmp)
      && (k.accepted <==> decodedEnd.Some?) && (k.indexed <==> l.header.mode == Indexed)
  {
  }

  ghost function HeaderParts(data: seq<byte>, l: Layout, accepted: bool, strict: bool): (p: seq<Part>)
    requires l.Valid(data)
  {
    var d := StructureIf(accepted);
    SectionParts(0, None, HeaderPart, Range(0, HEADER_LEN), d, FieldPart, HeaderPieces(d, ReservedFate(data, strict)))
  }

  ghost function ColorParts(id: nat, l: Layout, accepted: bool): (p: seq<Part>)
    requires HEADER_LEN + 4 <= l.colorEnd
  {
    SectionParts(id, None, ChunkPart, Range(HEADER_LEN, l.colorEnd), StructureIf(accepted), SegmentPart,
                 ColorPieces(l, accepted))
  }

  ghost function ImageParts(id: nat, data: seq<byte>, l: Layout, decodedEnd: Option<nat>): (p: seq<Part>)
    requires l.Valid(data) && (decodedEnd.Some? ==> Decoded(data, l, decodedEnd.value))
  {
    SectionParts(id, None, ChunkPart, Range(l.layerEnd, ImageEnd(data, decodedEnd)),
                 if decodedEnd.Some? then ImageData else Dropped, SegmentPart, ImagePieces(data, l, decodedEnd))
  }

  /** The parts of the header, color mode data and resources sections. */
  ghost function FrontParts(data: seq<byte>, l: Layout, k: Keep, strict: bool): (p: seq<Part>)
    requires l.Valid(data)
  {
    var header := HeaderParts(data, l, k.accepted, strict);
    var color := header + ColorParts(|header|, l, k.accepted);
    color + ResourceParts(|color|, data, l, k)
  }

  /** Records those three. */
  method MapFront(data: seq<byte>, l: Layout, ghost decodedEnd: Option<nat>, k: Keep, strict: bool)
      returns (w: Recorder, ids: seq<nat>)
    requires l.Valid(data) && k.accepted == decodedEnd.Some?
    ensures fresh(w) && w.parts == FrontParts(data, l, k, strict) && WellParented(w.parts)
    ensures |ids| == 3 && Sectioned(w.parts, ids, Sections(data, l, decodedEnd)[..3], [])
    ensures OpenAt(w.parts, None, 0, l.resourcesEnd) && ids[2] < |w.parts| && BlocksTiled(w.parts, ids[2])
  {
    hide SectionParts, PieceParts, Blocks, HeaderPieces, ColorPieces, ResourceParts, ReservedFate;
    hide OpenAt, Tiling, ChildRanges, WellParented, AddsUnder, Cut, Tiled, BlocksTiled, Sectioned, OneOnTop;
    var d := StructureIf(k.accepted);
    ghost var heads := Sections(data, l, decodedEnd);
    w := new Recorder();
    NothingYet(heads);
    ids := [];
    var hdr := AddSection(w, None, HeaderPart, Range(0, HEADER_LEN), d, FieldPart,
      HeaderPieces(d, ReservedFate(data, strict)), 0);
    ghost var header := w.parts;
    KeepsParts([], header, None);
    HeaderOnTop(data, l, decodedEnd, strict);
    OneMoreSection([], header, ids, heads, 0, HeaderParts(data, l, k.accepted, strict));
    ids := ids + [hdr];
    var color := AddSection(w, None, ChunkPart, Range(HEADER_LEN, l.colorEnd), d, SegmentPart,
      ColorPieces(l, k.accepted), 0);
    ghost var colors := w.parts;
    KeepsParts(header, colors, None);
    ColorOnTop(color, data, l, decodedEnd);
    OneMoreSection(header, colors, ids, heads, 1, ColorParts(color, l, k.accepted));
    ids := ids + [color];
    var resource := MapImageResources(w, data, l, k);
    KeepsParts(colors, w.parts, None);
    ResourcesOnTop(resource, data, l, k);
    OneMoreSection(colors, w.parts, ids, heads, 2, ResourceParts(resource, data, l, k));
    ids := ids + [resource];
  }

  /** Everything recorded of a file: the parts of the five sections, in file order, and the rest. */
  ghost function FileParts(data: seq<byte>, l: Layout, decodedEnd: Option<nat>, k: Keep, strict: bool): (p: seq<Part>)
    requires l.Valid(data) && (decodedEnd.Some? ==> Decoded(data, l, decodedEnd.value))
  {
    var front := FrontParts(data, l, k, strict);
    var layers := front + LayerParts(|front|, l, decodedEnd.Some?);
    layers + ImageParts(|layers|, data, l, decodedEnd) + TrailingParts(data, decodedEnd)
  }

  /**
   `inventory` of a parsed file: header, color mode data, resources, layers and image
   data follow one another from byte 0 to where decoding stopped, whatever is left is
   trailing, each section is tiled by what lies in it, and so is each resource block;
   and the parts are exactly those of the sections, with their dispositions.
   */
  method MapFile(data: seq<byte>, l: Layout, decodedEnd: Option<nat>, strict: bool, icc: bool, exif: bool, xmp: bool)
      returns (w: Recorder, ids: seq<nat>)
    requires l.Valid(data) && (decodedEnd.Some? ==> Decoded(data, l, decodedEnd.value))
    ensures fresh(w) && w.parts == FileParts(data, l, decodedEnd, KeepOf(l, decodedEnd, icc, exif, xmp), strict)
    ensures Sectioned(w.parts, ids, Sections(data, l, decodedEnd), TrailingParts(data, decodedEnd))
    ensures OpenAt(w.parts, None, 0, |data|) && |ids| == 5 && BlocksTiled(w.parts, ids[2])
  {
    hide Blocks, LayerParts, FrontParts, ImagePieces, SectionParts;
    hide OpenAt, Tiling, ChildRanges, WellParented, AddsUnder, Cut, Tiled, BlocksTiled, Decoded, Sectioned, OneOnTop;
    var k := KeepOf(l, decodedEnd, icc, exif, xmp);
    ghost var heads := Sections(data, l, decodedEnd);
    w, ids := MapFront(data, l, decodedEnd, k, strict);
    ghost var front := w.parts;
    var layer := MapLayers(w, l, k.accepted);
    ghost var layers := w.parts;
    KeepsParts(front, layers, None);
    LayersOnTop(layer, l, k.accepted);
    OneMoreSection(front, layers, ids, heads, 3, LayerParts(layer, l, k.accepted));
    BlocksStillTiled(front, layers, ids[2]);
    var image := MapImageData(w, data, l, decodedEnd);
    ghost var images := w.parts;
    KeepsParts(layers, images, None);
    ImageOnTop(image, data, l, decodedEnd);
    OneMoreSection(layers, images, ids + [layer], heads, 4, ImageParts(image, data, l, decodedEnd));
    BlocksStillTiled(layers, images, ids[2]);
    ids := ids + [layer] + [image];
    assert heads[..5] == heads;
    if ImageEnd(data, decodedEnd) < |data| {
      var _ := Add(w, None, GapPart, Range(ImageEnd(data, decodedEnd), |data|), Trailing, 0);
      RestOnTop(images, w.parts, ids, heads, TrailingParts(data, decodedEnd)[0]);
      BlocksStillTiled(images, w.parts, ids[2]);
    }
  }

  lemma {:induction false} NothingYet(heads: seq<Part>)
    ensures WellParented([]) && OpenAt([], None, 0, 0) && Sectioned([], [], heads[..0], [])
  {
  }

  lemma {:induction false} BlocksStillTiled(before: seq<Part>, after: seq<Part>, section: nat)
    requires AddsUnder(before, after, None) && BlocksTiled(before, section) && section < |before|
    ensures BlocksTiled(after, section)
  {
    forall i | section < i < |after| && after[i].parent == Some(section) && after[i].kind == ChunkPart
      ensures Tiled(after, i)
    {
      if i < |before| {
        assert after[i] == after[..|before|][i];
        StillTiled(before, after, None, i);
      }
    }
  }
}
