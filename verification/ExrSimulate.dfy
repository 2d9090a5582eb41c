/**
 Replaying the decoder's chunk reads: exr's cursor, which counts a short forward
 skip twice, and the pruning of chunks whose pixels a later chunk overwrites.
 */
module ExrSimulate {
  import opened Wrappers
  import opened Bytes
  import opened Inventory
  import opened ExrChunk
  import ExrStored
  import Sorting

  /** exr skips forward by reading below this distance, and that path counts the bytes twice. */
  const SHORT_SKIP: nat := 16

  /** A chunk the walk will record. */
  datatype Placed = Placed(layout: Layout, disposition: Disposition, dataUse: Option<DataUse>)

  /** A chunk the walk may record: it reads somewhere, its fields tile it and its data use tiles its data. */
  ghost predicate Placeable(p: Placed) {
    && p.layout.start < p.layout.end
    && (HasFields(p) ==> Tiling(p.layout.Pieces(), p.layout.start, p.layout.end))
    && (p.dataUse.Some? ==> forall d :: d in p.layout.data ==>
      d.start <= d.end && UseTiles(p.dataUse.value, d.end - d.start))
  }

  predicate HasFields(p: Placed) { p.layout.coordField.start < p.layout.coordField.end }

  // ---- Reference: where each chunk is read ----

  /** Where the cursor stands before read `i`: after the tables, or after the previous chunk. */
  function Before(tablesEnd: nat, ends: seq<nat>, i: nat): (p: nat)
    requires i <= |ends|
  {
    if i == 0 then tablesEnd else ends[i - 1]
  }

  /** How far exr believes target `i` lies ahead of its cursor. */
  function Skip(tablesEnd: nat, targets: seq<nat>, ends: seq<nat>, i: nat): (d: int)
    requires i < |targets| && i <= |ends|
    decreases i, 1
  {
    targets[i] - (Before(tablesEnd, ends, i) + Debt(tablesEnd, targets, ends, i))
  }

  predicate IsShort(d: int) { 0 <= d < SHORT_SKIP }

  /** Short skips counted twice since the last absolute seek, before read `i`. */
  function Debt(tablesEnd: nat, targets: seq<nat>, ends: seq<nat>, i: nat): (g: nat)
    requires i <= |targets| && i <= |ends|
    decreases i, 0
  {
    if i == 0 then 0 else
    var d := Skip(tablesEnd, targets, ends, i - 1);
    if IsShort(d) then Debt(tablesEnd, targets, ends, i - 1) + d else 0
  }

  /** Where chunk `i` is really read. */
  function ReadAt(tablesEnd: nat, targets: seq<nat>, ends: seq<nat>, i: nat): (at: nat)
    requires i < |targets| && i <= |ends|
  {
    var d := Skip(tablesEnd, targets, ends, i);
    if IsShort(d) then Before(tablesEnd, ends, i) + d else targets[i]
  }

  /** A chunk is read at its target less the debt, or at its target after an absolute seek. */
  lemma ReadAtTarget(tablesEnd: nat, targets: seq<nat>, ends: seq<nat>, i: nat)
    requires i < |targets| && i <= |ends|
    ensures
      var g := Debt(tablesEnd, targets, ends, i);
      var at := ReadAt(tablesEnd, targets, ends, i);
      var short := 0 <= Skip(tablesEnd, targets, ends, i) < 16;
      && at == (if short then targets[i] - g else targets[i])
      && (at == targets[i] <==> g == 0 || !short)
  {
  }

  /** The first read after which every skip up to `i` is short: the last absolute seek. */
  function LastSeek(tablesEnd: nat, targets: seq<nat>, ends: seq<nat>, i: nat): (k: nat)
    requires i <= |targets| && i <= |ends|
    ensures k <= i
  {
    if i == 0 || !IsShort(Skip(tablesEnd, targets, ends, i - 1)) then i
    else LastSeek(tablesEnd, targets, ends, i - 1)
  }

  /** Total short skips of reads `k..i`. */
  function Skipped(tablesEnd: nat, targets: seq<nat>, ends: seq<nat>, k: nat, i: nat): (n: int)
    requires k <= i <= |targets| && i <= |ends|
  {
    if i == k then 0 else Skipped(tablesEnd, targets, ends, k, i - 1) + Skip(tablesEnd, targets, ends, i - 1)
  }

  /** The debt is the sum of the short skips since the last absolute seek. */
  lemma {:induction false} DebtIsSkipped(tablesEnd: nat, targets: seq<nat>, ends: seq<nat>, i: nat)
    requires i <= |targets| && i <= |ends|
    ensures Debt(tablesEnd, targets, ends, i)
         == Skipped(tablesEnd, targets, ends, LastSeek(tablesEnd, targets, ends, i), i)
  {
    if i > 0 && IsShort(Skip(tablesEnd, targets, ends, i - 1)) {
      DebtIsSkipped(tablesEnd, targets, ends, i - 1);
    }
  }

  /** Every target is reached by an absolute seek or lies where the previous chunk ended. */
  ghost predicate NoShortSkips(tablesEnd: nat, targets: seq<nat>, ends: seq<nat>, n: nat)
    requires n <= |targets| && n <= |ends| + 1
  {
    forall i :: 0 <= i < n ==>
      targets[i] == Before(tablesEnd, ends, i) || !IsShort(targets[i] - Before(tablesEnd, ends, i))
  }

  /** Tables without short skips are read exactly at their targets. */
  lemma {:induction false} ExactWithoutShortSkips(tablesEnd: nat, targets: seq<nat>, ends: seq<nat>, i: nat)
    requires i < |targets| && i <= |ends| && NoShortSkips(tablesEnd, targets, ends, i + 1)
    ensures Debt(tablesEnd, targets, ends, i) == 0 && ReadAt(tablesEnd, targets, ends, i) == targets[i]
  {
    if i > 0 {
      ExactWithoutShortSkips(tablesEnd, targets, ends, i - 1);
    }
  }

  // ---- Acceptance ----

  /** The chunk read at `at`, its rectangle and what decoding reads of its data; `None` if rejected. */
  function Accept(f: File, at: nat): (r: Option<(Layout, Rect, DataUse)>)
    requires |f.headers| > 0
    ensures r.Some? ==> r.value.0.start == at < r.value.0.end <= |f.data|
    ensures r.Some? ==> f.exr.rect(f.headers[0], r.value.0.coord) == Some(r.value.1)
  {
    ReadChunkBounds(f, at, MaxBlockBytes(f.headers[0]));
    match ReadChunk(f, at, MaxBlockBytes(f.headers[0]))
    case Err(_) => None
    case Ok(layout) =>
      match f.exr.rect(f.headers[0], layout.coord)
      case None => None
      case Some(rect) =>
        var bytes := f.data[layout.data[0].start..layout.data[0].end];
        match DataUseOf(f, f.headers[0], rect, bytes)
        case None => None
        case Some(use) => Some((layout, rect, use))
  }

  /**
   Accepted exactly when the file stores a chunk there that fits under the block maximum, its
   coordinates name a block, and decoding has a use for its first piece of data.
   */
  lemma {:induction false} AcceptedIsStored(f: File, at: nat, layout: Layout, rect: Rect, use: DataUse)
    requires |f.headers| > 0
    ensures Accept(f, at) == Some((layout, rect, use)) <==> exists c :: IsAccepted(f, at, layout, rect, use, c)
  {
    hide ReadChunk, DataUseOf, MaxBlockBytes, ExrStored.LayoutAt, ExrStored.Fits, ExrStored.StoredAt;
    var hardMax := MaxBlockBytes(f.headers[0]);
    if Accept(f, at) == Some((layout, rect, use)) {
      var c := ExrStored.ReadIsStored(f, at, hardMax);
      FirstPiece(f, at, hardMax, c);
      assert IsAccepted(f, at, layout, rect, use, c);
    }
    if c :| IsAccepted(f, at, layout, rect, use, c) {
      ExrStored.StoredIsRead(f, at, c, hardMax);
      FirstPiece(f, at, hardMax, c);
    }
  }

  /** The first piece of data of a chunk: all of it, but for the offset table of a deep one. */
  function FirstOf(c: ExrStored.Content): (bytes: seq<byte>) { if c.Flat? then c.bytes else c.table }

  ghost predicate IsAccepted(f: File, at: nat, layout: Layout, rect: Rect, use: DataUse, c: ExrStored.Stored)
    requires |f.headers| > 0
  {
    && ExrStored.Fits(f, c, MaxBlockBytes(f.headers[0])) && ExrStored.StoredAt(f, at, c)
    && layout == ExrStored.LayoutAt(f, at, c)
    && f.exr.rect(f.headers[0], layout.coord) == Some(rect)
    && DataUseOf(f, f.headers[0], rect, FirstOf(c.content)) == Some(use)
  }

  lemma {:induction false} FirstPiece(f: File, at: nat, hardMax: Option<nat>, c: ExrStored.Stored)
    requires |f.headers| > 0 && ExrStored.Fits(f, c, hardMax) && ExrStored.StoredAt(f, at, c)
    ensures
      var l := ExrStored.LayoutAt(f, at, c);
      && |l.data| > 0 && l.data[0].start <= l.data[0].end <= |f.data|
      && f.data[l.data[0].start..l.data[0].end] == FirstOf(c.content)
  {
    hide HoldsAt, Le32, Le64;
    var (w, x, y, z) := (ExrStored.PartBytes(f.multipart, c.part), ExrStored.PlaceBytes(c.place),
                         ExrStored.SizeBytes(c.content), ExrStored.DataBytes(c.content));
    ExrStored.FourHeld(f.data, at, w, x, y, z);
    if c.content.Deep? { HoldsParts(f.data, at + |w| + |x| + |y|, c.content.table, c.content.samples); }
    HeldSlice(f.data, at + |w| + |x| + |y|, FirstOf(c.content));
  }

  lemma {:induction false} HeldSlice(b: seq<byte>, i: nat, e: seq<byte>)
    requires HoldsAt(b, i, e)
    ensures i + |e| <= |b| && b[i..i + |e|] == e
  {
  }

  /** A chunk decoding accepts can be recorded: single-part files have flat chunks, with one data piece. */
  lemma AcceptedIsPlaceable(f: File, at: nat, d: Disposition)
    requires |f.headers| == 1 && !f.headers[0].deep && Accept(f, at).Some?
    ensures
      var (layout, _, use) := Accept(f, at).value;
      Placeable(Placed(layout, d, Some(use))) && Placeable(Placed(layout, d, Some(Whole)))
  {
    hide ReadChunk, DataUseOf, MaxBlockBytes, Tiling;
    ReadChunkBounds(f, at, MaxBlockBytes(f.headers[0]));
    ReadChunkTiles(f, at, MaxBlockBytes(f.headers[0]));
    OneData(f, at, MaxBlockBytes(f.headers[0]));
    var (layout, rect, _) := Accept(f, at).value;
    DataUseTiles(f, f.headers[0], rect, f.data[layout.data[0].start..layout.data[0].end]);
    forall d | d in layout.data ensures d == layout.data[0] {}
  }

  /** A single flat part's chunks hold one block of data. */
  lemma OneData(f: File, at: nat, hardMax: Option<nat>)
    requires |f.headers| == 1 && !f.headers[0].deep
    ensures ReadChunk(f, at, hardMax).Ok? ==> |ReadChunk(f, at, hardMax).value.data| == 1
  {
  }

  // ---- Overwriting ----

  /** Chunks with the same key are placed by the same tile index or block row. */
  datatype Key = Key(tiled: bool, x: nat, y: int)

  function KeyOf(coord: Coord, rect: Rect): (k: Key) {
    match coord
    case TileCoord(t) => Key(true, t.x, t.y)
    case Line(_) => Key(false, 0, rect.y)
  }

  predicate Inside(r: Rect, outer: Rect) {
    && r.x >= outer.x && r.y >= outer.y
    && r.x + r.w <= outer.x + outer.w && r.y + r.h <= outer.y + outer.h
  }

  predicate Contains(r: Rect, px: int, py: int) {
    r.x <= px < r.x + r.w && r.y <= py < r.y + r.h
  }

  /** Read and decompressed, whether or not a later chunk overwrites it. */
  predicate WasAccepted(p: Placed) { p.disposition.ImageData? || p.disposition.Dropped? }

  /** An accepted chunk's rectangle. */
  function RectOf(f: File, p: Placed): (r: Rect)
    requires |f.headers| > 0
  {
    match f.exr.rect(f.headers[0], p.layout.coord)
    case Some(r) => r
    case None => Rect(0, 0, 0, 0)
  }

  function PlacedKey(f: File, p: Placed): (k: Key)
    requires |f.headers| > 0
  {
    KeyOf(p.layout.coord, RectOf(f, p))
  }

  /** Chunk `j` is placed like chunk `i` and covers all its pixels. */
  ghost predicate Overwrites(f: File, read: seq<Placed>, j: nat, i: nat)
    requires |f.headers| > 0 && i < |read| && j < |read|
  {
    && i < j && WasAccepted(read[j])
    && PlacedKey(f, read[j]) == PlacedKey(f, read[i])
    && Inside(RectOf(f, read[i]), RectOf(f, read[j]))
  }

  /** Exactly the accepted chunks that some later one overwrites are dropped. */
  ghost predicate PrunedExactly(f: File, read: seq<Placed>)
    requires |f.headers| > 0
  {
    forall i :: 0 <= i < |read| && WasAccepted(read[i]) ==>
      (read[i].disposition.Dropped? <==> exists j :: 0 <= j < |read| && Overwrites(f, read, j, i))
  }

  // ---- The picture ----

  /** Whether chunk `p` is drawn: every accepted chunk, or only those kept as image data. */
  predicate Drawn(p: Placed, keptOnly: bool) {
    if keptOnly then p.disposition.ImageData? else WasAccepted(p)
  }

  /** The chunk that last writes pixel `(px, py)` among the first `n`. */
  function Painter(f: File, read: seq<Placed>, n: nat, keptOnly: bool, px: int, py: int): (i: Option<nat>)
    requires |f.headers| > 0 && n <= |read|
  {
    if n == 0 then None
    else if Drawn(read[n - 1], keptOnly) && Contains(RectOf(f, read[n - 1]), px, py) then Some(n - 1)
    else Painter(f, read, n - 1, keptOnly, px, py)
  }

  /** `i` draws the pixel and nothing after it does. */
  ghost predicate DrawsLast(f: File, read: seq<Placed>, n: nat, keptOnly: bool, px: int, py: int, i: nat)
    requires |f.headers| > 0 && n <= |read|
  {
    && i < n && Drawn(read[i], keptOnly) && Contains(RectOf(f, read[i]), px, py)
    && forall j :: i < j < n && Drawn(read[j], keptOnly) ==> !Contains(RectOf(f, read[j]), px, py)
  }

  lemma {:induction false} PainterDrawsLast(f: File, read: seq<Placed>, n: nat, keptOnly: bool, px: int, py: int)
    requires |f.headers| > 0 && n <= |read|
    ensures match Painter(f, read, n, keptOnly, px, py)
      case Some(i) => DrawsLast(f, read, n, keptOnly, px, py, i)
      case None => forall j :: 0 <= j < n && Drawn(read[j], keptOnly) ==> !Contains(RectOf(f, read[j]), px, py)
  {
    if n > 0 { PainterDrawsLast(f, read, n - 1, keptOnly, px, py); }
  }

  lemma {:induction false} LastIsPainter(f: File, read: seq<Placed>, n: nat, keptOnly: bool, px: int, py: int, i: nat)
    requires |f.headers| > 0 && n <= |read| && DrawsLast(f, read, n, keptOnly, px, py, i)
    ensures Painter(f, read, n, keptOnly, px, py) == Some(i)
  {
    PainterDrawsLast(f, read, n, keptOnly, px, py);
  }

  /**
   Pruning never changes the picture: at every pixel the last writer among all
   accepted chunks is the last writer among those kept, however long the chains of
   overwriting chunks are.
   */
  lemma {:induction false} PruningKeepsPicture(f: File, read: seq<Placed>, px: int, py: int)
    requires |f.headers| > 0 && PrunedExactly(f, read)
    ensures Painter(f, read, |read|, true, px, py) == Painter(f, read, |read|, false, px, py)
  {
    PainterDrawsLast(f, read, |read|, false, px, py);
    PainterDrawsLast(f, read, |read|, true, px, py);
    var all := Painter(f, read, |read|, false, px, py);
    if all.Some? {
      LastIsPainter(f, read, |read|, true, px, py, all.value);
    }
  }

  /**
   What exr promises of block rectangles: blocks with the same index start at the
   same pixel, blocks with different indices never overlap, and none is empty.
   */
  ghost predicate TiledGeometry(f: File)
    requires |f.headers| > 0
  {
    forall c, d | f.exr.rect(f.headers[0], c).Some? && f.exr.rect(f.headers[0], d).Some? ::
      var r, q := f.exr.rect(f.headers[0], c).value, f.exr.rect(f.headers[0], d).value;
      && r.w > 0 && r.h > 0
      && (KeyOf(c, r) == KeyOf(d, q) ==> r.x == q.x && r.y == q.y)
      && (KeyOf(c, r) != KeyOf(d, q) ==> forall px, py :: !(Contains(r, px, py) && Contains(q, px, py)))
  }

  /** Every accepted chunk's block has a rectangle. */
  ghost predicate HaveRects(f: File, read: seq<Placed>)
    requires |f.headers| > 0
  {
    forall i :: 0 <= i < |read| && WasAccepted(read[i]) ==> f.exr.rect(f.headers[0], read[i].layout.coord).Some?
  }

  /** Under that geometry a chunk is kept exactly when it shows a pixel of the final picture. */
  lemma {:induction false} KeptIsVisible(f: File, read: seq<Placed>, i: nat)
    requires |f.headers| > 0 && PrunedExactly(f, read) && HaveRects(f, read) && TiledGeometry(f)
    requires i < |read| && WasAccepted(read[i])
    ensures read[i].disposition.ImageData? <==>
      exists px, py :: Painter(f, read, |read|, false, px, py) == Some(i)
  {
    if read[i].disposition.ImageData? {
      var r := RectOf(f, read[i]);
      var px, py := r.x + r.w - 1, r.y + r.h - 1;
      assert TiledGeometry(f);
      assert r.w > 0 && r.h > 0;
      assert Contains(r, px, py);
      forall j | i < j < |read| && WasAccepted(read[j])
        ensures !Contains(RectOf(f, read[j]), px, py)
      {
        CornerCovered(f, read, i, j);
      }
      LastIsPainter(f, read, |read|, false, px, py, i);
    }
    if px, py :| Painter(f, read, |read|, false, px, py) == Some(i) {
      PruningKeepsPicture(f, read, px, py);
      PainterDrawsLast(f, read, |read|, true, px, py);
    }
  }

  /** A later chunk that covers a kept chunk's far corner would overwrite it. */
  lemma {:induction false} CornerCovered(f: File, read: seq<Placed>, i: nat, j: nat)
    requires |f.headers| > 0 && PrunedExactly(f, read) && HaveRects(f, read) && TiledGeometry(f)
    requires i < j < |read| && read[i].disposition.ImageData? && WasAccepted(read[j])
    ensures
      var r := RectOf(f, read[i]);
      !Contains(RectOf(f, read[j]), r.x + r.w - 1, r.y + r.h - 1)
  {
    var r, q := RectOf(f, read[i]), RectOf(f, read[j]);
    var px, py := r.x + r.w - 1, r.y + r.h - 1;
    if Contains(q, px, py) {
      assert f.exr.rect(f.headers[0], read[i].layout.coord) == Some(r);
      assert f.exr.rect(f.headers[0], read[j].layout.coord) == Some(q);
      assert Contains(r, px, py);
      assert PlacedKey(f, read[j]) == PlacedKey(f, read[i]);
      assert Overwrites(f, read, j, i);
    }
  }

  // ---- The replay ----

  function Ends(read: seq<Placed>): (e: seq<nat>)
    ensures |e| == |read| && forall i :: 0 <= i < |read| ==> e[i] == read[i].layout.end
  {
    seq(|read|, i requires 0 <= i < |read| => read[i].layout.end)
  }

  /** Later chunks do not change where earlier ones are read. */
  lemma {:induction false} DebtPrefix(tablesEnd: nat, targets: seq<nat>, a: seq<nat>, b: seq<nat>, i: nat)
    requires i <= |targets| && i <= |a| && i <= |b| && a[..i] == b[..i]
    ensures Debt(tablesEnd, targets, a, i) == Debt(tablesEnd, targets, b, i)
    ensures i < |targets| ==> ReadAt(tablesEnd, targets, a, i) == ReadAt(tablesEnd, targets, b, i)
  {
    if i > 0 {
      assert a[..i - 1] == a[..i][..i - 1] && b[..i - 1] == b[..i][..i - 1];
      DebtPrefix(tablesEnd, targets, a, b, i - 1);
      assert a[i - 1] == a[..i][i - 1] && b[i - 1] == b[..i][i - 1];
      if i > 1 { assert a[i - 2] == a[..i][i - 2] && b[i - 2] == b[..i][i - 2]; }
    }
  }

  /** Chunk `i` was read where the cursor stood and is what exr accepts there. */
  ghost predicate Replayed(f: File, tablesEnd: nat, targets: seq<nat>, read: seq<Placed>, i: nat)
    requires |f.headers| > 0 && i < |read| <= |targets|
  {
    && read[i].layout.start == ReadAt(tablesEnd, targets, Ends(read), i)
    && WasAccepted(read[i])
    && match Accept(f, read[i].layout.start)
       case None => false
       case Some((layout, _, use)) =>
         && read[i].layout == layout
         && read[i].dataUse == Some(if read[i].disposition.Dropped? then Whole else use)
  }

  /** The first `n` chunks were replayed. */
  ghost predicate ReplayedUpTo(f: File, tablesEnd: nat, targets: seq<nat>, read: seq<Placed>, n: nat)
    requires |f.headers| > 0 && n <= |read| <= |targets|
  {
    forall i :: 0 <= i < n ==> Replayed(f, tablesEnd, targets, read, i)
  }

  /** Why a replay of `n` chunks stops before target `n`. */
  ghost predicate Rejects(f: File, tablesEnd: nat, targets: seq<nat>, ends: seq<nat>, n: nat)
    requires |f.headers| > 0 && n < |targets| && n <= |ends|
  {
    var d := Skip(tablesEnd, targets, ends, n);
    || (0 < d < 16 && Before(tablesEnd, ends, n) + d > |f.data|)
    || Accept(f, ReadAt(tablesEnd, targets, ends, n)).None?
  }

  /** A chunk whose pixels a later chunk overwrites. */
  function Superseded(p: Placed): (q: Placed) { p.(disposition := Dropped, dataUse := Some(Whole)) }

  /** A kept chunk placed by `key` inside `rect`. */
  ghost predicate Covered(f: File, p: Placed, key: Key, rect: Rect)
    requires |f.headers| > 0
  {
    p.disposition.ImageData? && PlacedKey(f, p) == key && Inside(RectOf(f, p), rect)
  }

  /** Every kept chunk placed by `key` inside `rect` is superseded and nothing else changes. */
  ghost predicate Marked(f: File, before: seq<Placed>, after: seq<Placed>, key: Key, rect: Rect)
    requires |f.headers| > 0
  {
    && |after| == |before|
    && forall i :: 0 <= i < |before| ==>
         after[i] == (if Covered(f, before[i], key, rect) then Superseded(before[i]) else before[i])
  }

  /** `e` is the entry of a kept chunk placed by `key`. */
  ghost predicate EntryOf(f: File, read: seq<Placed>, key: Key, e: (nat, Rect))
    requires |f.headers| > 0
  {
    && e.0 < |read| && read[e.0].disposition.ImageData?
    && PlacedKey(f, read[e.0]) == key && RectOf(f, read[e.0]) == e.1
  }

  /** The slot of `key` lists exactly the kept chunks placed by it. */
  ghost predicate SlotLists(f: File, read: seq<Placed>, key: Key, slot: seq<(nat, Rect)>)
    requires |f.headers| > 0
  {
    && (forall e :: e in slot ==> EntryOf(f, read, key, e))
    && (forall i :: 0 <= i < |read| && EntryOf(f, read, key, (i, RectOf(f, read[i]))) ==>
      (i, RectOf(f, read[i])) in slot)
  }

  function Slot(live: map<Key, seq<(nat, Rect)>>, key: Key): (s: seq<(nat, Rect)>) {
    if key in live then live[key] else []
  }

  ghost predicate Live(f: File, read: seq<Placed>, live: map<Key, seq<(nat, Rect)>>)
    requires |f.headers| > 0
  {
    forall key :: SlotLists(f, read, key, Slot(live, key))
  }

  function OverwrittenBy(p: Placed, covered: bool): (q: Placed) {
    if covered then Superseded(p) else p
  }

  /** Marks the chunks of `slot` that `rect` covers, and keeps the entries it does not. */
  method Overwrite(f: File, before: seq<Placed>, ghost key: Key, slot: seq<(nat, Rect)>, rect: Rect)
    returns (read: seq<Placed>, kept: seq<(nat, Rect)>)
    requires |f.headers| > 0 && SlotLists(f, before, key, slot)
    ensures Marked(f, before, read, key, rect)
    ensures forall e :: e in kept <==> e in slot && !Inside(e.1, rect)
  {
    read, kept := before, [];
    var n := 0;
    while n < |slot|
      invariant n <= |slot| && |read| == |before|
      invariant forall i :: 0 <= i < |read| ==>
        var (mark, in_) := ((i, RectOf(f, before[i])) in slot[..n], Inside(RectOf(f, before[i]), rect));
        read[i] == OverwrittenBy(before[i], mark && in_)
      invariant forall e :: e in kept <==> e in slot[..n] && !Inside(e.1, rect)
    {
      assert slot[..n + 1] == slot[..n] + [slot[n]];
      assert EntryOf(f, before, key, slot[n]);
      if Inside(slot[n].1, rect) {
        read := read[slot[n].0 := Superseded(read[slot[n].0])];
      } else {
        kept := kept + [slot[n]];
      }
      n := n + 1;
    }
    assert slot[..n] == slot;
  }

  /** A chunk read at the cursor, before any later one is known. */
  function Fresh(layout: Layout, use: DataUse): (p: Placed) {
    Placed(layout, ImageData, Some(use))
  }

  lemma {:induction false} ReplayGrows(f: File, tablesEnd: nat, targets: seq<nat>, before: seq<Placed>,
      marked: seq<Placed>,
      key: Key, rect: Rect, p: Placed)
    requires |f.headers| > 0 && |before| < |targets| && ReplayedUpTo(f, tablesEnd, targets, before, |before|)
    requires Marked(f, before, marked, key, rect)
    requires p.layout.start == ReadAt(tablesEnd, targets, Ends(before), |before|)
    requires match Accept(f, p.layout.start)
      case None => false
      case Some((layout, _, use)) => p == Fresh(layout, use)
    ensures ReplayedUpTo(f, tablesEnd, targets, marked + [p], |before| + 1)
  {
    var after := marked + [p];
    forall i | 0 <= i <= |before|
      ensures Replayed(f, tablesEnd, targets, after, i)
    {
      assert Ends(after)[..i] == Ends(before)[..i];
      DebtPrefix(tablesEnd, targets, Ends(before), Ends(after), i);
      if i < |before| {
        assert Replayed(f, tablesEnd, targets, before, i);
        assert after[i] == marked[i];
      }
    }
  }

  lemma {:induction false} PruneGrows(f: File, before: seq<Placed>, marked: seq<Placed>, p: Placed)
    requires |f.headers| > 0 && PrunedExactly(f, before) && p.disposition.ImageData?
    requires Marked(f, before, marked, PlacedKey(f, p), RectOf(f, p))
    ensures PrunedExactly(f, marked + [p])
  {
    var after := marked + [p];
    forall i | 0 <= i < |after| && WasAccepted(after[i])
      ensures after[i].disposition.Dropped? <==> exists j :: 0 <= j < |after| && Overwrites(f, after, j, i)
    {
      if i < |before| {
        assert after[i] == marked[i];
        if after[i].disposition.Dropped? {
          if before[i].disposition.Dropped? {
            var j :| 0 <= j < |before| && Overwrites(f, before, j, i);
            assert after[j] == marked[j];
            assert Overwrites(f, after, j, i);
          } else {
            assert Covered(f, before[i], PlacedKey(f, p), RectOf(f, p));
            assert Overwrites(f, after, |before|, i);
          }
        }
        if j :| 0 <= j < |after| && Overwrites(f, after, j, i) {
          if j < |before| {
            assert after[j] == marked[j];
            assert Overwrites(f, before, j, i);
          } else {
            assert PlacedKey(f, before[i]) == PlacedKey(f, p);
          }
        }
      }
    }
  }

  lemma {:induction false} LiveGrows(f: File, before: seq<Placed>, marked: seq<Placed>, live: map<Key, seq<(nat,
      Rect)>>,
      p: Placed, kept: seq<(nat, Rect)>)
    requires |f.headers| > 0 && Live(f, before, live) && p.disposition.ImageData?
    requires Marked(f, before, marked, PlacedKey(f, p), RectOf(f, p))
    requires forall e :: e in kept <==> e in Slot(live, PlacedKey(f, p)) && !Inside(e.1, RectOf(f, p))
    ensures Live(f, marked + [p], live[PlacedKey(f, p) := kept + [(|before|, RectOf(f, p))]])
  {
    var key, rect := PlacedKey(f, p), RectOf(f, p);
    var after := marked + [p];
    var live' := live[key := kept + [(|before|, rect)]];
    forall k
      ensures SlotLists(f, after, k, Slot(live', k))
    {
      assert SlotLists(f, before, k, Slot(live, k));
      forall e | e in Slot(live', k)
        ensures EntryOf(f, after, k, e)
      {
        if e.0 < |before| { assert after[e.0] == marked[e.0]; }
      }
      forall i | 0 <= i < |after| && EntryOf(f, after, k, (i, RectOf(f, after[i])))
        ensures (i, RectOf(f, after[i])) in Slot(live', k)
      {
        if i < |before| {
          assert after[i] == marked[i];
          assert EntryOf(f, before, k, (i, RectOf(f, before[i])));
        }
      }
    }
  }

  /** A chunk the reader fails on: from `at` to where it got, at least one byte. */
  function BadChunk(f: File, at: nat, upto: nat): (p: Placed)
    requires at < |f.data|
    ensures p.layout.start == at < p.layout.end <= |f.data|
  {
    var end := if upto < at + 1 then at + 1 else if upto > |f.data| then |f.data| else upto;
    Placed(Layout(at, 0, [], Line(0), Range(at, at), [], [], end), Malformed, None)
  }

  /** Replayed chunks, and a rejected one after them when the file has bytes there. */
  ghost predicate Outcome(f: File, tablesEnd: nat, targets: seq<nat>, read: seq<Placed>, rejected: bool)
    requires |f.headers| > 0
  {
    && |read| <= |targets|
    && var n := if |read| > 0 && read[|read| - 1].disposition.Malformed? then |read| - 1 else |read|;
    && ReplayedUpTo(f, tablesEnd, targets, read, n)
    && (!rejected ==> n == |targets|)
    && (rejected ==> n < |targets| && Rejects(f, tablesEnd, targets, Ends(read[..n]), n))
    && (n < |read| ==> rejected && read[n].layout.start == ReadAt(tablesEnd, targets, Ends(read[..n]), n)
                       && read[n].layout.end <= |f.data| && Placeable(read[n]))
  }

  lemma {:induction false} Rejected(f: File, tablesEnd: nat, targets: seq<nat>, read: seq<Placed>)
    requires |f.headers| > 0 && |read| < |targets|
    requires ReplayedUpTo(f, tablesEnd, targets, read, |read|)
    requires Rejects(f, tablesEnd, targets, Ends(read), |read|)
    ensures Outcome(f, tablesEnd, targets, read, true)
  {
    assert read[..|read|] == read;
    if |read| > 0 { assert Replayed(f, tablesEnd, targets, read, |read| - 1); }
  }

  lemma {:induction false} RejectedAt(f: File, tablesEnd: nat, targets: seq<nat>, read: seq<Placed>, bad: Placed)
    requires |f.headers| > 0 && |read| < |targets| && bad.disposition.Malformed?
    requires ReplayedUpTo(f, tablesEnd, targets, read, |read|) && PrunedExactly(f, read)
    requires Rejects(f, tablesEnd, targets, Ends(read), |read|)
    requires bad.layout.start == ReadAt(tablesEnd, targets, Ends(read), |read|)
    requires bad.layout.end <= |f.data| && Placeable(bad)
    ensures Outcome(f, tablesEnd, targets, read + [bad], true) && PrunedExactly(f, read + [bad])
  {
    var after := read + [bad];
    assert after[..|read|] == read;
    forall i | 0 <= i < |read|
      ensures Replayed(f, tablesEnd, targets, after, i)
    {
      assert Ends(after)[..i] == Ends(read)[..i];
      DebtPrefix(tablesEnd, targets, Ends(read), Ends(after), i);
      assert Replayed(f, tablesEnd, targets, read, i);
    }
    forall i | 0 <= i < |after| && WasAccepted(after[i])
      ensures after[i].disposition.Dropped? <==> exists j :: 0 <= j < |after| && Overwrites(f, after, j, i)
    {
      if j :| 0 <= j < |read| && Overwrites(f, read, j, i) { assert Overwrites(f, after, j, i); }
      if j :| 0 <= j < |after| && Overwrites(f, after, j, i) { assert Overwrites(f, read, j, i); }
    }
  }

  /** The largest-level targets in ascending order. */
  function Targets(table: seq<nat>, level0: nat): (t: seq<nat>) {
    Sorting.Ascending(table[..if level0 < |table| then level0 else |table|])
  }

  /** They ascend, and they are the entries of the largest level, however the table orders them. */
  lemma {:induction false} TargetsAre(table: seq<nat>, level0: nat)
    ensures
      var (t, n) := (Targets(table, level0), Min(level0, |table|));
      && |t| == n && multiset(t) == multiset(table[..n]) && forall i, j :: 0 <= i < j < n ==> t[i] <= t[j]
  {
    var entries := table[..Min(level0, |table|)];
    Sorting.AscendingSorts(entries);
    assert |multiset(Targets(table, level0))| == |multiset(entries)|;
  }

  /** One chunk read, with its coordinate and data checks; a rejected chunk in the file is malformed. */
  method ReadOne(f: File, at: nat) returns (chunk: Option<(Layout, Rect, DataUse)>, bad: Option<Placed>)
    requires |f.headers| > 0
    ensures chunk == Accept(f, at)
    ensures chunk.None? ==> (bad.Some? <==> at < |f.data|)
    ensures bad.Some? ==> bad.value.disposition.Malformed? && bad.value.layout.start == at
    ensures bad.Some? ==> bad.value.layout.end <= |f.data| && Placeable(bad.value)
    ensures bad.Some? ==>
      match ReadChunk(f, at, MaxBlockBytes(f.headers[0]))
      case Err(upto) => bad == Some(BadChunk(f, at, upto)) && bad.value.layout.end == upto
      case Ok(layout) => bad == Some(Placed(layout, Malformed, None))
  {
    var hardMax := MaxBlockBytes(f.headers[0]);
    var read := ReadChunk(f, at, hardMax);
    if read.Err? {
      if at < |f.data| { ExrStored.RefusalInFile(f, at, hardMax); }
      return None, if at < |f.data| then Some(BadChunk(f, at, read.error)) else None;
    }
    ReadChunkBounds(f, at, hardMax);
    ReadChunkTiles(f, at, hardMax);
    var layout := read.value;
    bad := Some(Placed(layout, Malformed, None));
    var rect := f.exr.rect(f.headers[0], layout.coord);
    if rect.None? { return None, bad; }
    var bytes := f.data[layout.data[0].start..layout.data[0].end];
    var use := DataUseOf(f, f.headers[0], rect.value, bytes);
    if use.None? { return None, bad; }
    return Some((layout, rect.value, use.value)), None;
  }

  /** Everything known after reading `read`: where, what of it survives, and the live slots. */
  ghost predicate Replay(f: File, tablesEnd: nat, targets: seq<nat>, read: seq<Placed>, live: map<Key, seq<(nat,
      Rect)>>)
    requires |f.headers| > 0
  {
    && |read| <= |targets|
    && ReplayedUpTo(f, tablesEnd, targets, read, |read|)
    && PrunedExactly(f, read) && Live(f, read, live)
  }

  lemma {:induction false} Grows(f: File, tablesEnd: nat, targets: seq<nat>, read: seq<Placed>, marked: seq<Placed>,
      live: map<Key, seq<(nat, Rect)>>, chunk: (Layout, Rect, DataUse), kept: seq<(nat, Rect)>)
    requires |f.headers| > 0 && |read| < |targets| && Replay(f, tablesEnd, targets, read, live)
    requires Accept(f, ReadAt(tablesEnd, targets, Ends(read), |read|)) == Some(chunk)
    requires Marked(f, read, marked, KeyOf(chunk.0.coord, chunk.1), chunk.1)
    requires forall e :: e in kept <==> e in Slot(live, KeyOf(chunk.0.coord, chunk.1)) && !Inside(e.1, chunk.1)
    ensures Replay(f, tablesEnd, targets, marked + [Fresh(chunk.0, chunk.2)],
                   live[KeyOf(chunk.0.coord, chunk.1) := kept + [(|read|, chunk.1)]])
    ensures Ends(marked + [Fresh(chunk.0, chunk.2)]) == Ends(read) + [chunk.0.end]
  {
    var p := Fresh(chunk.0, chunk.2);
    ReplayGrows(f, tablesEnd, targets, read, marked, KeyOf(chunk.0.coord, chunk.1), chunk.1, p);
    PruneGrows(f, read, marked, p);
    LiveGrows(f, read, marked, live, p, kept);
  }

  /** exr's two cursors before read `n`: they differ by the debt, which the file length bounds. */
  ghost predicate CursorAt(tablesEnd: nat, targets: seq<nat>, ends: seq<nat>, n: nat, tracked: nat, inner: nat) {
    && n <= |targets| && n == |ends|
    && inner == Before(tablesEnd, ends, n)
    && tracked == inner + Debt(tablesEnd, targets, ends, n)
    && Debt(tablesEnd, targets, ends, n) <= inner
  }

  lemma {:induction false} CursorAdvances(tablesEnd: nat, targets: seq<nat>, ends: seq<nat>, n: nat, tracked: nat,
      inner: nat, end: nat)
    requires n < |targets| && n == |ends|
    requires inner == ReadAt(tablesEnd, targets, ends, n) <= end < U64 / 2
    requires tracked == inner + NextDebt(tablesEnd, targets, ends, n) && NextDebt(tablesEnd, targets, ends, n) <= inner
    ensures tracked + (end - inner) < U64
    ensures CursorAt(tablesEnd, targets, ends + [end], n + 1, tracked + (end - inner), end)
  {
    var ends' := ends + [end];
    assert ends[..n] == ends'[..n];
    DebtPrefix(tablesEnd, targets, ends, ends', n);
    if n > 0 { assert ends[n - 1] == ends'[n - 1]; }
  }

  /** The debt after the skip to target `n`. */
  function NextDebt(tablesEnd: nat, targets: seq<nat>, ends: seq<nat>, n: nat): (g: nat)
    requires n < |targets| && n <= |ends|
  {
    var d := Skip(tablesEnd, targets, ends, n);
    if IsShort(d) then Debt(tablesEnd, targets, ends, n) + d else 0
  }

  /** `Tracking::seek_read_to`: a short skip advances `tracked` twice; `None` if it runs past the file. */
  method SeekTo(target: nat, len: nat, tracked0: nat, inner0: nat,
                ghost tablesEnd: nat, ghost targets: seq<nat>, ghost ends: seq<nat>)
    returns (inFile: bool, tracked: nat, inner: nat)
    requires |ends| < |targets| && target == targets[|ends|]
    requires CursorAt(tablesEnd, targets, ends, |ends|, tracked0, inner0)
    requires inner0 <= len < U64 / 2
    ensures !inFile <==>
      var d := Skip(tablesEnd, targets, ends, |ends|);
      0 < d < 16 && Before(tablesEnd, ends, |ends|) + d > len
    ensures inFile ==>
      && inner == ReadAt(tablesEnd, targets, ends, |ends|)
      && tracked == inner + NextDebt(tablesEnd, targets, ends, |ends|)
      && NextDebt(tablesEnd, targets, ends, |ends|) <= inner
  {
    tracked, inner := tracked0, inner0;
    var delta: int := target - tracked;
    if 0 < delta < SHORT_SKIP {
      if inner + delta > len { return false, tracked, inner; }
      inner := inner + delta;
      tracked := tracked + 2 * delta;
    } else if delta != 0 {
      inner := target;
      tracked := target;
    }
    inFile := true;
  }

  /** Adds an accepted chunk, dropping the chunks it overwrites. */
  method Keep(f: File, read0: seq<Placed>, live0: map<Key, seq<(nat, Rect)>>, chunk: (Layout, Rect, DataUse),
              ghost tablesEnd: nat, ghost targets: seq<nat>)
    returns (read: seq<Placed>, live: map<Key, seq<(nat, Rect)>>)
    requires |f.headers| > 0 && |read0| < |targets| && Replay(f, tablesEnd, targets, read0, live0)
    requires Accept(f, ReadAt(tablesEnd, targets, Ends(read0), |read0|)) == Some(chunk)
    ensures Replay(f, tablesEnd, targets, read, live) && Ends(read) == Ends(read0) + [chunk.0.end]
  {
    var (layout, rect, use) := chunk;
    var key := KeyOf(layout.coord, rect);
    var marked, kept := Overwrite(f, read0, key, Slot(live0, key), rect);
    Grows(f, tablesEnd, targets, read0, marked, live0, chunk, kept);
    live := live0[key := kept + [(|read0|, rect)]];
    read := marked + [Fresh(layout, use)];
  }

  /**
   Replays `FilteredChunksReader` and `decompress_chunk` over ascending targets.
   `tracked` is where exr believes its cursor is and `inner` where it really is;
   a slice holds at most 2^63 - 1 bytes, which keeps both inside a u64.
   */
  method Simulate(f: File, table: seq<nat>, level0: nat, tablesEnd: nat) returns (read: seq<Placed>, rejected: bool)
    requires |f.headers| > 0 && tablesEnd <= |f.data| < U64 / 2
    ensures Outcome(f, tablesEnd, Targets(table, level0), read, rejected)
    ensures PrunedExactly(f, read)
  {
    hide Targets, ReplayedUpTo, PrunedExactly, Outcome, Live, Debt;
    var targets := Targets(table, level0);
    NothingReplayed(f, tablesEnd, targets);
    read, rejected := [], false;
    var tracked: nat, inner: nat := tablesEnd, tablesEnd;
    var live: map<Key, seq<(nat, Rect)>> := map[];
    while |read| < |targets|
      invariant Replay(f, tablesEnd, targets, read, live)
      invariant CursorAt(tablesEnd, targets, Ends(read), |read|, tracked, inner)
      invariant inner <= |f.data|
      decreases |targets| - |read|
    {
      var inFile: bool;
      inFile, tracked, inner := SeekTo(targets[|read|], |f.data|, tracked, inner, tablesEnd, targets, Ends(read));
      if !inFile {
        Rejected(f, tablesEnd, targets, read);
        return read, true;
      }
      var chunk, bad := ReadOne(f, inner);
      if chunk.None? {
        Rejected(f, tablesEnd, targets, read);
        if bad.Some? {
          RejectedAt(f, tablesEnd, targets, read, bad.value);
          read := read + [bad.value];
        }
        return read, true;
      }
      var end := chunk.value.0.end;
      CursorAdvances(tablesEnd, targets, Ends(read), |read|, tracked, inner, end);
      tracked := Saturate(tracked + (end - inner));
      inner := end;
      read, live := Keep(f, read, live, chunk.value, tablesEnd, targets);
    }
    Completed(f, tablesEnd, targets, read, live);
  }

  lemma {:induction false} NothingReplayed(f: File, tablesEnd: nat, targets: seq<nat>)
    requires |f.headers| > 0
    ensures Replay(f, tablesEnd, targets, [], map[]) && CursorAt(tablesEnd, targets, Ends([]), 0, tablesEnd, tablesEnd)
  {
  }

  lemma {:induction false} Completed(f: File, tablesEnd: nat, targets: seq<nat>, read: seq<Placed>, live: map<Key,
      seq<(nat, Rect)>>)
    requires |f.headers| > 0 && Replay(f, tablesEnd, targets, read, live) && |read| == |targets|
    ensures Outcome(f, tablesEnd, targets, read, false)
  {
    if |read| > 0 { assert Replayed(f, tablesEnd, targets, read, |read| - 1); }
  }
}
