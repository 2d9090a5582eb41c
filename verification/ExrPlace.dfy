/** Recording chunks: what of each is not yet covered, and the fields of those that are whole. */
module ExrPlace {
  import opened Wrappers
  import opened Inventory
  import opened ExrCoverage
  import opened ExrChunk
  import opened ExrSimulate
  import ExrPiz

  /** The framing of a chunk that is read is structure; other chunks' fields share their fate. */
  function Framing(d: Disposition): (f: Disposition) {
    if d.ImageData? || d.Dropped? then Structure else d
  }

  /** What `DataField` dispositions become in a chunk of disposition `d`. */
  function FieldFate(field: Disposition, d: Disposition): (f: Disposition) {
    match field
    case ImageData => d
    case Structure => Framing(d)
    case _ => field
  }

  /**
   In a chunk that is decoded, pixels are image data and the rest structure; in one that is
   dropped, pixels are dropped and the rest structure still; in any other every field is
   what the chunk is. Slack stays slack.
   */
  lemma {:induction false} FieldFates(d: Disposition)
    ensures FieldFate(ImageData, d) == d && FieldFate(Unreferenced, d) == Unreferenced
    ensures FieldFate(Structure, d) == Framing(d)
    ensures Framing(d) == if d in {ImageData, Dropped} then Structure else d
  {
  }

  // ---- The fields of a chunk ----

  /** New parts under `id` that tile `[start, end)` with no empty range, and are image data only if `d` is. */
  ghost predicate TiledUnder(new_: seq<Part>, id: nat, start: nat, end: nat, d: Disposition) {
    && Tiling(RangesOf(new_), start, end)
    && (forall i :: 0 <= i < |new_| ==> new_[i].parent == Some(id) && new_[i].range.start < new_[i].range.end)
    && (forall i :: 0 <= i < |new_| && new_[i].disposition.ImageData? ==> d.ImageData?)
  }

  /** The fields that are recorded: those with bytes. */
  function NonEmpty(fields: seq<Part>): (s: seq<Part>) {
    if fields == [] then []
    else
      var f := fields[|fields| - 1];
      NonEmpty(fields[..|fields| - 1]) + (if f.range.start < f.range.end then [f] else [])
  }

  lemma {:induction false} NonEmptySnoc(fields: seq<Part>, f: Part)
    ensures NonEmpty(fields + [f]) == NonEmpty(fields) + if f.range.start < f.range.end then [f] else []
  {
    assert (fields + [f])[..|fields|] == fields;
  }

  lemma {:induction false} NonEmptyJoins(a: seq<Part>, b: seq<Part>)
    ensures NonEmpty(a + b) == NonEmpty(a) + NonEmpty(b)
    decreases |b|
  {
    if b == [] {
      assert a + b == a;
    } else {
      var n := |b| - 1;
      assert a + b == (a + b[..n]) + [b[n]] && b == b[..n] + [b[n]];
      NonEmptyJoins(a, b[..n]);
      NonEmptySnoc(a + b[..n], b[n]);
      NonEmptySnoc(b[..n], b[n]);
    }
  }

  /** Framing fields. */
  function FramingFields(id: nat, ranges: seq<Range>, framing: Disposition): (fields: seq<Part>)
    ensures |fields| == |ranges|
      && forall i :: 0 <= i < |ranges| ==> fields[i] == Part(Some(id), FieldPart, ranges[i], framing)
  {
    seq(|ranges|, i requires 0 <= i < |ranges| => Part(Some(id), FieldPart, ranges[i], framing))
  }

  /** The fields inside a data piece, with their dispositions. */
  function Subfields(id: nat, data: Range, fields: seq<ExrPiz.Field>, d: Disposition): (parts: seq<Part>)
    ensures |parts| == |fields| && forall i :: 0 <= i < |fields| ==>
      parts[i] == Part(Some(id), FieldPart, Within(data, fields[i]), FieldFate(fields[i].disposition, d))
  {
    seq(|fields|, i requires 0 <= i < |fields| =>
      Part(Some(id), FieldPart, Within(data, fields[i]), FieldFate(fields[i].disposition, d)))
  }

  function Within(data: Range, f: ExrPiz.Field): (r: Range) {
    Range(data.start + f.range.start, data.start + f.range.end)
  }

  /** What a data piece records: the format's own fields, what is read and the slack after it, or one field. */
  function DataFields(id: nat, data: Range, use: Option<DataUse>, d: Disposition): (fields: seq<Part>) {
    if data.start >= data.end then []
    else
      match use
      case Some(Fields(fields)) => Subfields(id, data, fields, d)
      case Some(Split(used)) =>
        var mid := data.start + used;
        [Part(Some(id), FieldPart, Range(data.start, mid), d),
          Part(Some(id), FieldPart, Range(mid, data.end), Unreferenced)]
      case _ => [Part(Some(id), FieldPart, data, d)]
  }

  /** The fields of the first `n` data pieces. */
  function AllDataFields(id: nat, data: seq<Range>, n: nat, use: Option<DataUse>, d: Disposition): (fields: seq<Part>)
    requires n <= |data|
  {
    if n == 0 then [] else AllDataFields(id, data, n - 1, use, d) + DataFields(id, data[n - 1], use, d)
  }

  /** The fields of a whole chunk in file order: part number, coordinates, sizes and data. */
  function ChunkFields(id: nat, p: Placed): (fields: seq<Part>) {
    var (l, framing) := (p.layout, Framing(p.disposition));
    FramingFields(id, l.partField, framing) + [Part(Some(id), FieldPart, l.coordField, framing)]
    + FramingFields(id, l.sizeFields, framing) + AllDataFields(id, l.data, |l.data|, p.dataUse, p.disposition)
  }

  // ---- They tile the chunk ----

  /** Fields of `id` that tile `[start, end)`, empty ones among them, and are image data only if `d` is. */
  ghost predicate Fill(fields: seq<Part>, id: nat, start: nat, end: nat, d: Disposition) {
    && Tiling(RangesOf(fields), start, end)
    && (forall i :: 0 <= i < |fields| ==>
          fields[i].parent == Some(id) && (fields[i].disposition.ImageData? ==> d.ImageData?))
  }

  lemma {:induction false} FillJoins(a: seq<Part>, b: seq<Part>, id: nat, start: nat, mid: nat, end: nat,
      d: Disposition)
    requires Fill(a, id, start, mid, d) && Fill(b, id, mid, end, d)
    ensures Fill(a + b, id, start, end, d)
  {
    assert RangesOf(a + b) == RangesOf(a) + RangesOf(b);
    TilingJoins(RangesOf(a), RangesOf(b), start, mid, end);
  }

  lemma {:induction false} FramingFill(id: nat, ranges: seq<Range>, start: nat, end: nat, d: Disposition)
    requires Tiling(ranges, start, end)
    ensures Fill(FramingFields(id, ranges, Framing(d)), id, start, end, d)
  {
    assert RangesOf(FramingFields(id, ranges, Framing(d))) == ranges;
  }

  lemma {:induction false} DataFill(id: nat, data: Range, use: Option<DataUse>, d: Disposition)
    requires data.start <= data.end && (use.Some? ==> UseTiles(use.value, data.end - data.start))
    ensures Fill(DataFields(id, data, use, d), id, data.start, data.end, d)
  {
    if data.start < data.end {
      match use
      case Some(Fields(fields)) => SubfieldsFill(id, data, fields, d);
      case _ =>
    }
  }

  lemma {:induction false} SubfieldsFill(id: nat, data: Range, fields: seq<ExrPiz.Field>, d: Disposition)
    requires data.start < data.end && Tiling(ExrPiz.RangesOf(fields), 0, data.end - data.start)
    ensures Fill(Subfields(id, data, fields, d), id, data.start, data.end, d)
  {
    hide Tiling, Subfields;
    Shifted(ExrPiz.RangesOf(fields), RangesOf(Subfields(id, data, fields, d)), data.start, data.end - data.start);
  }

  lemma {:induction false} Shifted(s: seq<Range>, t: seq<Range>, base: nat, len: nat)
    requires Tiling(s, 0, len) && |t| == |s|
    requires forall i :: 0 <= i < |s| ==> t[i] == Range(base + s[i].start, base + s[i].end)
    ensures Tiling(t, base, base + len)
  {
  }

  lemma {:induction false} AllDataFill(id: nat, data: seq<Range>, n: nat, start: nat, end: nat, use: Option<DataUse>,
      d: Disposition)
    requires n <= |data| && Tiling(data, start, end)
    requires use.Some? ==> forall r :: r in data ==> r.start <= r.end && UseTiles(use.value, r.end - r.start)
    ensures Fill(AllDataFields(id, data, n, use, d), id, start, if n == 0 then start else data[n - 1].end, d)
  {
    hide DataFields, Fill, UseTiles;
    if n == 0 {
      NothingFills(id, start, d);
    } else {
      AllDataFill(id, data, n - 1, start, end, use, d);
      var r := data[n - 1];
      assert r in data && r.start == if n == 1 then start else data[n - 2].end;
      DataFill(id, r, use, d);
      FillJoins(AllDataFields(id, data, n - 1, use, d), DataFields(id, r, use, d), id, start, r.start, r.end, d);
    }
  }

  lemma {:induction false} NothingFills(id: nat, at: nat, d: Disposition)
    ensures Fill([], id, at, at, d)
  {
  }

  lemma {:induction false} ChunkFill(id: nat, p: Placed)
    requires Placeable(p) && HasFields(p)
    ensures Fill(ChunkFields(id, p), id, p.layout.start, p.layout.end, p.disposition)
  {
    hide Fill, FramingFields, AllDataFields, UseTiles;
    var (l, d) := (p.layout, p.disposition);
    TilingSplit(l.partField, l.coordField, l.sizeFields, l.data, l.start, l.end);
    var mid := DataStart(l.sizeFields, l.coordField);
    FramingFill(id, l.partField, l.start, l.coordField.start, d);
    OneFill(id, l.coordField, d);
    FramingFill(id, l.sizeFields, l.coordField.end, mid, d);
    AllDataFill(id, l.data, |l.data|, mid, l.end, p.dataUse, d);
    TilingEnd(l.data, mid, l.end);
    var coord := [Part(Some(id), FieldPart, l.coordField, Framing(d))];
    var front := FramingFields(id, l.partField, Framing(d));
    FillJoins(front, coord, id, l.start, l.coordField.start, l.coordField.end, d);
    FillJoins(front + coord, FramingFields(id, l.sizeFields, Framing(d)), id, l.start, l.coordField.end, mid, d);
    FillJoins(front + coord + FramingFields(id, l.sizeFields, Framing(d)),
              AllDataFields(id, l.data, |l.data|, p.dataUse, d), id, l.start, mid, l.end, d);
  }

  lemma {:induction false} OneFill(id: nat, range: Range, d: Disposition)
    requires range.start <= range.end
    ensures Fill([Part(Some(id), FieldPart, range, Framing(d))], id, range.start, range.end, d)
  {
  }

  lemma {:induction false} TilingEnd(s: seq<Range>, start: nat, end: nat)
    requires Tiling(s, start, end)
    ensures end == if |s| == 0 then start else s[|s| - 1].end
  {
  }

  /** What is recorded of fields that tile a range tiles it too. */
  lemma {:induction false} NonEmptyTiles(fields: seq<Part>, id: nat, start: nat, end: nat, d: Disposition)
    requires Fill(fields, id, start, end, d)
    ensures TiledUnder(NonEmpty(fields), id, start, end, d)
    decreases |fields|
  {
    if fields != [] {
      var n := |fields| - 1;
      var mid := fields[n].range.start;
      WithoutLast(fields, id, start, end, d);
      NonEmptyTiles(fields[..n], id, start, mid, d);
      if mid < end { AddsLast(NonEmpty(fields[..n]), id, start, mid, end, d, fields[n]); }
    }
  }

  lemma {:induction false} WithoutLast(fields: seq<Part>, id: nat, start: nat, end: nat, d: Disposition)
    requires Fill(fields, id, start, end, d) && fields != []
    ensures
      var n := |fields| - 1;
      && fields[n].range.start <= fields[n].range.end == end
      && Fill(fields[..n], id, start, fields[n].range.start, d)
      && fields[n].parent == Some(id) && (fields[n].disposition.ImageData? ==> d.ImageData?)
  {
    var n := |fields| - 1;
    assert RangesOf(fields)[..n] == RangesOf(fields[..n]);
  }

  lemma {:induction false} AddsLast(new_: seq<Part>, id: nat, start: nat, mid: nat, end: nat, d: Disposition,
      leaf: Part)
    requires TiledUnder(new_, id, start, mid, d) && mid < end
    requires leaf.parent == Some(id) && leaf.range == Range(mid, end) && (leaf.disposition.ImageData? ==> d.ImageData?)
    ensures TiledUnder(new_ + [leaf], id, start, end, d)
  {
    TilingSnoc(RangesOf(new_), start, mid, end);
    assert RangesOf(new_ + [leaf]) == RangesOf(new_) + [Range(mid, end)];
  }

  function DataStart(sizes: seq<Range>, coord: Range): (p: nat) {
    if sizes == [] then coord.end else sizes[|sizes| - 1].end
  }

  /** A tiling split at one of its ranges. */
  lemma {:induction false} TilingSplit(a: seq<Range>, b: Range, c: seq<Range>, d: seq<Range>, start: nat, end: nat)
    requires Tiling(a + [b] + c + d, start, end)
    ensures Tiling(a, start, b.start) && b.start <= b.end
    ensures Tiling(c, b.end, DataStart(c, b)) && Tiling(d, DataStart(c, b), end)
  {
    TilingParts(a + [b] + c, d, start, end);
    TilingParts(a + [b], c, start, DataStart(c, b));
    TilingParts(a, [b], start, b.end);
  }

  lemma {:induction false} TilingParts(s: seq<Range>, t: seq<Range>, start: nat, end: nat)
    requires Tiling(s + t, start, end)
    ensures
      var mid := if s == [] then start else s[|s| - 1].end;
      Tiling(s, start, mid) && Tiling(t, mid, end)
  {
    var u := s + t;
    forall i | 0 <= i < |s|
      ensures s[i].start <= s[i].end && (i + 1 < |s| ==> s[i].end == s[i + 1].start)
    {
      assert u[i] == s[i];
      if i + 1 < |s| { assert u[i + 1] == s[i + 1]; }
    }
    forall i | 0 <= i < |t|
      ensures t[i].start <= t[i].end && (i + 1 < |t| ==> t[i].end == t[i + 1].start)
    {
      assert u[|s| + i] == t[i];
      if i + 1 < |t| { assert u[|s| + i + 1] == t[i + 1]; }
    }
    if s != [] && t != [] { assert u[|s| - 1] == s[|s| - 1] && u[|s|] == t[0]; }
    if t != [] { assert u[|u| - 1] == t[|t| - 1]; }
  }

  // ---- Recording them ----

  /** Records framing fields. */
  method PlaceFraming(w: Recorder, id: nat, ranges: seq<Range>, framing: Disposition)
    modifies w
    ensures w.parts == old(w.parts) + NonEmpty(FramingFields(id, ranges, framing))
  {
    ghost var fields := FramingFields(id, ranges, framing);
    var i := 0;
    while i < |ranges|
      invariant 0 <= i <= |ranges| && w.parts == old(w.parts) + NonEmpty(fields[..i])
    {
      w.Leaf(Some(id), FieldPart, ranges[i], framing);
      assert fields[..i + 1] == fields[..i] + [fields[i]];
      NonEmptySnoc(fields[..i], fields[i]);
      i := i + 1;
    }
    assert fields[..i] == fields;
  }

  /** Records the fields inside a data piece. */
  method PlaceSubfields(w: Recorder, id: nat, data: Range, fields: seq<ExrPiz.Field>, d: Disposition)
    modifies w
    ensures w.parts == old(w.parts) + NonEmpty(Subfields(id, data, fields, d))
  {
    ghost var parts := Subfields(id, data, fields, d);
    var i := 0;
    while i < |fields|
      invariant 0 <= i <= |fields| && w.parts == old(w.parts) + NonEmpty(parts[..i])
    {
      w.Leaf(Some(id), FieldPart, Within(data, fields[i]), FieldFate(fields[i].disposition, d));
      assert parts[..i + 1] == parts[..i] + [parts[i]];
      NonEmptySnoc(parts[..i], parts[i]);
      i := i + 1;
    }
    assert parts[..i] == parts;
  }

  /** Records one data piece. */
  method PlaceData(w: Recorder, id: nat, data: Range, use: Option<DataUse>, d: Disposition)
    modifies w
    ensures w.parts == old(w.parts) + NonEmpty(DataFields(id, data, use, d))
  {
    if data.start >= data.end { return; }
    match use {
      case Some(Fields(fields)) =>
        PlaceSubfields(w, id, data, fields, d);
      case Some(Split(used)) =>
        var mid := data.start + used;
        w.Leaf(Some(id), FieldPart, Range(data.start, mid), d);
        w.Leaf(Some(id), FieldPart, Range(mid, data.end), Unreferenced);
        TwoFields(Part(Some(id), FieldPart, Range(data.start, mid), d),
                  Part(Some(id), FieldPart, Range(mid, data.end), Unreferenced));
      case _ =>
        w.Leaf(Some(id), FieldPart, data, d);
    }
  }

  lemma {:induction false} TwoFields(a: Part, b: Part)
    ensures NonEmpty([a, b]) == NonEmpty([a]) + NonEmpty([b])
  {
    assert [a, b] == [a] + [b];
    NonEmptyJoins([a], [b]);
  }

  /** Records every data piece. */
  method PlaceAllData(w: Recorder, id: nat, data: seq<Range>, use: Option<DataUse>, d: Disposition)
    modifies w
    ensures w.parts == old(w.parts) + NonEmpty(AllDataFields(id, data, |data|, use, d))
  {
    hide DataFields, NonEmpty;
    NonEmptyOfNone();
    var i := 0;
    while i < |data|
      invariant 0 <= i <= |data| && w.parts == old(w.parts) + NonEmpty(AllDataFields(id, data, i, use, d))
    {
      PlaceData(w, id, data[i], use, d);
      NonEmptyJoins(AllDataFields(id, data, i, use, d), DataFields(id, data[i], use, d));
      i := i + 1;
    }
  }

  lemma {:induction false} NonEmptyOfNone()
    ensures NonEmpty([]) == []
  {
  }

  /** The fields of a whole chunk, in file order: part number, coordinates, sizes and data. */
  method PlaceFields(w: Recorder, id: nat, p: Placed)
    requires Placeable(p) && HasFields(p)
    modifies w
    ensures w.parts == old(w.parts) + NonEmpty(ChunkFields(id, p))
    ensures TiledUnder(NonEmpty(ChunkFields(id, p)), id, p.layout.start, p.layout.end, p.disposition)
  {
    hide NonEmpty, FramingFields, AllDataFields, TiledUnder, Placeable;
    var (layout, framing) := (p.layout, Framing(p.disposition));
    PlaceFraming(w, id, layout.partField, framing);
    var _ := w.Push(Some(id), FieldPart, layout.coordField, framing);
    PlaceFraming(w, id, layout.sizeFields, framing);
    PlaceAllData(w, id, layout.data, p.dataUse, p.disposition);
    FieldsJoin(id, p);
    ChunkFill(id, p);
    NonEmptyTiles(ChunkFields(id, p), id, layout.start, layout.end, p.disposition);
  }

  lemma {:induction false} FieldsJoin(id: nat, p: Placed)
    requires HasFields(p)
    ensures
      var (l, framing) := (p.layout, Framing(p.disposition));
      NonEmpty(ChunkFields(id, p))
      == NonEmpty(FramingFields(id, l.partField, framing)) + [Part(Some(id), FieldPart, l.coordField, framing)]
         + NonEmpty(FramingFields(id, l.sizeFields, framing))
         + NonEmpty(AllDataFields(id, l.data, |l.data|, p.dataUse, p.disposition))
  {
    hide NonEmpty, FramingFields, AllDataFields;
    var (l, framing) := (p.layout, Framing(p.disposition));
    var (front, coord) := (FramingFields(id, l.partField, framing), Part(Some(id), FieldPart, l.coordField, framing));
    var sizes := FramingFields(id, l.sizeFields, framing);
    NonEmptySnoc(front, coord);
    NonEmptyJoins(front + [coord], sizes);
    NonEmptyJoins(front + [coord] + sizes, AllDataFields(id, l.data, |l.data|, p.dataUse, p.disposition));
  }

  // ---- Top-level parts ----

  /** Part `i` is a top-level part over byte `b`. */
  ghost predicate TopAt(parts: seq<Part>, i: int, b: int) {
    0 <= i < |parts| && parts[i].parent.None? && parts[i].range.start <= b < parts[i].range.end
  }

  /** Every byte lies in at most one top-level part recorded from `from` on. */
  ghost predicate AtMostOnce(parts: seq<Part>, from: nat) {
    forall i, j, b :: from <= i && from <= j && TopAt(parts, i, b) && TopAt(parts, j, b) ==> i == j
  }

  ghost predicate OnTop(parts: seq<Part>, from: nat, b: int) {
    exists i :: from <= i && TopAt(parts, i, b)
  }

  /** A chunk that overlaps earlier parts: its uncovered pieces only. */
  method RecordPieces(w: Recorder, free: seq<Range>, range: Range, disposition: Disposition)
    requires Separated(free, range)
    modifies w
    ensures |old(w.parts)| <= |w.parts| && w.parts[..|old(w.parts)|] == old(w.parts)
    ensures AtMostOnce(w.parts, |old(w.parts)|)
    ensures forall b :: OnTop(w.parts, |old(w.parts)|, b) <==> InSome(free, b)
    ensures forall i :: |old(w.parts)| <= i < |w.parts| ==>
      w.parts[i].disposition == disposition && w.parts[i].parent.None?
  {
    var i := 0;
    while i < |free|
      invariant i <= |free|
      invariant w.parts == old(w.parts) + seq(i, k requires 0 <= k < i => Part(None, ChunkPart, free[k], disposition))
    {
      var _ := w.Push(None, ChunkPart, free[i], disposition);
      i := i + 1;
    }
    PiecesOnTop(old(w.parts), w.parts, free, range);
  }

  /** The chunk at the end of `parts`, and after it exactly its fields, which tile it. */
  ghost predicate RecordedWhole(parts: seq<Part>, at: nat, p: Placed) {
    && at < |parts|
    && parts[at] == Part(None, ChunkPart, Range(p.layout.start, p.layout.end), p.disposition)
    && (forall i :: at < i < |parts| ==> parts[i].parent.Some?)
    && (HasFields(p) ==>
          && parts[at + 1..] == NonEmpty(ChunkFields(at, p))
          && TiledUnder(parts[at + 1..], at, p.layout.start, p.layout.end, p.disposition))
  }

  /** Parts from `from` on lie in nothing recorded before. */
  ghost predicate OwnFamily(parts: seq<Part>, from: nat) {
    forall i :: from <= i < |parts| && parts[i].parent.Some? ==> parts[i].parent.value >= from
  }

  /** A chunk that overlaps nothing: one part, with its fields inside it. */
  method RecordWhole(w: Recorder, p: Placed)
    requires Placeable(p)
    modifies w
    ensures |old(w.parts)| <= |w.parts| && w.parts[..|old(w.parts)|] == old(w.parts)
    ensures RecordedWhole(w.parts, |old(w.parts)|, p) && OwnFamily(w.parts, |old(w.parts)|)
  {
    hide NonEmpty, ChunkFields, TiledUnder, Placeable;
    ghost var before := w.parts;
    var id := w.Push(None, ChunkPart, Range(p.layout.start, p.layout.end), p.disposition);
    if HasFields(p) {
      PlaceFields(w, id, p);
      ghost var fields := NonEmpty(ChunkFields(id, p));
      assert w.parts[id + 1..] == fields && w.parts[..id] == before;
      UnderIt(fields, id, p.layout.start, p.layout.end, p.disposition);
      forall i | id < i < |w.parts| ensures w.parts[i].parent == Some(id) { assert w.parts[i] == fields[i - id - 1]; }
    }
  }

  lemma {:induction false} UnderIt(new_: seq<Part>, id: nat, start: nat, end: nat, d: Disposition)
    requires TiledUnder(new_, id, start, end, d)
    ensures forall i :: 0 <= i < |new_| ==> new_[i].parent == Some(id)
  {
  }

  /** `Chunks::place`: records what of the chunk is uncovered; a wholly uncovered chunk with its fields. */
  method Place(w: Recorder, coverage: Coverage, p: Placed)
    requires Merged(coverage.spans) && Placeable(p)
    modifies w, coverage
    ensures Merged(coverage.spans)
    ensures forall b :: Covers(coverage.spans, b) <==>
      Covers(old(coverage.spans), b) || p.layout.start <= b < p.layout.end
    ensures |old(w.parts)| <= |w.parts| && w.parts[..|old(w.parts)|] == old(w.parts)
    ensures AtMostOnce(w.parts, |old(w.parts)|)
    ensures forall b :: OnTop(w.parts, |old(w.parts)|, b) <==>
      p.layout.start <= b < p.layout.end && !Covers(old(coverage.spans), b)
    ensures forall i :: |old(w.parts)| <= i < |w.parts| && w.parts[i].parent.None? ==>
      w.parts[i].disposition == p.disposition
    ensures (forall b :: p.layout.start <= b < p.layout.end ==> !Covers(old(coverage.spans), b)) ==>
      RecordedWhole(w.parts, |old(w.parts)|, p)
    ensures OwnFamily(w.parts, |old(w.parts)|)
  {
    var range := Range(p.layout.start, p.layout.end);
    var free := coverage.Uncovered(range);
    coverage.Insert(range);
    WholeFree(free, range);
    if |free| != 1 || free[0] != range {
      RecordPieces(w, free, range, p.disposition);
    } else {
      RecordWhole(w, p);
      WholeOnTop(old(w.parts), w.parts, range, free);
    }
  }

  /** A wholly uncovered range comes back in one piece. */
  lemma {:induction false} WholeFree(free: seq<Range>, range: Range)
    requires Separated(free, range) && range.start < range.end
    ensures (forall b :: range.start <= b < range.end ==> InSome(free, b)) ==> free == [range]
  {
    assert |free| > 1 ==> free[0].end < free[1].start < range.end;
    if forall b :: range.start <= b < range.end ==> InSome(free, b) {
      assert InSome(free, range.start);
      var i :| 0 <= i < |free| && free[i].start <= range.start < free[i].end;
      if free[0].end < range.end { GapAfterFirst(free, range); }
    }
  }

  lemma {:induction false} GapAfterFirst(free: seq<Range>, range: Range)
    requires Separated(free, range) && |free| > 0
    ensures !InSome(free, free[0].end)
  {
    forall j | 0 <= j < |free| ensures !(free[j].start <= free[0].end < free[j].end) {
      if j > 0 { assert free[0].end < free[j].start; }
    }
  }

  lemma {:induction false} PiecesOnTop(before: seq<Part>, after: seq<Part>, free: seq<Range>, range: Range)
    requires |after| == |before| + |free| && after[..|before|] == before && Separated(free, range)
    requires forall k :: 0 <= k < |free| ==> after[|before| + k].parent.None? && after[|before| + k].range == free[k]
    ensures AtMostOnce(after, |before|)
    ensures forall b :: OnTop(after, |before|, b) <==> InSome(free, b)
  {
    forall i, j, b | |before| <= i && |before| <= j && TopAt(after, i, b) && TopAt(after, j, b)
      ensures i == j
    {
      var m, n := i - |before|, j - |before|;
      assert after[i].range == free[m] && after[j].range == free[n];
    }
    forall b
      ensures OnTop(after, |before|, b) <==> InSome(free, b)
    {
      if i :| |before| <= i && TopAt(after, i, b) { assert after[i].range == free[i - |before|]; }
      if k :| 0 <= k < |free| && free[k].start <= b < free[k].end { assert TopAt(after, |before| + k, b); }
    }
  }

  lemma {:induction false} WholeOnTop(before: seq<Part>, after: seq<Part>, range: Range, free: seq<Range>)
    requires |before| < |after| && free == [range]
    requires after[|before|].parent.None? && after[|before|].range == range
    requires forall i :: |before| < i < |after| ==> after[i].parent.Some?
    ensures AtMostOnce(after, |before|)
    ensures forall b :: OnTop(after, |before|, b) <==> InSome(free, b)
  {
    forall b
      ensures OnTop(after, |before|, b) <==> InSome(free, b)
    {
      if InSome(free, b) { assert TopAt(after, |before|, b); }
      if range.start <= b < range.end { assert free[0].start <= b < free[0].end; }
    }
  }
}
