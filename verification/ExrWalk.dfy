/**
 The chunk area of an EXR file: every byte from the end of the offset tables to
 the end of the last recorded chunk lands in exactly one top-level part.
 */
module ExrWalk {
  import opened Wrappers
  import opened Inventory
  import opened ExrCoverage
  import opened ExrChunk
  import ExrStored
  import opened ExrSimulate
  import opened ExrPlace
  import opened Bytes
  import Sorting

  /** Bytes of a gap searched past the last chunk found in it. */
  const RESYNC_LIMIT: nat := 0x10_0000

  // ---- Gaps ----

  /** A chunk that starts at `pos` and ends inside the gap. */
  function Found(f: File, pos: nat, gapEnd: nat): (layout: Option<Layout>)
    requires |f.headers| > 0
    ensures layout.Some? ==> layout.value.start == pos < layout.value.end <= gapEnd
  {
    ReadChunkBounds(f, pos, None);
    match ReadChunk(f, pos, None)
    case Err(_) => None
    case Ok(layout) =>
      var h := f.headers[layout.part];
      var max := MaxBlockBytes(h);
      if layout.end <= gapEnd && !h.deep && max.Some?
         && (forall d :: d in layout.data ==> d.start <= d.end && d.end - d.start <= max.value)
         && f.exr.rect(h, layout.coord).Some?
      then Some(layout) else None
  }

  /**
   Found exactly when the file stores a flat chunk there that ends inside the gap, is no longer than its
   part's blocks can be, and whose coordinates name a block.
   */
  lemma {:induction false} FoundIsStored(f: File, pos: nat, gapEnd: nat)
    requires |f.headers| > 0
    ensures Found(f, pos, gapEnd).Some? <==> exists c :: Findable(f, pos, gapEnd, c)
    ensures forall c :: Findable(f, pos, gapEnd, c) ==> Found(f, pos, gapEnd) == Some(ExrStored.LayoutAt(f, pos, c))
  {
    hide ReadChunk, MaxBlockBytes, ExrStored.StoredAt;
    if Found(f, pos, gapEnd).Some? {
      var c := ExrStored.ReadIsStored(f, pos, None);
      var l := ExrStored.LayoutAt(f, pos, c);
      assert l.data[0] in l.data;
      assert Findable(f, pos, gapEnd, c);
    }
    forall c | Findable(f, pos, gapEnd, c) ensures Found(f, pos, gapEnd) == Some(ExrStored.LayoutAt(f, pos, c)) {
      ExrStored.StoredIsRead(f, pos, c, None);
    }
  }

  ghost predicate Findable(f: File, pos: nat, gapEnd: nat, c: ExrStored.Stored)
    requires |f.headers| > 0
  {
    && ExrStored.Fits(f, c, None) && ExrStored.StoredAt(f, pos, c) && c.content.Flat?
    && var (l, h) := (ExrStored.LayoutAt(f, pos, c), f.headers[c.part]);
       && l.end <= gapEnd && MaxBlockBytes(h).Some? && |c.content.bytes| <= MaxBlockBytes(h).value
       && f.exr.rect(h, l.coord).Some?
  }

  /** The end of the chunk found at a byte, if one is. */
  type Find = nat -> Option<nat>

  /** No chunk is found at any byte of `[from, upto)`. */
  ghost predicate NoneFound(find: Find, from: nat, upto: nat)
  {
    forall q :: from <= q < upto ==> find(q).None?
  }

  /** A chunk part is a chunk found there; a gap part holds none up to the search limit. */
  ghost predicate SoundPart(find: Find, p: Part)
  {
    && p.parent.None? && p.disposition.Unreferenced? && p.range.start < p.range.end
    && (p.kind.ChunkPart? || p.kind.GapPart?)
    && (p.kind.ChunkPart? ==> find(p.range.start) == Some(p.range.end))
    && (p.kind.GapPart? ==> NoneFound(find, p.range.start, Min(p.range.end, p.range.start + 0x10_0000)))
  }

  /** After a gap part comes a chunk, and only within the search limit. */
  ghost predicate GapThenChunk(p: Part, next: Part) {
    p.kind.GapPart? ==> next.kind.ChunkPart? && p.range.end - p.range.start < 0x10_0000
  }

  /** The greedy reading of a gap; only its last part may be slack given up on. */
  ghost predicate Resynced(find: Find, parts: seq<Part>)
  {
    && (forall i :: 0 <= i < |parts| ==> SoundPart(find, parts[i]))
    && (forall i :: 0 <= i < |parts| - 1 ==> GapThenChunk(parts[i], parts[i + 1]))
  }

  /** The parts found so far tile the gap up to `end`. */
  ghost predicate FoundUpTo(find: Find, parts: seq<Part>, gap: Range, end: nat)
  {
    Tiling(RangesOf(parts), gap.start, end) && Resynced(find, parts)
  }

  lemma {:induction false} FoundSnoc(find: Find, parts: seq<Part>, gap: Range, end: nat, p: Part)
    requires FoundUpTo(find, parts, gap, end)
    requires p.range.start == end && SoundPart(find, p)
    requires parts == [] || GapThenChunk(parts[|parts| - 1], p)
    ensures FoundUpTo(find, parts + [p], gap, p.range.end)
  {
    var after := parts + [p];
    assert RangesOf(after) == RangesOf(parts) + [p.range];
    TilingSnoc(RangesOf(parts), gap.start, end, p.range.end);
    forall i | 0 <= i < |after|
      ensures SoundPart(find, after[i])
    {
      if i < |parts| { assert after[i] == parts[i]; }
    }
    forall i | 0 <= i < |after| - 1
      ensures GapThenChunk(after[i], after[i + 1])
    {
      assert after[i] == parts[i];
      if i < |parts| - 1 { assert after[i + 1] == parts[i + 1]; }
    }
  }

  /** A gap read up to `slack`, and nothing found since up to `pos`. */
  ghost predicate Scanning(find: Find, parts: seq<Part>, gap: Range, slack: nat, pos: nat)
  {
    && slack <= pos <= gap.end && pos - slack <= RESYNC_LIMIT
    && FoundUpTo(find, parts, gap, slack)
    && (parts == [] || parts[|parts| - 1].kind.ChunkPart?)
    && NoneFound(find, slack, pos)
  }

  function Slack(start: nat, end: nat): (p: Part) { Part(None, GapPart, Range(start, end), Unreferenced) }

  function StrayChunk(start: nat, end: nat): (p: Part) { Part(None, ChunkPart, Range(start, end), Unreferenced) }

  lemma {:induction false} ScanStarts(find: Find, gap: Range)
    requires gap.start <= gap.end
    ensures Scanning(find, [], gap, gap.start, gap.start)
  {
  }

  /** Nothing found at `pos` moves the search on. */
  lemma {:induction false} ScanSkips(find: Find, parts: seq<Part>, gap: Range, slack: nat, pos: nat)
    requires Scanning(find, parts, gap, slack, pos) && pos < gap.end && pos - slack < RESYNC_LIMIT
    requires find(pos).None?
    ensures Scanning(find, parts, gap, slack, pos + 1)
  {
  }

  /** Finding a chunk closes the slack before it. */
  lemma {:induction false} ScanFinds(find: Find, parts: seq<Part>, gap: Range, slack: nat, pos: nat, end: nat)
    requires Scanning(find, parts, gap, slack, pos) && pos - slack < RESYNC_LIMIT
    requires find(pos) == Some(end) && pos < end <= gap.end
    ensures Scanning(find, parts + (if slack < pos then [Slack(slack, pos)] else []) + [StrayChunk(pos, end)],
                     gap, end, end)
  {
    var mid := parts;
    if slack < pos {
      FoundSnoc(find, parts, gap, slack, Slack(slack, pos));
      mid := parts + [Slack(slack, pos)];
    }
    assert mid == parts + if slack < pos then [Slack(slack, pos)] else [];
    FoundSnoc(find, mid, gap, pos, StrayChunk(pos, end));
  }

  /** Nothing more is found before the end of the gap or the search limit. */
  lemma {:induction false} ScanEnds(find: Find, parts: seq<Part>, gap: Range, slack: nat, pos: nat)
    requires Scanning(find, parts, gap, slack, pos)
    requires pos == gap.end || pos - slack == RESYNC_LIMIT
    ensures FoundUpTo(find, parts + (if slack < gap.end then [Slack(slack, gap.end)] else []), gap, gap.end)
  {
    if slack < gap.end {
      FoundSnoc(find, parts, gap, slack, Slack(slack, gap.end));
    } else {
      assert parts + [] == parts;
    }
  }

  /** The search loop of `scan_gap`. */
  method Resync(find: Find, w: Recorder, gap: Range)
    requires gap.start <= gap.end && forall p: nat :: find(p).Some? ==> p < find(p).value <= gap.end
    modifies w
    ensures |old(w.parts)| <= |w.parts| && w.parts[..|old(w.parts)|] == old(w.parts)
    ensures FoundUpTo(find, w.parts[|old(w.parts)|..], gap, gap.end)
  {
    hide Scanning, FoundUpTo;
    ghost var before := w.parts;
    ghost var found: seq<Part> := [];
    var pos: nat, slack: nat := gap.start, gap.start;
    ScanStarts(find, gap);
    while pos < gap.end && pos - slack < RESYNC_LIMIT
      invariant w.parts == before + found
      invariant slack <= pos <= gap.end && pos - slack <= RESYNC_LIMIT
      invariant Scanning(find, found, gap, slack, pos)
      decreases gap.end - pos
    {
      var end := find(pos);
      if end.None? {
        ScanSkips(find, found, gap, slack, pos);
        pos := pos + 1;
        continue;
      }
      ScanFinds(find, found, gap, slack, pos, end.value);
      if slack < pos {
        var _ := w.Push(None, GapPart, Range(slack, pos), Unreferenced);
      }
      var _ := w.Push(None, ChunkPart, Range(pos, end.value), Unreferenced);
      found := found + (if slack < pos then [Slack(slack, pos)] else []) + [StrayChunk(pos, end.value)];
      pos := end.value;
      slack := pos;
    }
    ScanEnds(find, found, gap, slack, pos);
    if slack < gap.end {
      var _ := w.Push(None, GapPart, Range(slack, gap.end), Unreferenced);
    }
    found := found + if slack < gap.end then [Slack(slack, gap.end)] else [];
    assert w.parts[|before|..] == found;
  }

  /** Where the chunk found at each byte of a gap ends. */
  function Finder(f: File, gapEnd: nat): (find: Find)
    requires |f.headers| > 0
    ensures forall p: nat :: find(p).Some? ==> p < find(p).value <= gapEnd
  {
    (p: nat) => match Found(f, p, gapEnd)
      case None => None
      case Some(layout) => Some(layout.end)
  }

  /** `Chunks::scan_gap`: unreferenced chunks and the slack around them tile the gap. */
  method ScanGap(f: File, w: Recorder, gap: Range)
    requires |f.headers| > 0 && gap.start <= gap.end
    modifies w
    ensures |old(w.parts)| <= |w.parts| && w.parts[..|old(w.parts)|] == old(w.parts)
    ensures FoundUpTo(Finder(f, gap.end), w.parts[|old(w.parts)|..], gap, gap.end)
  {
    Resync(Finder(f, gap.end), w, gap);
  }

  // ---- The whole chunk area ----

  /** Table targets decoding did not read through: in the file, each once, ascending. */
  ghost predicate OtherTargets(others: seq<nat>, tables: seq<seq<nat>>, len: nat, readStarts: set<nat>) {
    && (forall i, j :: 0 <= i < j < |others| ==> others[i] < others[j])
    && (forall t :: t in others <==> t < len && t !in readStarts && exists k :: 0 <= k < |tables| && t in tables[k])
  }

  /** The distinct targets of every table, in first-seen order. */
  method CollectOthers(tables: seq<seq<nat>>, len: nat, readStarts: set<nat>) returns (found: seq<nat>)
    ensures forall i, j :: 0 <= i < j < |found| ==> found[i] != found[j]
    ensures forall t :: t in found <==> t < len && t !in readStarts && exists k :: 0 <= k < |tables| && t in tables[k]
  {
    found := [];
    var part := 0;
    while part < |tables|
      invariant part <= |tables|
      invariant forall i, j :: 0 <= i < j < |found| ==> found[i] != found[j]
      invariant forall t :: t in found <==> t < len && t !in readStarts && exists k :: 0 <= k < part && t in tables[k]
    {
      ghost var before := found;
      var i := 0;
      while i < |tables[part]|
        invariant i <= |tables[part]|
        invariant forall i, j :: 0 <= i < j < |found| ==> found[i] != found[j]
        invariant forall t :: t in found <==> t in before || (t < len && t !in readStarts && t in tables[part][..i])
      {
        var target := tables[part][i];
        if target < len && target !in readStarts && target !in found {
          found := found + [target];
        }
        i := i + 1;
      }
      assert tables[part][..i] == tables[part];
      part := part + 1;
    }
  }

  method Others(tables: seq<seq<nat>>, len: nat, readStarts: set<nat>) returns (others: seq<nat>)
    ensures OtherTargets(others, tables, len, readStarts)
  {
    var found := CollectOthers(tables, len, readStarts);
    others := Sorting.Ascending(found);
    SortedDistinct(found);
  }

  lemma {:induction false} SortedDistinct(found: seq<nat>)
    requires forall i, j :: 0 <= i < j < |found| ==> found[i] != found[j]
    ensures var s := Sorting.Ascending(found);
      && (forall i, j :: 0 <= i < j < |s| ==> s[i] < s[j])
      && (forall t :: t in s <==> t in found)
  {
    var s := Sorting.Ascending(found);
    Sorting.AscendingSorts(found);
    forall t ensures t in s <==> t in found {
      assert t in multiset(s) <==> t in multiset(found);
    }
    forall i, j | 0 <= i < j < |s| ensures s[i] < s[j] {
      if s[i] == s[j] {
        OccursOnce(found, s[i]);
        assert multiset(s)[s[i]] >= 2 by { TwiceInside(s, i, j); }
      }
    }
  }

  lemma {:induction false} OccursOnce(s: seq<nat>, t: nat)
    requires forall i, j :: 0 <= i < j < |s| ==> s[i] != s[j]
    ensures multiset(s)[t] <= 1
  {
    if s != [] {
      OccursOnce(s[1..], t);
      assert s == [s[0]] + s[1..];
      if s[0] == t { assert t !in s[1..]; }
    }
  }

  lemma {:induction false} TwiceInside(s: seq<nat>, i: nat, j: nat)
    requires i < j < |s| && s[i] == s[j]
    ensures multiset(s)[s[i]] >= 2
  {
    assert s == s[..j] + s[j..];
    assert s[..j][i] == s[i] && s[j..][0] == s[i];
  }

  /** Parts `from..mid` and `mid..` show disjoint bytes, each at most once. */
  lemma {:induction false} TopJoins(parts: seq<Part>, from: nat, mid: nat)
    requires from <= mid <= |parts|
    requires AtMostOnce(parts[..mid], from) && AtMostOnce(parts, mid)
    requires forall b :: !(OnTop(parts[..mid], from, b) && OnTop(parts, mid, b))
    ensures AtMostOnce(parts, from)
    ensures forall b :: OnTop(parts, from, b) <==> OnTop(parts[..mid], from, b) || OnTop(parts, mid, b)
  {
    var old_ := parts[..mid];
    assert forall i, b :: i < mid ==> (TopAt(parts, i, b) <==> TopAt(old_, i, b));
    forall i, j, b | from <= i && from <= j && TopAt(parts, i, b) && TopAt(parts, j, b)
      ensures i == j
    {
      if i < mid && j < mid { assert TopAt(old_, i, b) && TopAt(old_, j, b); }
      if i < mid <= j { assert OnTop(old_, from, b) && OnTop(parts, mid, b); }
      if j < mid <= i { assert OnTop(old_, from, b) && OnTop(parts, mid, b); }
    }
    forall b
      ensures OnTop(parts, from, b) <==> OnTop(old_, from, b) || OnTop(parts, mid, b)
    {
      if i :| from <= i && TopAt(parts, i, b) {
        if i < mid { assert TopAt(old_, i, b); }
      }
      if i :| from <= i && TopAt(old_, i, b) { assert TopAt(parts, i, b); }
    }
  }

  /** Everything placed so far: its bytes are on top once each, and are what the coverage adds to the tables. */
  ghost predicate Partitioned(parts: seq<Part>, from: nat, spans: map<nat, nat>, tablesEnd: nat, chunkEnd: nat) {
    && Merged(spans) && AtMostOnce(parts, from) && tablesEnd <= chunkEnd
    && (forall b :: Covers(spans, b) <==> 0 <= b < tablesEnd || OnTop(parts, from, b))
    && (forall b :: OnTop(parts, from, b) ==> tablesEnd <= b < chunkEnd)
  }

  lemma {:induction false} PlacedOne(before: seq<Part>, after: seq<Part>, from: nat, spans: map<nat, nat>,
      spans': map<nat, nat>,
      tablesEnd: nat, chunkEnd: nat, p: Placed)
    requires from <= |before| <= |after| && after[..|before|] == before
    requires Partitioned(before, from, spans, tablesEnd, chunkEnd) && Merged(spans')
    requires forall b :: Covers(spans', b) <==> Covers(spans, b) || p.layout.start <= b < p.layout.end
    requires AtMostOnce(after, |before|)
    requires forall b :: OnTop(after, |before|, b) <==> p.layout.start <= b < p.layout.end && !Covers(spans, b)
    ensures Partitioned(after, from, spans', tablesEnd, Max(chunkEnd, p.layout.end))
  {
    TopJoins(after, from, |before|);
  }

  /** Top-level parts from `mid` on that tile a range. */
  ghost predicate TopTiling(parts: seq<Part>, mid: nat, range: Range) {
    && mid <= |parts| && Tiling(RangesOf(parts[mid..]), range.start, range.end)
    && forall i :: mid <= i < |parts| ==> parts[i].parent.None?
  }

  lemma {:induction false} TopTilingOrdered(parts: seq<Part>, mid: nat, range: Range, i: nat, j: nat)
    requires TopTiling(parts, mid, range) && mid <= i < j < |parts|
    ensures parts[i].range.end <= parts[j].range.start
  {
    TilingOrdered(RangesOf(parts[mid..]), range.start, range.end, i - mid, j - mid);
  }

  lemma {:induction false} TopTilingShows(parts: seq<Part>, mid: nat, range: Range, b: int)
    requires TopTiling(parts, mid, range)
    ensures OnTop(parts, mid, b) <==> range.start <= b < range.end
  {
    var s := RangesOf(parts[mid..]);
    if range.start <= b < range.end {
      TilingCovers(s, range.start, range.end, b);
      var i :| 0 <= i < |s| && s[i].start <= b < s[i].end;
      assert TopAt(parts, mid + i, b);
    }
    if i :| mid <= i && TopAt(parts, i, b) { TilingInside(s, range.start, range.end, i - mid); }
  }

  /** A tiling of top-level parts shows each byte of its range once. */
  lemma {:induction false} TilingOnTop(parts: seq<Part>, mid: nat, range: Range)
    requires TopTiling(parts, mid, range)
    ensures AtMostOnce(parts, mid)
    ensures forall b :: OnTop(parts, mid, b) <==> range.start <= b < range.end
  {
    forall i, j, b | mid <= i && mid <= j && TopAt(parts, i, b) && TopAt(parts, j, b)
      ensures i == j
    {
      hide TopTiling, Tiling, RangesOf;
      if i < j { TopTilingOrdered(parts, mid, range, i, j); }
      if j < i { TopTilingOrdered(parts, mid, range, j, i); }
    }
    forall b
      ensures OnTop(parts, mid, b) <==> range.start <= b < range.end
    {
      TopTilingShows(parts, mid, range, b);
    }
  }

  // ---- The walk ----

  /** Chunks read at table entries decoding did not reach, ascending, as skipped. */
  method CollectSkipped(f: File, others: seq<nat>) returns (skipped: seq<Placed>)
    requires |f.headers| > 0
    ensures skipped == SkippedChunks(f, others)
    ensures forall p :: p in skipped ==> Placeable(p) && p.layout.end <= |f.data|
  {
    skipped := [];
    var i := 0;
    while i < |others|
      invariant i <= |others| && skipped == SkippedChunks(f, others[..i])
      invariant forall p :: p in skipped ==> Placeable(p) && p.layout.end <= |f.data|
    {
      assert others[..i + 1][..i] == others[..i];
      var chunk := ReadChunk(f, others[i], None);
      if chunk.Ok? {
        ReadChunkBounds(f, others[i], None);
        ReadChunkTiles(f, others[i], None);
        skipped := skipped + [Placed(chunk.value, Skipped, None)];
      }
      i := i + 1;
    }
    assert others[..i] == others;
  }

  /** The chunks that read at `others`. */
  function SkippedChunks(f: File, others: seq<nat>): (s: seq<Placed>)
    requires |f.headers| > 0
  {
    if others == [] then [] else
    var rest := SkippedChunks(f, others[..|others| - 1]);
    match ReadChunk(f, others[|others| - 1], None)
    case Err(_) => rest
    case Ok(layout) => rest + [Placed(layout, Skipped, None)]
  }

  /** The targets that read, by index, in order. */
  ghost predicate AreReadAt(f: File, others: seq<nat>, at: seq<nat>)
    requires |f.headers| > 0
  {
    && (forall i, j :: 0 <= i < j < |at| ==> at[i] < at[j])
    && (forall k: nat :: k < |others| ==> (k in at <==> ReadChunk(f, others[k], None).Ok?))
    && (forall i :: 0 <= i < |at| ==> at[i] < |others|)
  }

  /** Every target that reads is placed, once, in order, as skipped, and nothing else is. */
  lemma {:induction false} SkippedAre(f: File, others: seq<nat>) returns (at: seq<nat>)
    requires |f.headers| > 0
    ensures AreReadAt(f, others, at) && |SkippedChunks(f, others)| == |at|
    ensures forall i :: 0 <= i < |at| ==>
      SkippedChunks(f, others)[i] == Placed(ReadChunk(f, others[at[i]], None).value, Skipped, None)
  {
    hide ReadChunk;
    at := [];
    if others != [] {
      var n := |others| - 1;
      at := SkippedAre(f, others[..n]);
      if ReadChunk(f, others[n], None).Ok? { at := at + [n]; }
      assert forall k: nat :: k < n ==> others[..n][k] == others[k];
    }
  }

  function Starts(read: seq<Placed>): (s: set<nat>) { set p | p in read :: p.layout.start }

  /** What decoding read, as the inventory records it: nothing is image data in a rejected file. */
  function Recorded(read: seq<Placed>, rejected: bool): (s: seq<Placed>) {
    if rejected then seq(|read|, i requires 0 <= i < |read| => Undecoded(read[i])) else read
  }

  /** In a rejected file what was read as image data is dropped; every chunk keeps its bytes and its fields. */
  lemma {:induction false} RecordedIs(read: seq<Placed>, rejected: bool, i: nat)
    requires i < |read|
    ensures |Recorded(read, rejected)| == |read|
    ensures
      var (p, q) := (read[i], Recorded(read, rejected)[i]);
      && q.layout == p.layout && q.dataUse == p.dataUse
      && q.disposition == if rejected && p.disposition == ImageData then Dropped else p.disposition
  {
  }

  /** The chunks a walk places: decoding's reads, then what other table entries point at. */
  ghost predicate PlacedInOrder(f: File, tables: seq<seq<nat>>, level0: nat, tablesEnd: nat, readsChunks: bool,
      placed: seq<Placed>)
    requires |f.headers| > 0 && tables != []
  {
    exists read, rejected, others ::
      && (if readsChunks
          then Outcome(f, tablesEnd, Targets(tables[0], level0), read, rejected) && PrunedExactly(f, read)
          else read == [])
      && OtherTargets(others, tables, |f.data|, Starts(read))
      && placed == Recorded(read, rejected) + SkippedChunks(f, others)
  }

  method Collect(f: File, tables: seq<seq<nat>>, level0: nat, tablesEnd: nat, readsChunks: bool)
      returns (placed: seq<Placed>)
    requires |f.headers| > 0 && tables != [] && tablesEnd <= |f.data| < U64 / 2
    requires readsChunks ==> |f.headers| == 1 && !f.headers[0].deep
    ensures PlacedInOrder(f, tables, level0, tablesEnd, readsChunks, placed)
    ensures forall p :: p in placed ==> Placeable(p) && p.layout.end <= |f.data|
  {
    hide Placeable, Outcome, OtherTargets, SkippedChunks, Targets;
    var read: seq<Placed>, rejected := [], false;
    if readsChunks {
      read, rejected := Simulate(f, tables[0], level0, tablesEnd);
      OutcomePlaceable(f, tablesEnd, Targets(tables[0], level0), read, rejected);
    }
    var others := Others(tables, |f.data|, Starts(read));
    var skipped := CollectSkipped(f, others);
    placed := Recorded(read, rejected) + skipped;
  }

  /** A chunk read before the decode failed: its pixels never reach the caller. */
  function Undecoded(p: Placed): (q: Placed) {
    if p.disposition.ImageData? then p.(disposition := Dropped) else p
  }

  lemma {:induction false} OutcomePlaceable(f: File, tablesEnd: nat, targets: seq<nat>, read: seq<Placed>,
      rejected: bool)
    requires |f.headers| == 1 && !f.headers[0].deep && Outcome(f, tablesEnd, targets, read, rejected)
    ensures forall p :: p in read ==> Placeable(p) && p.layout.end <= |f.data|
    ensures forall p :: p in read ==> Placeable(Undecoded(p))
  {
    var n := if |read| > 0 && read[|read| - 1].disposition.Malformed? then |read| - 1 else |read|;
    forall i | 0 <= i < |read|
      ensures Placeable(read[i]) && Placeable(Undecoded(read[i])) && read[i].layout.end <= |f.data|
    {
      if i < n {
        assert Replayed(f, tablesEnd, targets, read, i);
        AcceptedIsPlaceable(f, read[i].layout.start, read[i].disposition);
      }
    }
  }

  predicate InChunk(p: Placed, b: int) { p.layout.start <= b < p.layout.end }

  /** The first placed chunk over byte `b`. */
  ghost predicate Owns(placed: seq<Placed>, k: int, b: int) {
    0 <= k < |placed| && InChunk(placed[k], b) && forall m :: 0 <= m < k ==> !InChunk(placed[m], b)
  }

  /** Every top-level part has the disposition of the first chunk over its bytes. */
  ghost predicate OwnedBy(parts: seq<Part>, from: nat, placed: seq<Placed>) {
    forall i, b :: from <= i && TopAt(parts, i, b) ==>
      exists k :: Owns(placed, k, b) && parts[i].disposition == placed[k].disposition
  }

  /** The coverage is the tables and the chunks placed so far. */
  ghost predicate CoversPlaced(spans: map<nat, nat>, placed: seq<Placed>, tablesEnd: nat) {
    forall b :: Covers(spans, b) <==> 0 <= b < tablesEnd || exists k :: 0 <= k < |placed| && InChunk(placed[k], b)
  }

  lemma {:induction false} OwnedSnoc(before: seq<Part>, after: seq<Part>, from: nat, spans: map<nat, nat>,
      spans': map<nat, nat>,
      placed: seq<Placed>, p: Placed, tablesEnd: nat)
    requires from <= |before| <= |after| && after[..|before|] == before
    requires OwnedBy(before, from, placed) && CoversPlaced(spans, placed, tablesEnd)
    requires forall b :: Covers(spans', b) <==> Covers(spans, b) || InChunk(p, b)
    requires forall b :: OnTop(after, |before|, b) <==> InChunk(p, b) && !Covers(spans, b)
    requires forall i :: |before| <= i < |after| && after[i].parent.None? ==> after[i].disposition == p.disposition
    ensures OwnedBy(after, from, placed + [p]) && CoversPlaced(spans', placed + [p], tablesEnd)
  {
    var placed' := placed + [p];
    forall i, b | from <= i && TopAt(after, i, b)
      ensures exists k :: Owns(placed', k, b) && after[i].disposition == placed'[k].disposition
    {
      if i < |before| {
        assert TopAt(before, i, b);
        var k :| Owns(placed, k, b) && before[i].disposition == placed[k].disposition;
        assert Owns(placed', k, b);
      } else {
        assert OnTop(after, |before|, b);
        assert Owns(placed', |placed|, b);
      }
    }
    forall b
      ensures Covers(spans', b) <==> 0 <= b < tablesEnd || exists k :: 0 <= k < |placed'| && InChunk(placed'[k], b)
    {
      if InChunk(p, b) { assert placed'[|placed|] == p; }
      if k :| 0 <= k < |placed| && InChunk(placed[k], b) { assert placed'[k] == placed[k]; }
    }
  }

  /** No byte of chunk `k` lies in the tables or in a chunk placed before it. */
  ghost predicate Alone(placed: seq<Placed>, k: nat, tablesEnd: nat) {
    k < |placed| && forall b :: InChunk(placed[k], b) ==>
      b >= tablesEnd && forall m :: 0 <= m < k ==> !InChunk(placed[m], b)
  }

  /** The chunk is recorded as one part, its fields tile it, and nothing else lies in it. */
  ghost predicate WholeIn(parts: seq<Part>, from: nat, p: Placed) {
    exists at, m :: from <= at < m <= |parts| && RecordedWhole(parts[..m], at, p) && NothingElseIn(parts, at, m)
  }

  ghost predicate NothingElseIn(parts: seq<Part>, at: nat, m: nat) {
    forall i :: m <= i < |parts| ==> parts[i].parent != Some(at)
  }

  ghost predicate WholesIn(parts: seq<Part>, from: nat, placed: seq<Placed>, n: nat, tablesEnd: nat) {
    forall k: nat :: k < n && Alone(placed, k, tablesEnd) ==> WholeIn(parts, from, placed[k])
  }

  lemma {:induction false} WholeStays(before: seq<Part>, after: seq<Part>, from: nat, p: Placed)
    requires WholeIn(before, from, p) && |before| <= |after| && after[..|before|] == before &&
      OwnFamily(after, |before|)
    ensures WholeIn(after, from, p)
  {
    hide RecordedWhole;
    var at, m :| from <= at < m <= |before| && RecordedWhole(before[..m], at, p) && NothingElseIn(before, at, m);
    assert after[..m] == before[..m];
    forall i | m <= i < |after| ensures after[i].parent != Some(at) {
      if i < |before| { assert after[i] == before[i]; }
    }
    assert NothingElseIn(after, at, m);
  }

  lemma {:induction false} WholesStay(before: seq<Part>, after: seq<Part>, from: nat, placed: seq<Placed>, n: nat,
      tablesEnd: nat)
    requires WholesIn(before, from, placed, n, tablesEnd) && |before| <= |after| && after[..|before|] == before
    requires OwnFamily(after, |before|)
    ensures WholesIn(after, from, placed, n, tablesEnd)
  {
    hide WholeIn, OwnFamily;
    forall k: nat | k < n && Alone(placed, k, tablesEnd) ensures WholeIn(after, from, placed[k]) {
      WholeStays(before, after, from, placed[k]);
    }
  }

  /** A chunk that lies in nothing placed before is recorded whole. */
  lemma {:induction false} WholesGrow(before: seq<Part>, after: seq<Part>, from: nat, spans: map<nat, nat>,
      placed: seq<Placed>, n: nat, tablesEnd: nat)
    requires n < |placed| && from <= |before| && WholesIn(before, from, placed, n, tablesEnd)
    requires |before| <= |after| && after[..|before|] == before && OwnFamily(after, |before|)
    requires CoversPlaced(spans, placed[..n], tablesEnd)
    requires (forall b :: placed[n].layout.start <= b < placed[n].layout.end ==> !Covers(spans, b)) ==>
      RecordedWhole(after, |before|, placed[n])
    ensures WholesIn(after, from, placed, n + 1, tablesEnd)
  {
    hide RecordedWhole;
    WholesStay(before, after, from, placed, n, tablesEnd);
    if Alone(placed, n, tablesEnd) {
      forall b | placed[n].layout.start <= b < placed[n].layout.end ensures !Covers(spans, b) {
        assert InChunk(placed[n], b);
      }
      assert after[..|after|] == after;
      assert RecordedWhole(after[..|after|], |before|, placed[n]) && NothingElseIn(after, |before|, |after|);
      IsRecorded(after, |before|, placed[n]);
    }
  }

  lemma {:induction false} IsRecorded(parts: seq<Part>, at: nat, p: Placed)
    requires RecordedWhole(parts, at, p)
    ensures at < |parts|
  {
  }

  /** Places every chunk; afterwards the recorded parts and the tables are what is covered. */
  method PlaceAll(w: Recorder, coverage: Coverage, placed: seq<Placed>, tablesEnd: nat, len: nat)
      returns (chunkEnd: nat)
    requires Partitioned(w.parts, |w.parts|, coverage.spans, tablesEnd, tablesEnd) && tablesEnd <= len
    requires CoversPlaced(coverage.spans, [], tablesEnd)
    requires forall p :: p in placed ==> Placeable(p) && p.layout.end <= len
    modifies w, coverage
    ensures |old(w.parts)| <= |w.parts| && w.parts[..|old(w.parts)|] == old(w.parts)
    ensures Partitioned(w.parts, |old(w.parts)|, coverage.spans, tablesEnd, chunkEnd) && chunkEnd <= len
    ensures OwnedBy(w.parts, |old(w.parts)|, placed) && CoversPlaced(coverage.spans, placed, tablesEnd)
    ensures chunkEnd == Furthest(placed, tablesEnd)
    ensures WholesIn(w.parts, |old(w.parts)|, placed, |placed|, tablesEnd)
  {
    hide RecordedWhole, OwnFamily, WholesIn, Partitioned, OwnedBy, CoversPlaced, Placeable, AtMostOnce, OnTop, Covers;
    hide Merged;
    ghost var from := |w.parts|;
    NoWholes(w.parts, from, placed, tablesEnd);
    assert placed[..0] == [];
    chunkEnd := tablesEnd;
    var i := 0;
    while i < |placed|
      invariant i <= |placed| && from <= |w.parts| && w.parts[..from] == old(w.parts)
      invariant Partitioned(w.parts, from, coverage.spans, tablesEnd, chunkEnd) && chunkEnd <= len
      invariant OwnedBy(w.parts, from, placed[..i]) && CoversPlaced(coverage.spans, placed[..i], tablesEnd)
      invariant chunkEnd == Furthest(placed[..i], tablesEnd)
      invariant WholesIn(w.parts, from, placed, i, tablesEnd)
    {
      var p := placed[i];
      assert p in placed;
      ghost var before, spans := w.parts, coverage.spans;
      PartitionMerged(before, from, spans, tablesEnd, chunkEnd);
      Place(w, coverage, p);
      PlacedOne(before, w.parts, from, spans, coverage.spans, tablesEnd, chunkEnd, p);
      WholesGrow(before, w.parts, from, spans, placed, i, tablesEnd);
      OwnedSnoc(before, w.parts, from, spans, coverage.spans, placed[..i], p, tablesEnd);
      assert w.parts[..from] == w.parts[..|before|][..from];
      assert placed[..i + 1] == placed[..i] + [p];
      chunkEnd := Max(chunkEnd, p.layout.end);
      i := i + 1;
    }
    assert placed[..i] == placed;
  }

  lemma {:induction false} PartitionMerged(parts: seq<Part>, from: nat, spans: map<nat, nat>, tablesEnd: nat,
      chunkEnd: nat)
    requires Partitioned(parts, from, spans, tablesEnd, chunkEnd)
    ensures Merged(spans)
  {
  }

  lemma {:induction false} NoWholes(parts: seq<Part>, from: nat, placed: seq<Placed>, tablesEnd: nat)
    ensures WholesIn(parts, from, placed, 0, tablesEnd)
    ensures from >= |parts| ==> OwnedBy(parts, from, [])
  {
  }

  /** The end of the last placed chunk, or of the tables. */
  function Furthest(placed: seq<Placed>, tablesEnd: nat): (e: nat) {
    if placed == [] then tablesEnd
    else Max(Furthest(placed[..|placed| - 1], tablesEnd), placed[|placed| - 1].layout.end)
  }

  /** The gaps read so far are on top besides what was placed, as unreferenced. */
  ghost predicate GapsFilled(parts: seq<Part>, from: nat, mid: nat, spans: map<nat, nat>, tablesEnd: nat,
      gaps: seq<Range>, n: nat)
    requires n <= |gaps|
  {
    && AtMostOnce(parts, from) && from <= mid <= |parts|
    && (forall b :: OnTop(parts, from, b) <==> (Covers(spans, b) && tablesEnd <= b) || InSome(gaps[..n], b))
    && (forall i :: mid <= i < |parts| ==> parts[i].parent.None? && parts[i].disposition.Unreferenced?)
    && (forall i, b :: mid <= i && TopAt(parts, i, b) ==> !Covers(spans, b))
  }

  lemma {:induction false} FilledOne(before: seq<Part>, after: seq<Part>, from: nat, mid: nat, spans: map<nat, nat>,
      tablesEnd: nat,
      chunkEnd: nat, gaps: seq<Range>, n: nat)
    requires n < |gaps| && |before| <= |after| && after[..|before|] == before
    requires GapsFilled(before, from, mid, spans, tablesEnd, gaps, n) && Separated(gaps, Range(tablesEnd, chunkEnd))
    requires forall b :: InSome(gaps, b) ==> !Covers(spans, b)
    requires Tiling(RangesOf(after[|before|..]), gaps[n].start, gaps[n].end)
    requires forall i :: |before| <= i < |after| ==> after[i].parent.None? && after[i].disposition.Unreferenced?
    ensures GapsFilled(after, from, mid, spans, tablesEnd, gaps, n + 1)
  {
    TilingOnTop(after, |before|, gaps[n]);
    assert gaps[..n + 1] == gaps[..n] + [gaps[n]];
    forall b
      ensures InSome(gaps[..n + 1], b) <==> InSome(gaps[..n], b) || gaps[n].start <= b < gaps[n].end
      ensures !(OnTop(before, from, b) && OnTop(after, |before|, b))
      ensures gaps[n].start <= b < gaps[n].end ==> !Covers(spans, b)
    {
      InSomeSnoc(gaps[..n], gaps[n], b);
      if gaps[n].start <= b < gaps[n].end { assert InSome(gaps, b); }
    }
    TopJoins(after, from, |before|);
    forall i, b | mid <= i && TopAt(after, i, b)
      ensures !Covers(spans, b)
    {
      if i < |before| { assert TopAt(before, i, b); } else { assert OnTop(after, |before|, b); }
    }
  }

  /**
   What a walk guarantees of byte `b` of the chunk area: one part is on top of it,
   recorded as its first chunk was, or unreferenced when no chunk was placed there.
   */
  ghost predicate Assigned(parts: seq<Part>, from: nat, placed: seq<Placed>) {
    forall i, b :: from <= i && TopAt(parts, i, b) ==>
      || (exists k :: Owns(placed, k, b) && parts[i].disposition == placed[k].disposition)
      || (parts[i].disposition.Unreferenced? && forall k :: 0 <= k < |placed| ==> !InChunk(placed[k], b))
  }

  lemma {:induction false} AllAssigned(placedParts: seq<Part>, parts: seq<Part>, from: nat, spans: map<nat, nat>,
      placed: seq<Placed>, tablesEnd: nat, gaps: seq<Range>)
    requires from <= |placedParts| <= |parts| && parts[..|placedParts|] == placedParts
    requires OwnedBy(placedParts, from, placed) && CoversPlaced(spans, placed, tablesEnd)
    requires GapsFilled(parts, from, |placedParts|, spans, tablesEnd, gaps, |gaps|)
    ensures Assigned(parts, from, placed)
  {
    forall i, b | from <= i && TopAt(parts, i, b)
      ensures (exists k :: Owns(placed, k, b) && parts[i].disposition == placed[k].disposition)
           || (parts[i].disposition.Unreferenced? && forall k :: 0 <= k < |placed| ==> !InChunk(placed[k], b))
    {
      if i < |placedParts| { assert TopAt(placedParts, i, b); }
    }
  }

  /** Reads every gap. */
  method ScanGaps(f: File, w: Recorder, gaps: seq<Range>, ghost from: nat, ghost spans: map<nat, nat>,
      ghost tablesEnd: nat, ghost chunkEnd: nat)
    requires |f.headers| > 0 && Separated(gaps, Range(tablesEnd, chunkEnd))
    requires forall b :: InSome(gaps, b) ==> !Covers(spans, b)
    requires GapsFilled(w.parts, from, |w.parts|, spans, tablesEnd, gaps, 0)
    modifies w
    ensures |old(w.parts)| <= |w.parts| && w.parts[..|old(w.parts)|] == old(w.parts)
    ensures GapsFilled(w.parts, from, |old(w.parts)|, spans, tablesEnd, gaps, |gaps|)
  {
    ghost var mid := |w.parts|;
    var n := 0;
    while n < |gaps|
      invariant n <= |gaps| && mid <= |w.parts| && w.parts[..mid] == old(w.parts)
      invariant GapsFilled(w.parts, from, mid, spans, tablesEnd, gaps, n)
    {
      ghost var before := w.parts;
      ScanGap(f, w, gaps[n]);
      FoundOnTop(Finder(f, gaps[n].end), w.parts, |before|, gaps[n]);
      FilledOne(before, w.parts, from, mid, spans, tablesEnd, chunkEnd, gaps, n);
      assert w.parts[..mid] == w.parts[..|before|][..mid];
      n := n + 1;
    }
  }

  /**
   `Chunks::walk` after the offset tables: whatever the tables point at, every byte
   of `[tablesEnd, chunkEnd)` lands in exactly one top-level part, recorded as the
   first chunk over it, and no part touches the headers and tables.
   */
  method Walk(f: File, w: Recorder, tables: seq<seq<nat>>, level0: nat, tablesEnd: nat, readsChunks: bool)
    returns (chunkEnd: nat, ghost placed: seq<Placed>)
    requires |f.headers| > 0 && tables != [] && 0 < tablesEnd <= |f.data| < U64 / 2
    requires readsChunks ==> |f.headers| == 1 && !f.headers[0].deep
    modifies w
    ensures |old(w.parts)| <= |w.parts| && w.parts[..|old(w.parts)|] == old(w.parts)
    ensures PlacedInOrder(f, tables, level0, tablesEnd, readsChunks, placed)
    ensures chunkEnd == Furthest(placed, tablesEnd) && tablesEnd <= chunkEnd <= |f.data|
    ensures AtMostOnce(w.parts, |old(w.parts)|)
    ensures forall b :: OnTop(w.parts, |old(w.parts)|, b) <==> tablesEnd <= b < chunkEnd
    ensures Assigned(w.parts, |old(w.parts)|, placed)
    ensures forall k: nat :: Alone(placed, k, tablesEnd) ==> WholeIn(w.parts, |old(w.parts)|, placed[k])
  {
    hide WholeIn, Alone;
    ghost var from := |w.parts|;
    var coverage := new Coverage();
    coverage.Insert(Range(0, tablesEnd));
    var chunks := Collect(f, tables, level0, tablesEnd, readsChunks);
    placed := chunks;
    chunkEnd := PlaceAll(w, coverage, chunks, tablesEnd, |f.data|);
    var gaps := coverage.Uncovered(Range(tablesEnd, chunkEnd));
    ghost var placedParts := w.parts;
    assert gaps[..0] == [] && gaps[..|gaps|] == gaps;
    ScanGaps(f, w, gaps, from, coverage.spans, tablesEnd, chunkEnd);
    GapsAlone(w.parts, from, |placedParts|, coverage.spans, tablesEnd, gaps);
    WholesStay(placedParts, w.parts, from, placed, |placed|, tablesEnd);
    WholesAre(w.parts, from, placed, tablesEnd);
    AllAssigned(placedParts, w.parts, from, coverage.spans, placed, tablesEnd, gaps);
    assert w.parts[..from] == w.parts[..|placedParts|][..from];
  }

  lemma {:induction false} WholesAre(parts: seq<Part>, from: nat, placed: seq<Placed>, tablesEnd: nat)
    requires WholesIn(parts, from, placed, |placed|, tablesEnd)
    ensures forall k: nat :: Alone(placed, k, tablesEnd) ==> k < |placed| && WholeIn(parts, from, placed[k])
  {
  }

  lemma {:induction false} GapsAlone(parts: seq<Part>, from: nat, mid: nat, spans: map<nat, nat>, tablesEnd: nat,
      gaps: seq<Range>)
    requires GapsFilled(parts, from, mid, spans, tablesEnd, gaps, |gaps|)
    ensures OwnFamily(parts, mid)
  {
  }

  lemma {:induction false} FoundOnTop(find: Find, parts: seq<Part>, mid: nat, gap: Range)
    requires mid <= |parts| && FoundUpTo(find, parts[mid..], gap, gap.end)
    ensures Tiling(RangesOf(parts[mid..]), gap.start, gap.end)
    ensures forall i :: mid <= i < |parts| ==> parts[i].parent.None? && parts[i].disposition.Unreferenced?
  {
    forall i | mid <= i < |parts| ensures parts[i].parent.None? && parts[i].disposition.Unreferenced? {
      assert SoundPart(find, parts[mid..][i - mid]);
    }
  }
}
