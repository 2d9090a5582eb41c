/** Byte ranges, the parts an inventory records, and what it means for them to tile a body. */
module Inventory {
  import opened Wrappers

  datatype Range = Range(start: nat, end: nat)

  datatype Disposition =
    | Structure | ImageData | Metadata | Colour | Padding | Skipped | Dropped
    | Unreferenced | Trailing | Malformed | Unknown

  datatype Kind = HeaderPart | FieldPart | ChunkPart | GapPart | BoxPart | SegmentPart

  /** One recorded part; `parent` is the index of the part it lies in, if any. */
  datatype Part = Part(parent: Option<nat>, kind: Kind, range: Range, disposition: Disposition)

  /** Whether the decoded image depends on the bytes. */
  predicate Consumed(d: Disposition) { d.Structure? || d.ImageData? || d.Metadata? || d.Colour? }

  /** Consecutive ranges that cover `[start, end)` in order. Empty ranges are allowed. */
  ghost predicate Tiling(s: seq<Range>, start: nat, end: nat) {
    if s == [] then start == end
    else
      && s[0].start == start && s[|s| - 1].end == end
      && forall i :: 0 <= i < |s| ==> s[i].start <= s[i].end && (i + 1 < |s| ==> s[i].end == s[i + 1].start)
  }

  lemma {:induction false} TilingSnoc(s: seq<Range>, start: nat, mid: nat, end: nat)
    requires Tiling(s, start, mid) && mid <= end
    ensures Tiling(s + [Range(mid, end)], start, end)
  {
  }

  lemma {:induction false} TilingJoins(s: seq<Range>, t: seq<Range>, start: nat, mid: nat, end: nat)
    requires Tiling(s, start, mid) && Tiling(t, mid, end)
    ensures Tiling(s + t, start, end)
  {
  }

  /** Ranges that tile are ordered, and every byte of the whole lies in exactly one. */
  lemma {:induction false} TilingOrdered(s: seq<Range>, start: nat, end: nat, i: nat, j: nat)
    requires Tiling(s, start, end) && i < j < |s|
    ensures s[i].end <= s[j].start
  {
    if i + 1 < j { TilingOrdered(s, start, end, i, j - 1); }
  }

  lemma {:induction false} TilingCovers(s: seq<Range>, start: nat, end: nat, b: int)
    requires Tiling(s, start, end) && start <= b < end
    ensures exists i :: 0 <= i < |s| && s[i].start <= b < s[i].end
  {
    var last := s[|s| - 1];
    if b < last.start {
      var t := s[..|s| - 1];
      TilingCovers(t, start, last.start, b);
      var i :| 0 <= i < |t| && t[i].start <= b < t[i].end;
      assert s[i] == t[i];
    }
  }

  /** Every range of a tiling lies inside the whole. */
  lemma {:induction false} TilingInside(s: seq<Range>, start: nat, end: nat, i: nat)
    requires Tiling(s, start, end) && i < |s|
    ensures start <= s[i].start <= s[i].end <= end
  {
    if 0 < i { TilingOrdered(s, start, end, 0, i); }
    if i < |s| - 1 { TilingOrdered(s, start, end, i, |s| - 1); }
  }

  /** The ranges of parts. */
  function RangesOf(parts: seq<Part>): (s: seq<Range>)
    ensures |s| == |parts| && forall i :: 0 <= i < |parts| ==> s[i] == parts[i].range
  {
    seq(|parts|, i requires 0 <= i < |parts| => parts[i].range)
  }

  /** The parts recorded so far, in the order they were pushed. */
  class Recorder {
    var parts: seq<Part>

    constructor ()
      ensures parts == []
    {
      parts := [];
    }

    method Push(parent: Option<nat>, kind: Kind, range: Range, disposition: Disposition) returns (id: nat)
      modifies this
      ensures parts == old(parts) + [Part(parent, kind, range, disposition)] && id == |old(parts)|
    {
      id := |parts|;
      parts := parts + [Part(parent, kind, range, disposition)];
    }

    /** Pushes a part unless its range is empty. */
    method Leaf(parent: Option<nat>, kind: Kind, range: Range, disposition: Disposition)
      modifies this
      ensures parts == old(parts) +
        (if range.start < range.end then [Part(parent, kind, range, disposition)] else [])
    {
      if range.start < range.end {
        var _ := Push(parent, kind, range, disposition);
      }
    }
  }
}
