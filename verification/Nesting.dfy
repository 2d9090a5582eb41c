/** Nested parts: what lies directly in what, and when the children of a part tile it. */
module Nesting {
  import opened Wrappers
  import opened Inventory

  /** The ranges of the parts directly in `parent`, in order. */
  function ChildRanges(parts: seq<Part>, parent: Option<nat>): (s: seq<Range>) {
    if parts == [] then []
    else
      var p := parts[|parts| - 1];
      ChildRanges(parts[..|parts| - 1], parent) + (if p.parent == parent then [p.range] else [])
  }

  /** Every part comes after the one it lies in. */
  ghost predicate WellParented(parts: seq<Part>) {
    forall i :: 0 <= i < |parts| && parts[i].parent.Some? ==> parts[i].parent.value < i
  }

  /** The children of `parent` tile `[start, pos)` so far. */
  ghost predicate OpenAt(parts: seq<Part>, parent: Option<nat>, start: nat, pos: nat) {
    Tiling(ChildRanges(parts, parent), start, pos)
  }

  /** The children of part `i` tile it. */
  ghost predicate Tiled(parts: seq<Part>, i: nat) {
    i < |parts| && OpenAt(parts, Some(i), parts[i].range.start, parts[i].range.end)
  }

  lemma {:induction false} ChildSnoc(parts: seq<Part>, p: Part, parent: Option<nat>)
    ensures ChildRanges(parts + [p], parent) == ChildRanges(parts, parent) +
      (if p.parent == parent then [p.range] else [])
  {
    assert (parts + [p])[..|parts|] == parts;
  }

  lemma {:induction false} NoChildrenYet(parts: seq<Part>, id: nat)
    requires WellParented(parts) && id >= |parts|
    ensures ChildRanges(parts, Some(id)) == []
    decreases |parts|
  {
    if parts != [] { NoChildrenYet(parts[..|parts| - 1], id); }
  }

  /** `after` adds to `before` only children of `parent` and descendants of what it adds. */
  ghost predicate AddsUnder(before: seq<Part>, after: seq<Part>, parent: Option<nat>) {
    && |before| <= |after| && after[..|before|] == before && WellParented(after)
    && forall i :: |before| <= i < |after| ==>
         after[i].parent == parent || (after[i].parent.Some? && after[i].parent.value >= |before|)
  }

  lemma {:induction false} AddsNothingElsewhere(before: seq<Part>, after: seq<Part>, parent: Option<nat>,
      q: Option<nat>)
    requires AddsUnder(before, after, parent) && q != parent && (q.Some? ==> q.value < |before|)
    ensures ChildRanges(after, q) == ChildRanges(before, q)
    decreases |after|
  {
    if |after| == |before| {
      assert after == before;
    } else {
      var k := |after| - 1;
      assert after[..k][..|before|] == before;
      AddsNothingElsewhere(before, after[..k], parent, q);
    }
  }

  lemma {:induction false} AddsTwice(a: seq<Part>, b: seq<Part>, c: seq<Part>, parent: Option<nat>, inner: Option<nat>)
    requires AddsUnder(a, b, parent) && AddsUnder(b, c, inner)
    requires inner == parent || (inner.Some? && inner.value >= |a|)
    ensures AddsUnder(a, c, parent)
  {
    assert c[..|a|] == c[..|b|][..|a|];
    assert forall i :: 0 <= i < |b| ==> c[i] == b[i];
  }

  lemma {:induction false} AddsNothing(parts: seq<Part>, parent: Option<nat>)
    requires WellParented(parts)
    ensures AddsUnder(parts, parts, parent)
  {
  }

  lemma {:induction false} KeepsParts(before: seq<Part>, after: seq<Part>, parent: Option<nat>)
    requires AddsUnder(before, after, parent)
    ensures WellParented(after) && |before| <= |after| && forall i :: 0 <= i < |before| ==> after[i] == before[i]
  {
  }

  /** Parts added elsewhere leave a node as open, or as tiled, as it was. */
  lemma {:induction false} StillOpen(before: seq<Part>, after: seq<Part>, parent: Option<nat>, q: Option<nat>,
      start: nat, pos: nat)
    requires AddsUnder(before, after, parent) && q != parent && (q.Some? ==> q.value < |before|) &&
      OpenAt(before, q, start, pos)
    ensures OpenAt(after, q, start, pos)
  {
    AddsNothingElsewhere(before, after, parent, q);
  }

  lemma {:induction false} StillTiled(before: seq<Part>, after: seq<Part>, parent: Option<nat>, i: nat)
    requires AddsUnder(before, after, parent) && Some(i) != parent && Tiled(before, i)
    ensures Tiled(after, i)
  {
    AddsNothingElsewhere(before, after, parent, Some(i));
    assert after[i] == after[..|before|][i];
  }

  /** Records a part where the children of its parent end so far. */
  method Add(w: Recorder, parent: Option<nat>, kind: Kind, range: Range, disposition: Disposition,
      ghost start: nat) returns (id: nat)
    requires WellParented(w.parts) && (parent.Some? ==> parent.value < |w.parts|)
    requires OpenAt(w.parts, parent, start, range.start) && range.start <= range.end
    modifies w
    ensures id == |old(w.parts)| && w.parts == old(w.parts) + [Part(parent, kind, range, disposition)]
    ensures AddsUnder(old(w.parts), w.parts, parent)
    ensures OpenAt(w.parts, parent, start, range.end) && ChildRanges(w.parts, Some(id)) == []
  {
    ghost var before := w.parts;
    id := w.Push(parent, kind, range, disposition);
    ChildSnoc(before, Part(parent, kind, range, disposition), parent);
    ChildSnoc(before, Part(parent, kind, range, disposition), Some(id));
    NoChildrenYet(before, id);
    TilingSnoc(ChildRanges(before, parent), start, range.start, range.end);
  }

  /** The same, for a part with children to come. */
  method AddOpen(w: Recorder, parent: Option<nat>, kind: Kind, range: Range, disposition: Disposition,
      ghost start: nat) returns (id: nat)
    requires WellParented(w.parts) && (parent.Some? ==> parent.value < |w.parts|)
    requires OpenAt(w.parts, parent, start, range.start) && range.start <= range.end
    modifies w
    ensures id == |old(w.parts)| && w.parts == old(w.parts) + [Part(parent, kind, range, disposition)]
    ensures AddsUnder(old(w.parts), w.parts, parent)
    ensures OpenAt(w.parts, parent, start, range.end) && OpenAt(w.parts, Some(id), range.start, range.start)
  {
    id := Add(w, parent, kind, range, disposition, start);
  }
}
