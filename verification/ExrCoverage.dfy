/** A set of file bytes kept as merged spans, for placing chunks that may overlap. */
module ExrCoverage {
  import opened Wrappers
  import opened Inventory

  // ---- The ordered map the spans live in ----

  /** The greatest key at or below `k`. */
  function Floor(m: map<nat, nat>, k: nat): (r: Option<nat>)
    ensures match r
      case None => forall s :: s in m ==> s > k
      case Some(f) => f in m && f <= k && forall s :: s in m && s <= k ==> s <= f
  {
    if k in m then Some(k) else if k == 0 then None else Floor(m, k - 1)
  }

  /** The keys in `[lo, hi)`, ascending. */
  function KeysIn(m: map<nat, nat>, lo: nat, hi: nat): (keys: seq<nat>)
    decreases hi - lo
  {
    if lo >= hi then []
    else if lo in m then [lo] + KeysIn(m, lo + 1, hi)
    else KeysIn(m, lo + 1, hi)
  }

  ghost predicate Lists(keys: seq<nat>, m: map<nat, nat>, lo: nat, hi: nat) {
    && (forall i :: 0 <= i < |keys| ==> keys[i] in m && lo <= keys[i] < hi)
    && (forall s :: s in m && lo <= s < hi ==> s in keys)
    && (forall i, j :: 0 <= i < j < |keys| ==> keys[i] < keys[j])
  }

  lemma {:induction false} KeysInLists(m: map<nat, nat>, lo: nat, hi: nat)
    ensures Lists(KeysIn(m, lo, hi), m, lo, hi)
    decreases hi - lo
  {
    if lo < hi {
      KeysInLists(m, lo + 1, hi);
      ListsFrom(m, lo, hi, KeysIn(m, lo + 1, hi));
    }
  }

  lemma {:induction false} ListsFrom(m: map<nat, nat>, lo: nat, hi: nat, rest: seq<nat>)
    requires lo < hi && Lists(rest, m, lo + 1, hi)
    ensures Lists(if lo in m then [lo] + rest else rest, m, lo, hi)
  {
    if lo in m {
      var keys := [lo] + rest;
      forall s | s in m && lo <= s < hi ensures s in keys {
        if s == lo { assert keys[0] == s; } else { assert s in rest; }
      }
      forall i, j | 0 <= i < j < |keys| ensures keys[i] < keys[j] {
        assert keys[j] == rest[j - 1];
      }
    }
  }

  // ---- What a span map stands for ----

  /** Byte `b` lies in a span. */
  ghost predicate Covers(m: map<nat, nat>, b: int) {
    exists s :: s in m && s <= b < m[s]
  }

  /** Spans run forward and never overlap or touch. */
  ghost predicate Merged(m: map<nat, nat>) {
    && (forall s :: s in m ==> s < m[s])
    && (forall s, t :: s in m && t in m && s < t ==> m[s] < t)
  }

  /** Byte `b` lies in one of `ranges`. */
  ghost predicate InSome(ranges: seq<Range>, b: int) {
    exists i :: 0 <= i < |ranges| && ranges[i].start <= b < ranges[i].end
  }

  /** Non-empty ranges inside `r`, ascending, with covered bytes between any two. */
  ghost predicate Separated(ranges: seq<Range>, r: Range) {
    && (forall i :: 0 <= i < |ranges| ==> r.start <= ranges[i].start < ranges[i].end <= r.end)
    && (forall i, j :: 0 <= i < j < |ranges| ==> ranges[i].end < ranges[j].start)
  }

  /** The keys a search of `range` visits: the span at or before its start, then those starting inside. */
  function Visited(m: map<nat, nat>, range: Range): (keys: seq<nat>) {
    var first := Floor(m, range.start);
    (if first.Some? then [first.value] else []) + KeysIn(m, range.start + 1, range.end)
  }

  /** Where the `i`-th visited span starts, or the end of the search. */
  function Frontier(keys: seq<nat>, i: nat, range: Range): (f: nat) {
    if i < |keys| then keys[i] else range.end
  }

  lemma {:induction false} VisitedAscends(m: map<nat, nat>, range: Range)
    ensures forall i :: 0 <= i < |Visited(m, range)| ==> Visited(m, range)[i] in m
    ensures forall i, j :: 0 <= i < j < |Visited(m, range)| ==> Visited(m, range)[i] < Visited(m, range)[j]
    ensures forall i :: 0 <= i < |Visited(m, range)| && Visited(m, range)[i] > range.start ==>
      Visited(m, range)[i] < range.end
  {
    KeysInLists(m, range.start + 1, range.end);
  }

  /** A span over a searched byte is visited. */
  lemma {:induction false} SpanIsVisited(m: map<nat, nat>, range: Range, b: int, t: nat)
    requires Merged(m) && range.start <= b < range.end
    requires t in m && t <= b < m[t]
    ensures t in Visited(m, range)
  {
    KeysInLists(m, range.start + 1, range.end);
    if t > range.start {
      assert t in KeysIn(m, range.start + 1, range.end);
    } else {
      var first := Floor(m, range.start);
      assert t == first.value;
      assert Visited(m, range)[0] == t;
    }
  }

  /** Nothing is covered between the ends of the spans visited so far and the next one. */
  lemma {:induction false} ClearBefore(m: map<nat, nat>, range: Range, i: nat, cursor: nat, b: int)
    requires Merged(m) && range.start <= cursor <= b < range.end
    requires i <= |Visited(m, range)| && b < Frontier(Visited(m, range), i, range)
    requires forall j :: 0 <= j < i ==> Visited(m, range)[j] in m && m[Visited(m, range)[j]] <= cursor
    ensures !Covers(m, b)
  {
    if t :| t in m && t <= b < m[t] {
      SpanIsVisited(m, range, b, t);
      VisitedAscends(m, range);
    }
  }

  /** `out` is exactly what is uncovered before `cursor`. */
  ghost predicate Known(m: map<nat, nat>, range: Range, out: seq<Range>, cursor: nat) {
    && Separated(out, range)
    && (forall j :: 0 <= j < |out| && cursor < range.end ==> out[j].end < cursor)
    && (forall b :: InSome(out, b) <==> range.start <= b < cursor && b < range.end && !Covers(m, b))
  }

  /** A gap from `cursor` to the next span, or to the end of the search. */
  lemma {:induction false} GapExtends(m: map<nat, nat>, range: Range, i: nat, cursor: nat, stop: nat, out: seq<Range>)
    requires Merged(m) && range.start <= cursor < stop <= range.end
    requires i <= |Visited(m, range)| && stop <= Frontier(Visited(m, range), i, range)
    requires forall j :: 0 <= j < i ==> Visited(m, range)[j] in m && m[Visited(m, range)[j]] <= cursor
    requires Known(m, range, out, cursor)
    ensures Separated(out + [Range(cursor, stop)], range)
    ensures forall b :: InSome(out + [Range(cursor, stop)], b) <==> range.start <= b < stop && !Covers(m, b)
  {
    var out' := out + [Range(cursor, stop)];
    forall b
      ensures InSome(out', b) <==> InSome(out, b) || cursor <= b < stop
    {
      InSomeSnoc(out, Range(cursor, stop), b);
    }
    forall b | cursor <= b < stop
      ensures !Covers(m, b)
    {
      ClearBefore(m, range, i, cursor, b);
    }
  }

  lemma {:induction false} InSomeSnoc(out: seq<Range>, r: Range, b: int)
    ensures InSome(out + [r], b) <==> InSome(out, b) || r.start <= b < r.end
  {
    var out' := out + [r];
    if InSome(out, b) {
      var k :| 0 <= k < |out| && out[k].start <= b < out[k].end;
      assert out'[k] == out[k];
    }
    if r.start <= b < r.end { assert out'[|out|] == r; }
  }

  /** Passing a span leaves everything before its end known. */
  lemma {:induction false} SpanPassed(m: map<nat, nat>, range: Range, out: seq<Range>, cursor: nat, s: nat,
      out': seq<Range>)
    requires Merged(m) && s in m && range.start <= cursor < m[s]
    requires if s <= cursor then out' == out && Known(m, range, out, cursor) else
      && out' == out + [Range(cursor, s)] && Separated(out', range)
      && (forall j :: 0 <= j < |out| ==> out[j].end < cursor)
      && s < range.end
      && forall b :: InSome(out', b) <==> range.start <= b < s && !Covers(m, b)
    ensures Known(m, range, out', m[s])
  {
    assert forall b :: s <= b < m[s] ==> Covers(m, b);
  }

  /**
   `before` with `range` merged in: `start` and `near` bound the range and the span
   it extends, and `end` is the furthest end of any span starting inside that.
   */
  ghost predicate Absorbed(before: map<nat, nat>, range: Range, start: nat, near: nat, end: nat) {
    && Merged(before) && start <= range.start < range.end <= near <= end
    && (forall s :: s in before && start <= s <= near ==> before[s] <= end)
    && (forall s :: s in before && s < start ==> before[s] < start)
    && (end == near || exists s :: s in before && start <= s <= near && before[s] == end)
    && (forall b :: start <= b < near ==> Covers(before, b) || range.start <= b < range.end)
  }

  /** The range extended to the span that reaches its start, if one does. */
  function Reach(before: map<nat, nat>, range: Range): (r: (nat, nat)) {
    var below := Floor(before, range.start);
    if below.Some? && before[below.value] >= range.start
    then (below.value, Max(range.end, before[below.value]))
    else (range.start, range.end)
  }

  /** Extending the range to the span at its start adds only covered bytes. */
  lemma {:induction false} NearCovered(before: map<nat, nat>, range: Range)
    requires Merged(before) && range.start < range.end
    ensures var (start, near) := Reach(before, range);
      && start <= range.start && range.end <= near
      && (forall b :: start <= b < near ==> Covers(before, b) || range.start <= b < range.end)
      && (forall s :: s in before && s < start ==> before[s] < start)
  {
  }

  lemma {:induction false} Absorbs(before: map<nat, nat>, range: Range, start: nat, near: nat, end: nat,
      after: map<nat, nat>)
    requires Absorbed(before, range, start, near, end)
    requires start in after && after[start] == end
    requires forall s :: s in after && s != start ==> s in before && !(start <= s <= near) && after[s] == before[s]
    requires forall s :: s in before && !(start <= s <= near) ==> s in after && s != start && after[s] == before[s]
    ensures Merged(after)
    ensures forall b :: Covers(after, b) <==> Covers(before, b) || range.start <= b < range.end
  {
    forall b
      ensures Covers(after, b) <==> Covers(before, b) || range.start <= b < range.end
    {
      if start <= b < end {
        AbsorbsInside(before, range, start, near, end, b);
      } else {
        if s :| s in after && s <= b < after[s] { assert s in before; }
        if s :| s in before && s <= b < before[s] { assert s in after && after[s] == before[s]; }
      }
    }
  }

  lemma {:induction false} AbsorbsInside(before: map<nat, nat>, range: Range, start: nat, near: nat, end: nat, b: int)
    requires Absorbed(before, range, start, near, end) && start <= b < end
    ensures Covers(before, b) || range.start <= b < range.end
  {
    if b >= near {
      var s :| s in before && start <= s <= near && before[s] == end;
    }
  }

  ghost predicate Without(m: map<nat, nat>, before: map<nat, nat>, keys: seq<nat>) {
    && (forall s :: s in m <==> s in before && s !in keys)
    && (forall s :: s in m ==> m[s] == before[s])
  }

  ghost predicate Furthest(before: map<nat, nat>, keys: seq<nat>, near: nat, end: nat) {
    && near <= end
    && (forall s :: s in keys ==> s in before && before[s] <= end)
    && (end == near || exists s :: s in keys && s in before && before[s] == end)
  }

  lemma {:induction false} RemoveOne(m: map<nat, nat>, before: map<nat, nat>, keys: seq<nat>, i: nat, near: nat,
      end: nat)
    requires i < |keys| && forall j, k :: 0 <= j < k < |keys| ==> keys[j] < keys[k]
    requires Without(m, before, keys[..i]) && Furthest(before, keys[..i], near, end) && keys[i] in before
    ensures keys[i] in m && m[keys[i]] == before[keys[i]]
    ensures Without(m - {keys[i]}, before, keys[..i + 1])
    ensures Furthest(before, keys[..i + 1], near, Max(end, before[keys[i]]))
  {
    assert keys[..i + 1] == keys[..i] + [keys[i]];
    assert keys[i] in keys[..i + 1];
    if end != near {
      var s :| s in keys[..i] && s in before && before[s] == end;
      assert s in keys[..i + 1];
    }
  }

  lemma {:induction false} AllRemoved(m: map<nat, nat>, before: map<nat, nat>, start: nat, near: nat, end: nat)
    requires Without(m, before, KeysIn(before, start, near + 1))
    requires Furthest(before, KeysIn(before, start, near + 1), near, end)
    ensures forall s :: s in m <==> s in before && !(start <= s <= near)
    ensures forall s :: s in m ==> m[s] == before[s]
    ensures near <= end && forall s :: s in before && start <= s <= near ==> before[s] <= end
    ensures end == near || exists s :: s in before && start <= s <= near && before[s] == end
  {
    KeysInLists(before, start, near + 1);
  }

  class Coverage {
    /** start -> end. */
    var spans: map<nat, nat>

    constructor ()
      ensures spans == map[]
    {
      spans := map[];
    }

    /** The parts of `range` in no span: maximal, ascending, and together everything uncovered. */
    method Uncovered(range: Range) returns (out: seq<Range>)
      requires Merged(spans)
      ensures Separated(out, range)
      ensures forall b :: InSome(out, b) <==> range.start <= b < range.end && !Covers(spans, b)
    {
      out := [];
      if range.start >= range.end { return; }
      var cursor := range.start;
      var keys := Visited(spans, range);
      VisitedAscends(spans, range);
      var i := 0;
      while i < |keys|
        invariant i <= |keys| && range.start <= cursor < range.end
        invariant Known(spans, range, out, cursor)
        invariant forall j :: 0 <= j < i ==> spans[keys[j]] <= cursor
      {
        var s, e := keys[i], spans[keys[i]];
        if e > cursor {
          ghost var before := out;
          if s > cursor {
            GapExtends(spans, range, i, cursor, s, out);
            out := out + [Range(cursor, Min(s, range.end))];
          }
          SpanPassed(spans, range, before, cursor, s, out);
          cursor := Max(cursor, e);
          if cursor >= range.end { break; }
        }
        i := i + 1;
      }
      if cursor < range.end {
        GapExtends(spans, range, |keys|, cursor, range.end, out);
        out := out + [Range(cursor, range.end)];
      }
    }

    /** Removes the spans starting in `[start, near]`; `end` is the furthest of `near` and their ends. */
    method Absorb(start: nat, near: nat) returns (end: nat)
      modifies this
      ensures forall s :: s in spans <==> s in old(spans) && !(start <= s <= near)
      ensures forall s :: s in spans ==> spans[s] == old(spans)[s]
      ensures near <= end && forall s :: s in old(spans) && start <= s <= near ==> old(spans)[s] <= end
      ensures end == near || exists s :: s in old(spans) && start <= s <= near && old(spans)[s] == end
    {
      ghost var before := spans;
      var keys := KeysIn(spans, start, near + 1);
      KeysInLists(spans, start, near + 1);
      end := near;
      var i := 0;
      while i < |keys|
        invariant i <= |keys|
        invariant Without(spans, before, keys[..i])
        invariant Furthest(before, keys[..i], near, end)
      {
        RemoveOne(spans, before, keys, i, near, end);
        end := Max(end, spans[keys[i]]);
        spans := spans - {keys[i]};
        i := i + 1;
      }
      assert keys[..i] == keys;
      AllRemoved(spans, before, start, near, end);
    }

    /** Adds `range`, merging it with every span it overlaps or touches. */
    method Insert(range: Range)
      requires Merged(spans) && range.start < range.end
      modifies this
      ensures Merged(spans)
      ensures forall b :: Covers(spans, b) <==> Covers(old(spans), b) || range.start <= b < range.end
    {
      var start, near := range.start, range.end;
      var below := Floor(spans, start);
      if below.Some? && spans[below.value] >= start {
        start := below.value;
        near := Max(near, spans[below.value]);
      }
      NearCovered(spans, range);
      var end := Absorb(start, near);
      spans := spans[start := end];
      Absorbs(old(spans), range, start, near, end, spans);
    }
  }
}
