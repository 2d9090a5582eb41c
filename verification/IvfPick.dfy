/** Choosing the packet a seek lands on, in exact rational time. */
module IvfPick {
  import opened Wrappers
  import opened Bytes
  import opened IvfFormat

  datatype SeekMode = Nearest | AtOrBefore | AtOrAfter

  datatype SeekTarget = SeekTarget(track: nat, ticks: int, base: TimeBase, mode: SeekMode, anyScope: bool) {
    predicate Valid() { IsI64(ticks) && base.Valid() }
  }

  const I128_MIN: int := -0x8000_0000_0000_0000_0000_0000_0000_0000
  const TWO_128: int := 0x1_0000_0000_0000_0000_0000_0000_0000_0000

  predicate IsI128(n: int) { I128_MIN <= n < -I128_MIN }

  /** Two's complement wrap-around to 128 bits. */
  function Wrap128(n: int): (w: int)
    ensures IsI128(w) && (IsI128(n) ==> w == n)
  {
    (n - I128_MIN) % TWO_128 + I128_MIN
  }

  /** An entry's time on the scale shared with the target. */
  function ValueOf(e: IndexEntry, tb: TimeBase, t: SeekTarget): (v: int) { e.pts * tb.num * t.base.den }

  function Wanted(tb: TimeBase, t: SeekTarget): (w: int) { t.ticks * t.base.num * tb.den }

  /** `(value - want).abs()` in 128-bit arithmetic. */
  function Distance(v: int, w: int): (d: int)
  {
    var d := Wrap128(v - w);
    Wrap128(if d < 0 then -d else d)
  }

  // ---- The fold each mode takes over the index ----

  /** `a` comes before `b` for a nearest seek: closer, or as close and earlier. */
  predicate Closer(a: IndexEntry, b: IndexEntry, tb: TimeBase, t: SeekTarget) {
    var (da, db) := (Distance(ValueOf(a, tb, t), Wanted(tb, t)), Distance(ValueOf(b, tb, t), Wanted(tb, t)));
    da < db || (da == db && a.pts < b.pts)
  }

  /** Whether a seek considers an entry at all. */
  predicate Eligible(e: IndexEntry, tb: TimeBase, t: SeekTarget) {
    match t.mode
    case Nearest => true
    case AtOrBefore => ValueOf(e, tb, t) <= Wanted(tb, t)
    case AtOrAfter => ValueOf(e, tb, t) >= Wanted(tb, t)
  }

  /** Whether a later entry takes the place of the best so far: `max_by_key` keeps the last of equals. */
  predicate Displaces(e: IndexEntry, best: IndexEntry, tb: TimeBase, t: SeekTarget) {
    match t.mode
    case Nearest => Closer(e, best, tb, t)
    case AtOrBefore => e.pts >= best.pts
    case AtOrAfter => e.pts < best.pts
  }

  /** The entry a seek chooses. */
  function Pick(index: seq<IndexEntry>, tb: TimeBase, t: SeekTarget): (r: Option<IndexEntry>) {
    if index == [] then None else
    var e := index[|index| - 1];
    match Pick(index[..|index| - 1], tb, t)
    case None => if Eligible(e, tb, t) then Some(e) else None
    case Some(best) => if Eligible(e, tb, t) && Displaces(e, best, tb, t) then Some(e) else Some(best)
  }

  // ---- Exact rational time ----

  /** A rational number with a positive denominator. */
  datatype Rational = Rational(num: int, den: int)

  predicate Le(a: Rational, b: Rational) { a.num * b.den <= b.num * a.den }

  function Abs(n: int): (a: int)
    ensures a >= 0
  {
    if n < 0 then -n else n
  }

  /** |a - b|. */
  function Apart(a: Rational, b: Rational): (d: Rational) {
    Rational(Abs(a.num * b.den - b.num * a.den), a.den * b.den)
  }

  /** `ticks` ticks of a time base, in seconds. */
  function Time(ticks: int, tb: TimeBase): (r: Rational) { Rational(ticks * tb.num, tb.den) }

  lemma {:induction false} ScaleLe(a: int, b: int, k: int)
    requires k > 0
    ensures a * k <= b * k <==> a <= b
  {
    if a < b { assert (b - a) * k > 0; }
    if b < a { assert (a - b) * k > 0; }
  }

  /** Comparing scaled values compares times. */
  lemma {:induction false} ValueComparesTime(e: IndexEntry, tb: TimeBase, t: SeekTarget)
    ensures ValueOf(e, tb, t) <= Wanted(tb, t) <==> Le(Time(e.pts, tb), Time(t.ticks, t.base))
    ensures ValueOf(e, tb, t) >= Wanted(tb, t) <==> Le(Time(t.ticks, t.base), Time(e.pts, tb))
  {
  }

  /** The exact distance on the shared scale. */
  function Gap(e: IndexEntry, tb: TimeBase, t: SeekTarget): (d: int) { Abs(ValueOf(e, tb, t) - Wanted(tb, t)) }

  /** Comparing scaled distances compares distances in time. */
  lemma {:induction false} DistanceComparesTime(a: IndexEntry, b: IndexEntry, tb: TimeBase, t: SeekTarget)
    requires tb.Valid() && t.base.Valid()
    ensures
      var w := Time(t.ticks, t.base);
      Le(Apart(Time(a.pts, tb), w), Apart(Time(b.pts, tb), w)) <==> Gap(a, tb, t) <= Gap(b, tb, t)
  {
    PositiveProduct(tb.den, t.base.den);
    ScaleLe(Gap(a, tb, t), Gap(b, tb, t), tb.den * t.base.den);
  }

  lemma PositiveProduct(a: int, b: int)
    requires a > 0 && b > 0
    ensures a * b > 0
  {
  }

  /** Ticks small enough that a difference of cross products fits 128 bits. */
  predicate Tame(ticks: int) { -0x4000_0000_0000_0000 < ticks < 0x4000_0000_0000_0000 }

  lemma {:induction false} ProductBound(n: int, a: nat, b: nat, limit: nat)
    requires -(limit as int) <= n <= limit && a < U32 && b < U32
    ensures -(limit * U64) as int <= n * a * b <= limit * U64
  {
    SmallProduct(a, b);
    Bounded(n, a * b, limit, U64);
    assert n * a * b == n * (a * b);
  }

  lemma SmallProduct(a: nat, b: nat)
    requires a < U32 && b < U32
    ensures 0 <= a * b <= U64
  {
    TimesSmall(a, U32, b);
  }

  lemma {:induction false} Bounded(n: int, p: nat, limit: nat, top: nat)
    requires -(limit as int) <= n <= limit && p <= top
    ensures -(limit * top) as int <= n * p <= limit * top
  {
    if n >= 0 { Mono(n, limit, p, top); } else { Mono(-n, limit, p, top); assert n * p == -((-n) * p); }
  }

  lemma Mono(a: nat, b: nat, p: nat, q: nat)
    requires a <= b && p <= q
    ensures a * p <= b * q
  {
    assert a * p <= b * p;
    assert b * p <= b * q;
  }

  /** Every cross product fits 128 bits. */
  lemma {:induction false} CrossProductsFit(e: IndexEntry, tb: TimeBase, t: SeekTarget)
    requires IsI64(e.pts) && tb.Valid() && t.Valid()
    ensures IsI128(ValueOf(e, tb, t)) && IsI128(Wanted(tb, t))
  {
    ProductStrict(e.pts, tb.num, t.base.den);
    ProductStrict(t.ticks, t.base.num, tb.den);
  }

  lemma {:induction false} ProductStrict(n: int, a: nat, b: nat)
    requires IsI64(n) && a < U32 && b < U32
    ensures IsI128(n * a * b)
  {
    SmallStrict(a, b);
    Bounded(n, a * b, -I64_MIN, U64 - 1);
    assert n * a * b == n * (a * b);
  }

  lemma SmallStrict(a: nat, b: nat)
    requires a < U32 && b < U32
    ensures 0 <= a * b <= U64 - 1
  {
    TimesSmall(a, 0xffff_ffff, b);
  }

  lemma TimesSmall(a: nat, m: nat, b: nat)
    requires a <= m
    ensures 0 <= a * b <= m * b
  {
  }

  /** The difference of an entry and the target, and its opposite, fit 128 bits. */
  predicate Fits(e: IndexEntry, tb: TimeBase, t: SeekTarget) {
    I128_MIN < ValueOf(e, tb, t) - Wanted(tb, t) < -I128_MIN
  }

  /** The distance a nearest seek compares is exact if and only if the difference fits. */
  lemma {:induction false} DistanceExact(e: IndexEntry, tb: TimeBase, t: SeekTarget)
    ensures Distance(ValueOf(e, tb, t), Wanted(tb, t)) == Gap(e, tb, t) <==> Fits(e, tb, t)
  {
    hide ValueOf, Wanted;
    var d := ValueOf(e, tb, t) - Wanted(tb, t);
    WrapExact(d);
    WrapExact(Abs(d));
  }

  lemma {:induction false} WrapExact(n: int)
    ensures IsI128(Wrap128(n)) && (Wrap128(n) == n <==> IsI128(n))
  {
  }

  /** Tame ticks are enough. */
  lemma {:induction false} TameFits(e: IndexEntry, tb: TimeBase, t: SeekTarget)
    requires tb.Valid() && t.base.Valid() && Tame(e.pts) && Tame(t.ticks)
    ensures Fits(e, tb, t)
  {
    ProductBound(e.pts, tb.num, t.base.den, 0x3fff_ffff_ffff_ffff);
    ProductBound(t.ticks, t.base.num, tb.den, 0x3fff_ffff_ffff_ffff);
  }

  // ---- The optimum ----

  /** What an index must hold for a seek's arithmetic to be exact. */
  ghost predicate Exact(index: seq<IndexEntry>, tb: TimeBase, t: SeekTarget) {
    t.mode.Nearest? ==> forall e :: e in index ==> Fits(e, tb, t)
  }

  /** Eligible in time: at or before, or at or after, the target. */
  predicate InTime(e: IndexEntry, tb: TimeBase, t: SeekTarget) {
    match t.mode
    case Nearest => true
    case AtOrBefore => Le(Time(e.pts, tb), Time(t.ticks, t.base))
    case AtOrAfter => Le(Time(t.ticks, t.base), Time(e.pts, tb))
  }

  /**
   `i` is the optimum of a seek: no entry is closer (nearest), later (at or before)
   or earlier (at or after). Ties go to the earlier timestamp and then to the
   earlier packet, except that at-or-before takes the later packet.
   */
  ghost predicate Optimum(index: seq<IndexEntry>, i: nat, tb: TimeBase, t: SeekTarget)
    requires i < |index|
  {
    && InTime(index[i], tb, t)
    && forall j :: 0 <= j < |index| && InTime(index[j], tb, t) ==>
       match t.mode
       case Nearest =>
         var w := Time(t.ticks, t.base);
         var (di, dj) := (Apart(Time(index[i].pts, tb), w), Apart(Time(index[j].pts, tb), w));
         && Le(di, dj)
         && (Le(dj, di) ==> index[i].pts <= index[j].pts)
         && (Le(dj, di) && index[i].pts == index[j].pts ==> i <= j)
       case AtOrBefore => index[j].pts <= index[i].pts && (index[j].pts == index[i].pts ==> j <= i)
       case AtOrAfter => index[j].pts >= index[i].pts && (index[j].pts == index[i].pts ==> i <= j)
  }

  // ---- What the fold picks ----

  /** The fold's own best: first by the distance it computes, then by timestamp, then by place. */
  ghost predicate Best(index: seq<IndexEntry>, i: nat, tb: TimeBase, t: SeekTarget)
    requires i < |index|
  {
    && Eligible(index[i], tb, t)
    && forall j :: 0 <= j < |index| && Eligible(index[j], tb, t) ==>
         Beats(Computed, index[i], i, index[j], j, tb, t)
  }

  /** A measure of how far an entry is from the target. */
  type Measure = (IndexEntry, TimeBase, SeekTarget) -> int

  /** `e`, entry `i`, beats or is `o`, entry `j`, by this measure. */
  ghost predicate Beats(far: Measure, e: IndexEntry, i: nat, o: IndexEntry, j: int, tb: TimeBase, t: SeekTarget) {
    match t.mode
    case Nearest =>
      var (d, o') := (far(e, tb, t), far(o, tb, t));
      d < o' || (d == o' && (e.pts < o.pts || (e.pts == o.pts && i <= j)))
    case AtOrBefore => o.pts < e.pts || (o.pts == e.pts && j <= i)
    case AtOrAfter => e.pts < o.pts || (o.pts == e.pts && i <= j)
  }

  /** The distance as computed, in 128 bits. */
  function Computed(e: IndexEntry, tb: TimeBase, t: SeekTarget): (d: int) {
    Distance(ValueOf(e, tb, t), Wanted(tb, t))
  }

  /** The fold keeps the best entry of the prefix read. */
  lemma {:induction false} PickIsBest(index: seq<IndexEntry>, tb: TimeBase, t: SeekTarget)
    ensures match Pick(index, tb, t)
      case None => forall j :: 0 <= j < |index| ==> !Eligible(index[j], tb, t)
      case Some(e) => exists i :: 0 <= i < |index| && index[i] == e && Best(index, i, tb, t)
  {
    hide Eligible, Displaces;
    if index != [] {
      var n := |index| - 1;
      var before := index[..n];
      PickIsBest(before, tb, t);
      match Pick(before, tb, t)
      case None =>
        if Eligible(index[n], tb, t) { AloneIsBest(index, tb, t); }
      case Some(best) =>
        var i :| 0 <= i < n && before[i] == best && Best(before, i, tb, t);
        BestExtends(index, i, tb, t);
    }
  }

  lemma {:induction false} AloneIsBest(index: seq<IndexEntry>, tb: TimeBase, t: SeekTarget)
    requires index != [] && Eligible(index[|index| - 1], tb, t)
    requires
      var before := index[..|index| - 1];
      forall j :: 0 <= j < |before| ==> !Eligible(before[j], tb, t)
    ensures Best(index, |index| - 1, tb, t)
  {
    hide Eligible, Computed;
    forall j | 0 <= j < |index| - 1 ensures !Eligible(index[j], tb, t) { assert index[..|index| - 1][j] == index[j]; }
  }

  lemma {:induction false} BestExtends(index: seq<IndexEntry>, i: nat, tb: TimeBase, t: SeekTarget)
    requires i < |index| - 1 && Best(index[..|index| - 1], i, tb, t)
    ensures
      var n := |index| - 1;
      if Eligible(index[n], tb, t) && Displaces(index[n], index[i], tb, t) then Best(index, n, tb, t)
      else Best(index, i, tb, t)
  {
    hide ValueOf, Wanted, Distance;
    var n := |index| - 1;
    var before := index[..n];
    var k := if Eligible(index[n], tb, t) && Displaces(index[n], index[i], tb, t) then n else i;
    forall j | 0 <= j < |index| && Eligible(index[j], tb, t)
      ensures Beats(Computed, index[k], k, index[j], j, tb, t)
    {
      if j < n { assert before[j] == index[j]; assert Beats(Computed, before[i], i, before[j], j, tb, t); }
    }
  }

  // ---- How far an entry looks ----

  /** Half of the 128-bit numbers. */
  const HALF: int := -I128_MIN

  /**
   How far an entry at exact distance `gap` looks once its distance has wrapped around:
   as far as it is below 2^127; at 2^127 the nearest of all; and beyond it the nearer
   the farther it is.
   */
  function Looks(gap: int): (d: int) { if gap < HALF then gap else if gap == HALF then -HALF else TWO_128 - gap }

  function Seems(e: IndexEntry, tb: TimeBase, t: SeekTarget): (d: int) { Looks(Gap(e, tb, t)) }

  /** The distance computed is that one, for all numbers a target and an entry can hold. */
  lemma {:induction false} ComputedIsSeen(e: IndexEntry, tb: TimeBase, t: SeekTarget)
    requires IsI64(e.pts) && tb.Valid() && t.Valid()
    ensures Computed(e, tb, t) == Seems(e, tb, t)
  {
    hide ValueOf, Wanted;
    CrossProductsFit(e, tb, t);
    DifferenceWraps(ValueOf(e, tb, t) - Wanted(tb, t));
  }

  lemma {:induction false} DifferenceWraps(d: int)
    requires -TWO_128 < d < TWO_128
    ensures
      var w := Wrap128(d);
      Wrap128(if w < 0 then -w else w) == Looks(Abs(d))
  {
    WrapOnce(d);
    WrapOnce(-Wrap128(d));
  }

  lemma {:induction false} WrapOnce(n: int)
    requires -TWO_128 < n < TWO_128
    ensures Wrap128(n) == if n < I128_MIN then n + TWO_128 else if n < HALF then n else n - TWO_128
  {
  }

  /** Every timestamp of the index is an i64. */
  ghost predicate Stamped(index: seq<IndexEntry>) { forall e :: e in index ==> IsI64(e.pts) }

  /** `i` is what a seek chooses: the optimum, with the distances a nearest seek sees for the true ones. */
  ghost predicate Chosen(index: seq<IndexEntry>, i: nat, tb: TimeBase, t: SeekTarget)
    requires i < |index|
  {
    && InTime(index[i], tb, t)
    && forall j :: 0 <= j < |index| && InTime(index[j], tb, t) ==> Beats(Seems, index[i], i, index[j], j, tb, t)
  }

  /**
   A seek chooses by time over all packets of the index, and fails exactly when none
   qualifies; the choice is the optimum when every difference fits.
   */
  lemma {:induction false} PickIsOptimum(index: seq<IndexEntry>, tb: TimeBase, t: SeekTarget)
    requires tb.Valid() && t.Valid() && Stamped(index)
    ensures match Pick(index, tb, t)
      case None => forall j :: 0 <= j < |index| ==> !InTime(index[j], tb, t)
      case Some(e) =>
        exists i :: 0 <= i < |index| && index[i] == e && Chosen(index, i, tb, t)
                    && (Exact(index, tb, t) ==> Optimum(index, i, tb, t))
  {
    hide InTime, Eligible, Best, Chosen, Optimum, Exact;
    PickIsBest(index, tb, t);
    forall j | 0 <= j < |index| ensures InTime(index[j], tb, t) <==> Eligible(index[j], tb, t) {
      InTimeIsEligible(index[j], tb, t);
    }
    if Pick(index, tb, t).Some? {
      var i :| 0 <= i < |index| && index[i] == Pick(index, tb, t).value && Best(index, i, tb, t);
      BestIsChosen(index, i, tb, t);
      if Exact(index, tb, t) { ChosenIsOptimum(index, i, tb, t); }
    }
  }

  lemma {:induction false} InTimeIsEligible(e: IndexEntry, tb: TimeBase, t: SeekTarget)
    ensures InTime(e, tb, t) <==> Eligible(e, tb, t)
  {
    ValueComparesTime(e, tb, t);
  }

  lemma {:induction false} BestIsChosen(index: seq<IndexEntry>, i: nat, tb: TimeBase, t: SeekTarget)
    requires tb.Valid() && t.Valid() && Stamped(index) && i < |index| && Best(index, i, tb, t)
    ensures Chosen(index, i, tb, t)
  {
    hide InTime, Eligible, Computed, Seems;
    InTimeIsEligible(index[i], tb, t);
    ComputedIsSeen(index[i], tb, t);
    forall j | 0 <= j < |index| && InTime(index[j], tb, t)
      ensures Beats(Seems, index[i], i, index[j], j, tb, t)
    {
      InTimeIsEligible(index[j], tb, t);
      ComputedIsSeen(index[j], tb, t);
    }
  }

  /** The optimum on the shared integer scale: every other entry is beaten by its exact distance. */
  lemma {:induction false} OptimumBeats(index: seq<IndexEntry>, i: nat, tb: TimeBase, t: SeekTarget)
    requires i < |index| && tb.Valid() && t.base.Valid()
    ensures Optimum(index, i, tb, t) <==>
      InTime(index[i], tb, t) &&
      forall j :: 0 <= j < |index| && InTime(index[j], tb, t) ==> Beats(Gap, index[i], i, index[j], j, tb, t)
  {
    hide InTime, Gap, Le, Apart, Time;
    if t.mode.Nearest? {
      forall j | 0 <= j < |index|
        ensures
          var w := Time(t.ticks, t.base);
          var (di, dj) := (Apart(Time(index[i].pts, tb), w), Apart(Time(index[j].pts, tb), w));
          && (Le(di, dj) <==> Gap(index[i], tb, t) <= Gap(index[j], tb, t))
          && (Le(dj, di) <==> Gap(index[j], tb, t) <= Gap(index[i], tb, t))
      {
        DistanceComparesTime(index[i], index[j], tb, t);
        DistanceComparesTime(index[j], index[i], tb, t);
      }
    }
  }

  lemma {:induction false} ChosenIsOptimum(index: seq<IndexEntry>, i: nat, tb: TimeBase, t: SeekTarget)
    requires tb.Valid() && t.base.Valid() && Exact(index, tb, t) && i < |index| && Chosen(index, i, tb, t)
    ensures Optimum(index, i, tb, t)
  {
    hide InTime, Gap, Optimum;
    OptimumBeats(index, i, tb, t);
    forall e | t.mode.Nearest? && e in index ensures Gap(e, tb, t) == Seems(e, tb, t) { FitsLooks(e, tb, t); }
  }

  lemma {:induction false} FitsLooks(e: IndexEntry, tb: TimeBase, t: SeekTarget)
    ensures Fits(e, tb, t) <==> Gap(e, tb, t) < HALF
    ensures Fits(e, tb, t) ==> Seems(e, tb, t) == Gap(e, tb, t)
  {
    hide ValueOf, Wanted;
  }

  /** Entry `j` is not the optimum `i`, and keeps a nearest seek from it. In exact distances alone. */
  ghost predicate Misleads(index: seq<IndexEntry>, i: nat, j: nat, tb: TimeBase, t: SeekTarget)
    requires i < |index| && j < |index|
  {
    var (a, b) := (index[i], index[j]);
    var (near, far) := (Gap(a, tb, t), Gap(b, tb, t));
    || (near > HALF && far > near)
    || (near < HALF && far == HALF)
    || (near < HALF < far && near + far > TWO_128)
    || (near < HALF < far && near + far == TWO_128 && (b.pts < a.pts || (b.pts == a.pts && j < i)))
  }

  /**
   The exact condition: a nearest seek chooses the optimum if and only if no entry at
   least 2^127 away misleads it.
   */
  lemma {:induction false} OptimumIsPickedIff(index: seq<IndexEntry>, i: nat, tb: TimeBase, t: SeekTarget)
    requires tb.Valid() && t.Valid() && t.mode.Nearest? && Stamped(index)
    requires i < |index| && Optimum(index, i, tb, t)
    ensures Pick(index, tb, t) == Some(index[i]) <==>
      forall j: nat :: j < |index| ==> !Misleads(index, i, j, tb, t)
  {
    hide Pick, Optimum, Exact, Misleads, Gap, Beats;
    PickIsOptimum(index, tb, t);
    assert InTime(index[i], tb, t);
    var k :| 0 <= k < |index| && index[k] == Pick(index, tb, t).value && Chosen(index, k, tb, t);
    OptimumBeats(index, i, tb, t);
    forall j: nat | j < |index|
      ensures Misleads(index, i, j, tb, t) <==> !Beats(Seems, index[i], i, index[j], j, tb, t)
    {
      GapInRange(index[i], tb, t);
      GapInRange(index[j], tb, t);
      MisleadsIff(index, i, j, tb, t);
    }
    OneOfEqual(index, k, i, tb, t);
    if forall j: nat :: j < |index| ==> !Misleads(index, i, j, tb, t) { BothChosen(index, i, k, tb, t); }
  }

  lemma {:induction false} GapInRange(e: IndexEntry, tb: TimeBase, t: SeekTarget)
    requires IsI64(e.pts) && tb.Valid() && t.Valid()
    ensures 0 <= Gap(e, tb, t) < TWO_128
  {
    hide ValueOf, Wanted;
    CrossProductsFit(e, tb, t);
  }

  /** An equal entry in both places is in one. */
  lemma {:induction false} OneOfEqual(index: seq<IndexEntry>, k: nat, i: nat, tb: TimeBase, t: SeekTarget)
    requires t.mode.Nearest? && i < |index| && k < |index|
    requires Beats(Seems, index[k], k, index[i], i, tb, t) && Beats(Gap, index[i], i, index[k], k, tb, t)
    ensures index[k] == index[i] ==> k == i
  {
    hide Gap;
  }

  lemma {:induction false} BothChosen(index: seq<IndexEntry>, i: nat, k: nat, tb: TimeBase, t: SeekTarget)
    requires t.mode.Nearest? && i < |index| && k < |index|
    requires Beats(Seems, index[k], k, index[i], i, tb, t) && Beats(Seems, index[i], i, index[k], k, tb, t)
    ensures k == i
  {
    hide Gap;
  }

  lemma {:induction false} MisleadsIff(index: seq<IndexEntry>, i: nat, j: nat, tb: TimeBase, t: SeekTarget)
    requires t.mode.Nearest? && i < |index| && j < |index|
    requires Beats(Gap, index[i], i, index[j], j, tb, t)
    requires 0 <= Gap(index[i], tb, t) && 0 <= Gap(index[j], tb, t) < TWO_128
    ensures Misleads(index, i, j, tb, t) <==> !Beats(Seems, index[i], i, index[j], j, tb, t)
  {
    hide Gap;
  }

  /** Some entry is the optimum of a nearest seek over a nonempty index. */
  lemma {:induction false} NearestHasOptimum(index: seq<IndexEntry>, tb: TimeBase, t: SeekTarget) returns (i: nat)
    requires tb.Valid() && t.base.Valid() && t.mode.Nearest? && index != []
    ensures i < |index| && Optimum(index, i, tb, t)
  {
    hide Optimum, Gap;
    i := NearestBy(index, tb, t);
    OptimumBeats(index, i, tb, t);
  }

  lemma {:induction false} NearestBy(index: seq<IndexEntry>, tb: TimeBase, t: SeekTarget) returns (i: nat)
    requires t.mode.Nearest? && index != []
    ensures i < |index| && forall j :: 0 <= j < |index| ==> Beats(Gap, index[i], i, index[j], j, tb, t)
  {
    hide Gap;
    var n := |index| - 1;
    i := n;
    if n > 0 {
      var before := index[..n];
      var k := NearestBy(before, tb, t);
      i := if Beats(Gap, index[k], k, index[n], n, tb, t) then k else n;
      forall j | 0 <= j < |index| ensures Beats(Gap, index[i], i, index[j], j, tb, t) {
        if j < n { assert before[j] == index[j]; assert Beats(Gap, before[k], k, before[j], j, tb, t); }
      }
    }
  }

  // ---- Time bases in lower terms ----

  /** The same length of tick, in other terms. */
  predicate SameTick(a: TimeBase, b: TimeBase) { a.num * b.den == b.num * a.den }

  function Difference(e: IndexEntry, tb: TimeBase, t: SeekTarget): (d: int) { ValueOf(e, tb, t) - Wanted(tb, t) }

  lemma {:induction false} DifferenceScales(e: IndexEntry, tb: TimeBase, tb': TimeBase, t: SeekTarget)
    requires SameTick(tb, tb')
    ensures Difference(e, tb, t) * tb'.den == Difference(e, tb', t) * tb.den
  {
    var (n, d, n', d', b) := (tb.num, tb.den, tb'.num, tb'.den, t.base.den);
    FourFactors(e.pts, n, b, d');
    FourFactors(e.pts, n', b, d);
    var w := t.ticks * t.base.num;
    assert w * d * d' == w * d' * d by { Swap(w, d, d'); }
    Distribute(ValueOf(e, tb, t), Wanted(tb, t), d');
    Distribute(ValueOf(e, tb', t), Wanted(tb', t), d);
  }

  lemma FourFactors(a: int, b: int, c: int, d: int)
    ensures a * b * c * d == a * c * (b * d)
  {
    assert a * b * c == a * c * b;
  }

  lemma Swap(a: int, b: int, c: int)
    ensures a * b * c == a * c * b
  {
  }

  lemma Distribute(a: int, b: int, c: int)
    ensures (a - b) * c == a * c - b * c
  {
  }

  lemma {:induction false} SameSide(x: int, y: int, k: int, k': int)
    requires k > 0 && k' > 0 && x * k == y * k'
    ensures (x <= 0 <==> y <= 0) && (x >= 0 <==> y >= 0) && Abs(x) * k == Abs(y) * k'
  {
    ScaleLe(x, 0, k);
    ScaleLe(y, 0, k');
    ScaleLe(0, x, k);
    ScaleLe(0, y, k');
  }

  /** Writing the file's time base in lower terms changes no optimum, whatever it does to the arithmetic. */
  lemma {:induction false} ReducingKeepsOptimum(index: seq<IndexEntry>, i: nat, tb: TimeBase, tb': TimeBase,
      t: SeekTarget)
    requires i < |index| && tb.Valid() && tb'.Valid() && t.base.Valid() && SameTick(tb, tb')
    ensures Optimum(index, i, tb, t) <==> Optimum(index, i, tb', t)
  {
    hide Optimum, InTime, Eligible, Gap;
    OptimumBeats(index, i, tb, t);
    OptimumBeats(index, i, tb', t);
    forall j: nat | j < |index|
      ensures InTime(index[j], tb, t) == InTime(index[j], tb', t)
      ensures
        Beats(Gap, index[i], i, index[j], j, tb, t) == Beats(Gap, index[i], i, index[j], j, tb', t)
    {
      SameInTime(index[j], tb, tb', t);
      SameGapOrder(index[i], index[j], tb, tb', t);
    }
  }

  lemma {:induction false} SameInTime(e: IndexEntry, tb: TimeBase, tb': TimeBase, t: SeekTarget)
    requires tb.Valid() && tb'.Valid() && SameTick(tb, tb')
    ensures InTime(e, tb, t) == InTime(e, tb', t)
  {
    hide ValueOf, Wanted, InTime;
    InTimeIsEligible(e, tb, t);
    InTimeIsEligible(e, tb', t);
    DifferenceScales(e, tb, tb', t);
    SameSide(Difference(e, tb, t), Difference(e, tb', t), tb'.den, tb.den);
  }

  lemma {:induction false} SameGapOrder(a: IndexEntry, b: IndexEntry, tb: TimeBase, tb': TimeBase, t: SeekTarget)
    requires tb.Valid() && tb'.Valid() && SameTick(tb, tb')
    ensures Gap(a, tb, t) <= Gap(b, tb, t) <==> Gap(a, tb', t) <= Gap(b, tb', t)
    ensures Gap(b, tb, t) <= Gap(a, tb, t) <==> Gap(b, tb', t) <= Gap(a, tb', t)
  {
    hide ValueOf, Wanted, Abs, SameTick;
    GapScales(a, tb, tb', t);
    GapScales(b, tb, tb', t);
    ScaleLe(Gap(a, tb, t), Gap(b, tb, t), tb'.den);
    ScaleLe(Gap(b, tb, t), Gap(a, tb, t), tb'.den);
    ScaleLe(Gap(a, tb', t), Gap(b, tb', t), tb.den);
    ScaleLe(Gap(b, tb', t), Gap(a, tb', t), tb.den);
  }

  lemma {:induction false} GapScales(e: IndexEntry, tb: TimeBase, tb': TimeBase, t: SeekTarget)
    requires tb.Valid() && tb'.Valid() && SameTick(tb, tb')
    ensures Gap(e, tb, t) * tb'.den == Gap(e, tb', t) * tb.den
  {
    hide ValueOf, Wanted, Abs, SameTick;
    DifferenceScales(e, tb, tb', t);
    SameSide(Difference(e, tb, t), Difference(e, tb', t), tb'.den, tb.den);
  }

  /** Some optimum is unique: two never tie. */
  lemma {:induction false} OptimumIsUnique(index: seq<IndexEntry>, i: nat, j: nat, tb: TimeBase, t: SeekTarget)
    requires i < |index| && j < |index| && Optimum(index, i, tb, t) && Optimum(index, j, tb, t)
    ensures i == j
  {
  }

  /**
   When a difference does not fit, a nearest seek can be wrong: the first entry's
   wraps around 128 bits and looks closer than the second's, which is closer.
   */
  lemma NearestOverflows()
    ensures
      var tb := TimeBase(U32 - 1, U32 - 2);
      var t := SeekTarget(0, I64_MIN, TimeBase(U32 - 2, U32 - 1), Nearest, true);
      var index := [IndexEntry(32, I64_MAX, 0), IndexEntry(64, -0x4000_0000_0000_0000, 1)];
      && tb.Valid() && t.Valid() && !Fits(index[0], tb, t)
      && Pick(index, tb, t) == Some(index[0])
      && Gap(index[1], tb, t) < Gap(index[0], tb, t)
  {
    var tb := TimeBase(U32 - 1, U32 - 2);
    var t := SeekTarget(0, I64_MIN, TimeBase(U32 - 2, U32 - 1), Nearest, true);
    var index := [IndexEntry(32, I64_MAX, 0), IndexEntry(64, -0x4000_0000_0000_0000, 1)];
    assert index[..1] == [index[0]] && index[..0] == [];
    assert Pick(index[..1], tb, t) == Some(index[0]) by { assert index[..1][..0] == []; }
    assert !Closer(index[1], index[0], tb, t);
  }
}
