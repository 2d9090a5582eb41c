/** Planes compressed as one zlib stream or as several, whatever the inflater does call by call. */
module PsdZip {
  import opened Wrappers
  import opened Bytes
  import Bits

  /** One zlib stream of the payload: its length there, and what it inflates to. */
  datatype Member = Member(len: nat, plain: seq<byte>)

  function Plain(members: seq<Member>): (b: seq<byte>) {
    if members == [] then [] else Plain(members[..|members| - 1]) + members[|members| - 1].plain
  }

  function Lens(members: seq<Member>): (n: nat) {
    if members == [] then 0 else Lens(members[..|members| - 1]) + members[|members| - 1].len
  }

  lemma {:induction false} PlainPrefix(members: seq<Member>, k: nat)
    requires k < |members|
    ensures Plain(members[..k + 1]) == Plain(members[..k]) + members[k].plain
    ensures Lens(members[..k + 1]) == Lens(members[..k]) + members[k].len
  {
    assert members[..k + 1][..k] == members[..k];
  }

  lemma {:induction false} PlainGrows(members: seq<Member>, k: nat)
    requires k <= |members|
    ensures Plain(members[..k]) <= Plain(members) && Lens(members[..k]) <= Lens(members)
    decreases |members| - k
  {
    if k == |members| {
      assert members[..k] == members;
    } else {
      PlainPrefix(members, k);
      PlainGrows(members, k + 1);
    }
  }

  /** What an inflater would like to do in one call, before it is held to what it may do. */
  datatype Whim = Whim(fails: bool, consumed: nat, produced: nat, ends: bool)

  /** A streaming inflater: it may do as little as it likes in a call, but only ever the stream's own bytes. */
  class Inflater {
    const members: seq<Member>
    const whims: nat -> Whim
    /** Never fails, never stalls before a stream's end, and never hides that end. */
    const lively: bool
    var calls: nat
    var member: nat
    var inOff: nat
    var outOff: nat

    ghost predicate Valid()
      reads this
    {
      && member <= |members|
      && (if member < |members| then inOff <= members[member].len && outOff <= |members[member].plain|
          else inOff == 0 && outOff == 0)
    }

    /** Bytes taken and bytes given since the first member began. */
    ghost function Consumed(): (n: nat)
      requires Valid()
      reads this
    {
      Lens(members[..member]) + inOff
    }

    ghost function Produced(): (n: nat)
      requires Valid()
      reads this
    {
      |Plain(members[..member])| + outOff
    }

    ghost predicate Finished()
      requires Valid()
      reads this
    {
      member < |members| && inOff == members[member].len && outOff == |members[member].plain|
    }

    constructor (streams: seq<Member>, whim: nat -> Whim, live: bool)
      ensures Valid() && members == streams && lively == live && Consumed() == 0 && Produced() == 0 && member == 0
    {
      members, whims, lively := streams, whim, live;
      calls, member, inOff, outOff := 0, 0, 0, 0;
    }

    /** How much one call takes and gives. */
    method Choose(avail: nat, space: nat) returns (c: nat, p: nat)
      requires Valid() && member < |members|
      ensures c <= Min(members[member].len - inOff, avail) && p <= Min(|members[member].plain| - outOff, space)
      ensures lively && !Finished() && avail >= members[member].len - inOff && space > 0 ==> c + p > 0
    {
      var whim, m := whims(calls), members[member];
      c := Min(whim.consumed, Min(m.len - inOff, avail));
      p := Min(whim.produced, Min(|m.plain| - outOff, space));
      if lively && c + p == 0 {
        if inOff < m.len { c := Min(1, avail); } else { p := Min(1, Min(|m.plain| - outOff, space)); }
      }
    }

    /** Takes `c` bytes and gives `p`. */
    method Take(c: nat, p: nat, dst: array<byte>, at: nat)
      requires Valid() && member < |members| && c <= members[member].len - inOff
        && p <= |members[member].plain| - outOff
      requires at + p <= dst.Length
      modifies `inOff, `outOff, dst
      ensures Valid() && Consumed() == old(Consumed()) + c && Produced() == old(Produced()) + p <= |Plain(members)|
      ensures dst[at..at + p] == Plain(members)[old(Produced())..Produced()] && dst[..at] == old(dst[..at])
      ensures forall i :: 0 <= i < dst.Length && !(at <= i < at + p) ==> dst[i] == old(dst[i])
    {
      hide Plain, Lens;
      NextPlain(members, member, outOff, p);
      var plain := members[member].plain[outOff..outOff + p];
      CopyInto(dst, at, plain);
      inOff := inOff + c;
      outOff := outOff + p;
    }

    /** `Decompress::decompress`: takes input, writes output, and says whether the stream ended. */
    method Decompress(avail: nat, dst: array<byte>, at: nat, space: nat) returns (r: Option<(bool, nat, nat)>)
      requires Valid() && at + space <= dst.Length
      modifies `calls, `inOff, `outOff, dst
      ensures Valid()
      ensures forall i :: 0 <= i < dst.Length && !(at <= i < at + space) ==> dst[i] == old(dst[i])
      ensures match r
        case None => !lively
        case Some((ended, c, p)) =>
          && c <= avail && p <= space && Consumed() == old(Consumed()) + c && Produced() == old(Produced()) + p
          && Produced() <= |Plain(members)| && dst[at..at + p] == Plain(members)[old(Produced())..Produced()]
          && dst[..at] == old(dst[..at])
          && (ended ==> Finished()) && (lively && Finished() ==> ended)
          && (lively && member < |members| && avail >= Lens(members) - old(Consumed()) && space > 0 && c + p == 0 ==>
            ended)
    {
      hide Plain, Lens;
      PlainGrows(members, member);
      var whim := whims(calls);
      calls := calls + 1;
      if whim.fails && !lively { return None; }
      if member == |members| { return Some((false, 0, 0)); }
      PlainPrefix(members, member);
      PlainGrows(members, member + 1);
      var c, p := Choose(avail, space);
      Take(c, p, dst, at);
      var ended := inOff == members[member].len && outOff == |members[member].plain| && (lively || whim.ends);
      r := Some((ended, c, p));
    }

    /** `Decompress::reset`, at the end of a stream: the next one begins. */
    method Reset()
      requires Valid() && Finished()
      modifies `member, `inOff, `outOff
      ensures Valid() && Consumed() == old(Consumed()) && Produced() == old(Produced()) && member == old(member) + 1
    {
      PlainPrefix(members, member);
      member := member + 1;
      inOff, outOff := 0, 0;
    }
  }

  lemma {:induction false} NextPlain(members: seq<Member>, k: nat, outOff: nat, p: nat)
    requires k < |members| && outOff + p <= |members[k].plain|
    ensures
      var from := |Plain(members[..k])| + outOff;
      from + p <= |Plain(members)| && Plain(members)[from..from + p] == members[k].plain[outOff..outOff + p]
  {
    PlainPrefix(members, k);
    PlainGrows(members, k + 1);
    var (all, upTo) := (Plain(members), Plain(members[..k + 1]));
    assert all[..|upTo|] == upTo;
    var from := |Plain(members[..k])| + outOff;
    assert all[from..from + p] == upTo[from..from + p];
  }

  datatype ZipError = UnexpectedEof | Overflow | Corrupt | EndedEarly

  /** The members end on channel boundaries and together hold all the planes. */
  ghost predicate SplitsPlanes(members: seq<Member>, planeBytes: nat, total: nat) {
    && planeBytes > 0 && |Plain(members)| == total
    && forall k :: 0 <= k <= |members| ==> |Plain(members[..k])| % planeBytes == 0
  }

  /** The part of the planes wanted so far is in place. */
  ghost predicate InPlace(out: seq<byte>, members: seq<Member>, done: nat) {
    var n := Min(done, |out|);
    done <= |Plain(members)| && out[..n] == Plain(members)[..n]
  }

  lemma {:induction false} NothingInPlace(members: seq<Member>, n: nat)
    ensures forall out: seq<byte> :: |out| == n ==> InPlace(out, members, 0)
  {
  }

  lemma {:induction false} AllInPlace(out: seq<byte>, members: seq<Member>, done: nat)
    requires InPlace(out, members, done) && done >= |out|
    ensures |out| <= done <= |Plain(members)| && out == Plain(members)[..|out|]
  {
    assert out[..|out|] == out;
  }

  lemma {:induction false} MoreInPlace(was: seq<byte>, now: seq<byte>, members: seq<Member>, done: nat, p: nat)
    requires InPlace(was, members, done) && |now| == |was| && done + p <= |now| && done + p <= |Plain(members)|
    requires now[..done] == was[..done] && now[done..done + p] == Plain(members)[done..done + p]
    ensures InPlace(now, members, done + p)
  {
    assert now[..done + p] == now[..done] + now[done..done + p];
    assert Plain(members)[..done + p] == Plain(members)[..done] + Plain(members)[done..done + p];
  }

  const DISCARD: nat := 8192

  /** Bytes of `n` planes. */
  function PlanesBytes(planeBytes: nat, n: nat): (b: nat) { planeBytes * n }

  /** One call into the output, or into the discard buffer once the wanted planes are there. */
  method Step(z: Inflater, payload: nat, inPos: nat, outPos: nat, out: array<byte>, discard: array<byte>, all: nat)
    returns (r: Option<(bool, nat, nat)>)
    requires z.Valid() && out != discard && discard.Length == DISCARD && out.Length <= all
    requires inPos == z.Consumed() <= payload && outPos == z.Produced() < all && InPlace(out[..], z.members, outPos)
    modifies z`calls, z`inOff, z`outOff, out, discard
    ensures z.Valid()
    ensures match r
      case None => !z.lively
      case Some((ended, c, p)) =>
        && inPos + c == z.Consumed() <= payload && outPos + p == z.Produced() <= all
        && InPlace(out[..], z.members, outPos + p)
        && (ended ==> z.Finished()) && (z.lively && z.Finished() ==> ended)
        && (z.lively && z.member < |z.members| && payload >= Lens(z.members) && c + p == 0 ==> ended)
  {
    hide Plain, Lens;
    ghost var was := out[..];
    if outPos < out.Length {
      r := z.Decompress(payload - inPos, out, outPos, out.Length - outPos);
      if r.Some? { MoreInPlace(was, out[..], z.members, outPos, r.value.2); }
    } else {
      var rem := Min(all - outPos, DISCARD);
      r := z.Decompress(payload - inPos, discard, 0, rem);
    }
  }

  /** The inflater's calls, until `all` bytes are out: the first of them in `out`. */
  method InflateAll(z: Inflater, payload: nat, planeBytes: nat, all: nat, out: array<byte>)
    returns (r: Result<nat, ZipError>)
    requires z.Valid() && z.Consumed() == 0 && z.Produced() == 0 && out.Length <= all
    modifies z, out
    ensures z.Valid()
    ensures r.Ok? ==>
      && out.Length <= all <= |Plain(z.members)| && r.value == z.Consumed() <= payload
      && out[..] == Plain(z.members)[..out.Length]
    ensures z.lively && SplitsPlanes(z.members, planeBytes, all) && payload >= Lens(z.members) ==> r.Ok?
  {
    hide Plain, Lens, InPlace, SplitsPlanes;
    NothingInPlace(z.members, out.Length);
    var discard := new byte[DISCARD](_ => 0);
    var inPos: nat, outPos: nat := 0, 0;
    while outPos < all
      invariant z.Valid() && inPos == z.Consumed() <= payload && outPos == z.Produced() <= all
      invariant InPlace(out[..], z.members, outPos)
      decreases payload - inPos + all - outPos, |z.members| - z.member
    {
      Unfinished(z, planeBytes, all);
      var step := Step(z, payload, inPos, outPos, out, discard, all);
      if step.None? { return Err(Corrupt); }
      var (ended, consumed, produced) := step.value;
      inPos := inPos + consumed;
      outPos := outPos + produced;
      if ended {
        if outPos == all { break; }
        EndsOnBoundary(z, planeBytes, all);
        if planeBytes > 0 && outPos % planeBytes == 0 {
          z.Reset();
          continue;
        }
        return Err(EndedEarly);
      }
      if consumed == 0 && produced == 0 { return Err(UnexpectedEof); }
    }
    AllInPlace(out[..], z.members, outPos);
    r := Ok(inPos);
  }

  /**
   `decompress_zip_planes`. Whatever the inflater's calls, a success is the first
   planes of all the streams' output; a lively inflater on streams that end on
   channel boundaries always succeeds; and the loop ends, even when a stream's end
   is reported by a call that took and gave nothing.
   */
  method DecompressZipPlanes(z: Inflater, payload: nat, planeBytes: nat, used: nat, total: nat)
    returns (r: Result<(array<byte>, nat), ZipError>)
    requires z.Valid() && z.Consumed() == 0 && z.Produced() == 0 && used <= total
    modifies z
    ensures r.Ok? ==> payload > 0 && fresh(r.value.0) && z.Valid() && r.value.1 == z.Consumed()
    ensures r.Ok? ==>
      && PlanesBytes(planeBytes, used) <= PlanesBytes(planeBytes, total) <= |Plain(z.members)| && r.value.1 <= payload
      && r.value.0[..] == Plain(z.members)[..PlanesBytes(planeBytes, used)]
    ensures (z.lively && SplitsPlanes(z.members, planeBytes, PlanesBytes(planeBytes, total))
             && payload > 0 && payload >= Lens(z.members) && PlanesBytes(planeBytes, total) < U64) ==> r.Ok?
  {
    hide Plain, Lens, PlanesBytes, SplitsPlanes;
    if payload == 0 { return Err(UnexpectedEof); }
    var usedTotal, all := PlanesBytes(planeBytes, used), PlanesBytes(planeBytes, total);
    FewerPlanes(planeBytes, used, total);
    if usedTotal >= U64 || all >= U64 { return Err(Overflow); }
    var out := new byte[usedTotal](_ => 0);
    var inflated := InflateAll(z, payload, planeBytes, all, out);
    if inflated.Err? { return Err(inflated.error); }
    r := Ok((out, inflated.value));
  }

  lemma {:induction false} FewerPlanes(planeBytes: nat, used: nat, total: nat)
    requires used <= total
    ensures PlanesBytes(planeBytes, used) <= PlanesBytes(planeBytes, total)
  {
    Bits.MulStep(used, total, planeBytes);
  }

  /** Before all planes are out, a stream is still open. */
  lemma {:induction false} Unfinished(z: Inflater, planeBytes: nat, all: nat)
    requires z.Valid() && z.Produced() < all
    ensures SplitsPlanes(z.members, planeBytes, all) ==> z.member < |z.members|
  {
    if z.member == |z.members| { assert z.members[..z.member] == z.members; }
  }

  lemma {:induction false} EndsOnBoundary(z: Inflater, planeBytes: nat, all: nat)
    requires z.Valid() && z.Finished()
    ensures SplitsPlanes(z.members, planeBytes, all) ==> planeBytes > 0 && z.Produced() % planeBytes == 0
  {
    PlainPrefix(z.members, z.member);
  }
}
