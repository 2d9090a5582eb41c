/** Boxes, as Annex I.4 of ISO/IEC 15444-1 lays them out. */
module Jp2Boxes {
  import opened Wrappers
  import opened Bytes
  import opened Inventory

  /** A box header; `end` is clamped to the enclosing range. */
  datatype BoxHdr = BoxHdr(start: nat, hdr: nat, end: nat, ty: seq<byte>, truncated: bool, toEnd: bool) {
    function Payload(): (r: Range) { Range(Min(start + hdr, end), end) }
  }

  datatype BoxError = ShortHeader | TruncatedXl | XlTooSmall | LengthTooSmall

  /** `saturating_add` on 64 bits. */
  function SaturatingAdd(a: nat, b: nat): (s: nat) { Min(a + b, U64 - 1) }

  /** `read_box`: the box at `pos` inside `..limit`. */
  function ReadBox(data: seq<byte>, pos: nat, limit: nat): (r: Result<BoxHdr, BoxError>)
    requires pos <= limit <= |data| < U64
  {
    if limit - pos < 8 then Err(ShortHeader) else
    var (lbox, ty) := (BeU32At(data, pos), data[pos + 4..pos + 8]);
    if lbox == 0 then Ok(BoxHdr(pos, 8, limit, ty, false, true))
    else if lbox == 1 then
      if limit - pos < 16 then Err(TruncatedXl)
      else if BeU64At(data, pos + 8) < 16 then Err(XlTooSmall)
      else
        var end := SaturatingAdd(pos, BeU64At(data, pos + 8));
        Ok(BoxHdr(pos, 16, Min(end, limit), ty, end > limit, false))
    else if lbox <= 7 then Err(LengthTooSmall)
    else Ok(BoxHdr(pos, 8, Min(pos + lbox, limit), ty, pos + lbox > limit, false))
  }

  /** An accepted box starts where it was read, advances by at least its header, and ends inside its range. */
  lemma {:induction false} BoxAdvances(data: seq<byte>, pos: nat, limit: nat)
    requires pos <= limit <= |data| < U64
    ensures ReadBox(data, pos, limit).Ok? ==>
      var b := ReadBox(data, pos, limit).value;
      b.start == pos && b.hdr >= 8 && pos + b.hdr <= b.end <= limit && b.Payload() == Range(pos + b.hdr, b.end)
      && (b.truncated ==> b.end == limit) && |b.ty| == 4
  {
  }

  /** The boxes of a range, and where bytes that are no box begin. */
  datatype Boxes = Boxes(list: seq<BoxHdr>, rest: nat, why: Option<BoxError>)

  function BoxesOf(data: seq<byte>, pos: nat, limit: nat): (bs: Boxes)
    requires pos <= limit <= |data| < U64
    decreases limit - pos
  {
    if pos == limit then Boxes([], pos, None) else
    match ReadBox(data, pos, limit)
    case Err(e) => Boxes([], pos, Some(e))
    case Ok(b) =>
      BoxAdvances(data, pos, limit);
      var more := BoxesOf(data, b.end, limit);
      Boxes([b] + more.list, more.rest, more.why)
  }

  function BoxRanges(bs: seq<BoxHdr>): (s: seq<Range>)
    ensures |s| == |bs| && forall i :: 0 <= i < |bs| ==> s[i] == Range(bs[i].start, bs[i].end)
  {
    seq(|bs|, i requires 0 <= i < |bs| => Range(bs[i].start, bs[i].end))
  }

  /** The boxes and the rest tile the range; there is a rest exactly when some bytes are no box. */
  lemma {:induction false} BoxesTile(data: seq<byte>, pos: nat, limit: nat)
    requires pos <= limit <= |data| < U64
    ensures
      var bs := BoxesOf(data, pos, limit);
      Tiling(BoxRanges(bs.list), pos, bs.rest) && bs.rest <= limit && (bs.why.Some? <==> bs.rest < limit)
    decreases limit - pos
  {
    if pos < limit && ReadBox(data, pos, limit).Ok? {
      BoxAdvances(data, pos, limit);
      var b := ReadBox(data, pos, limit).value;
      BoxesTile(data, b.end, limit);
      var more := BoxesOf(data, b.end, limit);
      assert BoxRanges([b] + more.list) == [Range(b.start, b.end)] + BoxRanges(more.list);
      TilingJoins([Range(b.start, b.end)], BoxRanges(more.list), pos, b.end, more.rest);
    }
  }

  /** Every box of a range is what is read at its start; only the last can be truncated. */
  lemma {:induction false} BoxOf(data: seq<byte>, pos: nat, limit: nat, i: nat)
    requires pos <= limit <= |data| < U64 && i < |BoxesOf(data, pos, limit).list|
    ensures
      var bs := BoxesOf(data, pos, limit).list;
      var b := bs[i];
      && pos <= b.start < b.end <= limit && ReadBox(data, b.start, limit) == Ok(b)
      && (b.truncated ==> i == |bs| - 1) && (i + 1 < |bs| ==> bs[i + 1].start == b.end)
    decreases i
  {
    BoxAdvances(data, pos, limit);
    var b := ReadBox(data, pos, limit).value;
    if i > 0 {
      BoxOf(data, b.end, limit, i - 1);
    } else if b.end < limit {
      BoxAdvances(data, b.end, limit);
    }
  }

  /** Boxes read so far, and those still to come. */
  ghost predicate ReadTo(data: seq<byte>, from: nat, limit: nat, done: seq<BoxHdr>, pos: nat)
    requires from <= limit <= |data| < U64
  {
    pos <= limit &&
      var more := BoxesOf(data, pos, limit);
      BoxesOf(data, from, limit) == Boxes(done + more.list, more.rest, more.why)
  }

  lemma {:induction false} ReadNothing(data: seq<byte>, from: nat, limit: nat)
    requires from <= limit <= |data| < U64
    ensures ReadTo(data, from, limit, [], from)
  {
    assert [] + BoxesOf(data, from, limit).list == BoxesOf(data, from, limit).list;
  }

  lemma {:induction false} ReadNext(data: seq<byte>, from: nat, limit: nat, done: seq<BoxHdr>, pos: nat)
    requires from <= limit <= |data| < U64 && ReadTo(data, from, limit, done, pos) && pos < limit
    ensures match ReadBox(data, pos, limit)
      case Err(e) => BoxesOf(data, from, limit) == Boxes(done, pos, Some(e))
      case Ok(b) => b.start == pos && pos < b.end <= limit && ReadTo(data, from, limit, done + [b], b.end)
  {
    BoxAdvances(data, pos, limit);
    match ReadBox(data, pos, limit)
    case Err(_) => assert done + [] == done;
    case Ok(b) => Assoc(done, [b], BoxesOf(data, b.end, limit).list);
  }

  lemma {:induction false} ReadAll(data: seq<byte>, from: nat, limit: nat, done: seq<BoxHdr>)
    requires from <= limit <= |data| < U64 && ReadTo(data, from, limit, done, limit)
    ensures BoxesOf(data, from, limit) == Boxes(done, limit, None)
  {
    assert done + [] == done;
  }

  // ---- The bytes of boxes ----

  /** A box header in the bytes: a length of 0, of 1 with the real one in eight bytes after the type, or at least 8. */
  ghost predicate BoxHeld(data: seq<byte>, pos: nat, limit: nat, b: BoxHdr, n: nat) {
    && n < U32 && pos + 8 <= limit <= |data| && |b.ty| == 4 && b.start == pos
    && HoldsAt(data, pos, Be32(n)) && HoldsAt(data, pos + 4, b.ty)
    && b.toEnd == (n == 0) && b.hdr == (if n == 1 then 16 else 8)
    && if n == 0 then b.end == limit && !b.truncated
       else if n == 1 then
         exists m: nat ::
           16 <= m < U64 && pos + 16 <= limit && HoldsAt(data, pos + 8, Be64(m))
           && Reaches(b, Min(pos + m, U64 - 1), limit)
       else n >= 8 && Reaches(b, pos + n, limit)
  }

  /** The box goes up to `end`, or to the limit if that is nearer, and is then truncated. */
  predicate Reaches(b: BoxHdr, end: nat, limit: nat) { b.end == Min(end, limit) && b.truncated == (end > limit) }

  /** A box in the bytes is read as that box. */
  lemma {:induction false} HeldBoxIsRead(data: seq<byte>, pos: nat, limit: nat, b: BoxHdr, n: nat)
    requires pos <= limit <= |data| < U64 && BoxHeld(data, pos, limit, b, n)
    ensures ReadBox(data, pos, limit) == Ok(b)
  {
    hide Be32, Be64, BeU32At, BeU64At;
    ReadBe32(data, pos, n);
    if n == 1 {
      var m: nat :|
        16 <= m < U64 && pos + 16 <= limit && HoldsAt(data, pos + 8, Be64(m))
        && Reaches(b, Min(pos + m, U64 - 1), limit);
      ReadBe64(data, pos + 8, m);
    }
  }

  /** Every box that is read is in the bytes. */
  lemma {:induction false} ReadBoxIsHeld(data: seq<byte>, pos: nat, limit: nat) returns (n: nat)
    requires pos <= limit <= |data| < U64 && ReadBox(data, pos, limit).Ok?
    ensures BoxHeld(data, pos, limit, ReadBox(data, pos, limit).value, n)
  {
    hide Be32, Be64, BeU32At, BeU64At;
    n := BeU32At(data, pos);
    HeldBe32(data, pos);
    if n == 1 {
      HeldBe64(data, pos + 8);
      var m := BeU64At(data, pos + 8);
      assert HoldsAt(data, pos + 8, Be64(m)) && Reaches(ReadBox(data, pos, limit).value, Min(pos + m, U64 - 1), limit);
    }
  }

  /** And bytes that are no box: too few for a header, or a length that no box has. */
  lemma {:induction false} NoBoxIsHeld(data: seq<byte>, pos: nat, limit: nat)
    requires pos <= limit <= |data| < U64 && ReadBox(data, pos, limit).Err?
    ensures
      var e := ReadBox(data, pos, limit).error;
      if pos + 8 > limit then e == ShortHeader
      else if HoldsAt(data, pos, [0, 0, 0, 1]) then
        if pos + 16 > limit then e == TruncatedXl
        else e == XlTooSmall && exists m: nat :: m < 16 && HoldsAt(data, pos + 8, Be64(m))
      else e == LengthTooSmall && exists n: nat :: 2 <= n < 8 && HoldsAt(data, pos, Be32(n))
  {
    hide Be64, BeU32At, BeU64At;
    if pos + 8 <= limit {
      assert Be32(1) == [0, 0, 0, 1];
      HeldBe32(data, pos);
      if HoldsAt(data, pos, [0, 0, 0, 1]) { ReadBe32(data, pos, 1); }
      if pos + 16 <= limit { HeldBe64(data, pos + 8); }
    }
  }

  /** How a box's length is written: in four bytes, in eight, or not at all, for the last. */
  datatype Form = Compact | Extended | ToTheEnd

  datatype Written = Written(ty: seq<byte>, form: Form, payload: seq<byte>) {
    predicate Fits() { |ty| == 4 && 16 + |payload| < U32 }

    function HeaderLength(): (n: nat) { if form.Extended? then 16 else 8 }
  }

  function HeaderOf(w: Written): (b: seq<byte>)
    requires w.Fits()
  {
    match w.form
    case Compact => Be32(8 + |w.payload|) + w.ty
    case Extended => Be32(1) + w.ty + Be64(16 + |w.payload|)
    case ToTheEnd => Be32(0) + w.ty
  }

  /** Boxes that can be written one after another: only the last goes to the end. */
  ghost predicate Writable(ws: seq<Written>) {
    forall i :: 0 <= i < |ws| ==> ws[i].Fits() && (ws[i].form.ToTheEnd? ==> i == |ws| - 1)
  }

  function BytesOf(ws: seq<Written>): (b: seq<byte>)
    requires forall i :: 0 <= i < |ws| ==> ws[i].Fits()
  {
    if ws == [] then [] else (HeaderOf(ws[0]) + ws[0].payload) + BytesOf(ws[1..])
  }

  /** The boxes as they are found from `pos` on. */
  function FoundAt(pos: nat, ws: seq<Written>): (bs: seq<BoxHdr>)
    decreases |ws|
  {
    if ws == [] then []
    else
      var end := pos + ws[0].HeaderLength() + |ws[0].payload|;
      [BoxHdr(pos, ws[0].HeaderLength(), end, ws[0].ty, false, ws[0].form.ToTheEnd?)] + FoundAt(end, ws[1..])
  }

  lemma {:induction false} HeaderHolds(data: seq<byte>, pos: nat, w: Written)
    requires w.Fits() && HoldsAt(data, pos, HeaderOf(w))
    ensures |HeaderOf(w)| == w.HeaderLength() && HoldsAt(data, pos + 4, w.ty)
    ensures HoldsAt(data, pos, Be32(match w.form case Compact => 8 + |w.payload| case Extended => 1 case ToTheEnd => 0))
    ensures w.form.Extended? ==> HoldsAt(data, pos + 8, Be64(16 + |w.payload|))
  {
    hide Be32, Be64, HoldsAt;
    match w.form
    case Compact => HoldsParts(data, pos, Be32(8 + |w.payload|), w.ty);
    case Extended =>
      HoldsParts(data, pos, Be32(1) + w.ty, Be64(16 + |w.payload|));
      HoldsParts(data, pos, Be32(1), w.ty);
    case ToTheEnd => HoldsParts(data, pos, Be32(0), w.ty);
  }

  lemma {:induction false} WrittenBoxIsRead(data: seq<byte>, pos: nat, limit: nat, w: Written)
    requires pos <= limit <= |data| < U64 && w.Fits() && HoldsAt(data, pos, HeaderOf(w) + w.payload)
    requires
      var end := pos + w.HeaderLength() + |w.payload|;
      end <= limit && (w.form.ToTheEnd? ==> end == limit)
    ensures
      var end := pos + w.HeaderLength() + |w.payload|;
      ReadBox(data, pos, limit) == Ok(BoxHdr(pos, w.HeaderLength(), end, w.ty, false, w.form.ToTheEnd?))
  {
    hide Be32, Be64, HoldsAt, HeaderOf;
    HoldsParts(data, pos, HeaderOf(w), w.payload);
    HeaderHolds(data, pos, w);
    var b := BoxHdr(pos, w.HeaderLength(), pos + w.HeaderLength() + |w.payload|, w.ty, false, w.form.ToTheEnd?);
    var n := match w.form case Compact => 8 + |w.payload| case Extended => 1 case ToTheEnd => 0;
    assert BoxHeld(data, pos, limit, b, n) by {
      if w.form.Extended? {
        var m := 16 + |w.payload|;
        assert 16 <= m < U64 && HoldsAt(data, pos + 8, Be64(m)) && Reaches(b, Min(pos + m, U64 - 1), limit);
      }
    }
    HeldBoxIsRead(data, pos, limit, b, n);
  }

  /** Boxes written one after another are exactly the boxes found, and nothing is left over. */
  lemma {:induction false} WrittenBoxesAreFound(data: seq<byte>, pos: nat, limit: nat, ws: seq<Written>)
    requires pos <= limit <= |data| < U64 && Writable(ws) && limit == pos + |BytesOf(ws)|
    requires HoldsAt(data, pos, BytesOf(ws))
    ensures BoxesOf(data, pos, limit) == Boxes(FoundAt(pos, ws), limit, None)
    decreases |ws|
  {
    hide HoldsAt, HeaderOf, ReadBox;
    if ws != [] {
      var (first, rest) := (HeaderOf(ws[0]) + ws[0].payload, BytesOf(ws[1..]));
      HoldsParts(data, pos, first, rest);
      HeaderLengths(ws[0]);
      LastIsAlone(ws);
      WrittenBoxIsRead(data, pos, limit, ws[0]);
      WrittenBoxesAreFound(data, pos + |first|, limit, ws[1..]);
    }
  }

  lemma {:induction false} HeaderLengths(w: Written)
    requires w.Fits()
    ensures |HeaderOf(w)| == w.HeaderLength()
  {
  }

  lemma {:induction false} LastIsAlone(ws: seq<Written>)
    requires Writable(ws) && ws != []
    ensures Writable(ws[1..]) && (ws[0].form.ToTheEnd? ==> ws[1..] == [])
  {
  }

  // ---- Complete boxes ----

  /** The boxes whose declared length fits. */
  function Complete(bs: seq<BoxHdr>): (c: seq<BoxHdr>) {
    if bs != [] && bs[|bs| - 1].truncated then bs[..|bs| - 1] else bs
  }

  /** The start of the last box of a type. */
  function LastOf(bs: seq<BoxHdr>, ty: seq<byte>): (p: Option<nat>) {
    if bs == [] then None
    else if bs[|bs| - 1].ty == ty then Some(bs[|bs| - 1].start)
    else LastOf(bs[..|bs| - 1], ty)
  }

  lemma {:induction false} LastSnoc(bs: seq<BoxHdr>, b: BoxHdr)
    ensures forall ty :: LastOf(bs + [b], ty) == if b.ty == ty then Some(b.start) else LastOf(bs, ty)
  {
    assert (bs + [b])[..|bs|] == bs;
  }

  /** It is one of them, and none of the type comes after it. */
  lemma {:induction false} LastIsLast(bs: seq<BoxHdr>, ty: seq<byte>)
    ensures match LastOf(bs, ty)
      case None => forall j :: 0 <= j < |bs| ==> bs[j].ty != ty
      case Some(p) =>
        exists i :: 0 <= i < |bs| && bs[i].ty == ty && bs[i].start == p && forall j :: i < j < |bs| ==> bs[j].ty != ty
  {
    if bs != [] {
      var n := |bs| - 1;
      if bs[n].ty == ty {
        assert bs[n].start == LastOf(bs, ty).value;
      } else {
        LastIsLast(bs[..n], ty);
        if LastOf(bs[..n], ty).Some? {
          var i :| 0 <= i < n && bs[..n][i].ty == ty && bs[..n][i].start == LastOf(bs, ty).value &&
            forall j :: i < j < n ==> bs[..n][j].ty != ty;
          assert bs[i].ty == ty && forall j :: i < j < |bs| ==> bs[j].ty != ty;
        }
      }
    }
  }

  /** Of the complete boxes of a type, exactly the last starts at the winner's position. */
  lemma {:induction false} ExactlyLastWins(data: seq<byte>, ty: seq<byte>, i: nat)
    requires |data| < U64 && i < |Complete(BoxesOf(data, 0, |data|).list)|
    ensures
      var c := Complete(BoxesOf(data, 0, |data|).list);
      c[i].ty == ty ==> (LastOf(c, ty) == Some(c[i].start) <==> forall j :: i < j < |c| ==> c[j].ty != ty)
  {
    hide BoxesOf, LastOf, ReadBox;
    var bs := BoxesOf(data, 0, |data|).list;
    var c := Complete(bs);
    LastIsLast(c, ty);
    if c[i].ty == ty {
      var k :| 0 <= k < |c| && c[k].ty == ty && c[k].start == LastOf(c, ty).value &&
        forall j :: k < j < |c| ==> c[j].ty != ty;
      BoxesTile(data, 0, |data|);
      if k != i {
        assert i < k;
        StartsAscend(data, i, k);
        assert c[i] == bs[i] && c[k] == bs[k];
      }
    }
  }

  lemma {:induction false} StartsAscend(data: seq<byte>, i: nat, k: nat)
    requires |data| < U64 && i < k < |BoxesOf(data, 0, |data|).list|
    ensures
      var bs := BoxesOf(data, 0, |data|).list;
      bs[i].start < bs[k].start
    decreases k
  {
    BoxOf(data, 0, |data|, k - 1);
    if i < k - 1 { StartsAscend(data, i, k - 1); }
  }
}
