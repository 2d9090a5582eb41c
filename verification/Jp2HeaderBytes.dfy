/** The payloads of a JP2 header's boxes, byte for byte, and what becomes of each box. */
module Jp2HeaderBytes {
  import opened Wrappers
  import opened Bytes
  import opened Inventory
  import opened Jp2Boxes
  import opened Jp2Header

  // ---- colr ----

  /** The enumerated color spaces of the standard, whether decoded or not. */
  const LISTED: set<nat> :=
    {0, 1, 3, 4, 9, 11, 12, 13, 14, 15, 16, 17, 18, 19, 20, 21, 22, 23, 24, 25, 26}

  /** Method 1: the number of a listed space; CIELab, 14, is followed by up to seven numbers more. */
  lemma {:induction false} EnumeratedIsParsed(b: seq<byte>, e: nat)
    requires e < U32 && HoldsAt(b, 0, [1]) && HoldsAt(b, 3, Be32(e))
    ensures ParseColr(b) ==
      if e in LISTED then Some(Enumerated(e, if e == 14 then 7 + 4 * Min((|b| - 7) / 4, 7) else 7)) else None
  {
    ReadBe32(b, 3, e);
    assert b[0] == b[0..1][0];
  }

  /** Method 2: a profile, known by the color space in bytes 16 to 19 of its header. */
  lemma {:induction false} ProfileIsParsed(b: seq<byte>, signature: seq<byte>)
    requires HoldsAt(b, 0, [2]) && |signature| == 4 && HoldsAt(b, 3 + 16, signature)
    ensures ParseColr(b) == Some(Icc(
      if signature in THREE_CHANNELS then Some(3)
      else if signature in ONE_CHANNEL then Some(1)
      else if signature in FOUR_CHANNELS then Some(4)
      else None))
  {
    assert b[0] == b[0..1][0];
  }

  /** Any other method, a profile too short to say its space, and payloads that break off. */
  lemma {:induction false} OtherColr(b: seq<byte>)
    ensures |b| < 3 ==> ParseColr(b).None?
    ensures 3 <= |b| < 7 && b[0] == 1 ==> ParseColr(b).None?
    ensures 3 <= |b| < 23 && b[0] == 2 ==> ParseColr(b) == Some(Icc(None))
    ensures |b| >= 3 && b[0] != 1 && b[0] != 2 ==> ParseColr(b) == Some(OtherMethod(b[0]))
  {
  }

  // ---- pclr ----

  /** `w` bytes are just enough for a column of depth `d`: its bits less one, unsigned. */
  predicate ColumnTakes(d: byte, w: nat) { d < 128 && 8 * (w - 1) < d as int + 1 <= 8 * w }

  /** `widths` are the bytes the columns take. */
  ghost predicate ColumnsTake(depths: seq<byte>, widths: seq<nat>) {
    |widths| == |depths| && forall i :: 0 <= i < |depths| ==> ColumnTakes(depths[i], widths[i])
  }

  lemma {:induction false} RowTakes(depths: seq<byte>, widths: seq<nat>)
    requires ColumnsTake(depths, widths)
    ensures RowWidth(depths) == Some(Sum(widths))
    decreases |depths|
  {
    if depths != [] {
      var n := |depths| - 1;
      RowTakes(depths[..n], widths[..n]);
      assert ColumnTakes(depths[n], widths[n]);
    }
  }

  /**
   A palette of `entries` rows: accepted exactly when there are rows and columns and all of
   its bytes, read to the end of its last row.
   */
  lemma {:induction false} PaletteIsParsed(b: seq<byte>, entries: nat, depths: seq<byte>, widths: seq<nat>)
    requires entries < U16 && |depths| < 256 && ColumnsTake(depths, widths)
    requires HoldsAt(b, 0, Be16(entries)) && HoldsAt(b, 2, [|depths| as byte]) && HoldsAt(b, 3, depths)
    ensures
      var size := 3 + |depths| + entries * Sum(widths);
      ParsePclr(b) == if entries > 0 && depths != [] && size <= |b| then Some((|depths|, size)) else None
  {
    ReadBe16(b, 0, entries);
    assert b[2] == b[2..3][0];
    RowTakes(depths, widths);
  }

  lemma {:induction false} SignedRow(depths: seq<byte>, i: nat)
    requires i < |depths| && depths[i] >= 128
    ensures RowWidth(depths).None?
    decreases |depths|
  {
    if i < |depths| - 1 { SignedRow(depths[..|depths| - 1], i); }
  }

  /** A palette with a signed column is refused, and so is one that breaks off before its columns. */
  lemma {:induction false} PaletteIsRefused(b: seq<byte>)
    ensures |b| < 3 || |b| < 3 + b[2] as int ==> ParsePclr(b).None?
    ensures |b| >= 3 && (exists k :: 3 <= k < 3 + b[2] as int && k < |b| && b[k] >= 128) ==> ParsePclr(b).None?
  {
    if |b| >= 3 && |b| >= 3 + b[2] as int {
      var depths := b[3..3 + b[2]];
      if k :| 3 <= k < 3 + b[2] as int && k < |b| && b[k] >= 128 {
        assert depths[k - 3] >= 128;
        SignedRow(depths, k - 3);
      }
    }
  }

  // ---- cdef and cmap ----

  /** Definition `i`: channel, type and association, two bytes each, after the count. */
  lemma {:induction false} DefinitionIsRead(b: seq<byte>, n: nat, i: nat, d: ChannelDef)
    requires d.index < U16 && d.ty < U16 && d.assoc < U16 && i < n && 2 + 6 * n <= |b|
    requires HoldsAt(b, 2 + 6 * i, Be16(d.index) + Be16(d.ty) + Be16(d.assoc))
    ensures Definitions(b, n)[i] == d
  {
    hide Be16, BeU16At;
    HoldsParts(b, 2 + 6 * i, Be16(d.index) + Be16(d.ty), Be16(d.assoc));
    HoldsParts(b, 2 + 6 * i, Be16(d.index), Be16(d.ty));
    ReadBe16(b, 2 + 6 * i, d.index);
    ReadBe16(b, 4 + 6 * i, d.ty);
    ReadBe16(b, 6 + 6 * i, d.assoc);
  }

  /**
   A `cdef` box that holds `ds` after their number: accepted exactly when there are some,
   every type is 0 or 1, no association is 65535, and the channels are 0, 1, ... once each.
   */
  lemma {:induction false} DefinitionsAreParsed(b: seq<byte>, ds: seq<ChannelDef>)
    requires |ds| < U16 && HoldsAt(b, 0, Be16(|ds|)) && 2 + 6 * |ds| <= |b|
    requires forall i :: 0 <= i < |ds| ==>
      && ds[i].index < U16 && ds[i].ty < U16 && ds[i].assoc < U16
      && HoldsAt(b, 2 + 6 * i, Be16(ds[i].index) + Be16(ds[i].ty) + Be16(ds[i].assoc))
    ensures
      var good := ds != [] && (forall d :: d in ds ==> d.ty <= 1 && d.assoc != 65535)
        && multiset(Indices(ds)) == multiset(Iota(|ds|));
      CdefOf(b) ==
        if good then Some(((exists d :: d in ds && d.index == |ds| - 1 && d.ty == 1), 2 + 6 * |ds|)) else None
  {
    ReadBe16(b, 0, |ds|);
    forall i | 0 <= i < |ds| ensures Definitions(b, |ds|)[i] == ds[i] { DefinitionIsRead(b, |ds|, i, ds[i]); }
    assert Definitions(b, |ds|) == ds;
  }

  /** A `cmap` box: entries of component, mapping type and column; the type is 0 or 1 in every one. */
  lemma {:induction false} MappingsAreChecked(b: seq<byte>)
    ensures CmapValid(b) <==>
      |b| % 4 == 0 && forall k: nat :: k < |b| && k % 4 == 2 ==> b[k] == 0 || b[k] == 1
  {
    if CmapValid(b) {
      forall k: nat | k < |b| && k % 4 == 2 ensures b[k] == 0 || b[k] == 1 { assert b[4 * (k / 4) + 2] <= 1; }
    }
    if |b| % 4 == 0 && forall k: nat :: k < |b| && k % 4 == 2 ==> b[k] == 0 || b[k] == 1 {
      forall i | 0 <= i < |b| / 4 ensures b[4 * i + 2] <= 1 { assert (4 * i + 2) % 4 == 2; }
    }
  }

  // ---- What becomes of a child ----

  lemma {:induction false} PayloadIs(data: seq<byte>, body: Range, i: nat)
    requires body.start <= body.end <= |data| < U64 && i < |BoxesOf(data, body.start, body.end).list|
    ensures
      var b := BoxesOf(data, body.start, body.end).list[i];
      b.start + b.hdr <= b.end <= |data| && PayloadOf(data, b) == data[b.start + b.hdr..b.end]
  {
    hide BoxesOf, ReadBox;
    BoxOf(data, body.start, body.end, i);
    BoxAdvances(data, BoxesOf(data, body.start, body.end).list[i].start, body.end);
  }

  /** A `pclr` or `cdef` box that does not parse. */
  ghost predicate Unparsed(data: seq<byte>, b: BoxHdr) {
    (b.ty == PCLR && ParsePclr(PayloadOf(data, b)).None?) || (b.ty == CDEF && CdefOf(PayloadOf(data, b)).None?)
  }

  /** What aborts the decode: a `colr` before any that parses, or a `cmap`, that does not. */
  ghost predicate Fatal(data: seq<byte>, bs: seq<BoxHdr>, i: nat)
    requires i < |bs|
  {
    || (bs[i].ty == CMAP && !CmapValid(PayloadOf(data, bs[i])))
    || (bs[i].ty == COLR && ParseColr(PayloadOf(data, bs[i])).None?
        && forall j :: 0 <= j < i ==> !ValidColr(data)(bs[j]))
  }

  ghost predicate StartsOnce(bs: seq<BoxHdr>) { forall i, j :: 0 <= i < j < |bs| ==> bs[i].start < bs[j].start }

  /** No box among the first `n` aborts the decode. */
  ghost predicate NoneFatal(data: seq<byte>, bs: seq<BoxHdr>, n: nat)
    requires n <= |bs|
  {
    forall i: nat :: i < n ==> !Fatal(data, bs, i)
  }

  lemma {:induction false} ColrSoFar(data: seq<byte>, bs: seq<BoxHdr>)
    requires NoneFatal(data, bs, |bs|)
    ensures FirstBy(ValidColr(data), bs).None? <==> forall j :: 0 <= j < |bs| ==> !ValidColr(data)(bs[j])
    decreases |bs|
  {
    hide ParseColr, CmapValid;
    if bs != [] {
      var n := |bs| - 1;
      PrefixNotFatal(data, bs, n);
      ColrSoFar(data, bs[..n]);
      assert forall j :: 0 <= j < n ==> bs[..n][j] == bs[j];
    }
  }

  lemma {:induction false} PrefixNotFatal(data: seq<byte>, bs: seq<BoxHdr>, n: nat)
    requires n <= |bs| && NoneFatal(data, bs, n)
    ensures NoneFatal(data, bs[..n], n)
  {
    hide ParseColr, CmapValid, ValidColr, PayloadOf;
    forall i: nat | i < n ensures !Fatal(data, bs[..n], i) {
      assert !Fatal(data, bs, i);
      assert forall j :: 0 <= j < i ==> bs[..n][j] == bs[j];
    }
  }

  /** The first pass stops at the first box that aborts, and at none before. */
  lemma {:induction false} ScanGoesOn(data: seq<byte>, bs: seq<BoxHdr>)
    requires NoneFatal(data, bs, |bs|)
    ensures Scan(data, bs).fatal.None? && Parsed(data, bs) == bs
    ensures forall p ::
      p in Scan(data, bs).invalid <==> exists i :: 0 <= i < |bs| && bs[i].start == p && Unparsed(data, bs[i])
    decreases |bs|
  {
    hide ParseColr, ParsePclr, CdefOf, CmapValid, PayloadOf, ValidPclr, ValidCdef, ValidCmap;
    if bs != [] {
      var n := |bs| - 1;
      PrefixNotFatal(data, bs, n);
      ScanGoesOn(data, bs[..n]);
      ScanWinners(data, bs[..n]);
      ColrSoFar(data, bs[..n]);
      assert !Fatal(data, bs, n);
      assert bs == bs[..n] + [bs[n]];
      SeenOne(data, bs, n);
    }
  }

  lemma {:induction false} SeenOne(data: seq<byte>, bs: seq<BoxHdr>, n: nat)
    requires n < |bs| && !Fatal(data, bs, n) && Scan(data, bs[..n]).fatal.None?
    requires Scan(data, bs[..n]).colr.None? ==> forall j :: 0 <= j < n ==> !ValidColr(data)(bs[j])
    ensures Seen(data, Scan(data, bs[..n]), bs[n]).fatal.None?
    ensures Seen(data, Scan(data, bs[..n]), bs[n]).invalid ==
      Scan(data, bs[..n]).invalid + if Unparsed(data, bs[n]) then {bs[n].start} else {}
  {
    hide ParseColr, ParsePclr, CdefOf, CmapValid, PayloadOf, Scan;
    CodesDiffer();
  }

  lemma {:induction false} CodesDiffer()
    ensures COLR != PCLR && COLR != CDEF && COLR != CMAP && PCLR != CDEF && PCLR != CMAP && CDEF != CMAP
  {
    assert COLR[0] != PCLR[0] && COLR[1] != CDEF[1] && COLR[1] != CMAP[1] && PCLR[0] != CDEF[0] && PCLR[0] != CMAP[0];
    assert CDEF[1] != CMAP[1];
  }

  /** The first pass stops at the first box that aborts. */
  lemma {:induction false} ScanAborts(data: seq<byte>, bs: seq<BoxHdr>, n: nat)
    requires n < |bs| && NoneFatal(data, bs, n) && Fatal(data, bs, n)
    ensures Scan(data, bs) == Scan(data, bs[..n]).(fatal := Some(bs[n].start))
  {
    hide ParseColr, ParsePclr, CdefOf, CmapValid, PayloadOf, Scan, ValidPclr, ValidCdef, ValidCmap;
    var before := bs[..n];
    PrefixNotFatal(data, bs, n);
    ScanGoesOn(data, before);
    ScanWinners(data, before);
    ColrSoFar(data, before);
    CodesDiffer();
    assert forall j :: 0 <= j < n ==> before[j] == bs[j];
    ScanSnoc(data, before, bs[n]);
    ScanStops(data, before + [bs[n]], bs[n + 1..]);
    assert (before + [bs[n]]) + bs[n + 1..] == bs;
  }

  lemma {:induction false} LastByIs(f: BoxHdr -> bool, bs: seq<BoxHdr>, i: nat)
    requires i < |bs| && StartsOnce(bs)
    ensures LastBy(f, bs) == Some(bs[i].start) <==> f(bs[i]) && forall j :: i < j < |bs| ==> !f(bs[j])
    decreases |bs|
  {
    var n := |bs| - 1;
    if i < n {
      assert bs[..n][i] == bs[i];
      LastByIs(f, bs[..n], i);
      assert forall j :: i < j < n ==> bs[..n][j] == bs[j];
    } else if !f(bs[n]) {
      LastByAmong(f, bs[..n]);
    }
  }

  lemma {:induction false} LastByAmong(f: BoxHdr -> bool, bs: seq<BoxHdr>)
    ensures LastBy(f, bs).Some? ==> exists j :: 0 <= j < |bs| && bs[j].start == LastBy(f, bs).value
    decreases |bs|
  {
    if bs != [] {
      var n := |bs| - 1;
      LastByAmong(f, bs[..n]);
      if !f(bs[n]) && LastBy(f, bs).Some? {
        var j :| 0 <= j < n && bs[..n][j].start == LastBy(f, bs).value;
        assert bs[j].start == LastBy(f, bs).value;
      }
    }
  }

  lemma {:induction false} FirstByIs(f: BoxHdr -> bool, bs: seq<BoxHdr>, i: nat)
    requires i < |bs| && StartsOnce(bs)
    ensures FirstBy(f, bs) == Some(bs[i].start) <==> f(bs[i]) && forall j :: 0 <= j < i ==> !f(bs[j])
    decreases |bs|
  {
    var n := |bs| - 1;
    FirstByAmong(f, bs[..n]);
    if i < n {
      assert bs[..n][i] == bs[i];
      FirstByIs(f, bs[..n], i);
      assert forall j :: 0 <= j < i ==> bs[..n][j] == bs[j];
    }
  }

  lemma {:induction false} FirstByAmong(f: BoxHdr -> bool, bs: seq<BoxHdr>)
    ensures FirstBy(f, bs).Some? ==> exists j :: 0 <= j < |bs| && f(bs[j]) && bs[j].start == FirstBy(f, bs).value
    ensures FirstBy(f, bs).None? ==> forall j :: 0 <= j < |bs| ==> !f(bs[j])
    decreases |bs|
  {
    if bs != [] {
      var n := |bs| - 1;
      FirstByAmong(f, bs[..n]);
      if FirstBy(f, bs[..n]).Some? {
        var j :| 0 <= j < n && f(bs[..n][j]) && bs[..n][j].start == FirstBy(f, bs).value;
        assert f(bs[j]) && bs[j].start == FirstBy(f, bs).value;
      } else {
        assert forall j :: 0 <= j < n ==> bs[..n][j] == bs[j];
      }
    }
  }

  /** Box `i` is the last of the first `n` that passes. */
  ghost predicate IsLast(f: BoxHdr -> bool, bs: seq<BoxHdr>, n: nat, i: nat)
    requires n <= |bs|
  {
    i < n && f(bs[i]) && forall j :: i < j < n ==> !f(bs[j])
  }

  ghost predicate IsFirst(f: BoxHdr -> bool, bs: seq<BoxHdr>, n: nat, i: nat)
    requires n <= |bs|
  {
    i < n && f(bs[i]) && forall j :: 0 <= j < i ==> !f(bs[j])
  }

  /**
   What becomes of complete box `i` of a header, when the first `n` are parsed: `colr`
   is consumed if it is the first that parses, `pclr`, `cdef` and `cmap` if they are
   the last that do; one that does not parse is malformed, and so is the one that
   aborts the decode; what the boxes `ihdr`, `bpcc` and `res ` say is never used.
   */
  ghost predicate Verdict(data: seq<byte>, bs: seq<BoxHdr>, n: nat, i: nat, effect: Disposition, d: Disposition)
    requires n <= |bs| && i < |bs|
  {
    var ty := bs[i].ty;
    if ty == Ascii("colr") then
      if i == n then d == Disposition.Malformed
      else if IsFirst(ValidColr(data), bs, n, i) then d == effect else d == Skipped
    else if ty == Ascii("pclr") then
      if i < n && ParsePclr(PayloadOf(data, bs[i])).None? then d == Disposition.Malformed
      else if IsLast(ValidPclr(data), bs, n, i) then d == Structure else d == Dropped
    else if ty == Ascii("cdef") then
      if i < n && CdefOf(PayloadOf(data, bs[i])).None? then d == Disposition.Malformed
      else if IsLast(ValidCdef(data), bs, n, i) then d == Structure else d == Dropped
    else if ty == Ascii("cmap") then
      if i == n then d == Disposition.Malformed
      else if IsLast(ValidCmap(data), bs, n, i) then d == Structure else d == Dropped
    else if ty == Ascii("ihdr") || ty == Ascii("bpcc") || ty == Ascii("res ") then d == Skipped
    else d == Unknown
  }

  /** The first pass's findings, when the first `n` boxes are parsed. */
  ghost predicate FindingsOf(data: seq<byte>, bs: seq<BoxHdr>, n: nat, info: HdrInfo)
    requires n <= |bs|
  {
    && info.fatal == (if n < |bs| then Some(bs[n].start) else None)
    && PosOf(info.colr) == FirstBy(ValidColr(data), bs[..n]) && PosOf(info.pclr) == LastBy(ValidPclr(data), bs[..n])
    && PosOf(info.cdef) == LastBy(ValidCdef(data), bs[..n]) && info.cmap == LastBy(ValidCmap(data), bs[..n])
    && (forall p :: p in info.invalid <==> exists i :: 0 <= i < n && bs[i].start == p && Unparsed(data, bs[i]))
  }

  lemma {:induction false} ScanFinds(data: seq<byte>, bs: seq<BoxHdr>, n: nat)
    requires n <= |bs| && NoneFatal(data, bs, n) && (n < |bs| ==> Fatal(data, bs, n))
    ensures FindingsOf(data, bs, n, Scan(data, bs))
  {
    hide Scan, Unparsed, ValidColr, ValidPclr, ValidCdef, ValidCmap, Fatal, FirstBy, LastBy;
    PrefixNotFatal(data, bs, n);
    ScanGoesOn(data, bs[..n]);
    ScanWinners(data, bs[..n]);
    if n < |bs| { ScanAborts(data, bs, n); } else { assert bs[..n] == bs; }
    var inv := Scan(data, bs).invalid;
    forall p
      ensures p in inv <==> exists i :: 0 <= i < n && bs[i].start == p && Unparsed(data, bs[i])
    {
      if p in inv {
        var i :| 0 <= i < n && bs[..n][i].start == p && Unparsed(data, bs[..n][i]);
        assert bs[i].start == p && Unparsed(data, bs[i]);
      }
      if i :| 0 <= i < n && bs[i].start == p && Unparsed(data, bs[i]) {
        assert bs[..n][i].start == p && Unparsed(data, bs[..n][i]);
      }
    }
  }

  /** At the box that aborts and past it, no box before it has the same place. */
  lemma {:induction false} PlaceIs(f: BoxHdr -> bool, bs: seq<BoxHdr>, n: nat, i: nat)
    requires n <= |bs| && i < |bs| && StartsOnce(bs)
    ensures LastBy(f, bs[..n]) == Some(bs[i].start) <==> IsLast(f, bs, n, i)
    ensures FirstBy(f, bs[..n]) == Some(bs[i].start) <==> IsFirst(f, bs, n, i)
  {
    hide FirstBy, LastBy;
    var front := bs[..n];
    assert forall j :: 0 <= j < n ==> front[j] == bs[j];
    if i < n {
      LastByIs(f, front, i);
      FirstByIs(f, front, i);
    } else {
      LastByAmong(f, front);
      FirstByAmong(f, front);
    }
  }

  /** The disposition of every complete box of a header, before anything dead or superseded is dropped. */
  lemma {:induction false} ChildIsJudged(data: seq<byte>, bs: seq<BoxHdr>, n: nat, i: nat, csiz: Option<nat>)
    requires n <= |bs| && NoneFatal(data, bs, n) && (n < |bs| ==> Fatal(data, bs, n))
    requires StartsOnce(bs) && i < |bs| && !bs[i].truncated
    ensures
      var info := Scan(data, bs);
      Verdict(data, bs, n, i, if info.colr.Some? then HeaderEffect(info, csiz).0 else Skipped,
              ChildDisposition(bs[i], info, csiz))
  {
    hide Scan, FirstBy, LastBy, IsFirst, IsLast, HeaderEffect, ParseColr, ParsePclr, CdefOf, CmapValid, PayloadOf,
      ValidColr, ValidPclr, ValidCdef, ValidCmap, NoneFatal, FindingsOf, ChildDisposition, StartsOnce, Unparsed;
    ScanFinds(data, bs, n);
    TypesAsText();
    CodesDiffer();
    if bs[i].ty == COLR { ColrJudged(data, bs, n, i, csiz, Scan(data, bs)); }
    if bs[i].ty == PCLR || bs[i].ty == CDEF { DefsJudged(data, bs, n, i, csiz, Scan(data, bs)); }
    if bs[i].ty == CMAP { CmapJudged(data, bs, n, i, csiz, Scan(data, bs)); }
    if bs[i].ty !in WINNER_TYPES { OthersJudged(bs[i], csiz, Scan(data, bs)); }
    IsUnparsed(data, bs[i]);
  }

  lemma {:induction false} IsUnparsed(data: seq<byte>, b: BoxHdr)
    ensures b.ty == PCLR ==> (Unparsed(data, b) <==> ParsePclr(PayloadOf(data, b)).None?)
    ensures b.ty == CDEF ==> (Unparsed(data, b) <==> CdefOf(PayloadOf(data, b)).None?)
  {
    hide ParsePclr, CdefOf, PayloadOf;
    CodesDiffer();
  }

  lemma {:induction false} SameStart(bs: seq<BoxHdr>, n: nat, i: nat, info: HdrInfo)
    requires n <= |bs| && i < |bs| && StartsOnce(bs)
    requires info.fatal == (if n < |bs| then Some(bs[n].start) else None)
    ensures info.fatal == Some(bs[i].start) <==> i == n
  {
  }

  lemma {:induction false} ColrJudged(data: seq<byte>, bs: seq<BoxHdr>, n: nat, i: nat, csiz: Option<nat>,
      info: HdrInfo)
    requires n <= |bs| && i < |bs| && StartsOnce(bs) && FindingsOf(data, bs, n, info)
    requires bs[i].ty == COLR && !bs[i].truncated
    ensures ChildDisposition(bs[i], info, csiz) ==
      if i == n then Disposition.Malformed
      else if IsFirst(ValidColr(data), bs, n, i) && info.colr.Some? then HeaderEffect(info, csiz).0 else Skipped
  {
    hide FirstBy, LastBy, IsFirst, IsLast, HeaderEffect, ValidColr, ValidPclr, ValidCdef, ValidCmap, StartsOnce;
    PlaceIs(ValidColr(data), bs, n, i);
    SameStart(bs, n, i, info);
    TypesAsText();
  }

  lemma {:induction false} CmapJudged(data: seq<byte>, bs: seq<BoxHdr>, n: nat, i: nat, csiz: Option<nat>,
      info: HdrInfo)
    requires n <= |bs| && i < |bs| && StartsOnce(bs) && FindingsOf(data, bs, n, info)
    requires bs[i].ty == CMAP && !bs[i].truncated
    ensures ChildDisposition(bs[i], info, csiz) ==
      if i == n then Disposition.Malformed else if IsLast(ValidCmap(data), bs, n, i) then Structure else Dropped
  {
    hide FirstBy, LastBy, IsFirst, IsLast, HeaderEffect, ValidColr, ValidPclr, ValidCdef, ValidCmap, StartsOnce;
    PlaceIs(ValidCmap(data), bs, n, i);
    SameStart(bs, n, i, info);
    TypesAsText();
    CodesDiffer();
  }

  lemma {:induction false} DefsJudged(data: seq<byte>, bs: seq<BoxHdr>, n: nat, i: nat, csiz: Option<nat>,
      info: HdrInfo)
    requires n <= |bs| && i < |bs| && StartsOnce(bs) && FindingsOf(data, bs, n, info)
    requires (bs[i].ty == PCLR || bs[i].ty == CDEF) && !bs[i].truncated
    ensures
      var valid := if bs[i].ty == PCLR then ValidPclr(data) else ValidCdef(data);
      ChildDisposition(bs[i], info, csiz) ==
        if i < n && Unparsed(data, bs[i]) then Disposition.Malformed
        else if IsLast(valid, bs, n, i) then Structure else Dropped
  {
    hide FirstBy, LastBy, IsFirst, IsLast, HeaderEffect, ValidColr, ValidPclr, ValidCdef, ValidCmap, Unparsed;
    PlaceIs(ValidPclr(data), bs, n, i);
    PlaceIs(ValidCdef(data), bs, n, i);
    assert bs[i].start in info.invalid <==> i < n && Unparsed(data, bs[i]);
    TypesAsText();
    CodesDiffer();
  }

  lemma {:induction false} OthersJudged(b: BoxHdr, csiz: Option<nat>, info: HdrInfo)
    requires b.ty !in WINNER_TYPES && !b.truncated
    ensures ChildDisposition(b, info, csiz) == if b.ty == IHDR || b.ty == BPCC || b.ty == RES then Skipped else Unknown
  {
  }

  lemma {:induction false} TypesAsText()
    ensures COLR == Ascii("colr") && PCLR == Ascii("pclr") && CDEF == Ascii("cdef") && CMAP == Ascii("cmap")
    ensures IHDR == Ascii("ihdr") && BPCC == Ascii("bpcc") && RES == Ascii("res ")
    ensures IHDR != COLR && IHDR != PCLR && IHDR != CDEF && IHDR != CMAP
    ensures BPCC != COLR && BPCC != PCLR && BPCC != CDEF && BPCC != CMAP
    ensures RES != COLR && RES != PCLR && RES != CDEF && RES != CMAP
  {
    assert IHDR[0] != COLR[0] && IHDR[0] != PCLR[0] && IHDR[0] != CDEF[0] && IHDR[0] != CMAP[0];
    assert BPCC[0] != COLR[0] && BPCC[0] != PCLR[0] && BPCC[0] != CDEF[0] && BPCC[0] != CMAP[0];
    assert RES[0] != COLR[0] && RES[0] != PCLR[0] && RES[0] != CDEF[0] && RES[0] != CMAP[0];
  }

  lemma {:induction false} ChildrenStartOnce(data: seq<byte>, body: Range, i: nat, k: nat)
    requires body.start <= body.end <= |data| < U64 && i < k < |BoxesOf(data, body.start, body.end).list|
    ensures
      var bs := BoxesOf(data, body.start, body.end).list;
      bs[i].start < bs[k].start
    decreases k
  {
    hide BoxesOf, ReadBox;
    BoxOf(data, body.start, body.end, k - 1);
    if i < k - 1 { ChildrenStartOnce(data, body, i, k - 1); }
  }

  /** The complete boxes of a header start one after another, so each is judged by its own place. */
  lemma {:induction false} CompleteStartOnce(data: seq<byte>, body: Range)
    requires body.start <= body.end <= |data| < U64
    ensures StartsOnce(Complete(BoxesOf(data, body.start, body.end).list))
  {
    hide BoxesOf;
    var bs := BoxesOf(data, body.start, body.end).list;
    forall i, j | 0 <= i < j < |Complete(bs)| ensures Complete(bs)[i].start < Complete(bs)[j].start {
      ChildrenStartOnce(data, body, i, j);
    }
  }

  /** What the first pass keeps of the boxes that win is what their payloads say. */
  ghost predicate Says(data: seq<byte>, bs: seq<BoxHdr>, info: HdrInfo) {
    && (info.colr.Some? ==> exists i :: 0 <= i < |bs| && SaysColr(data, bs[i], info.colr.value))
    && (info.pclr.Some? ==> exists i :: 0 <= i < |bs| && SaysPclr(data, bs[i], info.pclr.value))
    && (info.cdef.Some? ==> exists i :: 0 <= i < |bs| && SaysCdef(data, bs[i], info.cdef.value))
  }

  ghost predicate SaysColr(data: seq<byte>, b: BoxHdr, found: (nat, Colr)) {
    b.ty == COLR && b.start == found.0 && ParseColr(PayloadOf(data, b)) == Some(found.1)
  }

  ghost predicate SaysPclr(data: seq<byte>, b: BoxHdr, found: (nat, (nat, nat))) {
    b.ty == PCLR && b.start == found.0 && ParsePclr(PayloadOf(data, b)) == Some(found.1)
  }

  ghost predicate SaysCdef(data: seq<byte>, b: BoxHdr, found: (nat, (bool, nat))) {
    b.ty == CDEF && b.start == found.0 && CdefOf(PayloadOf(data, b)) == Some(found.1)
  }

  lemma {:induction false} FindingsSay(data: seq<byte>, bs: seq<BoxHdr>)
    ensures Says(data, bs, Scan(data, bs))
    decreases |bs|
  {
    hide Seen, SaysColr, SaysPclr, SaysCdef;
    if bs != [] {
      var (n, h) := (|bs| - 1, Scan(data, bs[..|bs| - 1]));
      FindingsSay(data, bs[..n]);
      StillSays(data, bs, h);
      SeenSays(data, h, bs[n]);
    }
  }

  /** What is new after a box is what the box says. */
  lemma {:induction false} SeenSays(data: seq<byte>, h: HdrInfo, b: BoxHdr)
    ensures
      var h' := Seen(data, h, b);
      && (h'.colr == h.colr || (h'.colr.Some? && SaysColr(data, b, h'.colr.value)))
      && (h'.pclr == h.pclr || (h'.pclr.Some? && SaysPclr(data, b, h'.pclr.value)))
      && (h'.cdef == h.cdef || (h'.cdef.Some? && SaysCdef(data, b, h'.cdef.value)))
  {
    hide ParseColr, ParsePclr, CdefOf, CmapValid, PayloadOf;
  }

  lemma {:induction false} StillSays(data: seq<byte>, bs: seq<BoxHdr>, info: HdrInfo)
    requires bs != [] && Says(data, bs[..|bs| - 1], info)
    ensures Says(data, bs, info)
  {
    hide SaysColr, SaysPclr, SaysCdef;
    var front := bs[..|bs| - 1];
    if info.colr.Some? {
      var i :| 0 <= i < |front| && SaysColr(data, front[i], info.colr.value);
      assert SaysColr(data, bs[i], info.colr.value);
    }
    if info.pclr.Some? {
      var i :| 0 <= i < |front| && SaysPclr(data, front[i], info.pclr.value);
      assert SaysPclr(data, bs[i], info.pclr.value);
    }
    if info.cdef.Some? {
      var i :| 0 <= i < |front| && SaysCdef(data, front[i], info.cdef.value);
      assert SaysCdef(data, bs[i], info.cdef.value);
    }
  }
}
