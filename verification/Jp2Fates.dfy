/** What the walk over a JP2 file makes of each box, with the box types as text. */
module Jp2Fates {
  import opened Wrappers
  import opened Bytes
  import opened Inventory
  import opened Jp2Boxes
  import opened Jp2Header
  import opened Jp2HeaderBytes
  import opened Jp2Walk

  /** The known types that are not read, as text. */
  lemma {:induction false} SkippedAreSpelled()
    ensures SKIPPED_TYPES == {
      Ascii("xml "), Ascii("uuid"), Ascii("asoc"), Ascii("uinf"), Ascii("jp2i"), Ascii("rreq"), Ascii("jpch"),
      Ascii("jplh"), Ascii("cgrp"), Ascii("ftbl"), Ascii("lbl "), Ascii("jpxl"), Ascii("drep"), Ascii("dtbl"),
      Ascii("flst"), Ascii("nlst"), Ascii("roid"), Ascii("mp7b"), Ascii("bfil"), Ascii("comp")}
  {
    hide Ascii;
    SpelledFirst();
    SpelledNext();
    SpelledLast();
  }

  lemma {:induction false} SpelledFirst()
    ensures Ascii("xml ") == [0x78, 0x6d, 0x6c, 0x20] && Ascii("uuid") == [0x75, 0x75, 0x69, 0x64]
    ensures Ascii("asoc") == [0x61, 0x73, 0x6f, 0x63] && Ascii("uinf") == [0x75, 0x69, 0x6e, 0x66]
    ensures Ascii("jp2i") == [0x6a, 0x70, 0x32, 0x69] && Ascii("rreq") == [0x72, 0x72, 0x65, 0x71]
    ensures Ascii("jpch") == [0x6a, 0x70, 0x63, 0x68]
  {
  }

  lemma {:induction false} SpelledNext()
    ensures Ascii("jplh") == [0x6a, 0x70, 0x6c, 0x68] && Ascii("cgrp") == [0x63, 0x67, 0x72, 0x70]
    ensures Ascii("ftbl") == [0x66, 0x74, 0x62, 0x6c] && Ascii("lbl ") == [0x6c, 0x62, 0x6c, 0x20]
    ensures Ascii("jpxl") == [0x6a, 0x70, 0x78, 0x6c] && Ascii("drep") == [0x64, 0x72, 0x65, 0x70]
    ensures Ascii("dtbl") == [0x64, 0x74, 0x62, 0x6c]
  {
  }

  lemma {:induction false} SpelledLast()
    ensures Ascii("flst") == [0x66, 0x6c, 0x73, 0x74] && Ascii("nlst") == [0x6e, 0x6c, 0x73, 0x74]
    ensures Ascii("roid") == [0x72, 0x6f, 0x69, 0x64] && Ascii("mp7b") == [0x6d, 0x70, 0x37, 0x62]
    ensures Ascii("bfil") == [0x62, 0x66, 0x69, 0x6c] && Ascii("comp") == [0x63, 0x6f, 0x6d, 0x70]
  {
  }

  /** The types whose boxes are read or padding are none of those. */
  lemma {:induction false} ReadAreNotSkipped()
    ensures SIGNATURE_BOX !in SKIPPED_TYPES && FTYP !in SKIPPED_TYPES && JP2H !in SKIPPED_TYPES
    ensures JP2C !in SKIPPED_TYPES && FREE !in SKIPPED_TYPES
    ensures FREE != SIGNATURE_BOX && FREE != FTYP && FREE != JP2H && FREE != JP2C
  {
    assert FREE[0] != SIGNATURE_BOX[0] && FREE[1] != FTYP[1] && FREE[0] != JP2H[0] && FREE[0] != JP2C[0];
    forall ty | ty in SKIPPED_TYPES
      ensures ty != SIGNATURE_BOX && ty != FTYP && ty != JP2H && ty != JP2C && ty != FREE
    {
      assert !(ty[0] == 0x66 && ty[1] == 0x74 && ty[2] == 0x79) && !(ty[0] == 0x66 && ty[1] == 0x72);
      assert !(ty[0] == 0x6a && ty[1] == 0x50) && !(ty[0] == 0x6a && ty[1] == 0x70 && ty[2] == 0x32 && ty[3] != 0x69);
    }
  }

  /**
   What a top-level box comes to: a signature first and a file type second are read, and so
   are the last complete header and codestream; the rest of these, and of the known types,
   are passed over; `free` is padding; a box that runs past the file is malformed.
   */
  lemma {:induction false} TopIs(b: BoxHdr, index: nat, lastJp2h: Option<nat>, lastJp2c: Option<nat>)
    ensures
      var d := TopPart(b, index, lastJp2h, lastJp2c);
      && (b.truncated ==> d == Disposition.Malformed)
      && (!b.truncated ==>
            && (b.ty == SIGNATURE_BOX ==> d == if index == 0 then Structure else Skipped)
            && (b.ty == FTYP ==> d == if index == 1 then Structure else Skipped)
            && (b.ty == JP2H ==> d == if lastJp2h == Some(b.start) then Structure else Dropped)
            && (b.ty == JP2C ==> d == if lastJp2c == Some(b.start) then ImageData else Dropped)
            && (b.ty in SKIPPED_TYPES ==> d == Skipped)
            && (b.ty == FREE ==> d == Padding)
            && (d == Unknown <==> b.ty !in SKIPPED_TYPES + {SIGNATURE_BOX, FTYP, JP2H, JP2C, FREE}))
      && (Opening(b, index) <==>
            (index == 0 && b.ty == SIGNATURE_BOX) || (index == 1 && b.ty == FTYP))
  {
    TypesDiffer();
    ReadAreNotSkipped();
    assert SIGNATURE_BOX[0] != FTYP[0];
  }

  /** What the children of associations, information boxes and resolutions come to; none is read. */
  lemma {:induction false} ChildrenAre(b: BoxHdr)
    ensures AsocChild()(b) ==
      if b.truncated then Disposition.Malformed
      else if b.ty == LBL || b.ty == XML || b.ty == ASOC then Skipped else Unknown
    ensures UinfChild()(b) ==
      if b.truncated then Disposition.Malformed
      else if b.ty == ULST || b.ty == URL then Skipped else Unknown
    ensures ResChild()(b) ==
      if b.truncated then Disposition.Malformed
      else if b.ty == RESC || b.ty == RESD then Skipped else Unknown
    ensures IsAsoc(b) <==> b.ty == ASOC
  {
  }

  /** What is settled at the end: past a failure nothing is read, and an unwanted profile never is. */
  lemma {:induction false} SettledIs(d: Disposition, alive: bool, keepIcc: bool)
    ensures Settled(d, alive, keepIcc) ==
      if d in {Structure, ImageData, Colour} then if alive then d else Dropped
      else if d == Metadata then if alive && keepIcc then d else Dropped
      else d
  {
  }

  /** The component count of a codestream: SOC and SIZ, then two bytes at offset 40. */
  lemma {:induction false} CsizIsRead(data: seq<byte>, at: nat, n: nat)
    requires n < U16
    ensures HoldsAt(data, at, [0xff, 0x4f, 0xff, 0x51]) && HoldsAt(data, at + 40, Be16(n)) ==>
      CsizAt(data, at) == Some(n)
    ensures CsizAt(data, at).Some? ==> HoldsAt(data, at, [0xff, 0x4f, 0xff, 0x51]) && at + 42 <= |data|
  {
    if HoldsAt(data, at + 40, Be16(n)) { ReadBe16(data, at + 40, n); }
  }

  // ---- Children of a header ----

  /** `colr`, `pclr` and `cdef` are read: the first of its kind that parses, or the last, while it is consumed. */
  ghost predicate Reads(b: BoxHdr, info: HdrInfo, csiz: Option<nat>) {
    !b.truncated && Consumed(ChildDisposition(b, info, csiz))
  }

  /**
   How much of a consumed child's payload is read: an enumerated space's fields, a whole profile, a palette's rows,
   and the definitions; of a box that is not consumed, and of a `cmap`, nothing is recorded.
   */
  lemma {:induction false} FieldsReach(b: BoxHdr, info: HdrInfo, csiz: Option<nat>)
    requires b.start + b.hdr <= b.end
    ensures
      var (end, at) := (FieldsEnd(b, info, csiz), b.start + b.hdr);
      && (!Reads(b, info, csiz) ==> end.None?)
      && (Reads(b, info, csiz) ==>
            && (b.ty == COLR && info.colr.Some? ==>
                  match info.colr.value.1
                  case Enumerated(_, used) => end == if used == 0 then None else Some(at + used)
                  case Icc(_) => end == if at == b.end then None else Some(b.end)
                  case OtherMethod(_) => end == Some(at + 3))
            && (b.ty == PCLR && info.pclr.Some? ==>
                  end == if info.pclr.value.1.1 == 0 then None else Some(at + info.pclr.value.1.1))
            && (b.ty == CDEF && info.cdef.Some? ==>
                  end == if info.cdef.value.1.1 == 0 then None else Some(at + info.cdef.value.1.1))
            && (b.ty !in {COLR, PCLR, CDEF} ==> end.None?))
  {
    hide ChildDisposition, Consumed;
    CodesDiffer();
  }

  /**
   The decode fails at exactly these complete children: the one that ends the first pass,
   and the first `colr` that parses if its space does not suit the codestream.
   */
  lemma {:induction false} FailsAt(data: seq<byte>, bs: seq<BoxHdr>, n: nat, i: nat, csiz: Option<nat>)
    requires n <= |bs| && NoneFatal(data, bs, n) && (n < |bs| ==> Fatal(data, bs, n))
    requires StartsOnce(bs) && i < |bs| && !bs[i].truncated
    ensures
      var info := Scan(data, bs);
      Aborts(bs[i], info, csiz) <==>
        i == n || (IsFirst(ValidColr(data), bs, n, i) && info.colr.Some? && HeaderEffect(info, csiz).1)
  {
    hide Scan, FirstBy, LastBy, IsFirst, HeaderEffect, ParseColr, CmapValid, PayloadOf, ValidPclr, ValidCdef,
      ValidCmap, NoneFatal, StartsOnce, Unparsed;
    ScanFinds(data, bs, n);
    PlaceIs(ValidColr(data), bs, n, i);
    SameStart(bs, n, i, Scan(data, bs));
    if IsFirst(ValidColr(data), bs, n, i) { FirstIsColr(data, bs, n, i); }
  }

  lemma {:induction false} FirstIsColr(data: seq<byte>, bs: seq<BoxHdr>, n: nat, i: nat)
    requires n <= |bs| && IsFirst(ValidColr(data), bs, n, i)
    ensures bs[i].ty == COLR
  {
    hide ParseColr, PayloadOf;
  }

  /** A child that runs past its header fails the decode too, wherever it is. */
  lemma {:induction false} TruncatedFails(b: BoxHdr, info: HdrInfo, csiz: Option<nat>)
    ensures b.truncated ==> Aborts(b, info, csiz) && ChildDisposition(b, info, csiz) == Disposition.Malformed
  {
  }
}
