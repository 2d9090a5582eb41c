/** Image resource blocks: the parser that checks every step, and the second walk that does not. */
module PsdResources {
  import opened Wrappers
  import opened Bytes
  import opened Inventory

  /** One block: its start, its payload, and where the next begins. Offsets are within the section. */
  datatype Block = Block(start: nat, id: nat, dataStart: nat, dataEnd: nat, paddedEnd: nat) {
    function Len(): (n: int) { dataEnd - dataStart }
  }

  const ICC: nat := 0x040F
  const EXIF_1: nat := 0x0422
  const EXIF_3: nat := 0x0423
  const XMP: nat := 0x0424
  const TRANSPARENCY: nat := 0x0417

  /** `8BIM`, `MeSa`, `AgHg`, `PHUT`, `DCSR`, `Lr16`, `Lr32`. */
  const SIGNATURES: set<seq<byte>> := {
    [0x38, 0x42, 0x49, 0x4d], [0x4d, 0x65, 0x53, 0x61], [0x41, 0x67, 0x48, 0x67], [0x50, 0x48, 0x55, 0x54],
    [0x44, 0x43, 0x53, 0x52], [0x4c, 0x72, 0x31, 0x36], [0x4c, 0x72, 0x33, 0x32]}

  /** Rounded up to even. */
  function Evened(n: nat): (m: nat)
    ensures n <= m <= n + 1
  {
    n + n % 2
  }

  /** The block at `pos`, if a whole one is there. */
  function BlockAt(res: seq<byte>, pos: nat): (b: Option<Block>)
    ensures b.Some? ==>
      && b.value.start == pos && pos + 12 <= b.value.dataStart <= b.value.dataEnd <= b.value.paddedEnd <= |res|
      && b.value.paddedEnd <= b.value.dataEnd + 1
  {
    if pos + 7 > |res| || res[pos..pos + 4] !in SIGNATURES then None else
    var lenOffset := pos + 6 + Evened(1 + res[pos + 6] as int);
    if lenOffset + 4 > |res| then None else
    var (dataStart, dataLen) := (lenOffset + 4, BeU32At(res, lenOffset));
    if dataStart + dataLen > |res| then None
    else
      var paddedEnd := Min(dataStart + Evened(dataLen), |res|);
      Some(Block(pos, BeU16At(res, pos + 4), dataStart, dataStart + dataLen, paddedEnd))
  }

  /** The blocks from `pos` on, if they fill the section. */
  function Blocks(res: seq<byte>, pos: nat): (bs: Option<seq<Block>>)
    decreases |res| - pos
  {
    if pos >= |res| then Some([]) else
    match BlockAt(res, pos)
    case None => None
    case Some(b) =>
      match Blocks(res, b.paddedEnd)
      case None => None
      case Some(rest) => Some([b] + rest)
  }

  function BlockRanges(bs: seq<Block>): (s: seq<Range>)
    ensures |s| == |bs| && forall i :: 0 <= i < |bs| ==> s[i] == Range(bs[i].start, bs[i].paddedEnd)
  {
    seq(|bs|, i requires 0 <= i < |bs| => Range(bs[i].start, bs[i].paddedEnd))
  }

  /** The blocks tile the section. */
  lemma {:induction false} BlocksTile(res: seq<byte>, pos: nat)
    requires pos <= |res| && Blocks(res, pos).Some?
    ensures Tiling(BlockRanges(Blocks(res, pos).value), pos, |res|)
    decreases |res| - pos
  {
    if pos < |res| {
      var b := BlockAt(res, pos).value;
      BlocksTile(res, b.paddedEnd);
      var rest := Blocks(res, b.paddedEnd).value;
      assert BlockRanges([b] + rest) == [Range(b.start, b.paddedEnd)] + BlockRanges(rest);
      TilingJoins([Range(b.start, b.paddedEnd)], BlockRanges(rest), pos, b.paddedEnd, |res|);
    }
  }

  lemma {:induction false} EveryBlockIs(res: seq<byte>, pos: nat, i: nat)
    requires Blocks(res, pos).Some? && i < |Blocks(res, pos).value|
    ensures
      var b := Blocks(res, pos).value[i];
      BlockAt(res, b.start) == Some(b)
    decreases i
  {
    if i > 0 { EveryBlockIs(res, BlockAt(res, pos).value.paddedEnd, i - 1); }
  }

  // ---- The bytes of blocks ----

  /** A block to write: a signature, an id, a name of at most 255 bytes, the payload, and the padding bytes. */
  datatype Stored = Stored(signature: seq<byte>, id: nat, name: seq<byte>, payload: seq<byte>, pad: byte) {
    predicate Fits() { |signature| == 4 && id < U16 && |name| < 256 && |payload| < U32 }

    /** The name with its length before it, padded to an even number of bytes. */
    function NameBytes(): (b: seq<byte>)
      requires Fits()
    {
      [|name| as byte] + name + if |name| % 2 == 0 then [pad] else []
    }

    function HeadBytes(): (b: seq<byte>)
      requires Fits()
    {
      signature + Be16(id) + NameBytes() + Be32(|payload|)
    }

    function Padding(): (b: seq<byte>) { if |payload| % 2 == 1 then [pad] else [] }
  }

  /** The seven signatures that Photoshop and its plug-ins write. */
  lemma {:induction false} SignaturesAreSpelled()
    ensures SIGNATURES == {Ascii("8BIM"), Ascii("MeSa"), Ascii("AgHg"), Ascii("PHUT"), Ascii("DCSR"), Ascii("Lr16"),
                           Ascii("Lr32")}
  {
    assert Ascii("8BIM") == [0x38, 0x42, 0x49, 0x4d] && Ascii("MeSa") == [0x4d, 0x65, 0x53, 0x61];
    assert Ascii("AgHg") == [0x41, 0x67, 0x48, 0x67] && Ascii("PHUT") == [0x50, 0x48, 0x55, 0x54];
    assert Ascii("DCSR") == [0x44, 0x43, 0x53, 0x52] && Ascii("Lr16") == [0x4c, 0x72, 0x31, 0x36];
    assert Ascii("Lr32") == [0x4c, 0x72, 0x33, 0x32];
  }

  /** The ids in the decimal numbers of Adobe's file format document. */
  lemma {:induction false} IdsAre()
    ensures ICC == 1039 && TRANSPARENCY == 1047 && EXIF_1 == 1058 && EXIF_3 == 1059 && XMP == 1060
  {
  }

  /** The block as it is found at `pos`, in a section of `len` bytes that may end before its padding. */
  function FoundAt(pos: nat, w: Stored, len: nat): (b: Block)
    requires w.Fits()
  {
    var data := pos + 10 + |w.NameBytes()|;
    var end := data + |w.payload|;
    Block(pos, w.id, data, end, Min(end + |w.payload| % 2, len))
  }

  lemma {:induction false} HeadIsRead(res: seq<byte>, pos: nat, w: Stored)
    requires w.Fits() && HoldsAt(res, pos, w.HeadBytes())
    ensures
      var n := |w.NameBytes()|;
      && pos + 10 + n <= |res| && res[pos..pos + 4] == w.signature && BeU16At(res, pos + 4) == w.id
      && res[pos + 6] == |w.name| && n == Evened(1 + |w.name|) && BeU32At(res, pos + 6 + n) == |w.payload|
  {
    hide Be16, Be32, BeU16At, BeU32At;
    var name := w.NameBytes();
    HoldsParts(res, pos, w.signature + Be16(w.id) + name, Be32(|w.payload|));
    HoldsParts(res, pos, w.signature + Be16(w.id), name);
    HoldsParts(res, pos, w.signature, Be16(w.id));
    ReadBe16(res, pos + 4, w.id);
    ReadBe32(res, pos + 6 + |name|, |w.payload|);
    assert res[pos + 6] == res[pos + 6..pos + 6 + |name|][0];
  }

  /** A block in the bytes is found as that block, exactly if it has one of the signatures. */
  lemma {:induction false} StoredBlockIsFound(res: seq<byte>, pos: nat, w: Stored)
    requires w.Fits() && HoldsAt(res, pos, w.HeadBytes() + w.payload)
    ensures BlockAt(res, pos) == if w.signature in SIGNATURES then Some(FoundAt(pos, w, |res|)) else None
  {
    hide BeU16At, BeU32At;
    HoldsParts(res, pos, w.HeadBytes(), w.payload);
    HeadIsRead(res, pos, w);
  }

  lemma {:induction false} FoundFields(res: seq<byte>, pos: nat)
    requires BlockAt(res, pos).Some?
    ensures
      pos + 7 <= |res| &&
      var n := pos + 6 + Evened(1 + res[pos + 6] as int);
      && n + 4 <= |res| && res[pos..pos + 4] in SIGNATURES
      && var end := n + 4 + BeU32At(res, n);
         && end <= |res|
         && BlockAt(res, pos).value
              == Block(pos, BeU16At(res, pos + 4), n + 4, end, Min(end + BeU32At(res, n) % 2, |res|))
  {
    hide BeU16At, BeU32At;
  }

  /** And every block that is found is in the bytes, whatever its padding. */
  lemma {:induction false} FoundBlockIsStored(res: seq<byte>, pos: nat) returns (w: Stored)
    requires BlockAt(res, pos).Some?
    ensures w.Fits() && w.signature in SIGNATURES && BlockAt(res, pos) == Some(FoundAt(pos, w, |res|))
    ensures HoldsAt(res, pos, w.HeadBytes() + w.payload)
  {
    hide Be16, Be32, BeU16At, BeU32At, HoldsAt, Stored.NameBytes, BlockAt;
    FoundFields(res, pos);
    var b := BlockAt(res, pos).value;
    var n: nat := res[pos + 6];
    var pad: byte := if n % 2 == 0 then res[pos + 7 + n] else 0;
    w := Stored(res[pos..pos + 4], BeU16At(res, pos + 4), res[pos + 7..pos + 7 + n], res[b.dataStart..b.dataEnd], pad);
    NameHeld(res, pos + 6, w);
    PartsAreHeld(res, pos, w);
  }

  lemma {:induction false} PartsAreHeld(res: seq<byte>, pos: nat, w: Stored)
    requires w.Fits()
    requires
      var n := pos + 6 + |w.NameBytes()|;
      && HoldsAt(res, pos + 6, w.NameBytes()) && n + 4 + |w.payload| <= |res|
      && w.signature == res[pos..pos + 4] && w.id == BeU16At(res, pos + 4) && |w.payload| == BeU32At(res, n)
      && w.payload == res[n + 4..n + 4 + |w.payload|]
    ensures HoldsAt(res, pos, w.HeadBytes() + w.payload)
  {
    hide Be16, Be32, BeU16At, BeU32At, HoldsAt, Stored.NameBytes;
    var name := w.NameBytes();
    var n := pos + 6 + |name|;
    HeldBe16(res, pos + 4);
    HeldBe32(res, n);
    SliceHeld(res, pos, pos + 4);
    SliceHeld(res, n + 4, n + 4 + |w.payload|);
    HoldsBoth(res, pos, w.signature, Be16(w.id));
    HoldsBoth(res, pos, w.signature + Be16(w.id), name);
    HoldsBoth(res, pos, w.signature + Be16(w.id) + name, Be32(|w.payload|));
    HoldsBoth(res, pos, w.HeadBytes(), w.payload);
  }

  lemma {:induction false} NameHeld(res: seq<byte>, p: nat, w: Stored)
    requires w.Fits() && p + Evened(1 + |w.name|) <= |res| && res[p] == |w.name|
    requires res[p + 1..p + 1 + |w.name|] == w.name && (|w.name| % 2 == 0 ==> res[p + 1 + |w.name|] == w.pad)
    ensures |w.NameBytes()| == Evened(1 + |w.name|) && HoldsAt(res, p, w.NameBytes())
  {
    var e := w.NameBytes();
    forall i | 0 <= i < |e| ensures res[p..p + |e|][i] == e[i] {
      if 0 < i <= |w.name| { assert res[p + i] == res[p + 1..p + 1 + |w.name|][i - 1]; }
    }
  }

  lemma {:induction false} SliceHeld(b: seq<byte>, i: nat, j: nat)
    requires i <= j <= |b|
    ensures HoldsAt(b, i, b[i..j])
  {
  }

  ghost predicate AllStorable(ws: seq<Stored>) {
    forall i :: 0 <= i < |ws| ==> ws[i].Fits() && ws[i].signature in SIGNATURES
  }

  ghost function BytesOf(ws: seq<Stored>): (b: seq<byte>)
    requires AllStorable(ws)
  {
    if ws == [] then [] else (ws[0].HeadBytes() + ws[0].payload) + ws[0].Padding() + BytesOf(ws[1..])
  }

  ghost function AllFoundAt(pos: nat, ws: seq<Stored>, len: nat): (bs: seq<Block>)
    requires AllStorable(ws)
    decreases |ws|
  {
    if ws == [] then []
    else
      var b := FoundAt(pos, ws[0], len);
      [b] + AllFoundAt(b.paddedEnd, ws[1..], len)
  }

  /** Blocks written one after another are exactly the section's blocks. */
  lemma {:induction false} StoredBlocksAreFound(res: seq<byte>, pos: nat, ws: seq<Stored>)
    requires AllStorable(ws) && pos <= |res| && res[pos..] == BytesOf(ws)
    ensures Blocks(res, pos) == Some(AllFoundAt(pos, ws, |res|))
    decreases |ws|
  {
    hide HoldsAt, BlockAt;
    if ws != [] {
      var w := ws[0];
      var (first, pad, rest) := (w.HeadBytes() + w.payload, w.Padding(), BytesOf(ws[1..]));
      FirstHeld(res, pos, first, pad, rest);
      StoredBlockIsFound(res, pos, w);
      HeadLength(w);
      StoredBlocksAreFound(res, pos + |first| + |pad|, ws[1..]);
    }
  }

  lemma {:induction false} FirstHeld(res: seq<byte>, pos: nat, first: seq<byte>, pad: seq<byte>, rest: seq<byte>)
    requires pos <= |res| && res[pos..] == first + pad + rest
    ensures HoldsAt(res, pos, first) && pos + |first| + |pad| <= |res| && res[pos + |first| + |pad|..] == rest
  {
    assert res[pos + |first| + |pad|..] == res[pos..][|first| + |pad|..];
    assert res[pos..pos + |first|] == res[pos..][..|first|];
  }

  lemma {:induction false} HeadLength(w: Stored)
    requires w.Fits()
    ensures |w.HeadBytes()| == 10 + |w.NameBytes()|
  {
  }

  // ---- What the parser keeps ----

  datatype Meta = Meta(icc: Option<seq<byte>>, exif: Option<seq<byte>>, xmp: Option<seq<byte>>,
      transparency: Option<nat>)

  const NO_METADATA: Meta := Meta(None, None, None, None)

  function Payload(res: seq<byte>, b: Block): (p: seq<byte>)
    requires b.dataStart <= b.dataEnd <= |res|
  {
    res[b.dataStart..b.dataEnd]
  }

  /** The metadata once a block is read. */
  function Kept(res: seq<byte>, meta: Meta, b: Block): (m: Meta)
    requires b.dataStart <= b.dataEnd <= |res|
  {
    var p := Payload(res, b);
    if b.id == ICC && p != [] then meta.(icc := Some(p))
    else if b.id == TRANSPARENCY && |p| >= 2 then meta.(transparency := Some(BeU16At(p, 0)))
    else if b.id == EXIF_1 && p != [] then meta.(exif := Some(p))
    else if b.id == EXIF_3 && p != [] && meta.exif.None? then meta.(exif := Some(p))
    else if b.id == XMP && p != [] then meta.(xmp := Some(p))
    else meta
  }

  ghost predicate Inside(res: seq<byte>, bs: seq<Block>) { forall b :: b in bs ==> b.dataStart <= b.dataEnd <= |res| }

  ghost function MetadataOf(res: seq<byte>, bs: seq<Block>): (m: Meta)
    requires Inside(res, bs)
  {
    if bs == [] then NO_METADATA else Kept(res, MetadataOf(res, bs[..|bs| - 1]), bs[|bs| - 1])
  }

  /** Blocks read so far, and the rest. */
  ghost predicate ReadUpTo(res: seq<byte>, bs: seq<Block>, pos: nat) {
    && pos <= |res| && Inside(res, bs)
    && match Blocks(res, pos)
       case None => Blocks(res, 0).None?
       case Some(rest) => Blocks(res, 0) == Some(bs + rest)
  }

  lemma {:induction false} ReadNone(res: seq<byte>)
    ensures ReadUpTo(res, [], 0)
  {
    if Blocks(res, 0).Some? { assert [] + Blocks(res, 0).value == Blocks(res, 0).value; }
  }

  lemma {:induction false} ReadOne(res: seq<byte>, bs: seq<Block>, pos: nat)
    requires ReadUpTo(res, bs, pos) && pos < |res|
    ensures BlockAt(res, pos).None? ==> Blocks(res, 0).None?
    ensures BlockAt(res, pos).Some? ==> ReadUpTo(res, bs + [BlockAt(res, pos).value], BlockAt(res, pos).value.paddedEnd)
  {
    if BlockAt(res, pos).Some? {
      var b := BlockAt(res, pos).value;
      if Blocks(res, b.paddedEnd).Some? { Assoc(bs, [b], Blocks(res, b.paddedEnd).value); }
    }
  }

  lemma {:induction false} ReadAll(res: seq<byte>, bs: seq<Block>, pos: nat)
    requires ReadUpTo(res, bs, pos) && pos >= |res|
    ensures Inside(res, bs) && Blocks(res, 0) == Some(bs)
  {
    assert bs + [] == bs;
  }

  lemma {:induction false} MetadataSnoc(res: seq<byte>, bs: seq<Block>, b: Block)
    requires Inside(res, bs) && b.dataStart <= b.dataEnd <= |res|
    ensures Inside(res, bs + [b]) && MetadataOf(res, bs + [b]) == Kept(res, MetadataOf(res, bs), b)
  {
    assert (bs + [b])[..|bs|] == bs;
  }

  /** `parse_image_resources`, for the resources the inventory names winners of. */
  method ParseImageResources(res: seq<byte>) returns (r: Option<Meta>)
    ensures Blocks(res, 0).None? ==> r.None?
    ensures Blocks(res, 0).Some? ==>
      Inside(res, Blocks(res, 0).value) && r == Some(MetadataOf(res, Blocks(res, 0).value))
  {
    hide Blocks, MetadataOf, ReadUpTo;
    var meta := NO_METADATA;
    var pos: nat := 0;
    ghost var bs: seq<Block> := [];
    NoBlocks(res);
    while pos < |res|
      invariant ReadUpTo(res, bs, pos) && Inside(res, bs) && meta == MetadataOf(res, bs)
      decreases |res| - pos
    {
      ReadOne(res, bs, pos);
      var next := CheckedBlock(res, pos);
      if next.None? { return None; }
      var b := next.value;
      MetadataSnoc(res, bs, b);
      var payload := res[b.dataStart..b.dataEnd];
      if b.id == ICC && payload != [] {
        meta := meta.(icc := Some(payload));
      } else if b.id == TRANSPARENCY && |payload| >= 2 {
        meta := meta.(transparency := Some(BeU16At(payload, 0)));
      } else if b.id == EXIF_1 && payload != [] {
        meta := meta.(exif := Some(payload));
      } else if b.id == EXIF_3 && payload != [] && meta.exif.None? {
        meta := meta.(exif := Some(payload));
      } else if b.id == XMP && payload != [] {
        meta := meta.(xmp := Some(payload));
      }
      bs := bs + [b];
      pos := b.paddedEnd;
    }
    ReadAll(res, bs, pos);
    r := Some(meta);
  }

  lemma {:induction false} NoBlocks(res: seq<byte>)
    ensures ReadUpTo(res, [], 0) && Inside(res, []) && MetadataOf(res, []) == NO_METADATA
  {
    ReadNone(res);
  }

  /** One block with every bound checked before it is read. */
  method CheckedBlock(res: seq<byte>, pos: nat) returns (b: Option<Block>)
    requires pos < |res|
    ensures b == BlockAt(res, pos)
  {
    if pos + 4 > |res| || res[pos..pos + 4] !in SIGNATURES { return None; }
    if pos + 6 > |res| { return None; }
    var id := BeU16At(res, pos + 4);
    if pos + 6 >= |res| { return None; }
    var nameLen := res[pos + 6];
    var lenOffset := pos + 6 + Evened(1 + nameLen as int);
    if lenOffset + 4 > |res| { return None; }
    var dataLen := BeU32At(res, lenOffset);
    var dataStart := lenOffset + 4;
    var dataEnd := dataStart + dataLen;
    if dataEnd > |res| { return None; }
    b := Some(Block(pos, id, dataStart, dataEnd, Min(dataStart + Evened(dataLen), |res|)));
  }

  // ---- Winners ----

  /** The last block with an id and at least `least` bytes. */
  function Last(bs: seq<Block>, id: nat, least: nat): (i: Option<nat>)
    ensures i.Some? ==> i.value < |bs| && bs[i.value].id == id && bs[i.value].Len() >= least
  {
    if bs == [] then None
    else if bs[|bs| - 1].id == id && bs[|bs| - 1].Len() >= least then Some(|bs| - 1)
    else Last(bs[..|bs| - 1], id, least)
  }

  function First(bs: seq<Block>, id: nat, least: nat): (i: Option<nat>)
    ensures i.Some? ==> i.value < |bs| && bs[i.value].id == id && bs[i.value].Len() >= least
  {
    if bs == [] then None
    else if First(bs[..|bs| - 1], id, least).Some? then First(bs[..|bs| - 1], id, least)
    else if bs[|bs| - 1].id == id && bs[|bs| - 1].Len() >= least then Some(|bs| - 1)
    else None
  }

  /** Nothing after the last, and nothing before the first. */
  /** Block `i` is the last with the id and at least `least` bytes. */
  ghost predicate Wins(bs: seq<Block>, i: nat, id: nat, least: nat) {
    && i < |bs| && bs[i].id == id && bs[i].Len() >= least
    && forall j :: i < j < |bs| ==> !(bs[j].id == id && bs[j].Len() >= least)
  }

  lemma {:induction false} LastWins(bs: seq<Block>, i: nat, id: nat, least: nat)
    ensures Last(bs, id, least) == Some(i) <==> Wins(bs, i, id, least)
    ensures Last(bs, id, least).None? <==> forall j :: 0 <= j < |bs| ==> !(bs[j].id == id && bs[j].Len() >= least)
    decreases |bs|
  {
    if bs != [] {
      var front := bs[..|bs| - 1];
      LastWins(front, i, id, least);
      assert forall j :: 0 <= j < |front| ==> front[j] == bs[j];
      if Last(front, id, least).Some? { assert bs[Last(front, id, least).value].id == id; }
    }
  }

  lemma {:induction false} LastIsLast(bs: seq<Block>, id: nat, least: nat, j: nat)
    requires j < |bs| && bs[j].id == id && bs[j].Len() >= least
    ensures Last(bs, id, least).Some? && j <= Last(bs, id, least).value
  {
    if j < |bs| - 1 { LastIsLast(bs[..|bs| - 1], id, least, j); }
  }

  lemma {:induction false} FirstIsFirst(bs: seq<Block>, id: nat, least: nat, j: nat)
    requires j < |bs| && bs[j].id == id && bs[j].Len() >= least
    ensures First(bs, id, least).Some? && First(bs, id, least).value <= j
  {
    if j < |bs| - 1 { FirstIsFirst(bs[..|bs| - 1], id, least, j); }
  }

  /** The EXIF block the parser keeps: the last of the first kind, or else the first of the second. */
  function ExifKept(bs: seq<Block>): (i: Option<nat>) {
    if Last(bs, EXIF_1, 1).Some? then Last(bs, EXIF_1, 1) else First(bs, EXIF_3, 1)
  }

  /** The EXIF block the inventory calls kept: the last of the first kind, or else the last of the second. */
  function ExifMapped(bs: seq<Block>): (i: Option<nat>) {
    if Last(bs, EXIF_1, 1).Some? then Last(bs, EXIF_1, 1) else Last(bs, EXIF_3, 1)
  }

  ghost predicate IsPayload(res: seq<byte>, bs: seq<Block>, i: Option<nat>, kept: Option<seq<byte>>)
    requires Inside(res, bs) && (i.Some? ==> i.value < |bs|)
  {
    match i
    case None => kept.None?
    case Some(k) => bs[k] in bs && kept == Some(Payload(res, bs[k]))
  }

  lemma {:induction false} IsPayloadOfFront(res: seq<byte>, bs: seq<Block>, i: Option<nat>, kept: Option<seq<byte>>)
    requires Inside(res, bs) && bs != [] && (i.Some? ==> i.value < |bs| - 1)
    requires Inside(res, bs[..|bs| - 1]) && IsPayload(res, bs[..|bs| - 1], i, kept)
    ensures IsPayload(res, bs, i, kept)
  {
  }

  lemma {:induction false} FrontInside(res: seq<byte>, bs: seq<Block>)
    requires Inside(res, bs) && bs != []
    ensures Inside(res, bs[..|bs| - 1]) && bs[|bs| - 1] in bs
  {
    assert forall b :: b in bs[..|bs| - 1] ==> b in bs;
  }

  /** The parser keeps the payload of the last ICC block. */
  lemma {:induction false} ParserKeepsIcc(res: seq<byte>, bs: seq<Block>)
    requires Inside(res, bs)
    ensures IsPayload(res, bs, Last(bs, ICC, 1), MetadataOf(res, bs).icc)
  {
    if bs != [] {
      var front := bs[..|bs| - 1];
      FrontInside(res, bs);
      ParserKeepsIcc(res, front);
      IsPayloadOfFront(res, bs, Last(front, ICC, 1), MetadataOf(res, front).icc);
    }
  }

  /** Of the last XMP block. */
  lemma {:induction false} ParserKeepsXmp(res: seq<byte>, bs: seq<Block>)
    requires Inside(res, bs)
    ensures IsPayload(res, bs, Last(bs, XMP, 1), MetadataOf(res, bs).xmp)
  {
    if bs != [] {
      var front := bs[..|bs| - 1];
      FrontInside(res, bs);
      ParserKeepsXmp(res, front);
      IsPayloadOfFront(res, bs, Last(front, XMP, 1), MetadataOf(res, front).xmp);
    }
  }

  /** And of this EXIF block. */
  lemma {:induction false} ParserKeepsExif(res: seq<byte>, bs: seq<Block>)
    requires Inside(res, bs)
    ensures IsPayload(res, bs, ExifKept(bs), MetadataOf(res, bs).exif)
  {
    if bs != [] {
      var front := bs[..|bs| - 1];
      FrontInside(res, bs);
      ParserKeepsExif(res, front);
      IsPayloadOfFront(res, bs, ExifKept(front), MetadataOf(res, front).exif);
    }
  }

  /** And the transparency index of the last block that has one. */
  lemma {:induction false} ParserKeepsTransparency(res: seq<byte>, bs: seq<Block>)
    requires Inside(res, bs)
    ensures match Last(bs, TRANSPARENCY, 2)
      case None => MetadataOf(res, bs).transparency.None?
      case Some(k) => bs[k] in bs && MetadataOf(res, bs).transparency == Some(BeU16At(Payload(res, bs[k]), 0))
  {
    if bs != [] {
      var front := bs[..|bs| - 1];
      FrontInside(res, bs);
      ParserKeepsTransparency(res, front);
    }
  }

  /**
   The two walks agree on the EXIF block exactly when one of the first kind has a payload, or at most one
   of the second does.
   */
  lemma {:induction false} ExifAgreesIff(bs: seq<Block>)
    ensures ExifKept(bs) == ExifMapped(bs) <==>
      || (exists i :: 0 <= i < |bs| && bs[i].id == EXIF_1 && bs[i].Len() >= 1)
      || (forall i, j :: 0 <= i < j < |bs| && bs[i].id == EXIF_3 && bs[j].id == EXIF_3 ==>
        bs[i].Len() < 1 || bs[j].Len() < 1)
  {
    if i :| 0 <= i < |bs| && bs[i].id == EXIF_1 && bs[i].Len() >= 1 {
      LastIsLast(bs, EXIF_1, 1, i);
    } else {
      if i, j :| 0 <= i < j < |bs| && bs[i].id == EXIF_3 && bs[j].id == EXIF_3 && bs[i].Len() >= 1 && bs[j].Len() >= 1 {
        FirstIsFirst(bs, EXIF_3, 1, i);
        LastIsLast(bs, EXIF_3, 1, j);
      } else {
        if Last(bs, EXIF_3, 1).Some? { FirstIsFirst(bs, EXIF_3, 1, Last(bs, EXIF_3, 1).value); }
        if First(bs, EXIF_3, 1).Some? { LastIsLast(bs, EXIF_3, 1, First(bs, EXIF_3, 1).value); }
      }
    }
  }

  /** A block of the second EXIF kind holding one byte. */
  function OneByteExif(x: byte): (b: seq<byte>) {
    [0x38, 0x42, 0x49, 0x4d, 0x04, 0x23, 0, 0, 0, 0, 0, 1, x, 0]
  }

  /** With two blocks of the second kind the parser keeps the first and the inventory names the second. */
  lemma {:induction false} ExifDisagreesExample(x: byte, y: byte)
    ensures
      var res := OneByteExif(x) + OneByteExif(y);
      && Blocks(res, 0).Some?
      && ExifKept(Blocks(res, 0).value) == Some(0) && ExifMapped(Blocks(res, 0).value) == Some(1)
  {
    var res := OneByteExif(x) + OneByteExif(y);
    var (a, b) := (Block(0, EXIF_3, 12, 13, 14), Block(14, EXIF_3, 26, 27, 28));
    assert res[0..4] == [0x38, 0x42, 0x49, 0x4d] && res[14..18] == [0x38, 0x42, 0x49, 0x4d];
    assert BlockAt(res, 0) == Some(a);
    assert BlockAt(res, 14) == Some(b);
    assert Blocks(res, 28) == Some([]);
    assert [b] + [] == [b];
    assert Blocks(res, 14) == Some([b]);
    assert Blocks(res, 0) == Some([a] + [b]);
    var bs := [a, b];
    assert bs == [a] + [b] && bs[..1] == [a] && [a][..0] == [];
    assert First([a], EXIF_3, 1) == Some(0);
    assert Last([a], EXIF_1, 1).None?;
  }

  // ---- The second walk ----

  /** Winners so far, by block index. */
  datatype Winners = Winners(icc: Option<nat>, exif1: Option<nat>, exif3: Option<nat>, xmp: Option<nat>,
      trans: Option<nat>)

  function WinnersOf(bs: seq<Block>): (w: Winners) {
    Winners(Last(bs, ICC, 1), Last(bs, EXIF_1, 1), Last(bs, EXIF_3, 1), Last(bs, XMP, 1), Last(bs, TRANSPARENCY, 2))
  }

  lemma {:induction false} WinnersSnoc(bs: seq<Block>, b: Block)
    ensures forall id, least ::
      Last(bs + [b], id, least) == if b.id == id && b.Len() >= least then Some(|bs|) else Last(bs, id, least)
  {
    assert (bs + [b])[..|bs|] == bs;
  }

  /** The unchecked walk: it finds the parser's blocks without looking out of bounds. */
  method FindBlocks(res: seq<byte>) returns (bs: seq<Block>, w: Winners)
    requires Blocks(res, 0).Some?
    ensures Blocks(res, 0) == Some(bs) && w == WinnersOf(bs)
  {
    hide Blocks, Last, ReadUpTo;
    var pos: nat := 0;
    bs := [];
    w := Winners(None, None, None, None, None);
    ReadNone(res);
    NoWinners();
    while pos < |res|
      invariant ReadUpTo(res, bs, pos) && w == WinnersOf(bs)
      decreases |res| - pos
    {
      ReadOne(res, bs, pos);
      var sig := res[pos..pos + 4];
      if sig !in SIGNATURES { break; }
      var id := BeU16At(res, pos + 4);
      var nameLen := res[pos + 6];
      var lenOffset := pos + 6 + Evened(1 + nameLen as int);
      var dataLen := BeU32At(res, lenOffset);
      var dataStart := lenOffset + 4;
      var b := Block(pos, id, dataStart, dataStart + dataLen, Min(dataStart + Evened(dataLen), |res|));
      WinnersSnoc(bs, b);
      w := Updated(w, |bs|, id, dataLen);
      bs := bs + [b];
      pos := b.paddedEnd;
    }
    ReadAll(res, bs, pos);
  }

  function Updated(w: Winners, idx: nat, id: nat, dataLen: nat): (w': Winners) {
    if id == ICC && dataLen > 0 then w.(icc := Some(idx))
    else if id == EXIF_1 && dataLen > 0 then w.(exif1 := Some(idx))
    else if id == EXIF_3 && dataLen > 0 then w.(exif3 := Some(idx))
    else if id == XMP && dataLen > 0 then w.(xmp := Some(idx))
    else if id == TRANSPARENCY && dataLen >= 2 then w.(trans := Some(idx))
    else w
  }

  lemma {:induction false} NoWinners()
    ensures WinnersOf([]) == Winners(None, None, None, None, None)
  {
  }
}
