/** The merged image: four compressions, one picture. */
module PsdMerged {
  import opened Wrappers
  import opened Bytes
  import opened Planes
  import Bits
  import opened PsdPredictor
  import opened PsdHeader
  import opened PsdInterleave
  import opened PsdPackBits
  import opened PsdPlanes
  import Zip = PsdZip
  import opened PsdLayout

  datatype MergedError = UnexpectedEnd | BadRle(rle: PlaneError) | ZipOfBitmap | BadZip(zip: Zip.ZipError)

  // ---- Sizes ----

  /** No product of an accepted header's dimensions overflows 64 bits. */
  lemma {:induction false} SizesFit(h: Header)
    requires Accepted(h)
    ensures UsedChannels(h) <= h.channels && UsedChannels(h) * PlaneBytesOf(h) <= h.channels * PlaneBytesOf(h) < U64
    ensures UsedLines(h) <= Lines(h) && TableBytes(h) < U64
  {
    hide Accepted;
    DimensionsBounded(h);
    var plane := PlaneBytesOf(h);
    Bits.MulStep(RowBytesOf(h), 4 * MAX_PSB_DIMENSION, h.height);
    Bits.MulStep(h.height, MAX_PSB_DIMENSION, 4 * MAX_PSB_DIMENSION);
    Bits.MulStep(h.channels, MAX_CHANNELS, plane);
    Bits.MulStep(h.channels, MAX_CHANNELS, h.height);
    Bits.MulStep(UsedChannels(h), h.channels, plane);
    Bits.MulStep(UsedChannels(h), h.channels, h.height);
  }

  lemma {:induction false} DimensionsBounded(h: Header)
    requires Accepted(h)
    ensures UsedChannels(h) <= h.channels <= MAX_CHANNELS && 0 < h.height <= MAX_PSB_DIMENSION && h.channels > 0
    ensures 0 < RowBytesOf(h) <= 4 * MAX_PSB_DIMENSION
  {
  }

  /** Scanlines of all channels and of the used ones, and the bytes of a table of all. */
  function Lines(h: Header): (n: nat) { h.channels * h.height }

  function UsedLines(h: Header): (n: nat) { UsedChannels(h) * h.height }

  function TableBytes(h: Header): (n: nat) { Lines(h) * CountSize(h.large) }

  /** Scanlines of all used channels are the used planes. */
  lemma {:induction false} LinesArePlanes(channels: nat, height: nat, rowBytes: nat)
    ensures channels * height * rowBytes == channels * (rowBytes * height)
  {
  }

  // ---- Prediction, plane by plane ----

  function UndonePlane(plane: seq<byte>, h: Header): (r: seq<byte>)
    requires |plane| == PlaneBytesOf(h)
    ensures |r| == |plane|
  {
    Undone(plane, h.width, h.height, h.depth)
  }

  function PredictedPlane(plane: seq<byte>, h: Header): (r: seq<byte>)
    requires |plane| == PlaneBytesOf(h)
    ensures |r| == |plane|
  {
    Predicted(plane, h.width, h.height, h.depth)
  }

  lemma {:induction false} PredictedBack(plane: seq<byte>, h: Header)
    requires |plane| == PlaneBytesOf(h)
    ensures UndonePlane(PredictedPlane(plane, h), h) == plane
  {
    hide Undone, Predicted, ScanlineBytes;
    UndoneInverse(plane, h.width, h.height, h.depth);
  }

  function UndonePlanes(planes: seq<byte>, n: nat, h: Header): (r: seq<byte>)
    requires |planes| == n * PlaneBytesOf(h)
    ensures |r| == |planes|
    decreases n
  {
    if n == 0 then planes
    else
      var p := PlaneBytesOf(h);
      RowFits(n, p);
      UndonePlane(planes[..p], h) + UndonePlanes(planes[p..], n - 1, h)
  }

  function PredictedPlanes(planes: seq<byte>, n: nat, h: Header): (r: seq<byte>)
    requires |planes| == n * PlaneBytesOf(h)
    ensures |r| == |planes|
    decreases n
  {
    if n == 0 then planes
    else
      var p := PlaneBytesOf(h);
      RowFits(n, p);
      PredictedPlane(planes[..p], h) + PredictedPlanes(planes[p..], n - 1, h)
  }

  /** Undoing the first `k` of `n` predicted planes gives those planes, whatever comes after. */
  lemma {:induction false} PlanesUndone(planes: seq<byte>, n: nat, k: nat, h: Header)
    requires |planes| == n * PlaneBytesOf(h) && k <= n && k * PlaneBytesOf(h) <= |planes|
    ensures UndonePlanes(PredictedPlanes(planes, n, h)[..k * PlaneBytesOf(h)], k, h) == planes[..k * PlaneBytesOf(h)]
    decreases k
  {
    hide UndonePlane, PredictedPlane, PlaneBytesOf;
    var p := PlaneBytesOf(h);
    if k > 0 {
      RowFits(n, p);
      RowFits(k, p);
      var head, tail := PredictedPlane(planes[..p], h), PredictedPlanes(planes[p..], n - 1, h);
      PredictedBack(planes[..p], h);
      PlanesUndone(planes[p..], n - 1, k - 1, h);
      FrontOf(head, tail, k * p);
      FrontOf(planes[..p], planes[p..], k * p);
      assert planes[..p] + planes[p..] == planes;
    }
  }

  lemma {:induction false} FrontOf(a: seq<byte>, b: seq<byte>, n: nat)
    requires |a| <= n <= |a| + |b|
    ensures (a + b)[..n] == a + b[..n - |a|]
    ensures (a + b)[..n][..|a|] == a && (a + b)[..n][|a|..] == b[..n - |a|]
  {
  }

  /** What is left to undo starts at `at`. */
  ghost predicate LeftToUndo(now: seq<byte>, at: nat, left: nat, h: Header, target: seq<byte>) {
    && at <= |now| && |now| - at == left * PlaneBytesOf(h)
    && now[..at] + UndonePlanes(now[at..], left, h) == target
  }

  lemma {:induction false} PlaneUndone(now: seq<byte>, at: nat, left: nat, h: Header, target: seq<byte>)
    requires LeftToUndo(now, at, left, h, target) && left > 0
    ensures at + PlaneBytesOf(h) <= |now|
    ensures
      var plane := UndonePlane(now[at..at + PlaneBytesOf(h)], h);
      LeftToUndo(Spliced(now, at, plane), at + PlaneBytesOf(h), left - 1, h, target)
  {
    hide UndonePlane, PlaneBytesOf;
    var p := PlaneBytesOf(h);
    RowFits(left, p);
    assert now[at..][..p] == now[at..at + p] && now[at..][p..] == now[at + p..];
    var plane := UndonePlane(now[at..at + p], h);
    var later := Spliced(now, at, plane);
    assert later[..at + p] == now[..at] + plane && later[at + p..] == now[at + p..];
    Assoc(now[..at], plane, UndonePlanes(now[at + p..], left - 1, h));
  }

  lemma {:induction false} NothingUndone(now: seq<byte>, n: nat, h: Header)
    requires |now| == n * PlaneBytesOf(h)
    ensures LeftToUndo(now, 0, n, h, UndonePlanes(now, n, h))
  {
    hide UndonePlanes;
    assert now[0..] == now && now[..0] + UndonePlanes(now, n, h) == UndonePlanes(now, n, h);
  }

  lemma {:induction false} AllUndone(now: seq<byte>, at: nat, h: Header, target: seq<byte>)
    requires LeftToUndo(now, at, 0, h, target)
    ensures now == target
  {
    assert now[..at] + [] == now;
  }

  /** The prediction undone in each of `n` planes of one buffer. */
  method UndoPlanes(buf: array<byte>, n: nat, h: Header)
    requires buf.Length == n * PlaneBytesOf(h)
    modifies buf
    ensures buf[..] == UndonePlanes(old(buf[..]), n, h)
  {
    hide LeftToUndo, UndonePlanes, Undone, Spliced, ScanlineBytes;
    ghost var target := UndonePlanes(buf[..], n, h);
    NothingUndone(buf[..], n, h);
    var ch: nat, at: nat := 0, 0;
    while ch < n
      invariant ch <= n && LeftToUndo(buf[..], at, n - ch, h, target)
    {
      PlaneUndone(buf[..], at, n - ch, h, target);
      assert buf[..][at..at + PlaneBytesOf(h)] == buf[at..at + PlaneBytesOf(h)];
      ApplyZipPrediction(buf, at, h.width, h.height, h.depth);
      at := at + PlaneBytesOf(h);
      ch := ch + 1;
    }
    AllUndone(buf[..], at, h, target);
  }

  // ---- What the section says ----

  /** The used planes an RLE payload gives. */
  function RleOf(h: Header, payload: seq<byte>): (r: Result<(seq<byte>, nat), PlaneError>)
    requires Accepted(h)
  {
    UsedAtMostAll(h);
    RlePlanes(payload, h.large, Lines(h), UsedLines(h), RowBytesOf(h))
  }

  lemma {:induction false} RleLength(h: Header, payload: seq<byte>)
    requires Accepted(h)
    ensures RleOf(h, payload).Ok? ==> |RleOf(h, payload).value.0| == UsedChannels(h) * PlaneBytesOf(h)
  {
    hide Accepted, RowsOf, LinesLength, ScanlineBytes, UsedChannels;
    UsedAtMostAll(h);
    if RleOf(h, payload).Ok? {
      LinesMonotone(payload, h.large, UsedLines(h), Lines(h));
      RowsLength(payload, h.large, TableBytes(h), RowBytesOf(h), UsedLines(h));
      LinesArePlanes(UsedChannels(h), h.height, RowBytesOf(h));
    }
  }

  /** The used planes, given what the payload's zlib streams hold; nothing if the payload cannot be read. */
  function PlanesOf(h: Header, compression: nat, payload: seq<byte>, plain: seq<byte>): (r: Option<seq<byte>>)
    requires Accepted(h)
    ensures r.Some? ==> |r.value| == UsedChannels(h) * PlaneBytesOf(h)
  {
    SizesFit(h);
    var (all, used) := (h.channels * PlaneBytesOf(h), UsedChannels(h) * PlaneBytesOf(h));
    if compression == RAW then if |payload| < all then None else Some(payload[..used])
    else if compression == RLE then
      RleLength(h, payload);
      if RleOf(h, payload).Ok? then Some(RleOf(h, payload).value.0) else None
    else if h.depth.One? || payload == [] || |plain| < all then None
    else if compression == ZIP then Some(plain[..used])
    else Some(UndonePlanes(plain[..used], UsedChannels(h), h))
  }

  /** `end` is where a successful decode of the image data stops. */
  ghost predicate Decoded(data: seq<byte>, l: Layout, end: nat)
    requires l.Valid(data)
  {
    var (h, start) := (l.header, l.PayloadStart());
    if l.compression == RAW then end == start + h.channels * PlaneBytesOf(h) <= |data|
    else if l.compression == RLE then RleOf(h, data[start..]).Ok? && end == start + RleOf(h, data[start..]).value.1
    else start <= end <= |data|
  }

  /** The image a file's used planes make. */
  function ImageOf(data: seq<byte>, l: Layout, transparency: Option<nat>, little: bool, planes: seq<byte>): (im: Image)
    requires HEADER_LEN + 4 <= l.colorEnd <= |data|
  {
    var palette := if l.header.mode.Indexed? then Some(data[HEADER_LEN + 4..l.colorEnd]) else None;
    Image(planes, l.header, transparency, palette, little)
  }

  lemma {:induction false} ImageIsValid(data: seq<byte>, l: Layout, transparency: Option<nat>, little: bool,
      planes: seq<byte>)
    requires l.Valid(data) && |planes| == UsedChannels(l.header) * PlaneBytesOf(l.header)
    ensures HEADER_LEN + 4 <= l.colorEnd <= |data|
    ensures
      var im := ImageOf(data, l, transparency, little, planes);
      && im.Valid() && ArmOf(im.header.mode, im.header.depth, im.Alpha()).Some?
      && (im.header.mode.Indexed? ==> im.palette.Some?)
  {
    hide Accepted, UsedChannels, ArmOf, HasAlpha;
    AcceptedHasArm(l.header, ImageOf(data, l, transparency, little, planes).Alpha());
  }

  lemma {:induction false} IndexedMode(m: Mode, d: Depth, alpha: bool)
    ensures ArmOf(m, d, alpha) == Some(IndexedArm) ==> m.Indexed?
  {
  }

  /** An inflater that does its part: lively, on streams that end on channel boundaries and lie in the payload. */
  ghost predicate Smooth(z: Zip.Inflater, h: Header, payload: seq<byte>) {
    z.lively && |payload| >= Zip.Lens(z.members)
    && Zip.SplitsPlanes(z.members, PlaneBytesOf(h), h.channels * PlaneBytesOf(h))
  }

  // ---- Reading it ----

  /** How many bytes of the payload a successful reading takes. */
  ghost predicate Takes(h: Header, compression: nat, payload: seq<byte>, n: nat)
    requires Accepted(h)
  {
    && n <= |payload|
    && (compression == RAW ==> n == h.channels * PlaneBytesOf(h))
    && (compression == RLE ==> RleOf(h, payload).Ok? && n == RleOf(h, payload).value.1)
  }

  method ReadRaw(h: Header, payload: seq<byte>) returns (r: Result<(array<byte>, nat), MergedError>)
    requires Accepted(h)
    ensures match r
      case Ok((buf, n)) => fresh(buf) && PlanesOf(h, RAW, payload, []) == Some(buf[..]) && Takes(h, RAW, payload, n)
      case Err(_) => PlanesOf(h, RAW, payload, []).None?
  {
    hide Accepted, UsedChannels, PlaneBytesOf;
    SizesFit(h);
    var (all, used) := (h.channels * PlaneBytesOf(h), UsedChannels(h) * PlaneBytesOf(h));
    if |payload| < all { return Err(UnexpectedEnd); }
    var buf := new byte[used](_ => 0);
    CopyInto(buf, 0, payload[..used]);
    assert buf[..] == buf[0..0 + used];
    r := Ok((buf, all));
  }

  method ReadRle(h: Header, payload: seq<byte>) returns (r: Result<(array<byte>, nat), MergedError>)
    requires Accepted(h)
    ensures match r
      case Ok((buf, n)) => fresh(buf) && PlanesOf(h, RLE, payload, []) == Some(buf[..]) && Takes(h, RLE, payload, n)
      case Err(_) => PlanesOf(h, RLE, payload, []).None?
  {
    hide Accepted, UsedChannels, ScanlineBytes, RlePlanes;
    SizesFit(h);
    LinesArePlanes(UsedChannels(h), h.height, RowBytesOf(h));
    var buf := new byte[UsedChannels(h) * PlaneBytesOf(h)](_ => 0);
    var rows := DecodeRlePlanes(payload, h.large, Lines(h), UsedLines(h), RowBytesOf(h), buf);
    if rows.Err? { return Err(BadRle(rows.error)); }
    r := Ok((buf, rows.value));
  }

  method ReadZip(h: Header, compression: nat, payload: seq<byte>, z: Zip.Inflater)
    returns (r: Result<(array<byte>, nat), MergedError>)
    requires Accepted(h) && (compression == ZIP || compression == ZIP_PREDICTION)
    requires z.Valid() && z.Consumed() == 0 && z.Produced() == 0
    modifies z
    ensures match r
      case Ok((buf, n)) =>
        && fresh(buf) && PlanesOf(h, compression, payload, Zip.Plain(z.members)) == Some(buf[..])
        && Takes(h, compression, payload, n) && z.Valid() && n == z.Consumed()
      case Err(_) => PlanesOf(h, compression, payload, Zip.Plain(z.members)).None? || !Smooth(z, h, payload)
  {
    hide Accepted, UsedChannels, PlaneBytesOf, UndonePlanes, Zip.Plain, Zip.Lens, Zip.SplitsPlanes;
    SizesFit(h);
    if h.depth.One? { return Err(ZipOfBitmap); }
    var inflated := Zip.DecompressZipPlanes(z, |payload|, PlaneBytesOf(h), UsedChannels(h), h.channels);
    if inflated.Err? { return Err(BadZip(inflated.error)); }
    var (buf, n) := inflated.value;
    if compression == ZIP_PREDICTION { UndoPlanes(buf, UsedChannels(h), h); }
    r := Ok((buf, n));
  }

  /** The compressed planes, whichever of the four ways they are stored. */
  method ReadPlanes(h: Header, compression: nat, payload: seq<byte>, z: Zip.Inflater)
    returns (r: Result<(array<byte>, nat), MergedError>)
    requires Accepted(h) && compression <= ZIP_PREDICTION
    requires z.Valid() && z.Consumed() == 0 && z.Produced() == 0
    modifies z
    ensures match r
      case Ok((buf, n)) =>
        && fresh(buf) && PlanesOf(h, compression, payload, Zip.Plain(z.members)) == Some(buf[..])
        && Takes(h, compression, payload, n) && (compression >= ZIP ==> z.Valid() && n == z.Consumed())
      case Err(_) =>
        PlanesOf(h, compression, payload, Zip.Plain(z.members)).None? || (compression >= ZIP && !Smooth(z, h, payload))
  {
    hide Accepted, Smooth, Takes;
    if compression == RAW { r := ReadRaw(h, payload); }
    else if compression == RLE { r := ReadRle(h, payload); }
    else { r := ReadZip(h, compression, payload, z); }
  }

  /** The image data can be read, and `pixels` are those of the image its planes make. */
  ghost predicate Shows(data: seq<byte>, l: Layout, plain: seq<byte>, transparency: Option<nat>, little: bool,
      pixels: seq<byte>)
    requires l.Valid(data)
  {
    var planes := PlanesOf(l.header, l.compression, data[l.PayloadStart()..], plain);
    && planes.Some?
    && (ImageIsValid(data, l, transparency, little, planes.value);
        var im := ImageOf(data, l, transparency, little, planes.value);
        exists arm :: Readable(im, arm) && Pictured(im, arm, pixels))
  }

  /**
   `decode_merged_image`: fails exactly when the section cannot be read, given an
   inflater that does its part, and otherwise gives every pixel of the image the used
   planes make, and where the image data stops.
   */
  method DecodeMergedImage(data: seq<byte>, l: Layout, transparency: Option<nat>, little: bool, z: Zip.Inflater)
    returns (r: Result<(array<byte>, nat), MergedError>)
    requires l.Valid(data)
    requires z.Valid() && z.Consumed() == 0 && z.Produced() == 0
    modifies z
    ensures
      var (payload, plain) := (data[l.PayloadStart()..], Zip.Plain(z.members));
      match r
      case Ok((pixels, end)) =>
        && Shows(data, l, plain, transparency, little, pixels[..]) && Decoded(data, l, end)
        && (l.compression >= ZIP ==> z.Valid() && end == l.PayloadStart() + z.Consumed())
      case Err(_) =>
        PlanesOf(l.header, l.compression, payload, plain).None? ||
          (l.compression >= ZIP && !Smooth(z, l.header, payload))
  {
    hide Accepted, PlanesOf, Smooth, RleOf, ArmOf, Pictured;
    var payload := data[l.PayloadStart()..];
    var read := ReadPlanes(l.header, l.compression, payload, z);
    if read.Err? { return Err(read.error); }
    var (buf, n) := read.value;
    ImageIsValid(data, l, transparency, little, buf[..]);
    var im := ImageOf(data, l, transparency, little, buf[..]);
    IndexedMode(im.header.mode, im.header.depth, im.Alpha());
    var out := InterleavePlanes(im);
    TakesIsDecoded(data, l, n);
    r := Ok((out.value, l.PayloadStart() + n));
  }

  lemma {:induction false} TakesIsDecoded(data: seq<byte>, l: Layout, n: nat)
    requires l.Valid(data) && Takes(l.header, l.compression, data[l.PayloadStart()..], n)
    ensures Decoded(data, l, l.PayloadStart() + n)
  {
    hide Accepted, RleOf, PlaneBytesOf;
  }

  // ---- Whatever the compression ----

  /** Row `line` of planes of rows. */
  function RowIn(planes: seq<byte>, rowBytes: nat, line: nat): (row: seq<byte>)
    requires (line + 1) * rowBytes <= |planes|
  {
    Bits.MulStep(line, line + 1, rowBytes);
    planes[line * rowBytes..(line + 1) * rowBytes]
  }

  /** Every scanline but the unused ones spells its row in some tokens. */
  ghost predicate Packs(h: Header, payload: seq<byte>, planes: seq<byte>)
    requires Accepted(h) && |planes| == h.channels * PlaneBytesOf(h)
  {
    && TableBytes(h) + LinesLength(payload, h.large, Lines(h)) <= |payload| < U64
    && PacksRows(payload, h.large, TableBytes(h), RowBytesOf(h), planes, UsedLines(h))
  }

  ghost predicate PacksRows(payload: seq<byte>, large: bool, tableBytes: nat, rowBytes: nat, planes: seq<byte>,
      k: nat) {
    forall line: nat :: line < k ==> PacksRow(payload, large, tableBytes, rowBytes, planes, line)
  }

  ghost predicate PacksRow(payload: seq<byte>, large: bool, tableBytes: nat, rowBytes: nat, planes: seq<byte>,
      line: nat) {
    && tableBytes + LinesLength(payload, large, line + 1) <= |payload| && (line + 1) * rowBytes <= |planes|
    && Unpacks(LineSource(payload, large, tableBytes, line), RowIn(planes, rowBytes, line))
  }

  /** The payload, with the streams it holds, stores the planes of all channels. */
  ghost predicate Stores(h: Header, compression: nat, payload: seq<byte>, plain: seq<byte>, planes: seq<byte>)
    requires Accepted(h) && |planes| == h.channels * PlaneBytesOf(h)
  {
    if compression == RAW then planes <= payload
    else if compression == RLE then Packs(h, payload, planes)
    else
      !h.depth.One? && payload != []
      && plain == if compression == ZIP then planes else PredictedPlanes(planes, h.channels, h)
  }

  /** Rows packed one by one are the planes' bytes. */
  lemma {:induction false} PackedRows(payload: seq<byte>, large: bool, tableBytes: nat, rowBytes: nat,
      planes: seq<byte>, k: nat)
    requires tableBytes + LinesLength(payload, large, k) <= |payload| && k * rowBytes <= |planes|
    requires PacksRows(payload, large, tableBytes, rowBytes, planes, k)
    ensures RowsOf(payload, large, tableBytes, rowBytes, k) == Ok(planes[..k * rowBytes])
    decreases k
  {
    hide RowOf, LineSource, Unpacks, LineLength;
    if k > 0 {
      Bits.MulStep(k - 1, k, rowBytes);
      PackedRows(payload, large, tableBytes, rowBytes, planes, k - 1);
      assert PacksRow(payload, large, tableBytes, rowBytes, planes, k - 1);
      var row := RowIn(planes, rowBytes, k - 1);
      StepProduct(k - 1, k, rowBytes);
      AcceptedIffUnpacks(LineSource(payload, large, tableBytes, k - 1), rowBytes, row);
      assert planes[..k * rowBytes] == planes[..(k - 1) * rowBytes] + row;
    }
  }

  /** Whatever the compression, the planes read are the used channels of the planes stored. */
  lemma {:induction false} StoredIsRead(h: Header, compression: nat, payload: seq<byte>, plain: seq<byte>,
      planes: seq<byte>)
    requires Accepted(h) && |planes| == h.channels * PlaneBytesOf(h)
    requires Stores(h, compression, payload, plain, planes)
    ensures UsedChannels(h) * PlaneBytesOf(h) <= |planes|
    ensures PlanesOf(h, compression, payload, plain) == Some(planes[..UsedChannels(h) * PlaneBytesOf(h)])
  {
    hide Accepted, UsedChannels, PlaneBytesOf, UndonePlanes, PredictedPlanes, Packs, RleOf;
    SizesFit(h);
    if compression == RAW {
      PrefixOfPrefix(planes, payload, UsedChannels(h) * PlaneBytesOf(h));
    } else if compression == RLE {
      PackedIsRead(h, payload, planes);
    } else if compression != ZIP {
      PlanesUndone(planes, h.channels, UsedChannels(h), h);
    }
  }

  lemma {:induction false} PrefixOfPrefix(a: seq<byte>, b: seq<byte>, n: nat)
    requires a <= b && n <= |a|
    ensures b[..n] == a[..n]
  {
  }

  lemma {:induction false} PackedIsRead(h: Header, payload: seq<byte>, planes: seq<byte>)
    requires Accepted(h) && |planes| == h.channels * PlaneBytesOf(h) && Packs(h, payload, planes)
    ensures UsedChannels(h) * PlaneBytesOf(h) <= |planes|
    ensures RleOf(h, payload).Ok? && RleOf(h, payload).value.0 == planes[..UsedChannels(h) * PlaneBytesOf(h)]
  {
    hide Accepted, UsedChannels, ScanlineBytes, PacksRows, RowsOf, LinesLength;
    SizesFit(h);
    UsedAtMostAll(h);
    LinesMonotone(payload, h.large, UsedLines(h), Lines(h));
    LinesArePlanes(UsedChannels(h), h.height, RowBytesOf(h));
    PackedRows(payload, h.large, TableBytes(h), RowBytesOf(h), planes, UsedLines(h));
  }

  /** So the picture is that of the used channels of the planes stored. */
  lemma {:induction false} StoredIsPictured(data: seq<byte>, l: Layout, plain: seq<byte>, planes: seq<byte>,
      transparency: Option<nat>, little: bool, pixels: seq<byte>) returns (im: Image, arm: Arm)
    requires l.Valid(data) && |planes| == l.header.channels * PlaneBytesOf(l.header)
    requires Stores(l.header, l.compression, data[l.PayloadStart()..], plain, planes)
    requires Shows(data, l, plain, transparency, little, pixels)
    ensures UsedChannels(l.header) * PlaneBytesOf(l.header) <= |planes| && HEADER_LEN + 4 <= l.colorEnd <= |data|
    ensures im == ImageOf(data, l, transparency, little, planes[..UsedChannels(l.header) * PlaneBytesOf(l.header)])
    ensures Readable(im, arm) && Pictured(im, arm, pixels)
  {
    hide Accepted, UsedChannels, PlaneBytesOf, PlanesOf, Stores, Pictured, Readable;
    StoredIsRead(l.header, l.compression, data[l.PayloadStart()..], plain, planes);
    im := ImageOf(data, l, transparency, little, planes[..UsedChannels(l.header) * PlaneBytesOf(l.header)]);
    ImageIsValid(data, l, transparency, little, im.planes);
    arm :| Readable(im, arm) && Pictured(im, arm, pixels);
  }

  /** Eight-bit gray and color planes come back from the pixels, whatever the compression. */
  lemma {:induction false} PictureKeepsPlanes(data: seq<byte>, l: Layout, plain: seq<byte>, planes: seq<byte>,
      transparency: Option<nat>, little: bool, pixels: seq<byte>)
    requires l.Valid(data) && |planes| == l.header.channels * PlaneBytesOf(l.header)
    requires Stores(l.header, l.compression, data[l.PayloadStart()..], plain, planes)
    requires Shows(data, l, plain, transparency, little, pixels)
    requires l.header.depth.Eight? && Plain(l.header.mode)
    ensures
      var (n, plane) := (UsedChannels(l.header), PlaneBytesOf(l.header));
      && n * plane <= |planes| && |pixels| == plane * n
      && Interleaved(pixels, n, plane, n) == planes[..n * plane]
  {
    hide UsedChannels, PlaneBytesOf, PlanesOf, Stores, Pictured, Shows;
    var im, arm := StoredIsPictured(data, l, plain, planes, transparency, little, pixels);
    PlainArm(im, arm);
    PixelsKeepPlanes(im, arm, pixels);
  }

  /** Modes whose output is the samples themselves. */
  predicate Plain(m: Mode) { m.Grayscale? || m.Duotone? || m.Rgb? }

  lemma {:induction false} PlainArm(im: Image, arm: Arm)
    requires Readable(im, arm) && Plain(im.header.mode)
    ensures (arm.GrayArm? || arm.RgbArm?) && (im.header.depth.Eight? ==> arm.n == 1)
  {
  }

  /** At every depth, files that show the same gray or color picture store the same used planes, in whatever ways. */
  lemma {:induction false} SamePictureSamePlanes(data: seq<byte>, l: Layout, plain: seq<byte>, planes: seq<byte>,
      data': seq<byte>, l': Layout, plain': seq<byte>, planes': seq<byte>,
      transparency: Option<nat>, little: bool, pixels: seq<byte>)
    requires l.Valid(data) && l'.Valid(data') && l.header == l'.header && Plain(l.header.mode)
    requires |planes| == |planes'| == l.header.channels * PlaneBytesOf(l.header)
    requires Stores(l.header, l.compression, data[l.PayloadStart()..], plain, planes)
    requires Stores(l'.header, l'.compression, data'[l'.PayloadStart()..], plain', planes')
    requires Shows(data, l, plain, transparency, little, pixels) &&
      Shows(data', l', plain', transparency, little, pixels)
    ensures
      var used := UsedChannels(l.header) * PlaneBytesOf(l.header);
      used <= |planes| && planes[..used] == planes'[..used]
  {
    hide UsedChannels, PlaneBytesOf, PlanesOf, Stores, Pictured, Shows;
    var im, arm := StoredIsPictured(data, l, plain, planes, transparency, little, pixels);
    var im', arm' := StoredIsPictured(data', l', plain', planes', transparency, little, pixels);
    PlainArm(im, arm);
    SameArm(im, arm, im', arm');
    PictureTellsPlanes(im, im'.planes, arm, pixels);
  }

  lemma {:induction false} SameArm(im: Image, arm: Arm, im': Image, arm': Arm)
    requires Readable(im, arm) && Readable(im', arm') && im' == im.(planes := im'.planes)
    ensures arm == arm'
  {
  }
}
