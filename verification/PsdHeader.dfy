/** The 26-byte file header, and what it settles about the merged image. */
module PsdHeader {
  import opened Wrappers
  import opened Bytes
  import opened PsdPredictor
  import Bits

  const HEADER_LEN: nat := 26
  const MAX_CHANNELS: nat := 56
  const MAX_PSD_DIMENSION: nat := 30_000
  const MAX_PSB_DIMENSION: nat := 300_000

  /** `8BPS`. */
  const SIGNATURE: seq<byte> := [0x38, 0x42, 0x50, 0x53]

  datatype Mode = Bitmap | Grayscale | Indexed | Rgb | Cmyk | Multichannel | Duotone | Lab

  datatype Header = Header(large: bool, channels: nat, height: nat, width: nat, depth: Depth, mode: Mode)

  datatype PsdError =
    | UnexpectedEof | InvalidSignature | UnsupportedVersion(version: nat)
    | InvalidDimensions(width: nat, height: nat, channels: nat)
    | UnsupportedBitDepth(raw: nat) | UnsupportedColorMode(raw: nat) | UnsupportedCompression(raw: nat)
    | Malformed

  function DepthOf(raw: nat): (d: Option<Depth>) {
    match raw
    case 1 => Some(One)
    case 8 => Some(Eight)
    case 16 => Some(Sixteen)
    case 32 => Some(ThirtyTwo)
    case _ => None
  }

  function ModeOf(raw: nat): (m: Option<Mode>) {
    match raw
    case 0 => Some(Bitmap)
    case 1 => Some(Grayscale)
    case 2 => Some(Indexed)
    case 3 => Some(Rgb)
    case 4 => Some(Cmyk)
    case 7 => Some(Multichannel)
    case 8 => Some(Duotone)
    case 9 => Some(Lab)
    case _ => None
  }

  function RawMode(m: Mode): (raw: nat)
    ensures ModeOf(raw) == Some(m)
  {
    match m
    case Bitmap => 0
    case Grayscale => 1
    case Indexed => 2
    case Rgb => 3
    case Cmyk => 4
    case Multichannel => 7
    case Duotone => 8
    case Lab => 9
  }

  /** Color channels before any alpha or spot channel. */
  function BaseChannels(m: Mode): (n: Option<nat>) {
    match m
    case Bitmap => Some(1)
    case Grayscale => Some(1)
    case Indexed => Some(1)
    case Duotone => Some(1)
    case Rgb => Some(3)
    case Cmyk => Some(4)
    case _ => None
  }

  predicate SupportsDepth(m: Mode, d: Depth) {
    match m
    case Bitmap => d.One?
    case Grayscale => !d.One?
    case Rgb => !d.One?
    case Indexed => d.Eight?
    case Duotone => d.Eight?
    case Cmyk => d.Eight? || d.Sixteen?
    case _ => false
  }

  /** `parse_file_header`, its checks in order. */
  function ParseFileHeader(data: seq<byte>): (r: Result<Header, PsdError>) {
    if |data| < 4 then Err(if data <= SIGNATURE then UnexpectedEof else InvalidSignature)
    else if data[..4] != SIGNATURE then Err(InvalidSignature)
    else if |data| < HEADER_LEN then Err(UnexpectedEof)
    else
      var version := BeU16At(data, 4);
      if version != 1 && version != 2 then Err(UnsupportedVersion(version)) else
      var max := if version == 1 then MAX_PSD_DIMENSION else MAX_PSB_DIMENSION;
      var (channels, height, width) := (BeU16At(data, 12), BeU32At(data, 14), BeU32At(data, 18));
      if channels == 0 || channels > MAX_CHANNELS || width == 0 || height == 0 || width > max || height > max
      then Err(InvalidDimensions(width, height, channels)) else
      var (rawDepth, rawMode) := (BeU16At(data, 22), BeU16At(data, 24));
      if DepthOf(rawDepth).None? then Err(UnsupportedBitDepth(rawDepth))
      else if ModeOf(rawMode).None? then Err(UnsupportedColorMode(rawMode))
      else
        var (depth, mode) := (DepthOf(rawDepth).value, ModeOf(rawMode).value);
        if !SupportsDepth(mode, depth) then
          Err(if mode.Multichannel? || mode.Lab? then UnsupportedColorMode(rawMode) else UnsupportedBitDepth(rawDepth))
        else if channels < BaseChannels(mode).value then Err(InvalidDimensions(width, height, channels))
        else Ok(Header(version == 2, channels, height, width, depth, mode))
  }

  /** What an accepted header promises the rest of the decoder. */
  ghost predicate Accepted(h: Header) {
    && SupportsDepth(h.mode, h.depth) && BaseChannels(h.mode).Some?
    && BaseChannels(h.mode).value <= h.channels <= MAX_CHANNELS
    && 0 < h.width <= MAX_PSB_DIMENSION && 0 < h.height <= MAX_PSB_DIMENSION
  }

  lemma {:induction false} HeaderIsAccepted(data: seq<byte>)
    ensures ParseFileHeader(data).Ok? ==> Accepted(ParseFileHeader(data).value)
  {
  }

  // ---- The header's bytes ----

  /** The numbers of a header, before anything is made of them. */
  datatype RawHeader = RawHeader(version: nat, channels: nat, height: nat, width: nat, depth: nat, mode: nat)

  /** Signature, version, six reserved bytes, channels, height, width, depth and mode, all big-endian. */
  ghost predicate HeaderHeld(data: seq<byte>, r: RawHeader) {
    && r.version < U16 && r.channels < U16 && r.height < U32 && r.width < U32 && r.depth < U16 && r.mode < U16
    && HoldsAt(data, 0, Ascii("8BPS")) && HoldsAt(data, 4, Be16(r.version)) && HoldsAt(data, 12, Be16(r.channels))
    && HoldsAt(data, 14, Be32(r.height)) && HoldsAt(data, 18, Be32(r.width))
    && HoldsAt(data, 22, Be16(r.depth)) && HoldsAt(data, 24, Be16(r.mode))
  }

  /** The pairs of mode and bits that are decoded, and the channels each mode needs at least. */
  const DECODED: map<(nat, nat), nat> := map[
    (0, 1) := 1, (1, 8) := 1, (1, 16) := 1, (1, 32) := 1, (2, 8) := 1, (3, 8) := 3, (3, 16) := 3, (3, 32) := 3,
    (4, 8) := 4, (4, 16) := 4, (8, 8) := 1]

  /** Bits of a sample. */
  function BitsOf(d: Depth): (n: nat) { match d case One => 1 case Eight => 8 case Sixteen => 16 case ThirtyTwo => 32 }

  /** A PSD of up to 30,000 pixels each way or a PSB of up to 300,000, of a pair that is decoded. */
  predicate Allowed(r: RawHeader) {
    && (r.version == 1 || r.version == 2)
    && 0 < r.height <= (if r.version == 1 then 30_000 else 300_000)
    && 0 < r.width <= (if r.version == 1 then 30_000 else 300_000)
    && (r.mode, r.depth) in DECODED && DECODED[(r.mode, r.depth)] <= r.channels <= 56
  }

  /** The header says just these numbers. */
  predicate Says(h: Header, r: RawHeader) {
    && h.large == (r.version == 2) && h.channels == r.channels && h.height == r.height && h.width == r.width
    && BitsOf(h.depth) == r.depth && RawMode(h.mode) == r.mode
  }

  lemma {:induction false} HeaderFields(data: seq<byte>, r: RawHeader)
    requires HeaderHeld(data, r)
    ensures |data| >= 26 && data[..4] == SIGNATURE && BeU16At(data, 4) == r.version && BeU16At(data, 12) == r.channels
    ensures BeU32At(data, 14) == r.height && BeU32At(data, 18) == r.width
    ensures BeU16At(data, 22) == r.depth && BeU16At(data, 24) == r.mode
  {
    assert Ascii("8BPS") == SIGNATURE;
    ReadBe16(data, 4, r.version);
    ReadBe16(data, 12, r.channels);
    ReadBe32(data, 14, r.height);
    ReadBe32(data, 18, r.width);
    ReadBe16(data, 22, r.depth);
    ReadBe16(data, 24, r.mode);
  }

  /** A header in the bytes is accepted exactly when the format allows its numbers, and says just them. */
  lemma {:induction false} HeldHeaderIsParsed(data: seq<byte>, r: RawHeader)
    requires HeaderHeld(data, r)
    ensures ParseFileHeader(data).Ok? <==> Allowed(r)
    ensures ParseFileHeader(data).Ok? ==> Says(ParseFileHeader(data).value, r)
  {
    hide BeU16At, BeU32At, HeaderHeld;
    HeaderFields(data, r);
    PairDecoded(r.mode, r.depth);
  }

  /** The table of pairs against the checks on mode, depth and channels. */
  lemma {:induction false} PairDecoded(mode: nat, depth: nat)
    ensures (mode, depth) in DECODED <==>
      ModeOf(mode).Some? && DepthOf(depth).Some? && SupportsDepth(ModeOf(mode).value, DepthOf(depth).value)
    ensures (mode, depth) in DECODED ==> BaseChannels(ModeOf(mode).value) == Some(DECODED[(mode, depth)])
    ensures ModeOf(mode).Some? ==> RawMode(ModeOf(mode).value) == mode
    ensures DepthOf(depth).Some? ==> BitsOf(DepthOf(depth).value) == depth
  {
  }

  /** And every accepted header is in the bytes. */
  lemma {:induction false} ParsedHeaderIsHeld(data: seq<byte>) returns (r: RawHeader)
    requires ParseFileHeader(data).Ok?
    ensures HeaderHeld(data, r) && Allowed(r) && Says(ParseFileHeader(data).value, r)
  {
    hide ParseFileHeader, BeU16At, BeU32At, Be16, Be32;
    LongEnough(data);
    r := RawHeader(BeU16At(data, 4), BeU16At(data, 12), BeU32At(data, 14), BeU32At(data, 18), BeU16At(data, 22),
                   BeU16At(data, 24));
    assert Ascii("8BPS") == SIGNATURE;
    HeldBe16(data, 4);
    HeldBe16(data, 12);
    HeldBe32(data, 14);
    HeldBe32(data, 18);
    HeldBe16(data, 22);
    HeldBe16(data, 24);
    HeldHeaderIsParsed(data, r);
  }

  lemma {:induction false} LongEnough(data: seq<byte>)
    requires ParseFileHeader(data).Ok?
    ensures |data| >= 26 && data[..4] == SIGNATURE
  {
    hide BeU16At, BeU32At;
  }

  /** Why a header is refused, by its bytes: the first check in the parser's order that fails. */
  lemma {:induction false} HeaderRefusals(data: seq<byte>, r: RawHeader)
    requires HeaderHeld(data, r) && !Allowed(r)
    ensures
      var (e, max) := (ParseFileHeader(data).error, if r.version == 1 then 30_000 else 300_000);
      if r.version != 1 && r.version != 2 then e == UnsupportedVersion(r.version)
      else if r.channels == 0 || r.channels > 56 || r.width == 0 || r.height == 0 || r.width > max || r.height > max
      then e == InvalidDimensions(r.width, r.height, r.channels)
      else if r.depth !in {1, 8, 16, 32} then e == UnsupportedBitDepth(r.depth)
      else if r.mode !in {0, 1, 2, 3, 4, 7, 8, 9} then e == UnsupportedColorMode(r.mode)
      else if (r.mode, r.depth) in DECODED then e == InvalidDimensions(r.width, r.height, r.channels)
      else e == if r.mode == 7 || r.mode == 9 then UnsupportedColorMode(r.mode) else UnsupportedBitDepth(r.depth)
  {
    hide BeU16At, BeU32At, HeaderHeld;
    HeaderFields(data, r);
    PairDecoded(r.mode, r.depth);
  }

  /** Too few bytes, or another signature. */
  lemma {:induction false} NoHeader(data: seq<byte>)
    requires |data| < 26 || !HoldsAt(data, 0, Ascii("8BPS"))
    ensures ParseFileHeader(data) ==
      Err(if data <= Ascii("8BPS") || HoldsAt(data, 0, Ascii("8BPS")) then UnexpectedEof
          else InvalidSignature)
  {
    assert Ascii("8BPS") == SIGNATURE;
  }

  predicate TakesAlpha(m: Mode) { m.Grayscale? || m.Duotone? || m.Rgb? || m.Cmyk? }

  /** Channels the decoder reads: the color channels, and one more if the mode takes an alpha channel and has it. */
  function UsedChannels(h: Header): (n: nat) {
    var base := if BaseChannels(h.mode).Some? then BaseChannels(h.mode).value else h.channels;
    if TakesAlpha(h.mode) && h.channels > base then base + 1 else base
  }

  /** Bytes of a scanline of one channel, and of a whole channel. */
  function RowBytesOf(h: Header): (n: nat) { ScanlineBytes(h.width, h.depth) }

  function PlaneBytesOf(h: Header): (n: nat) { RowBytesOf(h) * h.height }

  lemma {:induction false} UsedAtMostAll(h: Header)
    requires Accepted(h)
    ensures UsedChannels(h) <= h.channels && UsedChannels(h) * h.height <= h.channels * h.height
  {
    Bits.MulStep(UsedChannels(h), h.channels, h.height);
  }

  /** Whether the output has an alpha channel. */
  predicate HasAlpha(h: Header, transparency: Option<nat>) {
    if h.mode.Indexed? then transparency.Some? && transparency.value < 256
    else TakesAlpha(h.mode) && UsedChannels(h) > (if BaseChannels(h.mode).Some? then BaseChannels(h.mode).value else 0)
  }

  /**
   An indexed image has alpha when its transparent index is one; the others when they have
   a channel more than their colors: two in gray, four in RGB, five in CMYK.
   */
  lemma {:induction false} AlphaIs(h: Header, transparency: Option<nat>)
    requires Accepted(h)
    ensures HasAlpha(h, transparency) <==>
      match h.mode
      case Indexed => transparency.Some? && transparency.value <= 255
      case Grayscale => h.channels >= 2
      case Duotone => h.channels >= 2
      case Rgb => h.channels >= 4
      case Cmyk => h.channels >= 5
      case _ => false
  {
  }

  /** Bytes of one output pixel, from the output descriptor. */
  function BytesPerPixel(h: Header, alpha: bool): (n: nat) {
    match (h.mode, h.depth)
    case (Bitmap, _) => 1
    case (Grayscale, Eight) => if alpha then 2 else 1
    case (Duotone, Eight) => if alpha then 2 else 1
    case (Grayscale, Sixteen) => if alpha then 4 else 2
    case (Duotone, Sixteen) => if alpha then 4 else 2
    case (Grayscale, ThirtyTwo) => if alpha then 16 else 4
    case (Duotone, ThirtyTwo) => if alpha then 16 else 4
    case (Indexed, _) => if alpha then 4 else 3
    case (Rgb, Eight) => if alpha then 4 else 3
    case (Cmyk, Eight) => if alpha then 4 else 3
    case (Rgb, Sixteen) => if alpha then 8 else 6
    case (Cmyk, Sixteen) => if alpha then 8 else 6
    case (Rgb, ThirtyTwo) => if alpha then 16 else 12
    case _ => 4
  }
}
