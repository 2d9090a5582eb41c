/** The five sections of a file, found from their lengths. */
module PsdLayout {
  import opened Wrappers
  import opened Bytes
  import opened PsdHeader
  import opened PsdResources

  const RAW: nat := 0
  const RLE: nat := 1
  const ZIP: nat := 2
  const ZIP_PREDICTION: nat := 3

  /** Where the sections end; each but the header begins where the one before it ends. */
  datatype Layout = Layout(header: Header, compression: nat, colorEnd: nat, resourcesEnd: nat, layerStart: nat,
      layerEnd: nat) {
    function PayloadStart(): (n: nat) { layerEnd + 2 }

    /** The sections are in order and inside the file. */
    ghost predicate Valid(data: seq<byte>) {
      && Accepted(header) && compression <= ZIP_PREDICTION
      && HEADER_LEN + 4 <= colorEnd && colorEnd + 4 <= resourcesEnd < layerStart <= layerEnd && layerEnd + 2 <= |data|
      && Blocks(data[colorEnd + 4..resourcesEnd], 0).Some?
      && ColorModeFits(header.mode, colorEnd - HEADER_LEN - 4)
    }
  }

  function ColorModeFits(m: Mode, len: nat): (ok: bool) {
    if m.Indexed? then len == 768 else if m.Duotone? then len != 0 else len == 0
  }

  function ParseLayout(data: seq<byte>): (r: Result<Layout, PsdError>) {
    match ParseFileHeader(data)
    case Err(e) => Err(e)
    case Ok(h) =>
      if |data| < HEADER_LEN + 4 then Err(UnexpectedEof) else
      var colorEnd := HEADER_LEN + 4 + BeU32At(data, HEADER_LEN);
      if colorEnd > |data| then Err(UnexpectedEof)
      else if !ColorModeFits(h.mode, BeU32At(data, HEADER_LEN)) then Err(Malformed)
      else if colorEnd + 4 > |data| then Err(UnexpectedEof)
      else ParseResourcesOn(data, h, colorEnd)
  }

  function ParseResourcesOn(data: seq<byte>, h: Header, colorEnd: nat): (r: Result<Layout, PsdError>)
    requires colorEnd + 4 <= |data|
  {
    var resourcesEnd := colorEnd + 4 + BeU32At(data, colorEnd);
    if resourcesEnd > |data| then Err(UnexpectedEof)
    else if Blocks(data[colorEnd + 4..resourcesEnd], 0).None? then Err(Malformed)
    else
      var n := if h.large then 8 else 4;
      if resourcesEnd + n > |data| then Err(UnexpectedEof) else
      var layerStart := resourcesEnd + n;
      var layerEnd := layerStart + (if h.large then BeU64At(data, resourcesEnd) else BeU32At(data, resourcesEnd));
      if layerEnd >= U64 then Err(Malformed)
      else if layerEnd + 2 > |data| then Err(UnexpectedEof)
      else if BeU16At(data, layerEnd) > ZIP_PREDICTION then Err(UnsupportedCompression(BeU16At(data, layerEnd)))
      else Ok(Layout(h, BeU16At(data, layerEnd), colorEnd, resourcesEnd, layerStart, layerEnd))
  }

  /** A parsed layout's sections are in order, inside the file, and the resources are whole blocks. */
  lemma {:induction false} ParsedIsValid(data: seq<byte>)
    ensures ParseLayout(data).Ok? ==> ParseLayout(data).value.Valid(data)
  {
    hide ParseFileHeader, Blocks, BeU16At, BeU32At, BeU64At, Accepted;
    HeaderIsAccepted(data);
  }

  // ---- The sections' bytes ----

  /**
   Behind the header: the length of the color mode data and its bytes, that of the
   resources and theirs, that of the layers, in four bytes or eight, and theirs, and the
   compression; all big-endian.
   */
  ghost predicate SectionsHeld(data: seq<byte>, l: Layout) {
    && 30 <= l.colorEnd && l.colorEnd + 4 <= l.resourcesEnd && l.layerStart <= l.layerEnd
    && l.colorEnd - 30 < U32 && l.resourcesEnd - l.colorEnd - 4 < U32 && l.compression < U16
    && HoldsAt(data, 26, Be32(l.colorEnd - 30)) && HoldsAt(data, l.colorEnd, Be32(l.resourcesEnd - l.colorEnd - 4))
    && (if l.header.large then
          l.layerStart == l.resourcesEnd + 8 && l.layerEnd - l.layerStart < U64
          && HoldsAt(data, l.resourcesEnd, Be64(l.layerEnd - l.layerStart))
        else
          l.layerStart == l.resourcesEnd + 4 && l.layerEnd - l.layerStart < U32
          && HoldsAt(data, l.resourcesEnd, Be32(l.layerEnd - l.layerStart)))
    && HoldsAt(data, l.layerEnd, Be16(l.compression))
  }

  /** Only indexed files have color mode data, 768 bytes of it, and duotone ones some. */
  predicate ColorDataAllowed(mode: nat, len: nat) {
    if mode == 2 then len == 768 else if mode == 8 then len > 0 else len == 0
  }

  lemma {:induction false} ColorModeAllowed(m: Mode, len: nat)
    ensures ColorModeFits(m, len) <==> ColorDataAllowed(RawMode(m), len)
  {
  }

  /** Sections in the bytes are parsed as just those, when their contents are what the parser demands. */
  lemma {:induction false} HeldSectionsAreParsed(data: seq<byte>, l: Layout)
    requires ParseFileHeader(data) == Ok(l.header) && SectionsHeld(data, l) && l.layerEnd < U64
    ensures ParseLayout(data) ==
      if !ColorDataAllowed(RawMode(l.header.mode), l.colorEnd - 30) then Err(Malformed)
      else if Blocks(data[l.colorEnd + 4..l.resourcesEnd], 0).None? then Err(Malformed)
      else if l.compression > 3 then Err(UnsupportedCompression(l.compression))
      else Ok(l)
  {
    hide ParseFileHeader, Blocks, Be16, Be32, Be64, BeU16At, BeU32At, BeU64At;
    ReadBe32(data, 26, l.colorEnd - 30);
    ReadBe32(data, l.colorEnd, l.resourcesEnd - l.colorEnd - 4);
    if l.header.large {
      ReadBe64(data, l.resourcesEnd, l.layerEnd - l.layerStart);
    } else {
      ReadBe32(data, l.resourcesEnd, l.layerEnd - l.layerStart);
    }
    ReadBe16(data, l.layerEnd, l.compression);
    ColorModeAllowed(l.header.mode, l.colorEnd - 30);
  }

  /** And the sections of a parsed layout are in the bytes. */
  lemma {:induction false} ParsedSectionsAreHeld(data: seq<byte>)
    requires ParseLayout(data).Ok?
    ensures
      var l := ParseLayout(data).value;
      && SectionsHeld(data, l) && ParseFileHeader(data) == Ok(l.header) && l.compression <= 3
      && ColorDataAllowed(RawMode(l.header.mode), l.colorEnd - 30)
  {
    hide ParseFileHeader, Blocks, Be16, Be32, Be64, BeU16At, BeU32At, BeU64At, HoldsAt;
    var l := ParseLayout(data).value;
    HeldBe32(data, 26);
    HeldBe32(data, l.colorEnd);
    if l.header.large { HeldBe64(data, l.resourcesEnd); } else { HeldBe32(data, l.resourcesEnd); }
    HeldBe16(data, l.layerEnd);
    ColorModeAllowed(l.header.mode, l.colorEnd - 30);
  }

  /** The length of the layers, in eight bytes of the large format or four. */
  ghost predicate LayerLengthHeld(data: seq<byte>, large: bool, at: nat, n: nat) {
    if large then n < U64 && HoldsAt(data, at, Be64(n)) else n < U32 && HoldsAt(data, at, Be32(n))
  }

  /**
   Why sections are refused that break off or do not hold what they must, length by
   length in file order: `c` bytes of color mode data, `r` of resources and `n` of layers.
   */
  lemma {:induction false} LayoutRefusals(data: seq<byte>, h: Header, c: nat, r: nat, n: nat)
    requires ParseFileHeader(data) == Ok(h) && c < U32 && r < U32
    ensures |data| < 30 ==> ParseLayout(data) == Err(UnexpectedEof)
    ensures HoldsAt(data, 26, Be32(c)) ==>
      && (30 + c > |data| ==> ParseLayout(data) == Err(UnexpectedEof))
      && (30 + c <= |data| && !ColorDataAllowed(RawMode(h.mode), c) ==> ParseLayout(data) == Err(Malformed))
      && (30 + c <= |data| < 34 + c && ColorDataAllowed(RawMode(h.mode), c) ==>
            ParseLayout(data) == Err(UnexpectedEof))
    ensures
      var (from, end, size) := (34 + c, 34 + c + r, if h.large then 8 else 4);
      HoldsAt(data, 26, Be32(c)) && ColorDataAllowed(RawMode(h.mode), c) && HoldsAt(data, 30 + c, Be32(r)) ==>
        && (end > |data| ==> ParseLayout(data) == Err(UnexpectedEof))
        && (end <= |data| ==>
              && (Blocks(data[from..end], 0).None? ==> ParseLayout(data) == Err(Malformed))
              && (Blocks(data[from..end], 0).Some? ==>
                    && (end + size > |data| ==> ParseLayout(data) == Err(UnexpectedEof))
                    && (LayerLengthHeld(data, h.large, end, n) ==>
                          && (end + size + n >= U64 ==> ParseLayout(data) == Err(Malformed))
                          && (end + size + n < U64 && end + size + n + 2 > |data| ==>
                                ParseLayout(data) == Err(UnexpectedEof)))))
  {
    hide ParseFileHeader, Blocks, Be16, Be32, Be64, BeU16At, BeU32At, BeU64At;
    ColorModeAllowed(h.mode, c);
    if HoldsAt(data, 26, Be32(c)) {
      ReadBe32(data, 26, c);
      if HoldsAt(data, 30 + c, Be32(r)) {
        ReadBe32(data, 30 + c, r);
        if LayerLengthHeld(data, h.large, 34 + c + r, n) { LayerLengthIs(data, h.large, 34 + c + r, n); }
      }
    }
  }

  lemma {:induction false} LayerLengthIs(data: seq<byte>, large: bool, at: nat, n: nat)
    requires LayerLengthHeld(data, large, at, n)
    ensures at + (if large then 8 else 4) <= |data|
    ensures n == if large then BeU64At(data, at) else BeU32At(data, at)
  {
    if large { ReadBe64(data, at, n); } else { ReadBe32(data, at, n); }
  }
}
