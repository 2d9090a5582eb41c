/**
 PIZ chunk framing: the nine fields of a compressed block, found by walking the
 packed Huffman code table with a bit accumulator that is never masked.
 */
module ExrPiz {
  import opened Wrappers
  import opened Bytes
  import opened Bits
  import opened Inventory

  const BITMAP_SIZE: nat := 8192
  const ENCODING_TABLE_SIZE: nat := 65537
  const SHORT_ZEROCODE_RUN: nat := 59
  const LONG_ZEROCODE_RUN: nat := 63
  const SHORTEST_LONG_RUN: nat := 2 + LONG_ZEROCODE_RUN - SHORT_ZEROCODE_RUN

  datatype PizError = Empty | Short | BitmapRange | HuffmanLength | CodeRange | BitCount | TableOverrun | BitsAfterTable

  // ---- Reference: the code table as a bit string ----

  /** Code lengths a table spells, and the bit offset after it. */
  datatype Table = Table(lengths: seq<nat>, end: nat)

  /** A table entry: `count` codes of the same length, and the bit after the entry. */
  datatype Run = Run(length: nat, count: nat, end: nat)

  /**
   The next entry at bit `o`: 6-bit lengths below 59 stand for themselves, 59..62
   for 2..5 zeros, 63 for 6 zeros plus an 8-bit count.
   */
  function Entry(t: seq<bit>, o: nat): (e: Option<Run>)
    ensures e.Some? ==> e.value.count >= 1 && o < e.value.end <= |t|
  {
    if o + 6 > |t| then None else
    var code := Value(t[o..o + 6]);
    if code < SHORT_ZEROCODE_RUN then Some(Run(code, 1, o + 6))
    else if code != LONG_ZEROCODE_RUN then Some(Run(0, code - SHORT_ZEROCODE_RUN + 2, o + 6))
    else if o + 14 > |t| then None
    else Some(Run(0, Value(t[o + 6..o + 14]) + SHORTEST_LONG_RUN, o + 14))
  }

  function Repeated(n: nat, count: nat): (s: seq<nat>)
    ensures |s| == count
  {
    seq(count, _ => n)
  }

  /** The entries from bit `o` that spell exactly `want` code lengths. */
  function CodeTable(t: seq<bit>, o: nat, want: nat): (r: Result<Table, PizError>)
    ensures r.Ok? ==> |r.value.lengths| == want
    decreases want
  {
    if want == 0 then Ok(Table([], o)) else
    match Entry(t, o)
    case None => Err(Short)
    case Some(e) =>
      if e.count > want then Err(TableOverrun) else
      match CodeTable(t, e.end, want - e.count)
      case Err(x) => Err(x)
      case Ok(rest) => Ok(Table(Repeated(e.length, e.count) + rest.lengths, rest.end))
  }

  lemma {:induction false} CodeTableEnds(t: seq<bit>, o: nat, want: nat)
    requires o <= |t|
    ensures CodeTable(t, o, want).Ok? ==> o <= CodeTable(t, o, want).value.end <= |t|
    decreases want
  {
    if want > 0 && Entry(t, o).Some? && Entry(t, o).value.count <= want {
      CodeTableEnds(t, Entry(t, o).value.end, want - Entry(t, o).value.count);
    }
  }

  // ---- The bit accumulator ----

  /**
   After consuming bit `o`, the low `have` bits of `bits` are the unread bits of
   the bytes before `pos`; the bits above them are whatever shifting left behind.
   */
  ghost predicate Accumulated(bytes: seq<byte>, o: nat, pos: nat, bits: nat, have: nat) {
    && pos <= |bytes| && bits < U64 && have < 16
    && o + have == 8 * pos
    && Spell(bits, have) == Unpacked(bytes)[o..o + have]
  }

  /** Shifting a byte in appends its bits to the unread ones. */
  lemma {:induction false} ShiftInByte(bytes: seq<byte>, o: nat, pos: nat, bits: nat, have: nat, shifted: nat)
    requires Accumulated(bytes, o, pos, bits, have) && pos < |bytes| && have < 8
    requires shifted < U64 && Spell(shifted, have + 8) == Spell(bits, have) + ByteBits(bytes[pos])
    ensures Accumulated(bytes, o, pos + 1, shifted, have + 8)
  {
    UnpackedAt(bytes, pos);
    SliceJoin(Unpacked(bytes), o, 8 * pos, 8 * pos + 8);
  }

  lemma {:induction false} AppendByte(bytes: seq<byte>, o: nat, pos: nat, bits: nat, have: nat)
    requires Accumulated(bytes, o, pos, bits, have) && pos < |bytes| && have < 8
    ensures Accumulated(bytes, o, pos + 1, (bits * 256 + bytes[pos]) % U64, have + 8)
  {
    SpellShiftedIn(bits, bytes[pos], have);
    ShiftInByte(bytes, o, pos, bits, have, (bits * 256 + bytes[pos]) % U64);
  }

  lemma {:induction false} TakeBits(bytes: seq<byte>, o: nat, pos: nat, bits: nat, have: nat, count: nat)
    requires Accumulated(bytes, o, pos, bits, have) && count <= have
    ensures Mask(Shr(bits, have - count), count) == Value(Unpacked(bytes)[o..o + count])
    ensures Accumulated(bytes, o + count, pos, bits, have - count)
  {
    var t, rest := Unpacked(bytes), have - count;
    SpellSplit(bits, count, rest);
    ValueSpell(Shr(bits, rest), count);
    assert t[o..o + have] == t[o..o + count] + t[o + count..o + have];
    Halves(Spell(Shr(bits, rest), count), Spell(bits, rest), t[o..o + count], t[o + count..o + have]);
  }

  /**
   `count` bits off the accumulator, most significant first. Fails exactly when
   fewer than `count` bits are left.
   */
  method ReadBits(bytes: seq<byte>, count: nat, pos0: nat, bits0: nat, have0: nat, ghost o: nat)
    returns (r: Result<nat, PizError>, pos: nat, bits: nat, have: nat)
    requires count <= 8 && have0 < 8 && Accumulated(bytes, o, pos0, bits0, have0)
    ensures r.Ok? <==> o + count <= 8 * |bytes|
    ensures r.Ok? ==> r.value == Value(Unpacked(bytes)[o..o + count])
    ensures r.Ok? ==> have < 8 && Accumulated(bytes, o + count, pos, bits, have)
    ensures r.Err? ==> r.error == Short
  {
    pos, bits, have := pos0, bits0, have0;
    while have < count
      invariant have < 16 && (have >= 8 ==> have < count + 8)
      invariant Accumulated(bytes, o, pos, bits, have)
      decreases count - have
    {
      if pos >= |bytes| {
        return Err(Short), pos, bits, have;
      }
      AppendByte(bytes, o, pos, bits, have);
      OrInByte(bits, bytes[pos]);
      bits := Or(bits * 256 % U64, bytes[pos]);
      have := have + 8;
      pos := pos + 1;
    }
    TakeBits(bytes, o, pos, bits, have, count);
    have := have - count;
    r := Ok(Mask(Shr(bits, have), count));
  }

  // ---- Framing ----

  datatype Field = Field(name: string, range: Range, disposition: Disposition)

  function PizBitmapEnd(bytes: seq<byte>): (end: nat)
    requires |bytes| >= 4
  {
    var lo, hi := U16At(bytes, 0), U16At(bytes, 2);
    4 + if lo <= hi then hi - lo + 1 else 0
  }

  /** What the framing demands before the code table is read. */
  function HeaderError(bytes: seq<byte>): (e: Option<PizError>)
    ensures e.None? ==> |bytes| >= 4 && PizBitmapEnd(bytes) + 24 <= |bytes|
  {
    if |bytes| == 0 then Some(Empty)
    else if |bytes| < 4 then Some(Short)
    else if U16At(bytes, 0) >= BITMAP_SIZE || U16At(bytes, 2) >= BITMAP_SIZE then Some(BitmapRange)
    else
      var huff := PizBitmapEnd(bytes) + 4;
      if huff > |bytes| then Some(Short)
      else if Signed32(U32At(bytes, huff - 4)) != |bytes| - huff then Some(HuffmanLength)
      else if huff + 20 > |bytes| then Some(Short)
      else if U32At(bytes, huff) >= ENCODING_TABLE_SIZE || U32At(bytes, huff + 4) >= ENCODING_TABLE_SIZE
      then Some(CodeRange)
      else if (U32At(bytes, huff + 12) + 7) / 8 > |bytes| - (huff + 20) then Some(BitCount)
      else None
  }

  /** Code lengths the header's code range asks for; an empty range asks for none. */
  function WantedCodes(bytes: seq<byte>): (n: nat)
    requires HeaderError(bytes).None?
  {
    var huff := PizBitmapEnd(bytes) + 4;
    var im, iMax := U32At(bytes, huff), U32At(bytes, huff + 4);
    if im <= iMax then iMax - im + 1 else 0
  }

  /** The code table of a chunk, per the reference. */
  function ChunkTable(bytes: seq<byte>): (r: Result<Table, PizError>)
    requires HeaderError(bytes).None?
    ensures r.Ok? ==> |r.value.lengths| == WantedCodes(bytes)
  {
    CodeTable(Unpacked(bytes), 8 * (PizBitmapEnd(bytes) + 24), WantedCodes(bytes))
  }

  /** The byte after the code table: its last bit rounded up. */
  function TableEnd(t: Table): (p: nat) { (t.end + 7) / 8 }

  /** Why a chunk's framing is refused, by the bit-string reference; `None` accepts it. */
  function FramingError(bytes: seq<byte>): (e: Option<PizError>) {
    if HeaderError(bytes).Some? then HeaderError(bytes) else
    match ChunkTable(bytes)
    case Err(x) => Some(x)
    case Ok(t) =>
      if U32At(bytes, PizBitmapEnd(bytes) + 16) > 8 * (|bytes| - TableEnd(t)) then Some(BitsAfterTable) else None
  }

  /** Where reading `want` code lengths from bit `o` ends, or why it fails. */
  function WalkEnd(t: seq<bit>, o: nat, want: nat): (r: Result<nat, PizError>) {
    match CodeTable(t, o, want)
    case Err(x) => Err(x)
    case Ok(table) => Ok(table.end)
  }

  lemma WalkDone(t: seq<bit>, o: nat)
    ensures WalkEnd(t, o, 0) == Ok(o)
  {
  }

  lemma WalkStep(t: seq<bit>, o: nat, want: nat)
    requires want > 0
    ensures match Entry(t, o)
      case None => WalkEnd(t, o, want) == Err(Short)
      case Some(e) =>
        if e.count > want then WalkEnd(t, o, want) == Err(TableOverrun)
        else WalkEnd(t, o, want) == WalkEnd(t, e.end, want - e.count)
  {
  }

  /** One table entry: how many code lengths it stands for. */
  method ReadRun(bytes: seq<byte>, pos0: nat, bits0: nat, have0: nat, ghost o: nat)
    returns (r: Result<nat, PizError>, pos: nat, bits: nat, have: nat)
    requires have0 < 8 && Accumulated(bytes, o, pos0, bits0, have0)
    ensures match Entry(Unpacked(bytes), o)
      case None => r == Err(Short)
      case Some(e) => r == Ok(e.count) && have < 8 && Accumulated(bytes, e.end, pos, bits, have)
  {
    hide Accumulated, Value, Unpacked;
    ghost var t := Unpacked(bytes);
    var code: Result<nat, PizError>;
    code, pos, bits, have := ReadBits(bytes, 6, pos0, bits0, have0, o);
    if code.Err? { return Err(Short), pos, bits, have; }
    SixBits(t[o..o + 6]);
    if code.value == LONG_ZEROCODE_RUN {
      code, pos, bits, have := ReadBits(bytes, 8, pos, bits, have, o + 6);
      if code.Err? { return Err(Short), pos, bits, have; }
      r := Ok(code.value + SHORTEST_LONG_RUN);
      assert Entry(t, o).value.end == o + 14;
    } else if code.value >= SHORT_ZEROCODE_RUN {
      r := Ok(code.value - SHORT_ZEROCODE_RUN + 2);
      assert Entry(t, o).value.end == o + 6;
    } else {
      r := Ok(1);
      assert Entry(t, o).value.end == o + 6;
    }
  }

  /**
   The packed code table from byte `table`: where it ends, counting code lengths
   without keeping them. Every run is at least 1, so the walk ends.
   */
  method ReadEncodingTable(bytes: seq<byte>, table: nat, im: nat, iMax: nat) returns (r: Result<nat, PizError>)
    requires table <= |bytes|
    ensures match CodeTable(Unpacked(bytes), 8 * table, if im <= iMax then iMax - im + 1 else 0)
      case Err(x) => r == Err(x)
      case Ok(t) => r == Ok(TableEnd(t))
  {
    hide Entry, CodeTable, Unpacked, Value;
    var pos: nat, bits: nat, have: nat := table, 0, 0;
    var index := im;
    ghost var want: nat := if im <= iMax then iMax - im + 1 else 0;
    ghost var o: nat := 8 * table;
    ghost var t := Unpacked(bytes);
    while index <= iMax
      invariant im <= index && (index <= iMax + 1 || index == im)
      invariant have < 8 && Accumulated(bytes, o, pos, bits, have)
      invariant 8 * table <= o
      invariant WalkEnd(t, 8 * table, want) == WalkEnd(t, o, if index <= iMax then iMax + 1 - index else 0)
      decreases iMax + 1 - index
    {
      WalkStep(t, o, iMax + 1 - index);
      var run: Result<nat, PizError>;
      run, pos, bits, have := ReadRun(bytes, pos, bits, have, o);
      if run.Err? { return Err(Short); }
      if run.value > 1 && index + run.value > iMax + 1 { return Err(TableOverrun); }
      o := Entry(t, o).value.end;
      index := index + run.value;
    }
    WalkDone(t, o);
    return Ok(pos);
  }

  /**
   The nine fields of a chunk: bitmap, code table and coded bits are image data,
   and exr ignores two words of the Huffman header.
   */
  function PizLayout(bitmapEnd: nat, tableEnd: nat, len: nat): (f: seq<Field>) {
    var huff := bitmapEnd + 4;
    [
      Field("PIZ bitmap range", Range(0, 4), Structure),
      Field("PIZ bitmap", Range(4, bitmapEnd), ImageData),
      Field("PIZ Huffman length", Range(bitmapEnd, huff), Structure),
      Field("Huffman code range", Range(huff, huff + 8), Structure),
      Field("Huffman table size", Range(huff + 8, huff + 12), Unreferenced),
      Field("Huffman bit count", Range(huff + 12, huff + 16), Structure),
      Field("Huffman reserved", Range(huff + 16, huff + 20), Unreferenced),
      Field("Huffman code table", Range(huff + 20, tableEnd), ImageData),
      Field("Huffman bits", Range(tableEnd, len), ImageData)
    ]
  }

  function RangesOf(f: seq<Field>): (s: seq<Range>)
    ensures |s| == |f| && forall i :: 0 <= i < |f| ==> s[i] == f[i].range
  {
    seq(|f|, i requires 0 <= i < |f| => f[i].range)
  }

  datatype PizHeader = PizHeader(bitmapEnd: nat, im: nat, iMax: nat, nBits: nat)

  /** The bitmap range, the Huffman length and the Huffman header, checked in file order. */
  method ReadPizHeader(bytes: seq<byte>) returns (r: Result<PizHeader, PizError>)
    ensures match HeaderError(bytes)
      case Some(e) => r == Err(e)
      case None =>
        var huff := PizBitmapEnd(bytes) + 4;
        r == Ok(PizHeader(huff - 4, U32At(bytes, huff), U32At(bytes, huff + 4), U32At(bytes, huff + 12)))
  {
    var len := |bytes|;
    if len == 0 { return Err(Empty); }
    if len < 4 { return Err(Short); }
    var lo, hi := U16At(bytes, 0), U16At(bytes, 2);
    if lo >= BITMAP_SIZE || hi >= BITMAP_SIZE { return Err(BitmapRange); }
    var bitmapEnd := 4 + if lo <= hi then hi - lo + 1 else 0;
    if bitmapEnd + 4 > len { return Err(Short); }
    var length := Signed32(U32At(bytes, bitmapEnd));
    var huff := bitmapEnd + 4;
    if length != len - huff { return Err(HuffmanLength); }
    if huff + 20 > len { return Err(Short); }
    var im, iMax, nBits := U32At(bytes, huff), U32At(bytes, huff + 4), U32At(bytes, huff + 12);
    if im >= ENCODING_TABLE_SIZE || iMax >= ENCODING_TABLE_SIZE { return Err(CodeRange); }
    if (nBits + 7) / 8 > len - (huff + 20) { return Err(BitCount); }
    r := Ok(PizHeader(bitmapEnd, im, iMax, nBits));
  }

  /**
   `piz_fields`: accepts exactly the chunks the reference accepts, for the same
   reason refuses the rest, and returns the nine fields.
   */
  method PizFields(bytes: seq<byte>) returns (r: Result<seq<Field>, PizError>)
    ensures match FramingError(bytes)
      case Some(e) => r == Err(e)
      case None =>
        r == Ok(PizLayout(PizBitmapEnd(bytes), TableEnd(ChunkTable(bytes).value), |bytes|))
  {
    var header := ReadPizHeader(bytes);
    if header.Err? { return Err(header.error); }
    var PizHeader(bitmapEnd, im, iMax, nBits) := header.value;
    var pos := ReadEncodingTable(bytes, bitmapEnd + 24, im, iMax);
    if pos.Err? { return Err(pos.error); }
    if nBits > 8 * (|bytes| - pos.value) { return Err(BitsAfterTable); }
    r := Ok(PizLayout(bitmapEnd, pos.value, |bytes|));
  }

  /** The nine fields of an accepted chunk tile it, in order. */
  lemma PizFieldsTile(bytes: seq<byte>)
    requires FramingError(bytes).None?
    ensures Tiling(RangesOf(PizLayout(PizBitmapEnd(bytes), TableEnd(ChunkTable(bytes).value), |bytes|)), 0, |bytes|)
  {
    CodeTableEnds(Unpacked(bytes), 8 * (PizBitmapEnd(bytes) + 24), WantedCodes(bytes));
  }
}
