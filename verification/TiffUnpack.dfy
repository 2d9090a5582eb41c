/** Unpacking samples narrower than a byte, and turning planes into pixels. */
module TiffUnpack {
  import opened Wrappers
  import opened Bytes
  import opened Bits
  import opened Planes

  datatype UnpackError = IntSizeOverflow | Truncated

  predicate SubByte(bits: nat) { 1 <= bits <= 7 }

  // ---- What a packed row says ----

  /** The next `n` samples of a bit string, most significant bit first. */
  function RowSamples(s: seq<bit>, bits: nat, n: nat): (r: seq<nat>)
    ensures |r| <= n
    decreases n
  {
    if n == 0 || |s| < bits then [] else [Value(s[..bits])] + RowSamples(s[bits..], bits, n - 1)
  }

  /** Row after row, each starting on a byte. */
  function Rows(packed: seq<byte>, rowBytes: nat, bits: nat, n: nat, height: nat): (r: seq<nat>)
    decreases height
  {
    if height == 0 || |packed| < rowBytes then []
    else RowSamples(Unpacked(packed[..rowBytes]), bits, n) + Rows(packed[rowBytes..], rowBytes, bits, n, height - 1)
  }

  /** Bytes that hold `bitsPerRow` bits. */
  function RowBytes(bitsPerRow: nat): (n: nat)
    ensures bitsPerRow <= 8 * n < bitsPerRow + 8
  {
    (bitsPerRow + 7) / 8
  }

  // ---- Reading one sample ----

  lemma {:induction false} TwoBytesSpell(x: byte, y: byte, k: nat)
    requires k == BYTE
    ensures Spell(x as int * 256 + y, k + k) == ByteBits(x) + ByteBits(y)
  {
    PowValues();
    SpellAppended(x, y, k, k);
  }

  /** A sample that begins in one byte and ends in the next. */
  lemma {:induction false} SampleSpans(row: seq<byte>, i: nat, at: nat, bits: nat)
    requires i + 1 < |row| && at < 8 && at + bits <= 16
    ensures Value(Unpacked(row)[8 * i + at..8 * i + at + bits]) ==
      Mask(Shr(row[i] as int * 256 + row[i + 1], 16 - at - bits), bits)
  {
    hide Unpacked, Value, Mask, Shr, Spell;
    UnpackedAt(row, i);
    UnpackedAt(row, i + 1);
    TwoBytesSpell(row[i], row[i + 1], BYTE);
    var n: nat := row[i] as int * 256 + row[i + 1];
    SpellMiddle(n, BYTE + BYTE, at, bits);
    ValueSpell(Shr(n, 16 - at - bits), bits);
    Adjacent(Unpacked(row), 8 * i, 8 * i + 8, 8 * i + 16);
    SubSlice(Unpacked(row), 8 * i, 8 * i + 16, at, at + bits);
  }

  lemma {:induction false} Adjacent<T>(s: seq<T>, i: nat, j: nat, k: nat)
    requires i <= j <= k <= |s|
    ensures s[i..k] == s[i..j] + s[j..k]
  {
  }

  /** The sample at a bit offset: from one byte, or from two when it spans them. */
  method ReadSample(row: seq<byte>, bitOffset: nat, bits: nat) returns (raw: nat)
    requires SubByte(bits) && bitOffset + bits <= 8 * |row|
    ensures raw == Value(Unpacked(row)[bitOffset..bitOffset + bits])
  {
    var byteIdx, bitInByte := bitOffset / 8, bitOffset % 8;
    if bitInByte + bits <= 8 {
      raw := Mask(Shr(row[byteIdx], 8 - bitInByte - bits), bits);
      SampleInByte(row, byteIdx, bitInByte, bits);
    } else {
      var next: byte := if byteIdx + 1 < |row| then row[byteIdx + 1] else 0;
      raw := Mask(Shr(row[byteIdx] as int * 256 + next, 16 - bitInByte - bits), bits);
      SampleSpans(row, byteIdx, bitInByte, bits);
    }
  }

  // ---- The unpackers ----

  /** Every byte-padded row must be there. */
  method CheckPackedLen(packed: seq<byte>, rowBytes: nat, height: nat) returns (r: Result<(), UnpackError>)
    ensures r.Ok? <==> rowBytes * height < U64 && rowBytes * height <= |packed|
    ensures r.Err? ==> r.error == (if rowBytes * height >= U64 then IntSizeOverflow else Truncated)
  {
    var needed := rowBytes * height;
    if needed >= U64 { return Err(IntSizeOverflow); }
    if |packed| < needed { return Err(Truncated); }
    r := Ok(());
  }

  /** A sample widened to 0..255. */
  function Scale(raw: nat, bits: nat): (v: nat)
    requires SubByte(bits)
  {
    var max := MaxSample(bits);
    raw * 255 / max
  }

  function MaxSample(bits: nat): (max: nat)
    requires SubByte(bits)
    ensures max > 0
  {
    match bits
    case 1 => 1
    case 2 => 3
    case 3 => 7
    case 4 => 15
    case 5 => 31
    case 6 => 63
    case _ => 127
  }

  lemma MaxSampleIsAllOnes(bits: nat)
    requires SubByte(bits)
    ensures MaxSample(bits) == Pow2(bits) - 1
  {
    assert Pow2(1) == 2 && Pow2(2) == 4 && Pow2(3) == 8;
    assert Pow2(4) == 16;
    assert Pow2(5) == 32 by { PowAdds(4, 1); }
    assert Pow2(6) == 64 by { PowAdds(4, 2); }
    assert Pow2(7) == 128 by { PowAdds(4, 3); }
  }

  /** The scale is strictly increasing and takes 0 to 0 and the largest sample to 255. */
  lemma {:induction false} ScaleLaws(a: nat, b: nat, bits: nat)
    requires SubByte(bits) && a <= MaxSample(bits) && b <= MaxSample(bits)
    ensures Scale(0, bits) == 0 && Scale(MaxSample(bits), bits) == 255
    ensures a < b <==> Scale(a, bits) < Scale(b, bits)
    ensures Scale(a, bits) <= 255
  {
    match bits
    case 1 =>
    case 2 =>
    case 3 =>
    case 4 =>
    case 5 =>
    case 6 =>
    case _ =>
  }

  /** A sample is scaled by 255 over the largest, 2^bits - 1, rounding down. */
  lemma {:induction false} ScaleIsFloor(a: nat, bits: nat)
    requires SubByte(bits)
    ensures
      var max := Pow2(bits) - 1;
      Scale(a, bits) * max <= 255 * a < (Scale(a, bits) + 1) * max
  {
    hide Pow2;
    MaxSampleIsAllOnes(bits);
    match bits
    case 1 =>
    case 2 =>
    case 3 =>
    case 4 =>
    case 5 =>
    case 6 =>
    case _ =>
  }

  function Scaled(raws: seq<nat>, bits: nat): (vs: seq<nat>)
    requires SubByte(bits)
    ensures |vs| == |raws| && forall i :: 0 <= i < |vs| ==> vs[i] == Scale(raws[i], bits)
  {
    seq(|raws|, i requires 0 <= i < |raws| => Scale(raws[i], bits))
  }

  lemma {:induction false} NextSample(s: seq<bit>, bits: nat, off: nat, n: nat)
    requires n > 0 && off + bits <= |s|
    ensures RowSamples(s[off..], bits, n) == [Value(s[off..off + bits])] + RowSamples(s[off + bits..], bits, n - 1)
  {
    assert s[off..][..bits] == s[off..off + bits];
    assert s[off..][bits..] == s[off + bits..];
  }

  lemma {:induction false} Shift(a: seq<nat>, x: nat, b: seq<nat>)
    ensures a + ([x] + b) == (a + [x]) + b
  {
  }

  lemma {:induction false} ScaledCons(x: nat, xs: seq<nat>, bits: nat)
    requires SubByte(bits)
    ensures Scaled([x] + xs, bits) == [Scale(x, bits)] + Scaled(xs, bits)
  {
  }

  lemma {:induction false} ScaledJoins(xs: seq<nat>, ys: seq<nat>, bits: nat)
    requires SubByte(bits)
    ensures Scaled(xs + ys, bits) == Scaled(xs, bits) + Scaled(ys, bits)
  {
  }

  /** One row of palette indices. */
  method UnpackRow(row: seq<byte>, n: nat, bits: nat, out: seq<nat>) returns (out': seq<nat>)
    requires SubByte(bits) && n * bits <= 8 * |row|
    ensures out' == out + RowSamples(Unpacked(row), bits, n)
  {
    hide Unpacked, Value, Scale;
    var k: nat, bitOffset: nat := 0, 0;
    out' := out;
    ghost var all := RowSamples(Unpacked(row), bits, n);
    assert Unpacked(row)[0..] == Unpacked(row);
    while k < n
      invariant k <= n && bitOffset == k * bits <= 8 * |row|
      invariant out' + RowSamples(Unpacked(row)[bitOffset..], bits, n - k) == out + all
    {
      StepProduct(k, n, bits);
      NextSample(Unpacked(row), bits, bitOffset, n - k);
      var raw := ReadSample(row, bitOffset, bits);
      Shift(out', raw, RowSamples(Unpacked(row)[bitOffset + bits..], bits, n - k - 1));
      out' := out' + [raw];
      bitOffset := bitOffset + bits;
      k := k + 1;
    }
  }

  lemma {:induction false} NextRow(packed: seq<byte>, rowBytes: nat, bits: nat, n: nat, start: nat, left: nat)
    requires left > 0 && start + rowBytes <= |packed|
    ensures Rows(packed[start..], rowBytes, bits, n, left)
         == RowSamples(Unpacked(packed[start..start + rowBytes]), bits, n) +
           Rows(packed[start + rowBytes..], rowBytes, bits, n, left - 1)
  {
    assert packed[start..][..rowBytes] == packed[start..start + rowBytes];
    assert packed[start..][rowBytes..] == packed[start + rowBytes..];
  }

  /** Every row of palette indices. */
  method UnpackPaletteIndices(packed: seq<byte>, width: nat, height: nat, bits: nat)
      returns (r: Result<seq<nat>, UnpackError>)
    requires SubByte(bits)
    ensures
      var rowBytes := RowBytes(width * bits);
      match r
      case Ok(out) =>
        && rowBytes * height < U64 && rowBytes * height <= |packed|
        && out == Rows(packed, rowBytes, bits, width, height)
      case Err(e) =>
        && e == (if rowBytes * height >= U64 then IntSizeOverflow else Truncated)
        && (rowBytes * height >= U64 || rowBytes * height > |packed|)
  {
    var rowBytes := RowBytes(width * bits);
    var check := CheckPackedLen(packed, rowBytes, height);
    if check.Err? { return Err(check.error); }
    var out := UnpackRows(packed, rowBytes, width, height, bits);
    r := Ok(out);
  }

  lemma {:induction false} NoRows(packed: seq<byte>, rowBytes: nat, bits: nat, n: nat)
    requires SubByte(bits)
    ensures Rows(packed, rowBytes, bits, n, 0) == [] && Scaled([], bits) == []
  {
  }

  /** Row `row` begins at `start`. */
  ghost predicate RowStart(row: nat, height: nat, rowBytes: nat,
      start: nat) { row <= height && start == row * rowBytes }

  lemma {:induction false} NextRowStart(row: nat, height: nat, rowBytes: nat, start: nat)
    requires RowStart(row, height, rowBytes, start) && row < height
    ensures RowStart(row + 1, height, rowBytes, start + rowBytes) && start + rowBytes <= rowBytes * height
  {
    StepProduct(row, height, rowBytes);
  }

  method UnpackRows(packed: seq<byte>, rowBytes: nat, n: nat, height: nat, bits: nat) returns (out: seq<nat>)
    requires SubByte(bits) && n * bits <= 8 * rowBytes && rowBytes * height <= |packed|
    ensures out == Rows(packed, rowBytes, bits, n, height)
  {
    hide Unpacked, RowSamples, Scale, Scaled, Rows;
    out := [];
    var row: nat, start: nat := 0, 0;
    assert packed[0..] == packed;
    while row < height
      invariant RowStart(row, height, rowBytes, start) && row <= height
      invariant start <= |packed|
      invariant out + Rows(packed[start..], rowBytes, bits, n, height - row) == Rows(packed, rowBytes, bits, n, height)
    {
      NextRowStart(row, height, rowBytes, start);
      NextRow(packed, rowBytes, bits, n, start, height - row);
      Assoc(out, RowSamples(Unpacked(packed[start..start + rowBytes]), bits, n),
        Rows(packed[start + rowBytes..], rowBytes, bits, n, height - row - 1));
      out := UnpackRow(packed[start..start + rowBytes], n, bits, out);
      row := row + 1;
      start := start + rowBytes;
    }
    NoRows(packed[start..], rowBytes, bits, n);
  }

  /** Every sample, scaled to a byte. */
  method UnpackSubbyte(packed: seq<byte>, width: nat, height: nat, bits: nat, channels: nat)
      returns (r: Result<seq<nat>, UnpackError>)
    requires SubByte(bits)
    ensures
      var rowBytes := RowBytes(width * channels * bits);
      match r
      case Ok(out) =>
        && rowBytes * height < U64 && rowBytes * height <= |packed|
        && out == Scaled(Rows(packed, rowBytes, bits, width * channels, height), bits)
      case Err(e) =>
        && e == (if rowBytes * height >= U64 then IntSizeOverflow else Truncated)
        && (rowBytes * height >= U64 || rowBytes * height > |packed|)
  {
    var n := width * channels;
    var rowBytes := RowBytes(n * bits);
    var check := CheckPackedLen(packed, rowBytes, height);
    if check.Err? { return Err(check.error); }
    var out := ScaleRows(packed, rowBytes, n, height, bits);
    r := Ok(out);
  }

  method ScaleRows(packed: seq<byte>, rowBytes: nat, n: nat, height: nat, bits: nat) returns (out: seq<nat>)
    requires SubByte(bits) && n * bits <= 8 * rowBytes && rowBytes * height <= |packed|
    ensures out == Scaled(Rows(packed, rowBytes, bits, n, height), bits)
  {
    hide Unpacked, RowSamples, Scale, Scaled, Rows;
    out := [];
    var row: nat, start: nat := 0, 0;
    assert packed[0..] == packed;
    while row < height
      invariant RowStart(row, height, rowBytes, start) && row <= height
      invariant start <= |packed|
      invariant out + Scaled(Rows(packed[start..], rowBytes, bits, n, height - row), bits)
             == Scaled(Rows(packed, rowBytes, bits, n, height), bits)
    {
      NextRowStart(row, height, rowBytes, start);
      NextRow(packed, rowBytes, bits, n, start, height - row);
      ghost var (samples, rest) := (RowSamples(Unpacked(packed[start..start + rowBytes]), bits, n),
                                    Rows(packed[start + rowBytes..], rowBytes, bits, n, height - row - 1));
      ScaledJoins(samples, rest, bits);
      Assoc(out, Scaled(samples, bits), Scaled(rest, bits));
      out := ScaleRow(packed[start..start + rowBytes], n, bits, out);
      row := row + 1;
      start := start + rowBytes;
    }
    NoRows(packed[start..], rowBytes, bits, n);
  }

  /** One row of samples, scaled. */
  method ScaleRow(row: seq<byte>, n: nat, bits: nat, out: seq<nat>) returns (out': seq<nat>)
    requires SubByte(bits) && n * bits <= 8 * |row|
    ensures out' == out + Scaled(RowSamples(Unpacked(row), bits, n), bits)
  {
    hide Unpacked, Value, Scale, Scaled, RowSamples;
    var k: nat, bitOffset: nat := 0, 0;
    out' := out;
    ghost var all := Scaled(RowSamples(Unpacked(row), bits, n), bits);
    assert Unpacked(row)[0..] == Unpacked(row);
    while k < n
      invariant k <= n && bitOffset == k * bits <= 8 * |row|
      invariant out' + Scaled(RowSamples(Unpacked(row)[bitOffset..], bits, n - k), bits) == out + all
    {
      StepProduct(k, n, bits);
      NextSample(Unpacked(row), bits, bitOffset, n - k);
      var raw := ReadSample(row, bitOffset, bits);
      ScaledCons(raw, RowSamples(Unpacked(row)[bitOffset + bits..], bits, n - k - 1), bits);
      Shift(out', Scale(raw, bits), Scaled(RowSamples(Unpacked(row)[bitOffset + bits..], bits, n - k - 1), bits));
      out' := out' + [Scale(raw, bits)];
      bitOffset := bitOffset + bits;
      k := k + 1;
    }
    NoneScaled(Unpacked(row)[bitOffset..], bits);
  }

  lemma {:induction false} NoneScaled(s: seq<bit>, bits: nat)
    requires SubByte(bits)
    ensures Scaled(RowSamples(s, bits, 0), bits) == []
  {
  }

  // ---- Packing ----

  function SampleBits(samples: seq<nat>, bits: nat): (s: seq<bit>)
  {
    if samples == [] then [] else Spell(samples[0], bits) + SampleBits(samples[1..], bits)
  }

  predicate InRange(samples: seq<nat>, bits: nat) { forall i :: 0 <= i < |samples| ==> samples[i] < Pow2(bits) }

  /** `packed` begins with the rows' samples, each row padded to whole bytes with anything. */
  predicate Packs(packed: seq<byte>, rowBytes: nat, bits: nat, rows: seq<seq<nat>>)
    decreases |rows|
  {
    rows != [] ==>
      |packed| >= rowBytes && SampleBits(rows[0], bits) <= Unpacked(packed[..rowBytes]) &&
        Packs(packed[rowBytes..], rowBytes, bits, rows[1..])
  }

  function Flattened(rows: seq<seq<nat>>): (s: seq<nat>) {
    if rows == [] then [] else rows[0] + Flattened(rows[1..])
  }

  /** A row holds samples exactly when reading it gives them. */
  lemma {:induction false} RowHolds(s: seq<bit>, bits: nat, samples: seq<nat>)
    requires InRange(samples, bits) && |samples| * bits <= |s|
    ensures SampleBits(samples, bits) <= s <==> RowSamples(s, bits, |samples|) == samples
    decreases |samples|
  {
    hide Spell, Value, Pow2, Mask, SampleBits;
    if samples == [] {
      NoSampleBits(bits);
    } else {
      StepProduct(0, |samples|, bits);
      StepProduct(|samples| - 1, |samples|, bits);
      RowHolds(s[bits..], bits, samples[1..]);
      SpellValue(s[..bits]);
      ValueSpell(samples[0], bits);
      MaskIsMod(samples[0], bits);
      SmallMod(samples[0], Pow2(bits));
      FrontHolds(s, bits, samples);
    }
  }

  lemma {:induction false} NoSampleBits(bits: nat)
    ensures SampleBits([], bits) == []
  {
  }

  lemma {:induction false} FrontHolds(s: seq<bit>, bits: nat, samples: seq<nat>)
    requires samples != [] && bits <= |s|
    ensures SampleBits(samples, bits) <= s <==>
      Spell(samples[0], bits) == s[..bits] && SampleBits(samples[1..], bits) <= s[bits..]
  {
    var (a, b) := (Spell(samples[0], bits), SampleBits(samples[1..], bits));
    if a == s[..bits] && b <= s[bits..] {
      assert s == s[..bits] + s[bits..];
      assert a + b <= s;
    }
    if a + b <= s {
      assert s[..|a + b|] == a + b;
      assert s[..bits] == (a + b)[..bits] && s[bits..][..|b|] == (a + b)[bits..];
    }
  }

  /**
   Unpacking inverts packing: the rows a buffer holds are exactly the rows unpacking
   it gives, whatever the padding, for every width, height and depth.
   */
  lemma {:induction false} UnpackInvertsPack(packed: seq<byte>, rowBytes: nat, bits: nat, n: nat, rows: seq<seq<nat>>)
    requires 1 <= bits <= 7 && n * bits <= 8 * rowBytes
    requires forall i :: 0 <= i < |rows| ==> |rows[i]| == n && InRange(rows[i], bits)
    requires |rows| * rowBytes <= |packed|
    ensures Packs(packed, rowBytes, bits, rows) <==> Rows(packed, rowBytes, bits, n, |rows|) == Flattened(rows)
    decreases |rows|
  {
    hide Unpacked, RowSamples, SampleBits, InRange;
    if rows != [] {
      StepProduct(0, |rows|, rowBytes);
      StepProduct(|rows| - 1, |rows|, rowBytes);
      var bs := Unpacked(packed[..rowBytes]);
      RowHolds(bs, bits, rows[0]);
      RowLength(bs, bits, n);
      UnpackInvertsPack(packed[rowBytes..], rowBytes, bits, n, rows[1..]);
      SamePrefix(RowSamples(bs, bits, n), Rows(packed[rowBytes..], rowBytes, bits, n, |rows| - 1), rows[0],
        Flattened(rows[1..]));
    }
  }

  lemma {:induction false} SamePrefix(a: seq<nat>, b: seq<nat>, c: seq<nat>, d: seq<nat>)
    requires |a| == |c|
    ensures a + b == c + d <==> a == c && b == d
  {
    if a + b == c + d {
      assert a == (a + b)[..|a|] && c == (c + d)[..|c|];
      assert b == (a + b)[|a|..] && d == (c + d)[|c|..];
    }
  }

  lemma {:induction false} RowLength(s: seq<bit>, bits: nat, n: nat)
    requires n * bits <= |s|
    ensures |RowSamples(s, bits, n)| == n
    decreases n
  {
    if n > 0 {
      StepProduct(0, n, bits);
      StepProduct(n - 1, n, bits);
      RowLength(s[bits..], bits, n - 1);
    }
  }

  // ---- Planes ----

  /** Plane after plane becomes pixel after pixel; too little data is passed through. */
  method InterleavePlanes<T>(data: seq<T>, planeSize: nat, planes: nat) returns (r: Option<seq<T>>)
    ensures r == if planeSize * planes >= U64 then None
                 else if |data| < planeSize * planes then Some(data)
                 else Some(Interleaved(data, planeSize, planes, planeSize))
  {
    var total := planeSize * planes;
    if total >= U64 { return None; }
    if |data| < total { return Some(data); }
    var interleaved: seq<T> := [];
    var pixel: nat := 0;
    while pixel < planeSize
      invariant pixel <= planeSize && planes * planeSize <= |data|
      invariant interleaved == Interleaved(data, planeSize, planes, pixel)
    {
      ghost var before := interleaved;
      ghost var column := Pixel(data, planeSize, planes, pixel);
      var plane: nat := 0;
      while plane < planes
        invariant plane <= planes
        invariant interleaved == before + column[..plane]
      {
        PlaneBound(planeSize, planes, pixel, plane);
        interleaved := interleaved + [data[plane * planeSize + pixel]];
        assert column[..plane + 1] == column[..plane] + [column[plane]];
        plane := plane + 1;
      }
      assert column[..plane] == column;
      pixel := pixel + 1;
    }
    r := Some(interleaved);
  }
}
