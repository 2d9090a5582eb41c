/** PIZ framing byte for byte: what a writer of the format lays down is what the walk accepts, and nothing else. */
module ExrPizBytes {
  import opened Wrappers
  import opened Bytes
  import opened Inventory
  import opened Bits
  import opened ExrPiz

  // ---- The code table ----

  /** One code length, or a run of zeros. */
  datatype Code = One(length: nat) | Zeros(count: nat)

  predicate Codeable(c: Code) {
    match c
    case One(n) => n < 59
    case Zeros(k) => 2 <= k <= 261
  }

  /** Six bits for a length or a run of up to five zeros, fourteen for a longer one. */
  function CodeBits(c: Code): (s: seq<bit>)
    requires Codeable(c)
    ensures |s| >= 6
  {
    match c
    case One(n) => Spell(n, 6)
    case Zeros(k) => if k <= 5 then Spell(57 + k, 6) else Spell(63, 6) + Spell(k - 6, 8)
  }

  function LengthsOf(c: Code): (s: seq<nat>)
    requires Codeable(c)
    ensures |s| >= 1
  {
    match c
    case One(n) => [n]
    case Zeros(k) => seq(k, _ => 0)
  }

  ghost predicate AllCodeable(cs: seq<Code>) { forall i :: 0 <= i < |cs| ==> Codeable(cs[i]) }

  ghost function AllBits(cs: seq<Code>): (s: seq<bit>)
    requires AllCodeable(cs)
  {
    if cs == [] then [] else CodeBits(cs[0]) + AllBits(cs[1..])
  }

  ghost function AllLengths(cs: seq<Code>): (s: seq<nat>)
    requires AllCodeable(cs)
  {
    if cs == [] then [] else LengthsOf(cs[0]) + AllLengths(cs[1..])
  }

  /** The bits from `o` on begin with `s`. */
  ghost predicate BitsAt(t: seq<bit>, o: nat, s: seq<bit>) { o + |s| <= |t| && t[o..o + |s|] == s }

  lemma {:induction false} BitsParts(t: seq<bit>, o: nat, x: seq<bit>, y: seq<bit>)
    ensures BitsAt(t, o, x + y) <==> BitsAt(t, o, x) && BitsAt(t, o + |x|, y)
  {
    if BitsAt(t, o, x + y) {
      var e := t[o..o + |x + y|];
      assert t[o..o + |x|] == e[..|x|] == x && t[o + |x|..o + |x| + |y|] == e[|x|..] == y;
    }
    if BitsAt(t, o, x) && BitsAt(t, o + |x|, y) {
      assert t[o..o + |x + y|] == t[o..o + |x|] + t[o + |x|..o + |x| + |y|];
    }
  }

  lemma {:induction false} SpelledIs(n: nat, k: nat, p: nat)
    requires p == Pow2(k) && n < p
    ensures Value(Spell(n, k)) == n
  {
    ValueSpell(n, k);
    MaskIsMod(n, k);
    SmallMod(n, p);
  }

  /** A code in the bits is read as that code. */
  lemma {:induction false} CodeIsRead(t: seq<bit>, o: nat, c: Code)
    requires Codeable(c) && BitsAt(t, o, CodeBits(c))
    ensures Entry(t, o) == Some(Run(if c.One? then c.length else 0, |LengthsOf(c)|, o + |CodeBits(c)|))
  {
    hide Spell, Value, Pow2;
    PowValues();
    match c
    case One(n) => SpelledIs(n, 6, 64);
    case Zeros(k) =>
      if k <= 5 {
        SpelledIs(57 + k, 6, 64);
      } else {
        BitsParts(t, o, Spell(63, 6), Spell(k - 6, 8));
        SpelledIs(63, 6, 64);
        SpelledIs(k - 6, 8, 256);
      }
  }

  /** And whatever entry is read is in the bits. */
  lemma {:induction false} EntryIsCode(t: seq<bit>, o: nat) returns (c: Code)
    requires Entry(t, o).Some?
    ensures Codeable(c) && BitsAt(t, o, CodeBits(c))
  {
    hide Spell, Value, Pow2;
    PowValues();
    var code := Value(t[o..o + 6]);
    SpellValue(t[o..o + 6]);
    ValueBound(t[o..o + 6]);
    if code < 59 {
      c := One(code);
    } else if code < 63 {
      c := Zeros(code - 57);
    } else {
      var more := Value(t[o + 6..o + 14]);
      SpellValue(t[o + 6..o + 14]);
      ValueBound(t[o + 6..o + 14]);
      c := Zeros(more + 6);
      BitsParts(t, o, Spell(63, 6), Spell(more, 8));
    }
  }

  /** Codes one after another are read as their lengths, in order. */
  lemma {:induction false} CodesAreRead(t: seq<bit>, o: nat, cs: seq<Code>)
    requires AllCodeable(cs) && BitsAt(t, o, AllBits(cs))
    ensures CodeTable(t, o, |AllLengths(cs)|) == Ok(Table(AllLengths(cs), o + |AllBits(cs)|))
    decreases |cs|
  {
    hide Entry, CodeBits;
    if cs != [] {
      var c := cs[0];
      BitsParts(t, o, CodeBits(c), AllBits(cs[1..]));
      CodeIsRead(t, o, c);
      CodesAreRead(t, o + |CodeBits(c)|, cs[1..]);
      assert Repeated(if c.One? then c.length else 0, |LengthsOf(c)|) == LengthsOf(c);
    }
  }

  /** And a table that is read is in the bits, as some codes. */
  lemma {:induction false} TableIsCodes(t: seq<bit>, o: nat, want: nat) returns (cs: seq<Code>)
    requires CodeTable(t, o, want).Ok? && o <= |t|
    ensures AllCodeable(cs) && BitsAt(t, o, AllBits(cs))
    ensures CodeTable(t, o, want).value == Table(AllLengths(cs), o + |AllBits(cs)|)
    decreases want
  {
    hide Entry, CodeBits;
    cs := [];
    if want > 0 {
      var c := EntryIsCode(t, o);
      CodeIsRead(t, o, c);
      var rest := TableIsCodes(t, o + |CodeBits(c)|, want - |LengthsOf(c)|);
      cs := [c] + rest;
      assert cs[1..] == rest;
      BitsParts(t, o, CodeBits(c), AllBits(rest));
      assert Repeated(if c.One? then c.length else 0, |LengthsOf(c)|) == LengthsOf(c);
    }
  }

  // ---- The framing ----

  /** A block to write. `size` and `reserved` are words that are never read. */
  datatype Framed = Framed(lo: nat, hi: nat, bitmap: seq<byte>, im: nat, iMax: nat, size: seq<byte>, nBits: nat,
    reserved: seq<byte>, codes: seq<Code>, table: seq<byte>, coded: seq<byte>)

  /** The numbers are in their ranges, the bitmap and the table are as long as they say, and the bits are there. */
  ghost predicate Frames(w: Framed) {
    && w.lo < 8192 && w.hi < 8192 && |w.bitmap| == (if w.lo <= w.hi then w.hi - w.lo + 1 else 0)
    && 20 + |w.table| + |w.coded| < 0x8000_0000
    && w.im <= 65536 && w.iMax <= 65536 && |w.size| == 4 && |w.reserved| == 4
    && AllCodeable(w.codes) && |AllLengths(w.codes)| == (if w.im <= w.iMax then w.iMax - w.im + 1 else 0)
    && |w.table| == (|AllBits(w.codes)| + 7) / 8 && BitsAt(Unpacked(w.table), 0, AllBits(w.codes))
    && w.nBits < U32 && w.nBits <= 8 * |w.coded|
  }

  function HeadOf(w: Framed): (b: seq<byte>)
    requires w.lo < U16 && w.hi < U16
  {
    Le16(w.lo) + Le16(w.hi) + w.bitmap
  }

  function HuffmanOf(w: Framed): (b: seq<byte>)
    requires 20 + |w.table| + |w.coded| < U32 && w.im < U32 && w.iMax < U32 && w.nBits < U32
  {
    Le32(20 + |w.table| + |w.coded|) + Le32(w.im) + Le32(w.iMax) + w.size + Le32(w.nBits) + w.reserved
  }

  ghost function BytesOf(w: Framed): (b: seq<byte>)
    requires Frames(w)
  {
    HeadOf(w) + HuffmanOf(w) + w.table + w.coded
  }

  lemma {:induction false} HeadIsRead(b: seq<byte>, w: Framed)
    requires Frames(w) && HoldsAt(b, 0, HeadOf(w))
    ensures |b| >= 4 && U16At(b, 0) == w.lo && U16At(b, 2) == w.hi && PizBitmapEnd(b) == 4 + |w.bitmap| == |HeadOf(w)|
  {
    hide Le16, U16At;
    HoldsParts(b, 0, Le16(w.lo) + Le16(w.hi), w.bitmap);
    HoldsParts(b, 0, Le16(w.lo), Le16(w.hi));
    ReadLe16(b, 0, w.lo);
    ReadLe16(b, 2, w.hi);
  }

  lemma {:induction false} HuffmanIsRead(b: seq<byte>, p: nat, w: Framed)
    requires Frames(w) && HoldsAt(b, p, HuffmanOf(w))
    ensures |HuffmanOf(w)| == 24 && p + 24 <= |b| && U32At(b, p) == 20 + |w.table| + |w.coded|
    ensures U32At(b, p + 4) == w.im && U32At(b, p + 8) == w.iMax && U32At(b, p + 16) == w.nBits
  {
    hide Le32, U32At, HoldsAt;
    var n := 20 + |w.table| + |w.coded|;
    HoldsParts(b, p, Le32(n) + Le32(w.im) + Le32(w.iMax) + w.size + Le32(w.nBits), w.reserved);
    HoldsParts(b, p, Le32(n) + Le32(w.im) + Le32(w.iMax) + w.size, Le32(w.nBits));
    HoldsParts(b, p, Le32(n) + Le32(w.im) + Le32(w.iMax), w.size);
    HoldsParts(b, p, Le32(n) + Le32(w.im), Le32(w.iMax));
    HoldsParts(b, p, Le32(n), Le32(w.im));
    ReadLe32(b, p, n);
    ReadLe32(b, p + 4, w.im);
    ReadLe32(b, p + 8, w.iMax);
    ReadLe32(b, p + 16, w.nBits);
    HeldInside(b, p, HuffmanOf(w));
  }

  lemma {:induction false} HeldInside(b: seq<byte>, i: nat, e: seq<byte>)
    requires HoldsAt(b, i, e)
    ensures i + |e| <= |b|
  {
  }

  /** The parts of a block, each at its place. */
  lemma {:induction false} PartsHeld(w: Framed)
    requires Frames(w)
    ensures
      var (b, p) := (BytesOf(w), 4 + |w.bitmap|);
      && HoldsAt(b, 0, HeadOf(w)) && HoldsAt(b, p, HuffmanOf(w)) && |b| == p + 24 + |w.table| + |w.coded|
      && b[p + 24..p + 24 + |w.table|] == w.table
  {
    var (b, h, f) := (BytesOf(w), HeadOf(w), HuffmanOf(w));
    Split(b, h, f, w.table, w.coded);
  }

  lemma {:induction false} Split(b: seq<byte>, h: seq<byte>, f: seq<byte>, t: seq<byte>, c: seq<byte>)
    requires b == h + f + t + c
    ensures HoldsAt(b, 0, h) && HoldsAt(b, |h|, f) && b[|h| + |f|..|h| + |f| + |t|] == t
  {
  }

  /** The bits of a part of some bytes. */
  lemma {:induction false} BitsInside(b: seq<byte>, i: nat, n: nat, s: seq<bit>)
    requires i + n <= |b| && BitsAt(Unpacked(b[i..i + n]), 0, s)
    ensures BitsAt(Unpacked(b), 8 * i, s)
  {
    hide Unpacked;
    var (x, y, z) := (b[..i], b[i..i + n], b[i + n..]);
    assert b == x + y + z;
    UnpackedConcat(x + y, z);
    UnpackedConcat(x, y);
    var (u, v) := (Unpacked(x), Unpacked(y));
    assert Unpacked(b) == u + v + Unpacked(z);
    assert Unpacked(b)[8 * i..8 * i + |s|] == v[..|s|] == v[0..0 + |s|];
  }

  /** A block as it is written is accepted, its fields end where its parts do, and its code lengths are read. */
  lemma {:induction false} FramedIsAccepted(w: Framed)
    requires Frames(w)
    ensures
      var b := BytesOf(w);
      && FramingError(b).None? && PizBitmapEnd(b) == 4 + |w.bitmap|
      && ChunkTable(b).Ok? && ChunkTable(b).value.lengths == AllLengths(w.codes)
      && TableEnd(ChunkTable(b).value) == 28 + |w.bitmap| + |w.table|
  {
    hide HeadOf, HuffmanOf, BytesOf, Unpacked, AllBits, AllLengths, CodeTable, HoldsAt, U16At, U32At, AllCodeable;
    var (b, p) := (BytesOf(w), 4 + |w.bitmap|);
    PartsHeld(w);
    HeadIsRead(b, w);
    HuffmanIsRead(b, p, w);
    BitsInside(b, p + 24, |w.table|, AllBits(w.codes));
    CodesAreRead(Unpacked(b), 8 * (p + 24), w.codes);
  }

  /**
   The nine fields of a block of `len` bytes whose bitmap ends at `p` and code lengths at
   `t`: the bitmap's range and bytes, the length of what follows, the range of the codes,
   a word that is ignored, the number of coded bits, another such word, the code lengths
   and the coded bits.
   */
  lemma {:induction false} FieldsAre(p: nat, t: nat, len: nat, i: nat)
    requires i < 9
    ensures
      var cuts := [0, 4, p, p + 4, p + 12, p + 16, p + 20, p + 24, t, len];
      var f := PizLayout(p, t, len);
      && |f| == 9 && f[i].range == Range(cuts[i], cuts[i + 1])
      && f[i].disposition == if i == 4 || i == 6 then Unreferenced
                             else if i == 1 || i >= 7 then ImageData else Structure
  {
  }

  lemma {:induction false} HeadIsHeld(b: seq<byte>, w: Framed)
    requires w.lo < U16 && w.hi < U16 && 4 + |w.bitmap| <= |b| && w.bitmap == b[4..4 + |w.bitmap|]
    requires U16At(b, 0) == w.lo && U16At(b, 2) == w.hi
    ensures HoldsAt(b, 0, HeadOf(w))
  {
    hide Le16, U16At;
    HeldLe16(b, 0);
    HeldLe16(b, 2);
    HoldsBoth(b, 0, Le16(w.lo), Le16(w.hi));
    HoldsBoth(b, 0, Le16(w.lo) + Le16(w.hi), w.bitmap);
  }

  lemma {:induction false} HuffmanIsHeld(b: seq<byte>, p: nat, w: Framed)
    requires p + 24 <= |b| && 20 + |w.table| + |w.coded| == U32At(b, p) && w.im == U32At(b, p + 4)
    requires w.iMax == U32At(b, p + 8) && w.size == b[p + 12..p + 16] && w.nBits == U32At(b, p + 16)
    requires w.reserved == b[p + 20..p + 24]
    ensures HoldsAt(b, p, HuffmanOf(w))
  {
    hide Le32, U32At, HoldsAt;
    var n := 20 + |w.table| + |w.coded|;
    HeldLe32(b, p);
    HeldLe32(b, p + 4);
    HeldLe32(b, p + 8);
    HeldLe32(b, p + 16);
    SliceHolds(b, p + 12, p + 16);
    SliceHolds(b, p + 20, p + 24);
    HoldsBoth(b, p, Le32(n), Le32(w.im));
    HoldsBoth(b, p, Le32(n) + Le32(w.im), Le32(w.iMax));
    HoldsBoth(b, p, Le32(n) + Le32(w.im) + Le32(w.iMax), w.size);
    HoldsBoth(b, p, Le32(n) + Le32(w.im) + Le32(w.iMax) + w.size, Le32(w.nBits));
    HoldsBoth(b, p, Le32(n) + Le32(w.im) + Le32(w.iMax) + w.size + Le32(w.nBits), w.reserved);
  }

  lemma {:induction false} SliceHolds(b: seq<byte>, i: nat, j: nat)
    requires i <= j <= |b|
    ensures HoldsAt(b, i, b[i..j])
  {
  }

  lemma {:induction false} Joined(b: seq<byte>, h: seq<byte>, f: seq<byte>, t: seq<byte>, c: seq<byte>)
    requires HoldsAt(b, 0, h) && HoldsAt(b, |h|, f) && |h| + |f| + |t| <= |b|
    requires t == b[|h| + |f|..|h| + |f| + |t|] && c == b[|h| + |f| + |t|..]
    ensures b == h + f + t + c
  {
    assert b == b[..|h|] + b[|h|..|h| + |f|] + b[|h| + |f|..|h| + |f| + |t|] + b[|h| + |f| + |t|..];
    assert b[..|h|] == b[0..|h|];
  }

  /** The bits of the table are those of its own bytes. */
  lemma {:induction false} BitsAlone(b: seq<byte>, i: nat, n: nat, s: seq<bit>)
    requires i + n <= |b| && |s| <= 8 * n && BitsAt(Unpacked(b), 8 * i, s)
    ensures BitsAt(Unpacked(b[i..i + n]), 0, s)
  {
    hide Unpacked;
    var (x, y, z) := (b[..i], b[i..i + n], b[i + n..]);
    assert b == x + y + z;
    UnpackedConcat(x + y, z);
    UnpackedConcat(x, y);
    var (u, v) := (Unpacked(x), Unpacked(y));
    assert Unpacked(b) == u + v + Unpacked(z);
    assert Unpacked(b)[8 * i..8 * i + |s|] == v[0..0 + |s|];
  }

  /** And every block the walk accepts is one as it is written. */
  lemma {:induction false} AcceptedIsFramed(b: seq<byte>) returns (w: Framed)
    requires FramingError(b).None?
    ensures Frames(w) && BytesOf(w) == b
  {
    hide HeadOf, HuffmanOf, Unpacked, AllBits, AllLengths, CodeTable, HoldsAt, U16At, U32At;
    var p := PizBitmapEnd(b);
    var o := 8 * (p + 24);
    CodeTableEnds(Unpacked(b), o, WantedCodes(b));
    var cs := TableIsCodes(Unpacked(b), o, WantedCodes(b));
    var end := TableEnd(ChunkTable(b).value);
    w := Framed(U16At(b, 0), U16At(b, 2), b[4..p], U32At(b, p + 4), U32At(b, p + 8), b[p + 12..p + 16],
                U32At(b, p + 16), b[p + 20..p + 24], cs, b[p + 24..end], b[end..]);
    BitsAlone(b, p + 24, |w.table|, AllBits(cs));
    HeadIsHeld(b, w);
    HuffmanIsHeld(b, p, w);
    Lengths(w);
    Joined(b, HeadOf(w), HuffmanOf(w), w.table, w.coded);
  }

  lemma {:induction false} Lengths(w: Framed)
    requires Frames(w)
    ensures |HeadOf(w)| == 4 + |w.bitmap| && |HuffmanOf(w)| == 24
  {
  }
}
