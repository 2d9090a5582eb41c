/** Bit strings, most significant bit first: the reference every bit reader is compared with. */
module Bits {
  import opened Bytes

  /** A set bit is `true`. */
  type bit = bool

  function Pow2(k: nat): (p: nat)
    ensures p >= 1
  {
    if k == 0 then 1 else 2 * Pow2(k - 1)
  }

  /** The number a bit string spells. */
  function Value(s: seq<bit>): (n: nat) {
    if s == [] then 0 else 2 * Value(s[..|s| - 1]) + (if s[|s| - 1] then 1 else 0)
  }

  /** The low `k` bits of `n`. */
  function Spell(n: nat, k: nat): (s: seq<bit>)
    ensures |s| == k
  {
    if k == 0 then [] else Spell(n / 2, k - 1) + [n % 2 == 1]
  }

  const BYTE: nat := 8

  /** The eight bits of a byte. */
  function ByteBits(b: byte): (s: seq<bit>)
    ensures |s| == 8
  {
    Spell(b, BYTE)
  }

  /** The bits of a byte string. */
  function Unpacked(b: seq<byte>): (s: seq<bit>)
    ensures |s| == 8 * |b|
  {
    if b == [] then [] else Unpacked(b[..|b| - 1]) + ByteBits(b[|b| - 1])
  }

  lemma {:induction false} PowAdds(j: nat, k: nat)
    ensures Pow2(j + k) == Pow2(j) * Pow2(k)
  {
    if k > 0 {
      PowAdds(j, k - 1);
      DoubleSum(Pow2(j), Pow2(k - 1), 0);
    }
  }

  lemma {:induction false} ValueBound(s: seq<bit>)
    ensures Value(s) < Pow2(|s|)
  {
    if s != [] { ValueBound(s[..|s| - 1]); }
  }

  lemma DoubleSum(v: nat, p: nat, w: nat)
    ensures 2 * (v * p + w) == v * (2 * p) + 2 * w
  {
  }

  lemma SliceJoin<T>(s: seq<T>, i: nat, j: nat, k: nat)
    requires i <= j <= k <= |s|
    ensures s[i..k] == s[i..j] + s[j..k]
  {
  }

  /** Concatenations split the same way have the same halves. */
  lemma Halves<T>(a: seq<T>, b: seq<T>, c: seq<T>, d: seq<T>)
    requires a + b == c + d && |a| == |c|
    ensures a == c && b == d
  {
    assert a == (a + b)[..|a|] && c == (c + d)[..|c|];
    assert b == (a + b)[|a|..] && d == (c + d)[|c|..];
  }

  lemma {:induction false} SpellValue(s: seq<bit>)
    ensures Spell(Value(s), |s|) == s
  {
    if s != [] {
      SpellValue(s[..|s| - 1]);
    }
  }

  /** Division with a small remainder has one solution. */
  lemma DivModUnique(n: nat, d: nat, q: nat, r: nat)
    requires r < d && n == q * d + r
    ensures n / d == q && n % d == r
  {
    var q' := n / d;
    assert n == q' * d + n % d;
    if q > q' {
      MulStep(q' + 1, q, d);
    } else if q < q' {
      MulStep(q + 1, q', d);
    }
  }

  lemma MulStep(a: nat, b: nat, d: nat)
    requires a <= b
    ensures a * d <= b * d
  {
  }

  /** Halving first: quotient and remainder by `2 * p`. */
  lemma Halved(n: nat, p: nat)
    requires p > 0
    ensures n / (2 * p) == n / 2 / p && n % (2 * p) == 2 * ((n / 2) % p) + n % 2
  {
    var q, r := n / 2 / p, (n / 2) % p;
    assert n / 2 == q * p + r;
    Doubled(n / 2, n, p, q, r);
    DivModUnique(n, 2 * p, q, 2 * r + n % 2);
  }

  lemma Doubled(h: nat, n: nat, p: nat, q: nat, r: nat)
    requires h == q * p + r && h == n / 2
    ensures n == q * (2 * p) + (2 * r + n % 2)
  {
    assert q * (2 * p) == 2 * (q * p);
  }

  /** `n >> k`. */
  function Shr(n: nat, k: nat): (q: nat) {
    if k == 0 then n else Shr(n / 2, k - 1)
  }

  /** `n & ((1 << k) - 1)`. */
  function Mask(n: nat, k: nat): (r: nat) {
    if k == 0 then 0 else 2 * Mask(n / 2, k - 1) + n % 2
  }

  lemma {:induction false} ShrIsDiv(n: nat, k: nat)
    ensures Shr(n, k) == n / Pow2(k)
  {
    if k > 0 {
      ShrIsDiv(n / 2, k - 1);
      Halved(n, Pow2(k - 1));
    }
  }

  lemma {:induction false} MaskIsMod(n: nat, k: nat)
    ensures Mask(n, k) == n % Pow2(k)
  {
    if k > 0 {
      MaskIsMod(n / 2, k - 1);
      Halved(n, Pow2(k - 1));
    }
  }

  /** Masking leaves the number the low bits spell. */
  lemma {:induction false} ValueSpell(n: nat, k: nat)
    ensures Value(Spell(n, k)) == Mask(n, k)
  {
    if k > 0 {
      ValueSpell(n / 2, k - 1);
      assert Spell(n, k)[..k - 1] == Spell(n / 2, k - 1);
    }
  }

  /** The low `j + k` bits are the low `j` bits of `n >> k` and then the low `k` bits. */
  lemma {:induction false} SpellSplit(n: nat, j: nat, k: nat)
    ensures Spell(n, j + k) == Spell(Shr(n, k), j) + Spell(n, k)
  {
    if k > 0 {
      SpellSplit(n / 2, j, k - 1);
    }
  }

  /** Dropping the bits above `m` leaves the low `k` bits alone. */
  lemma {:induction false} SpellLow(n: nat, m: nat, k: nat)
    requires k <= m
    ensures Spell(n % Pow2(m), k) == Spell(n, k)
  {
    if k > 0 {
      SpellLow(n / 2, m - 1, k - 1);
      Halved(n, Pow2(m - 1));
      HalfOf((n / 2) % Pow2(m - 1), n % 2);
    }
  }

  lemma HalfOf(r: nat, b: nat)
    requires b < 2
    ensures (2 * r + b) / 2 == r && (2 * r + b) % 2 == b
  {
  }

  lemma PowValues()
    ensures Pow2(6) == 64 && Pow2(8) == 256 && Pow2(16) == U16 && Pow2(32) == U32 && Pow2(64) == U64
  {
    assert Pow2(4) == 16;
    PowAdds(4, 2);
    PowAdds(4, 4);
    PowAdds(8, 8);
    PowAdds(16, 16);
    PowAdds(32, 32);
  }

  /** Bitwise or. */
  function Or(m: nat, n: nat): (r: nat)
    decreases m + n
  {
    if m == 0 then n else if n == 0 then m
    else 2 * Or(m / 2, n / 2) + (if m % 2 == 1 || n % 2 == 1 then 1 else 0)
  }

  /** Bit `i` of a number. */
  predicate BitOf(n: nat, i: nat) { if i == 0 then n % 2 == 1 else BitOf(n / 2, i - 1) }

  /** Each bit of the result is that of either number. */
  lemma {:induction false} OrBits(m: nat, n: nat, i: nat)
    ensures BitOf(Or(m, n), i) <==> BitOf(m, i) || BitOf(n, i)
  {
    if m == 0 || n == 0 {
      NoBits(i);
    } else if i > 0 {
      OrBits(m / 2, n / 2, i - 1);
    }
  }

  lemma {:induction false} NoBits(i: nat)
    ensures !BitOf(0, i)
  {
    if i > 0 { NoBits(i - 1); }
  }

  /** Numbers whose bits do not meet are added. */
  lemma {:induction false} OrIsSum(m: nat, n: nat, k: nat)
    requires n < Pow2(k)
    ensures Or(m * Pow2(k), n) == m * Pow2(k) + n
    decreases k
  {
    if k > 0 && n > 0 && m > 0 {
      var high := m * Pow2(k - 1);
      Doubling(m, Pow2(k - 1));
      OrIsSum(m, n / 2, k - 1);
    }
  }

  lemma Doubling(m: nat, p: nat)
    requires m > 0 && p > 0
    ensures m * (2 * p) == 2 * (m * p) && m * p > 0
  {
  }

  /** `b << 16 | a` for halves of a u32. */
  lemma {:induction false} OrHalves(b: nat, a: nat)
    requires a < U16 && b < U16
    ensures Or(b * U16 % U32, a) == b * U16 + a
  {
    hide Pow2, Or;
    PowValues();
    OrIsSum(b, a, 16);
    HalvesFit(b, a);
  }

  lemma HalvesFit(b: nat, a: nat)
    requires a < U16 && b < U16
    ensures b * U16 % U32 == b * U16
  {
  }

  /** `n << 8 | b` in a u64. */
  lemma {:induction false} OrInByte(n: nat, b: byte)
    ensures Or(n * 256 % U64, b) == (n * 256 + b) % U64
  {
    hide Pow2, Or;
    PowValues();
    var m := n % 0x100_0000_0000_0000;
    LowByteIsClear(n, m, b);
    OrIsSum(m, b, 8);
  }

  lemma LowByteIsClear(n: nat, m: nat, b: byte)
    requires m == n % 0x100_0000_0000_0000
    ensures n * 256 % U64 == m * 256 && (n * 256 + b) % U64 == m * 256 + b
  {
  }

  /** Appending a byte to a u64 accumulator: its low bits are the old low bits and then the byte's. */
  lemma {:induction false} SpellShiftedIn(bits: nat, b: byte, have: nat)
    requires have + 8 <= 64
    ensures Spell((bits * 256 + b) % U64, have + 8) == Spell(bits, have) + ByteBits(b)
  {
    hide Pow2, Spell;
    PowValues();
    SpellReduced(bits * 256 + b, 64, have + 8, U64);
    SpellAppended(bits, b, have, BYTE);
  }

  lemma {:induction false} SpellReduced(n: nat, m: nat, k: nat, p: nat)
    requires k <= m && p == Pow2(m)
    ensures Spell(n % p, k) == Spell(n, k)
  {
    SpellLow(n, m, k);
  }

  lemma {:induction false} SpellAppended(bits: nat, b: nat, have: nat, k: nat)
    requires b < 256 == Pow2(k)
    ensures Spell(bits * 256 + b, have + k) == Spell(bits, have) + Spell(b, k)
  {
    var n: nat := bits * 256 + b;
    SpellSplit(n, have, k);
    ShrIsDiv(n, k);
    SpellLow(n, k, k);
  }

  lemma SmallMod(n: nat, p: nat)
    requires n < p
    ensures n % p == n && n / p == 0
  {
  }

  /** Six bits spell less than 64. */
  lemma SixBits(s: seq<bit>)
    requires |s| == 6
    ensures Value(s) < 64
  {
    ValueBound(s);
    PowValues();
  }

  lemma UnpackedSnoc(b: seq<byte>, x: byte)
    ensures Unpacked(b + [x]) == Unpacked(b) + ByteBits(x)
  {
    assert (b + [x])[..|b|] == b;
  }

  lemma {:induction false} UnpackedConcat(a: seq<byte>, b: seq<byte>)
    ensures Unpacked(a + b) == Unpacked(a) + Unpacked(b)
  {
    if b == [] {
      assert a + b == a;
    } else {
      hide Unpacked;
      var b', x := b[..|b| - 1], b[|b| - 1];
      UnpackedConcat(a, b');
      UnpackedSnoc(a + b', x);
      UnpackedSnoc(b', x);
      assert a + b == (a + b') + [x] && b == b' + [x];
      Assoc(Unpacked(a), Unpacked(b'), ByteBits(x));
    }
  }

  /** Byte `i` occupies bits `8*i .. 8*i+8`. */
  lemma {:induction false} UnpackedAt(b: seq<byte>, i: nat)
    requires i < |b|
    ensures Unpacked(b)[8 * i..8 * i + 8] == ByteBits(b[i])
    ensures Unpacked(b)[..8 * i] == Unpacked(b[..i])
  {
    var x, y := b[..i], b[i + 1..];
    assert b == (x + [b[i]]) + y;
    UnpackedConcat(x + [b[i]], y);
    UnpackedSnoc(x, b[i]);
    Middle(Unpacked(b), Unpacked(x), ByteBits(b[i]), Unpacked(y));
  }

  lemma Middle<T>(w: seq<T>, a: seq<T>, m: seq<T>, z: seq<T>)
    requires w == (a + m) + z
    ensures w[..|a|] == a && w[|a|..|a| + |m|] == m
  {
  }

  lemma {:induction false} SubSlice<T>(s: seq<T>, a: nat, b: nat, i: nat, j: nat)
    requires a <= b <= |s| && i <= j && a + j <= b
    ensures s[a..b][i..j] == s[a + i..a + j]
  {
    var (l, r) := (s[a..b][i..j], s[a + i..a + j]);
    forall k | 0 <= k < j - i ensures l[k] == r[k] { assert s[a..b][i + k] == s[a + (i + k)]; }
  }

  /** The bits between are the low bits once what follows is shifted out. */
  lemma {:induction false} SpellMiddle(n: nat, w: nat, at: nat, k: nat)
    requires at + k <= w
    ensures Spell(n, w)[at..at + k] == Spell(Shr(n, w - at - k), k)
  {
    var s: nat := w - at - k;
    SpellSplit(n, at + k, s);
    SpellSplit(Shr(n, s), at, k);
    assert Spell(n, w) == Spell(Shr(n, s), at + k) + Spell(n, s);
  }

  /** A sample inside one byte. */
  lemma {:induction false} SampleInByte(row: seq<byte>, i: nat, at: nat, bits: nat)
    requires i < |row| && at + bits <= 8
    ensures Value(Unpacked(row)[8 * i + at..8 * i + at + bits]) == Mask(Shr(row[i], 8 - at - bits), bits)
  {
    hide Unpacked, Value, Mask, Shr, Spell;
    UnpackedAt(row, i);
    SpellMiddle(row[i], BYTE, at, bits);
    ValueSpell(Shr(row[i], 8 - at - bits), bits);
    SubSlice(Unpacked(row), 8 * i, 8 * i + 8, at, at + bits);
  }
}
