/** Bytes and the fixed-width integers the containers store. */
module Bytes {

  type byte = x: int | 0 <= x < 256

  const U16: nat := 0x1_0000
  const U32: nat := 0x1_0000_0000
  const U64: nat := 0x1_0000_0000_0000_0000
  const I64_MIN: int := -0x8000_0000_0000_0000
  const I64_MAX: int := 0x7fff_ffff_ffff_ffff

  // ---- Little endian ----

  function Le16(n: nat): (b: seq<byte>)
    requires n < U16
    ensures |b| == 2
  {
    [n % 256, n / 256]
  }

  function Le32(n: nat): (b: seq<byte>)
    requires n < U32
    ensures |b| == 4
  {
    Le16(n % U16) + Le16(n / U16)
  }

  function Le64(n: nat): (b: seq<byte>)
    requires n < U64
    ensures |b| == 8
  {
    Le32(n % U32) + Le32(n / U32)
  }

  /** The little-endian u16 at `i`. */
  function U16At(b: seq<byte>, i: nat): (n: nat)
    requires i + 2 <= |b|
    ensures n < U16
  {
    b[i] as int + 256 * (b[i + 1] as int)
  }

  function U32At(b: seq<byte>, i: nat): (n: nat)
    requires i + 4 <= |b|
    ensures n < U32
  {
    U16At(b, i) + U16 * U16At(b, i + 2)
  }

  function U64At(b: seq<byte>, i: nat): (n: nat)
    requires i + 8 <= |b|
    ensures n < U64
  {
    U32At(b, i) + U32 * U32At(b, i + 4)
  }

  // ---- Big endian ----

  function Be16(n: nat): (b: seq<byte>)
    requires n < U16
    ensures |b| == 2
  {
    [n / 256, n % 256]
  }

  function Be32(n: nat): (b: seq<byte>)
    requires n < U32
    ensures |b| == 4
  {
    Be16(n / U16) + Be16(n % U16)
  }

  function BeU16At(b: seq<byte>, i: nat): (n: nat)
    requires i + 2 <= |b|
    ensures n < U16
  {
    256 * (b[i] as int) + b[i + 1] as int
  }

  function BeU32At(b: seq<byte>, i: nat): (n: nat)
    requires i + 4 <= |b|
    ensures n < U32
  {
    U16 * BeU16At(b, i) + BeU16At(b, i + 2)
  }

  function BeU64At(b: seq<byte>, i: nat): (n: nat)
    requires i + 8 <= |b|
    ensures n < U64
  {
    U32 * BeU32At(b, i) + BeU32At(b, i + 4)
  }

  function Be64(n: nat): (b: seq<byte>)
    requires n < U64
    ensures |b| == 8
  {
    Be32(n / U32) + Be32(n % U32)
  }

  // ---- Sums ----

  function Sum(ns: seq<nat>): (n: nat) { if ns == [] then 0 else Sum(ns[..|ns| - 1]) + ns[|ns| - 1] }

  // ---- Text ----

  /** The codes of a text of one-byte characters. */
  function Ascii(s: string): (b: seq<byte>)
    requires forall i :: 0 <= i < |s| ==> s[i] as int < 128
    ensures |b| == |s|
  {
    seq(|s|, i requires 0 <= i < |s| => s[i] as int)
  }

  // ---- Two's complement ----

  predicate IsI32(n: int) { -0x8000_0000 <= n < 0x8000_0000 }

  predicate IsI64(n: int) { I64_MIN <= n <= I64_MAX }

  function Signed32(n: nat): (z: int)
    requires n < U32
    ensures IsI32(z) && Unsigned32(z) == n
  {
    if n < 0x8000_0000 then n else n - U32
  }

  function Unsigned32(z: int): (n: nat)
    requires IsI32(z)
    ensures n < U32
  {
    if z < 0 then z + U32 else z
  }

  function Signed64(n: nat): (z: int)
    requires n < U64
    ensures IsI64(z)
  {
    if n <= I64_MAX then n else n - U64
  }

  function Unsigned64(z: int): (n: nat)
    requires IsI64(z)
    ensures n < U64 && Signed64(n) == z
  {
    if z < 0 then z + U64 else z
  }

  // ---- Round trips, wherever the encoding sits in a longer buffer ----

  /** `b` holds `e` at offset `i`. */
  predicate HoldsAt(b: seq<byte>, i: nat, e: seq<byte>) {
    i + |e| <= |b| && b[i..i + |e|] == e
  }

  lemma ReadLe16(b: seq<byte>, i: nat, n: nat)
    requires n < U16 && HoldsAt(b, i, Le16(n))
    ensures U16At(b, i) == n
  {
    assert b[i] == b[i..i + 2][0] && b[i + 1] == b[i..i + 2][1];
  }

  lemma ReadLe32(b: seq<byte>, i: nat, n: nat)
    requires n < U32 && HoldsAt(b, i, Le32(n))
    ensures U32At(b, i) == n
  {
    var e := b[i..i + 4];
    assert b[i..i + 2] == e[..2] == Le16(n % U16);
    assert b[i + 2..i + 4] == e[2..] == Le16(n / U16);
    ReadLe16(b, i, n % U16);
    ReadLe16(b, i + 2, n / U16);
  }

  lemma ReadLe64(b: seq<byte>, i: nat, n: nat)
    requires n < U64 && HoldsAt(b, i, Le64(n))
    ensures U64At(b, i) == n
  {
    var e := b[i..i + 8];
    assert b[i..i + 4] == e[..4] == Le32(n % U32);
    assert b[i + 4..i + 8] == e[4..] == Le32(n / U32);
    ReadLe32(b, i, n % U32);
    ReadLe32(b, i + 4, n / U32);
  }

  lemma ReadBe16(b: seq<byte>, i: nat, n: nat)
    requires n < U16 && HoldsAt(b, i, Be16(n))
    ensures BeU16At(b, i) == n
  {
    assert b[i] == b[i..i + 2][0] && b[i + 1] == b[i..i + 2][1];
  }

  lemma ReadBe32(b: seq<byte>, i: nat, n: nat)
    requires n < U32 && HoldsAt(b, i, Be32(n))
    ensures BeU32At(b, i) == n
  {
    var e := b[i..i + 4];
    assert b[i..i + 2] == e[..2] == Be16(n / U16);
    assert b[i + 2..i + 4] == e[2..] == Be16(n % U16);
    ReadBe16(b, i, n / U16);
    ReadBe16(b, i + 2, n % U16);
  }

  lemma ReadBe64(b: seq<byte>, i: nat, n: nat)
    requires n < U64 && HoldsAt(b, i, Be64(n))
    ensures BeU64At(b, i) == n
  {
    HoldsParts(b, i, Be32(n / U32), Be32(n % U32));
    ReadBe32(b, i, n / U32);
    ReadBe32(b, i + 4, n % U32);
  }

  /** Two parts one after the other. */
  lemma {:induction false} HoldsParts(b: seq<byte>, at: nat, x: seq<byte>, y: seq<byte>)
    requires HoldsAt(b, at, x + y)
    ensures HoldsAt(b, at, x) && HoldsAt(b, at + |x|, y)
  {
    var e := b[at..at + |x + y|];
    assert b[at..at + |x|] == e[..|x|] == x;
    assert b[at + |x|..at + |x| + |y|] == e[|x|..] == y;
  }

  lemma {:induction false} HoldsBoth(b: seq<byte>, at: nat, x: seq<byte>, y: seq<byte>)
    requires HoldsAt(b, at, x) && HoldsAt(b, at + |x|, y)
    ensures HoldsAt(b, at, x + y)
  {
    assert b[at..at + |x + y|] == b[at..at + |x|] + b[at + |x|..at + |x| + |y|];
  }

  /** What is read at a place is what is held there. */
  lemma HeldLe16(b: seq<byte>, i: nat)
    requires i + 2 <= |b|
    ensures HoldsAt(b, i, Le16(U16At(b, i)))
  {
  }

  lemma HeldLe32(b: seq<byte>, i: nat)
    requires i + 4 <= |b|
    ensures HoldsAt(b, i, Le32(U32At(b, i)))
  {
    hide Le16, U16At, HoldsAt;
    HeldLe16(b, i);
    HeldLe16(b, i + 2);
    HalvesOf(U16At(b, i + 2), U16At(b, i), U16);
    HoldsBoth(b, i, Le16(U16At(b, i)), Le16(U16At(b, i + 2)));
  }

  lemma HeldLe64(b: seq<byte>, i: nat)
    requires i + 8 <= |b|
    ensures HoldsAt(b, i, Le64(U64At(b, i)))
  {
    hide Le32, U32At, HoldsAt;
    HeldLe32(b, i);
    HeldLe32(b, i + 4);
    HalvesOf(U32At(b, i + 4), U32At(b, i), U32);
    HoldsBoth(b, i, Le32(U32At(b, i)), Le32(U32At(b, i + 4)));
  }

  lemma HalvesOf(high: nat, low: nat, base: nat)
    requires low < base && (base == U16 || base == U32)
    ensures (base * high + low) / base == high && (base * high + low) % base == low
  {
  }

  lemma HeldBe16(b: seq<byte>, i: nat)
    requires i + 2 <= |b|
    ensures HoldsAt(b, i, Be16(BeU16At(b, i)))
  {
  }

  lemma HeldBe32(b: seq<byte>, i: nat)
    requires i + 4 <= |b|
    ensures HoldsAt(b, i, Be32(BeU32At(b, i)))
  {
    hide Be16, BeU16At, HoldsAt;
    HeldBe16(b, i);
    HeldBe16(b, i + 2);
    HalvesOf(BeU16At(b, i), BeU16At(b, i + 2), U16);
    HoldsBoth(b, i, Be16(BeU16At(b, i)), Be16(BeU16At(b, i + 2)));
  }

  lemma HeldBe64(b: seq<byte>, i: nat)
    requires i + 8 <= |b|
    ensures HoldsAt(b, i, Be64(BeU64At(b, i)))
  {
    hide Be32, BeU32At, HoldsAt;
    HeldBe32(b, i);
    HeldBe32(b, i + 4);
    HalvesOf(BeU32At(b, i), BeU32At(b, i + 4), U32);
    HoldsBoth(b, i, Be32(BeU32At(b, i)), Be32(BeU32At(b, i + 4)));
  }

  /** Copies bytes into place. */
  method CopyInto(dst: array<byte>, di: nat, bytes: seq<byte>)
    requires di + |bytes| <= dst.Length
    modifies dst
    ensures dst[di..di + |bytes|] == bytes && dst[..di] == old(dst[..di])
      && dst[di + |bytes|..] == old(dst[di + |bytes|..])
    ensures forall i :: 0 <= i < dst.Length ==>
      dst[i] == (if di <= i < di + |bytes| then bytes[i - di] else old(dst[i]))
  {
    forall i | 0 <= i < |bytes| {
      dst[di + i] := bytes[i];
    }
  }

  lemma {:induction false} Assoc<T>(a: seq<T>, b: seq<T>, c: seq<T>)
    ensures (a + b) + c == a + (b + c)
  {
  }
}
