/** TIFF field types, and numbers in either byte order. */
module TiffValues {
  import opened Wrappers
  import opened Bytes

  const BYTE: nat := 1
  const ASCII: nat := 2
  const SHORT: nat := 3
  const LONG: nat := 4
  const RATIONAL: nat := 5
  const UNDEFINED: nat := 7
  const SLONG: nat := 9
  const SRATIONAL: nat := 10

  const FIELD_TYPES: set<nat> := {BYTE, ASCII, SHORT, LONG, RATIONAL, UNDEFINED, SLONG, SRATIONAL}

  function Put16(big: bool, n: nat): (b: seq<byte>)
    requires n < U16
    ensures |b| == 2
  {
    if big then Be16(n) else Le16(n)
  }

  function Put32(big: bool, n: nat): (b: seq<byte>)
    requires n < U32
    ensures |b| == 4
  {
    if big then Be32(n) else Le32(n)
  }

  function At16(b: seq<byte>, big: bool, i: nat): (n: nat)
    requires i + 2 <= |b|
    ensures n < U16
  {
    if big then BeU16At(b, i) else U16At(b, i)
  }

  function At32(b: seq<byte>, big: bool, i: nat): (n: nat)
    requires i + 4 <= |b|
    ensures n < U32
  {
    if big then BeU32At(b, i) else U32At(b, i)
  }

  lemma {:induction false} Reads16(b: seq<byte>, big: bool, i: nat, n: nat)
    requires n < U16 && HoldsAt(b, i, Put16(big, n))
    ensures At16(b, big, i) == n
  {
    if big { ReadBe16(b, i, n); } else { ReadLe16(b, i, n); }
  }

  lemma {:induction false} Reads32(b: seq<byte>, big: bool, i: nat, n: nat)
    requires n < U32 && HoldsAt(b, i, Put32(big, n))
    ensures At32(b, big, i) == n
  {
    if big { ReadBe32(b, i, n); } else { ReadLe32(b, i, n); }
  }

  // ---- Units: the numbers a value is made of ----

  /** Bytes of one number of a field type; a rational is two numbers. */
  function Width(code: nat): (w: nat)
    requires code in FIELD_TYPES
    ensures w == 1 || w == 2 || w == 4
  {
    if code == SHORT then 2 else if code in {LONG, SLONG, RATIONAL, SRATIONAL} then 4 else 1
  }

  /** Bytes of `k` numbers. */
  function Stride(code: nat, k: nat): (n: nat)
    requires code in FIELD_TYPES
  {
    match Width(code)
    case 1 => k
    case 2 => 2 * k
    case _ => 4 * k
  }

  /** Numbers in `count` values. */
  function Units(code: nat, count: nat): (k: nat) {
    if code == RATIONAL || code == SRATIONAL then 2 * count else count
  }

  predicate SignedType(code: nat) { code == SLONG || code == SRATIONAL }

  predicate InUnit(code: nat, z: int)
    requires code in FIELD_TYPES
  {
    if SignedType(code) then IsI32(z)
    else 0 <= z && match Width(code)
      case 1 => z < 256
      case 2 => z < U16
      case _ => z < U32
  }

  function UnitBytes(big: bool, code: nat, z: int): (b: seq<byte>)
    requires code in FIELD_TYPES && InUnit(code, z)
    ensures |b| == Width(code)
  {
    if SignedType(code) then Put32(big, Unsigned32(z))
    else match Width(code)
      case 1 => [z]
      case 2 => Put16(big, z)
      case _ => Put32(big, z)
  }

  ghost predicate AllInUnit(code: nat, ns: seq<int>)
    requires code in FIELD_TYPES
  {
    forall i :: 0 <= i < |ns| ==> InUnit(code, ns[i])
  }

  /** The bytes of a number as a function, empty for one that does not fit. */
  function UnitOf(big: bool, code: nat): (f: int -> seq<byte>) {
    (z: int) => if code in FIELD_TYPES && InUnit(code, z) then UnitBytes(big, code, z) else []
  }

  /** Encodings one after another. */
  function Flat<T>(f: T -> seq<byte>, xs: seq<T>): (b: seq<byte>)
    decreases |xs|
  {
    if xs == [] then [] else Flat(f, xs[..|xs| - 1]) + f(xs[|xs| - 1])
  }

  lemma {:induction false} FlatSnoc<T>(f: T -> seq<byte>, xs: seq<T>, x: T)
    ensures Flat(f, xs + [x]) == Flat(f, xs) + f(x)
  {
    assert (xs + [x])[..|xs|] == xs;
  }

  lemma {:induction false} FlatJoins<T>(f: T -> seq<byte>, xs: seq<T>, ys: seq<T>)
    ensures Flat(f, xs + ys) == Flat(f, xs) + Flat(f, ys)
    decreases |ys|
  {
    if ys == [] {
      assert xs + ys == xs;
    } else {
      var k := |ys| - 1;
      FlatJoins(f, xs, ys[..k]);
      FlatSnoc(f, xs + ys[..k], ys[k]);
      assert xs + ys == (xs + ys[..k]) + [ys[k]];
      Assoc(Flat(f, xs), Flat(f, ys[..k]), f(ys[k]));
    }
  }

  lemma {:induction false} FlatOne<T>(f: T -> seq<byte>, x: T)
    ensures Flat(f, [x]) == f(x)
  {
    assert [x][..0] == [];
    assert Flat(f, [x][..0]) == [];
  }

  lemma {:induction false} FlatTwo<T>(f: T -> seq<byte>, x: T, y: T)
    ensures Flat(f, [x, y]) == f(x) + f(y)
  {
    FlatOne(f, x);
    FlatSnoc(f, [x], y);
    assert [x] + [y] == [x, y];
  }

  /** Numbers one after another. */
  function Encode(big: bool, code: nat, ns: seq<int>): (b: seq<byte>) { Flat(UnitOf(big, code), ns) }

  lemma {:induction false} FlatLength(f: int -> seq<byte>, ns: seq<int>, code: nat)
    requires code in FIELD_TYPES && forall i :: 0 <= i < |ns| ==> |f(ns[i])| == Width(code)
    ensures |Flat(f, ns)| == Stride(code, |ns|)
    decreases |ns|
  {
    if ns != [] { FlatLength(f, ns[..|ns| - 1], code); }
  }

  lemma {:induction false} EncodeLength(big: bool, code: nat, ns: seq<int>)
    requires code in FIELD_TYPES && AllInUnit(code, ns)
    ensures |Encode(big, code, ns)| == Stride(code, |ns|)
  {
    FlatLength(UnitOf(big, code), ns, code);
  }

  /** The number of type `code` at `p`. */
  function NumberAt(b: seq<byte>, big: bool, code: nat, p: nat): (z: int)
    requires code in FIELD_TYPES && p + Width(code) <= |b|
  {
    if SignedType(code) then Signed32(At32(b, big, p))
    else match Width(code)
      case 1 => b[p]
      case 2 => At16(b, big, p)
      case _ => At32(b, big, p)
  }

  function ReadNumbers(b: seq<byte>, big: bool, code: nat, at: nat, k: nat): (ns: seq<int>)
    requires code in FIELD_TYPES && at + Stride(code, k) <= |b|
    ensures |ns| == k
  {
    seq(k, i requires 0 <= i < k => NumberAt(b, big, code, at + Stride(code, i)))
  }

  lemma {:induction false} UnitReads(b: seq<byte>, big: bool, code: nat, p: nat, z: int)
    requires code in FIELD_TYPES && InUnit(code, z) && HoldsAt(b, p, UnitBytes(big, code, z))
    ensures NumberAt(b, big, code, p) == z
  {
    if SignedType(code) {
      Reads32(b, big, p, Unsigned32(z));
    } else if Width(code) == 1 {
      assert b[p] == b[p..p + 1][0];
    } else if Width(code) == 2 {
      Reads16(b, big, p, z);
    } else {
      Reads32(b, big, p, z);
    }
  }

  /** Each encoding is where those before it end. */
  lemma {:induction false} FlatHolds<T>(b: seq<byte>, f: T -> seq<byte>, at: nat, ns: seq<T>, i: nat)
    requires HoldsAt(b, at, Flat(f, ns)) && i < |ns|
    ensures HoldsAt(b, at + |Flat(f, ns[..i])|, f(ns[i]))
    decreases |ns|
  {
    var k := |ns| - 1;
    HoldsParts(b, at, Flat(f, ns[..k]), f(ns[k]));
    if i < k {
      FlatHolds(b, f, at, ns[..k], i);
      assert ns[..k][..i] == ns[..i];
    }
  }

  /** Encoded numbers are read back, wherever they lie. */
  lemma {:induction false} EncodedReads(b: seq<byte>, big: bool, code: nat, at: nat, ns: seq<int>)
    requires code in FIELD_TYPES && AllInUnit(code, ns) && HoldsAt(b, at, Encode(big, code, ns))
    ensures at + Stride(code, |ns|) <= |b|
    ensures ReadNumbers(b, big, code, at, |ns|) == ns
  {
    EncodeLength(big, code, ns);
    forall i: nat | i < |ns|
      ensures ReadNumbers(b, big, code, at, |ns|)[i] == ns[i]
    {
      NumberReads(b, big, code, at, ns, i);
    }
  }

  lemma {:induction false} NumberReads(b: seq<byte>, big: bool, code: nat, at: nat, ns: seq<int>, i: nat)
    requires code in FIELD_TYPES && AllInUnit(code, ns) && HoldsAt(b, at, Encode(big, code, ns)) && i < |ns|
    ensures at + Stride(code, i) + Width(code) <= |b|
    ensures NumberAt(b, big, code, at + Stride(code, i)) == ns[i]
  {
    FlatHolds(b, UnitOf(big, code), at, ns, i);
    EncodeLength(big, code, ns[..i]);
    UnitReads(b, big, code, at + Stride(code, i), ns[i]);
  }

  // ---- Values ----

  /** What the decoder hands over. `Other` stands for every value the writer does not serialize. */
  datatype Value =
    | ByteV(b: byte) | ShortV(n: nat) | UnsignedV(n: nat) | SignedV(z: int)
    | RationalV(num: nat, den: nat) | SRationalV(snum: int, sden: int)
    | AsciiV(text: seq<byte>) | ListV(items: seq<Value>) | Other

  /** Within the source's integer widths. */
  predicate Wide(v: Value) {
    match v
    case ByteV(_) => true
    case ShortV(n) => n < U16
    case UnsignedV(n) => n < U32
    case SignedV(z) => IsI32(z)
    case RationalV(num, den) => num < U32 && den < U32
    case SRationalV(num, den) => IsI32(num) && IsI32(den)
    case AsciiV(text) => |text| < U32 - 1
    case ListV(items) => |items| < U32 && forall i :: 0 <= i < |items| ==> Wide(items[i])
    case Other => true
  }

  /** The lists the writer knows by their first item. */
  predicate Listable(first: Value) { first.ByteV? || first.ShortV? || first.UnsignedV? || first.RationalV? }

  predicate SameKind(a: Value, b: Value)
    requires Listable(a)
  {
    match a
    case ByteV(_) => b.ByteV?
    case ShortV(_) => b.ShortV?
    case UnsignedV(_) => b.UnsignedV?
    case _ => b.RationalV?
  }

  /** The field type a value is written with. */
  function CodeOf(v: Value): (code: nat)
    ensures code in FIELD_TYPES
  {
    match v
    case ByteV(_) => BYTE
    case ShortV(_) => SHORT
    case UnsignedV(_) => LONG
    case SignedV(_) => SLONG
    case RationalV(_, _) => RATIONAL
    case SRationalV(_, _) => SRATIONAL
    case AsciiV(_) => ASCII
    case ListV(items) => if items != [] && Listable(items[0]) then CodeOf(items[0]) else UNDEFINED
    case Other => UNDEFINED
  }

  function CountOf(v: Value): (count: nat)
    requires Wide(v)
    ensures count < U32
  {
    match v
    case AsciiV(text) => |text| + 1
    case ListV(items) => if items != [] && Listable(items[0]) then |items| else 0
    case Other => 0
    case _ => 1
  }

  /** Whether the value itself is in its directory entry. */
  predicate Inline(v: Value)
    requires Wide(v)
  {
    Stride(CodeOf(v), Units(CodeOf(v), CountOf(v))) <= 4
  }

  /** The numbers of an item, or of a hole where an item of another kind stands. */
  function ItemNumbers(first: Value, item: Value, fill: bool): (ns: seq<int>)
    requires Listable(first)
  {
    if !SameKind(first, item) then if fill then [0] else []
    else match item
      case ByteV(b) => [b]
      case ShortV(n) => [n]
      case UnsignedV(n) => [n]
      case RationalV(num, den) => [num, den]
  }

  function ListNumbers(first: Value, items: seq<Value>, fill: bool): (ns: seq<int>)
    requires Listable(first)
    decreases |items|
  {
    if items == [] then []
    else ListNumbers(first, items[..|items| - 1], fill) + ItemNumbers(first, items[|items| - 1], fill)
  }

  /** The numbers a value is written as: a list inside its entry leaves holes, one outside skips. */
  function NumbersOf(v: Value): (ns: seq<int>)
    requires Wide(v)
  {
    match v
    case ByteV(b) => [b]
    case ShortV(n) => [n]
    case UnsignedV(n) => [n]
    case SignedV(z) => [z]
    case RationalV(num, den) => [num, den]
    case SRationalV(num, den) => [num, den]
    case AsciiV(text) => Codes(text) + [0]
    case ListV(items) => if items != [] && Listable(items[0]) then ListNumbers(items[0], items, Inline(v)) else []
    case Other => []
  }

  /** Bytes as numbers. */
  function Codes(text: seq<byte>): (ns: seq<int>)
    ensures |ns| == |text| && forall i :: 0 <= i < |text| ==> ns[i] == text[i]
  {
    seq(|text|, i requires 0 <= i < |text| => text[i] as int)
  }

  lemma {:induction false} CodesFlat(f: int -> seq<byte>, text: seq<byte>)
    requires forall b: byte :: f(b) == [b]
    ensures Flat(f, Codes(text)) == text
    decreases |text|
  {
    if text != [] {
      var front := text[..|text| - 1];
      CodesFlat(f, front);
      assert Codes(text) == Codes(front) + [text[|text| - 1] as int];
      FlatSnoc(f, Codes(front), text[|text| - 1]);
    }
  }

  lemma {:induction false} CodesEncode(big: bool, code: nat, text: seq<byte>)
    requires code == BYTE || code == ASCII
    ensures AllInUnit(code, Codes(text)) && Encode(big, code, Codes(text)) == text
  {
    CodesFlat(UnitOf(big, code), text);
  }

  lemma {:induction false} ItemsInUnit(items: seq<Value>, first: Value, fill: bool)
    requires Listable(first) && forall i :: 0 <= i < |items| ==> Wide(items[i])
    ensures AllInUnit(CodeOf(first), ListNumbers(first, items, fill))
    decreases |items|
  {
    if items != [] {
      ItemsInUnit(items[..|items| - 1], first, fill);
      assert Wide(items[|items| - 1]);
    }
  }

  /** A value's numbers fit its field type. */
  lemma {:induction false} NumbersInUnit(v: Value)
    requires Wide(v)
    ensures AllInUnit(CodeOf(v), NumbersOf(v))
  {
    match v
    case AsciiV(text) => CodesEncode(false, ASCII, text);
    case ListV(items) => if items != [] && Listable(items[0]) { ItemsInUnit(items, items[0], Inline(v)); }
    case _ =>
  }

  /** Not a list whose items are of different kinds. */
  predicate Homogeneous(v: Value) {
    v.ListV? && v.items != [] && Listable(v.items[0]) ==> forall i :: 0 <= i < |v.items| ==>
      SameKind(v.items[0], v.items[i])
  }

  /** What a list of one kind is written as: item by item, each item its own numbers. */
  lemma {:induction false} ListMeaning(first: Value, items: seq<Value>, fill: bool)
    requires Listable(first) && forall i :: 0 <= i < |items| ==> SameKind(first, items[i])
    ensures |ListNumbers(first, items, fill)| == Units(CodeOf(first), |items|)
    ensures forall i :: 0 <= i < |items| ==> ItemAt(ListNumbers(first, items, fill), i, items[i])
    decreases |items|
  {
    if items != [] {
      var k := |items| - 1;
      ListMeaning(first, items[..k], fill);
      assert SameKind(first, items[k]);
      forall i | 0 <= i < |items| ensures ItemAt(ListNumbers(first, items, fill), i, items[i]) {
        if i < k {
          assert items[..k][i] == items[i];
          assert ItemAt(ListNumbers(first, items[..k], fill), i, items[..k][i]);
        }
      }
    }
  }

  /** Item `i` of a list of its kind is at its place among the numbers. */
  predicate ItemAt(ns: seq<int>, i: nat, item: Value) {
    match item
    case ByteV(b) => i < |ns| && ns[i] == b
    case ShortV(n) => i < |ns| && ns[i] == n
    case UnsignedV(n) => i < |ns| && ns[i] == n
    case RationalV(num, den) => 2 * i + 1 < |ns| && ns[2 * i] == num && ns[2 * i + 1] == den
    case _ => false
  }

  /** Every value but a mixed list is written with as many numbers as its count says. */
  lemma {:induction false} NumbersCounted(v: Value)
    requires Wide(v) && Homogeneous(v)
    ensures |NumbersOf(v)| == Units(CodeOf(v), CountOf(v))
  {
    if v.ListV? && v.items != [] && Listable(v.items[0]) { ListMeaning(v.items[0], v.items, Inline(v)); }
  }
}
