/** Reading a TIFF directory as section 2 of TIFF 6.0 lays it down, and what it makes of the EXIF writer's output. */
module TiffReader {
  import opened Wrappers
  import opened Bytes
  import opened Inventory
  import opened Sorting
  import opened TiffValues
  import opened TiffExif

  // ---- The reader ----

  datatype Field = Field(tag: nat, code: nat, count: nat, numbers: seq<int>)

  datatype Ifd = Ifd(big: bool, fields: seq<Field>, next: nat)

  /** A field type: the bytes of one number, the numbers of one value, and whether they are signed. */
  datatype FieldType = FieldType(width: nat, parts: nat, signed: bool)

  /** The types of section 2 of TIFF 6.0 that EXIF uses: BYTE to RATIONAL, UNDEFINED, SLONG and SRATIONAL. */
  const TYPES: map<nat, FieldType> := map[
    1 := FieldType(1, 1, false), 2 := FieldType(1, 1, false), 3 := FieldType(2, 1, false), 4 := FieldType(4, 1, false),
    5 := FieldType(4, 2, false), 7 := FieldType(1, 1, false), 9 := FieldType(4, 1, true), 10 := FieldType(4, 2, true)]

  /** Bytes of `k` numbers. */
  function Extent(width: nat, k: nat): (n: nat) { if width == 1 then k else if width == 2 then 2 * k else 4 * k }

  /** The number at `p`. */
  function NumberOf(b: seq<byte>, big: bool, t: FieldType, p: nat): (z: int)
    requires p + Extent(t.width, 1) <= |b|
  {
    if t.width == 1 then b[p]
    else if t.width == 2 then At16(b, big, p)
    else if t.signed then Signed32(At32(b, big, p)) else At32(b, big, p)
  }

  function NumbersAt(b: seq<byte>, big: bool, t: FieldType, p: nat, k: nat): (ns: seq<int>)
    requires p + Extent(t.width, k) <= |b|
  {
    seq(k, i requires 0 <= i < k => NumberOf(b, big, t, p + Extent(t.width, i)))
  }

  /** The entry at `at`: its value is in the last four bytes if it fits there, and at an offset otherwise. */
  function ReadEntry(b: seq<byte>, big: bool, at: nat): (r: Option<Field>)
    requires at + 12 <= |b|
  {
    var (code, count) := (At16(b, big, at + 2), At32(b, big, at + 4));
    if code !in TYPES then None else
    var t := TYPES[code];
    var k := if t.parts == 2 then 2 * count else count;
    var size := Extent(t.width, k);
    var p := if size <= 4 then at + 8 else At32(b, big, at + 8);
    if p + size > |b| then None
    else Some(Field(At16(b, big, at), code, count, NumbersAt(b, big, t, p, k)))
  }

  /** Entry after entry, from `at`. */
  function EntryReader(b: seq<byte>, big: bool, at: nat): (rd: nat -> Option<Field>) {
    (k: nat) => if at + 12 * k + 12 <= |b| then ReadEntry(b, big, at + 12 * k) else None
  }

  /** The first `n` of something read one by one, if all can be read. */
  function ReadAll(rd: nat -> Option<Field>, n: nat): (r: Option<seq<Field>>) {
    if n == 0 then Some([]) else
    match ReadAll(rd, n - 1)
    case None => None
    case Some(fields) =>
      match rd(n - 1)
      case None => None
      case Some(f) => Some(fields + [f])
  }

  /** The directory at `o`. */
  function ReadIfd(b: seq<byte>, big: bool, o: nat): (r: Option<Ifd>) {
    if o + 2 > |b| then None else
    var n := At16(b, big, o);
    if o + 2 + 12 * n + 4 > |b| then None else
    match ReadAll(EntryReader(b, big, o + 2), n)
    case None => None
    case Some(fields) => Some(Ifd(big, fields, At32(b, big, o + 2 + 12 * n)))
  }

  /** The first directory of a file. */
  function ReadTiff(b: seq<byte>): (r: Option<Ifd>) {
    if |b| < 8 || (b[..2] != [0x4d, 0x4d] && b[..2] != [0x49, 0x49]) then None else
    var big := b[..2] == [0x4d, 0x4d];
    if At16(b, big, 2) != 42 then None else ReadIfd(b, big, At32(b, big, 4))
  }

  // ---- What it should find ----

  /** The type of a list's items, in the numbers of section 2 of TIFF 6.0. */
  function ItemType(item: Value): (code: nat) {
    match item case ByteV(_) => 1 case ShortV(_) => 3 case UnsignedV(_) => 4 case _ => 5
  }

  /** A list's numbers, item after item. */
  function ItemsOf(items: seq<Value>): (ns: seq<int>) {
    if items == [] then []
    else
      ItemsOf(items[..|items| - 1]) + match items[|items| - 1]
        case ByteV(b) => [b as int]
        case ShortV(n) => [n as int]
        case UnsignedV(n) => [n as int]
        case RationalV(num, den) => [num as int, den as int]
        case _ => []
  }

  /** The field an entry should be read as: its type by number, how many values, and the numbers. */
  function FieldOf(e: Entry): (f: Field) {
    match e.value
    case ByteV(b) => Field(e.tag, 1, 1, [b])
    case AsciiV(text) => Field(e.tag, 2, |text| + 1, Codes(text) + [0])
    case ShortV(n) => Field(e.tag, 3, 1, [n])
    case UnsignedV(n) => Field(e.tag, 4, 1, [n])
    case RationalV(num, den) => Field(e.tag, 5, 1, [num, den])
    case SignedV(z) => Field(e.tag, 9, 1, [z])
    case SRationalV(num, den) => Field(e.tag, 10, 1, [num, den])
    case ListV(items) =>
      if items != [] && Listable(items[0]) then Field(e.tag, ItemType(items[0]), |items|, ItemsOf(items))
      else Field(e.tag, 7, 0, [])
    case Other => Field(e.tag, 7, 0, [])
  }

  function FieldsOf(entries: seq<Entry>): (fs: seq<Field>)
    ensures |fs| == |entries| && forall i :: 0 <= i < |fs| ==> fs[i] == FieldOf(entries[i])
  {
    seq(|entries|, i requires 0 <= i < |entries| => FieldOf(entries[i]))
  }

  lemma {:induction false} ItemsAreNumbers(first: Value, items: seq<Value>, fill: bool)
    requires Listable(first) && forall i :: 0 <= i < |items| ==> SameKind(first, items[i])
    ensures ListNumbers(first, items, fill) == ItemsOf(items)
    decreases |items|
  {
    if items != [] {
      var n := |items| - 1;
      ItemsAreNumbers(first, items[..n], fill);
      assert SameKind(first, items[n]);
    }
  }

  /** The field the writer means, by its own constants. */
  lemma {:induction false} WriterMeans(e: Entry)
    requires e.Fits() && Homogeneous(e.value)
    ensures FieldOf(e) == Field(e.tag, CodeOf(e.value), CountOf(e.value), NumbersOf(e.value))
  {
    var v := e.value;
    if v.ListV? && v.items != [] && Listable(v.items[0]) { ItemsAreNumbers(v.items[0], v.items, Inline(v)); }
  }

  /** The reader's types against the writer's. */
  lemma {:induction false} TypesAgree(code: nat)
    requires code in FIELD_TYPES
    ensures code in TYPES
    ensures
      var t := TYPES[code];
      && t.width == Width(code) && t.signed == SignedType(code) && (t.signed ==> t.width == 4)
      && (forall n: nat :: Units(code, n) == if t.parts == 2 then 2 * n else n)
      && (forall n: nat :: Stride(code, n) == Extent(t.width, n))
  {
  }

  lemma {:induction false} NumbersAgree(b: seq<byte>, big: bool, code: nat, p: nat, k: nat)
    requires code in FIELD_TYPES && p + Stride(code, k) <= |b|
    ensures code in TYPES && p + Extent(TYPES[code].width, k) <= |b|
    ensures NumbersAt(b, big, TYPES[code], p, k) == ReadNumbers(b, big, code, p, k)
  {
    TypesAgree(code);
  }

  ghost predicate AllHomogeneous(entries: seq<Entry>) {
    forall i :: 0 <= i < |entries| ==> Homogeneous(entries[i].value)
  }

  // ---- Where things are ----

  /** The writer's first entry. */
  const FIRST: nat := 10

  ghost predicate Twelve(g: (Entry, nat) -> seq<byte>, entries: seq<Entry>) {
    forall i, offset: nat :: 0 <= i < |entries| && offset < U32 ==> |g(entries[i], offset)| == 12
  }

  lemma {:induction false} RowsLength(g: (Entry, nat) -> seq<byte>, f: Entry -> seq<byte>, entries: seq<Entry>,
      base: nat)
    requires Twelve(g, entries)
    ensures |Rows(g, f, entries, base)| == 12 * |entries|
    decreases |entries|
  {
    if entries != [] { RowsLength(g, f, entries[..|entries| - 1], base); }
  }

  lemma {:induction false} RowHolds(g: (Entry, nat) -> seq<byte>, f: Entry -> seq<byte>, entries: seq<Entry>,
      base: nat, k: nat)
    requires Twelve(g, entries) && k < |entries|
    ensures HoldsAt(Rows(g, f, entries, base), 12 * k, g(entries[k], Offset(base, |Flat(f, entries[..k])|)))
    decreases |entries|
  {
    hide HoldsAt, Flat, Offset;
    var n := |entries| - 1;
    var (front, last) := (Rows(g, f, entries[..n], base), g(entries[n], Offset(base, |Flat(f, entries[..n])|)));
    RowsLength(g, f, entries[..n], base);
    if k < n {
      RowHolds(g, f, entries[..n], base, k);
      assert entries[..n][..k] == entries[..k];
      HoldsLonger(front, last, 12 * k, g(entries[k], Offset(base, |Flat(f, entries[..k])|)));
    } else {
      HoldsLast(front, last);
    }
  }

  lemma {:induction false} HoldsLonger(a: seq<byte>, b: seq<byte>, i: nat, e: seq<byte>)
    requires HoldsAt(a, i, e)
    ensures HoldsAt(a + b, i, e)
  {
    assert (a + b)[i..i + |e|] == a[i..i + |e|];
  }

  lemma {:induction false} HoldsLast(a: seq<byte>, e: seq<byte>)
    ensures HoldsAt(a + e, |a|, e)
  {
  }

  lemma {:induction false} FlatPrefix(f: Entry -> seq<byte>, entries: seq<Entry>, k: nat)
    requires k < |entries|
    ensures |Flat(f, entries[..k + 1])| == |Flat(f, entries[..k])| + |f(entries[k])|
  {
    Snoc(entries, k);
  }

  lemma {:induction false} HoldsInside(b: seq<byte>, x: seq<byte>, y: seq<byte>, z: seq<byte>, i: nat, e: seq<byte>)
    requires b == x + y + z && HoldsAt(y, i, e)
    ensures HoldsAt(b, |x| + i, e)
  {
    assert b[|x| + i..|x| + i + |e|] == y[i..i + |e|];
  }

  lemma {:induction false} PreambleReads(big: bool, n: nat, b: seq<byte>, rest: seq<byte>)
    requires b == Preamble(big, n) + rest
    ensures b[..2] == (if big then [0x4d, 0x4d] else [0x49, 0x49])
    ensures At16(b, big, 2) == 42 && At32(b, big, 4) == 8 && At16(b, big, 8) == n % U16
  {
    var (m, magic, first, count) := (Mark(big), Put16(big, 42), Put32(big, 8), Put16(big, n % U16));
    Four(m, magic, first, count, rest, b);
    Reads16(b, big, 2, 42);
    Reads32(b, big, 4, 8);
    Reads16(b, big, 8, n % U16);
  }

  lemma {:induction false} Four(m: seq<byte>, x: seq<byte>, y: seq<byte>, z: seq<byte>, rest: seq<byte>, b: seq<byte>)
    requires |m| == |x| == |z| == 2 && |y| == 4 && b == (m + x + y + z) + rest
    ensures b[..2] == m && HoldsAt(b, 2, x) && HoldsAt(b, 4, y) && HoldsAt(b, 8, z)
  {
  }

  // ---- Reading the writer's output ----

  lemma {:induction false} FourParts(b: seq<byte>, at: nat, t: seq<byte>, c: seq<byte>, n: seq<byte>, v: seq<byte>)
    requires HoldsAt(b, at, t + c + n + v) && |t| == |c| == 2 && |n| == |v| == 4
    ensures at + 12 <= |b| && HoldsAt(b, at, t) && HoldsAt(b, at + 2, c) && HoldsAt(b, at + 4, n)
      && HoldsAt(b, at + 8, v)
  {
    HoldsParts(b, at, t + c + n, v);
    HoldsParts(b, at, t + c, n);
    HoldsParts(b, at, t, c);
  }

  lemma {:induction false} FieldHead(b: seq<byte>, big: bool, at: nat, tag: nat, code: nat, count: nat, v: seq<byte>)
    requires tag < U16 && code < U16 && count < U32 && |v| == 4
    requires HoldsAt(b, at, Put16(big, tag) + Put16(big, code) + Put32(big, count) + v)
    ensures at + 12 <= |b| && HoldsAt(b, at + 8, v)
    ensures At16(b, big, at) == tag && At16(b, big, at + 2) == code && At32(b, big, at + 4) == count
  {
    FourParts(b, at, Put16(big, tag), Put16(big, code), Put32(big, count), v);
    Reads16(b, big, at, tag);
    Reads16(b, big, at + 2, code);
    Reads32(b, big, at + 4, count);
  }

  /** An entry is read as the field it was written for. */
  lemma {:induction false} EntryReads(b: seq<byte>, big: bool, at: nat, e: Entry, offset: nat)
    requires e.Fits() && Homogeneous(e.value) && offset < U32 && HoldsAt(b, at, EntryBytes(big, e, offset))
    requires HoldsAt(b, offset, DataOf(big, e.value)) || Inline(e.value)
    ensures at + 12 <= |b| && ReadEntry(b, big, at) == Some(FieldOf(e))
  {
    hide NumbersOf, CodeOf, CountOf, Encode, Width, Homogeneous, ReadNumbers, NumbersAt, Stride, Units, Extent, FieldOf;
    var v := e.value;
    WriterMeans(e);
    TypesAgree(CodeOf(v));
    FieldHead(b, big, at, e.tag, CodeOf(v), CountOf(v), ValueField(big, v, offset));
    NumbersCounted(v);
    NumbersInUnit(v);
    EncodeLength(big, CodeOf(v), NumbersOf(v));
    if Inline(v) {
      PaddedHolds(b, at + 8, ValueBytes(big, v));
      EncodedReads(b, big, CodeOf(v), at + 8, NumbersOf(v));
      NumbersAgree(b, big, CodeOf(v), at + 8, |NumbersOf(v)|);
    } else {
      Reads32(b, big, at + 8, offset);
      EncodedReads(b, big, CodeOf(v), offset, NumbersOf(v));
      NumbersAgree(b, big, CodeOf(v), offset, |NumbersOf(v)|);
    }
  }

  lemma {:induction false} PaddedHolds(b: seq<byte>, at: nat, x: seq<byte>)
    requires |x| <= 4 && HoldsAt(b, at, Padded(x))
    ensures HoldsAt(b, at, x)
  {
    assert b[at..at + |x|] == b[at..at + 4][..|x|];
  }

  /** Where entry `k` and its data are in the blob, while the data ends below 2^32. */
  lemma {:induction false} EntryPlace(g: (Entry, nat) -> seq<byte>, f: Entry -> seq<byte>, entries: seq<Entry>,
    p: seq<byte>, z: seq<byte>, base: nat, k: nat, b: seq<byte>)
    requires Twelve(g, entries) && k < |entries| && |p| == FIRST && |z| == 4 && base == |p| + 12 * |entries| + |z|
    requires b == p + Rows(g, f, entries, base) + z + Flat(f, entries) && base + |Flat(f, entries)| < U32
    ensures base + |Flat(f, entries[..k])| < U32
    ensures HoldsAt(b, FIRST + 12 * k, g(entries[k], base + |Flat(f, entries[..k])|))
    ensures HoldsAt(b, base + |Flat(f, entries[..k])|, f(entries[k]))
  {
    hide Rows, Flat, Offset;
    var used := |Flat(f, entries[..k])|;
    FlatHolds(Flat(f, entries), f, 0, entries, k);
    RowsLength(g, f, entries, base);
    RowHolds(g, f, entries, base, k);
    PlaceParts(b, p, Rows(g, f, entries, base), z, Flat(f, entries), 12 * k, g(entries[k], base + used), used,
      f(entries[k]));
  }

  lemma {:induction false} PlacedBytes(big: bool, e: Entry, offset: nat)
    requires e.Fits() && offset < U32
    ensures EntryFn(big)(e, offset) == EntryBytes(big, e, offset) && EntryData(big)(e) == DataOf(big, e.value)
  {
  }

  lemma {:induction false} PlacedEntryReads(b: seq<byte>, big: bool, k: nat, e: Entry, offset: nat)
    requires e.Fits() && Homogeneous(e.value) && offset < U32
    requires HoldsAt(b, FIRST + 12 * k, EntryFn(big)(e, offset)) && HoldsAt(b, offset, EntryData(big)(e))
    ensures EntryReader(b, big, FIRST)(k) == Some(FieldOf(e))
  {
    hide EntryBytes, DataOf, ReadEntry;
    PlacedBytes(big, e, offset);
    EntryReads(b, big, FIRST + 12 * k, e, offset);
  }

  /** Whatever is laid out as the writer lays it out is read back by `rd`. */
  ghost predicate ReadsPlaced(rd: nat -> Option<Field>, g: (Entry, nat) -> seq<byte>, f: Entry -> seq<byte>,
    entries: seq<Entry>, fields: seq<Field>, b: seq<byte>)
    requires |fields| == |entries|
  {
    forall k: nat, offset: nat :: k < |entries| && offset < U32
      && HoldsAt(b, FIRST + 12 * k, g(entries[k], offset)) && HoldsAt(b, offset, f(entries[k]))
      ==> rd(k) == Some(fields[k])
  }

  lemma {:induction false} EntriesReadPlaced(big: bool, entries: seq<Entry>, b: seq<byte>)
    requires AllFit(entries) && AllHomogeneous(entries)
    ensures ReadsPlaced(EntryReader(b, big, FIRST), EntryFn(big), EntryData(big), entries, FieldsOf(entries), b)
  {
    forall k: nat, offset: nat | k < |entries| && offset < U32
      && HoldsAt(b, FIRST + 12 * k, EntryFn(big)(entries[k], offset)) && HoldsAt(b, offset, EntryData(big)(entries[k]))
      ensures EntryReader(b, big, FIRST)(k) == Some(FieldsOf(entries)[k])
    {
      PlacedEntryReads(b, big, k, entries[k], offset);
    }
  }

  lemma {:induction false} TwelveBytes(big: bool, entries: seq<Entry>)
    requires AllFit(entries)
    ensures Twelve(EntryFn(big), entries)
  {
    forall i, offset: nat | 0 <= i < |entries| && offset < U32 ensures |EntryFn(big)(entries[i], offset)| == 12 {
      assert entries[i].Fits();
    }
  }

  lemma {:induction false} PlaceParts(b: seq<byte>, p: seq<byte>, d: seq<byte>, z: seq<byte>, x: seq<byte>,
    i: nat, e: seq<byte>, j: nat, data: seq<byte>)
    requires b == p + d + z + x && HoldsAt(d, i, e) && HoldsAt(x, j, data)
    ensures HoldsAt(b, |p| + i, e) && HoldsAt(b, |p| + |d| + |z| + j, data)
  {
    assert b == p + d + (z + x);
    HoldsInside(b, p, d, z + x, i, e);
    assert b == (p + d + z) + x + [];
    HoldsInside(b, p + d + z, x, [], j, data);
  }

  lemma {:induction false} AllRead(rd: nat -> Option<Field>, fields: seq<Field>, n: nat)
    requires n <= |fields| && forall k: nat :: k < n ==> rd(k) == Some(fields[k])
    ensures ReadAll(rd, n) == Some(fields[..n])
    decreases n
  {
    if n > 0 {
      AllRead(rd, fields, n - 1);
      assert fields[..n] == fields[..n - 1] + [fields[n - 1]];
    }
  }

  /** All entries of a blob that fits 32-bit offsets are read back. */
  lemma {:induction false} EntriesRead(rd: nat -> Option<Field>, g: (Entry, nat) -> seq<byte>, f: Entry -> seq<byte>,
    entries: seq<Entry>, fields: seq<Field>, p: seq<byte>, z: seq<byte>, base: nat, b: seq<byte>)
    requires Twelve(g, entries) && |fields| == |entries| && ReadsPlaced(rd, g, f, entries, fields, b)
    requires |p| == FIRST && |z| == 4 && base == |p| + 12 * |entries| + |z|
    requires b == p + Rows(g, f, entries, base) + z + Flat(f, entries) && base + |Flat(f, entries)| < U32
    ensures ReadAll(rd, |entries|) == Some(fields)
  {
    forall k: nat | k < |entries| ensures rd(k) == Some(fields[k]) {
      EntryPlace(g, f, entries, p, z, base, k, b);
    }
    AllRead(rd, fields, |entries|);
    assert fields[..|entries|] == fields;
  }

  lemma {:induction false} IfdReads(big: bool, fields: seq<Field>, p: seq<byte>, d: seq<byte>, x: seq<byte>,
      b: seq<byte>)
    requires |p| == FIRST && At16(p, big, FIRST - 2) == |fields| && |d| == 12 * |fields|
    requires b == p + d + Put32(big, 0) + x
    requires ReadAll(EntryReader(b, big, FIRST), |fields|) == Some(fields)
    ensures ReadIfd(b, big, FIRST - 2) == Some(Ifd(big, fields, 0))
  {
    NextIsZero(big, p + d, x, b);
    SameCount(b, p, big);
  }

  lemma {:induction false} SameCount(b: seq<byte>, p: seq<byte>, big: bool)
    requires |p| == 10 && |b| >= 10 && b[..10] == p
    ensures At16(b, big, 8) == At16(p, big, 8)
  {
  }

  lemma {:induction false} NextIsZero(big: bool, x: seq<byte>, y: seq<byte>, b: seq<byte>)
    requires b == x + Put32(big, 0) + y
    ensures |x| + 4 <= |b| && At32(b, big, |x|) == 0
  {
    HoldsInside(b, x, Put32(big, 0), y, 0, Put32(big, 0));
    Reads32(b, big, |x|, 0);
  }

  lemma {:induction false} IfdEndExact(n: nat)
    requires n < U16
    ensures IfdEnd(n) == 14 + 12 * n && n % U16 == n
  {
  }

  lemma {:induction false} BlobLength(big: bool, entries: seq<Entry>)
    requires AllFit(entries) && |entries| < U16
    ensures IfdEnd(|entries|) == 14 + 12 * |entries|
    ensures |Directory(big, entries, IfdEnd(|entries|))| == 12 * |entries|
    ensures |Blob(big, entries)| == 14 + 12 * |entries| + |Data(big, entries)|
  {
    IfdEndExact(|entries|);
    TwelveBytes(big, entries);
    RowsLength(EntryFn(big), EntryData(big), entries, IfdEnd(|entries|));
  }

  lemma {:induction false} BlobEntriesRead(big: bool, entries: seq<Entry>, base: nat)
    requires AllFit(entries) && AllHomogeneous(entries) && base == 14 + 12 * |entries|
      && base + |Data(big, entries)| < U32
    ensures
      var b := Preamble(big, |entries|) + Directory(big, entries, base) + Put32(big, 0) + Data(big, entries);
      ReadAll(EntryReader(b, big, FIRST), |entries|) == Some(FieldsOf(entries))
  {
    var b := Preamble(big, |entries|) + Directory(big, entries, base) + Put32(big, 0) + Data(big, entries);
    TwelveBytes(big, entries);
    EntriesReadPlaced(big, entries, b);
    EntriesRead(EntryReader(b, big, FIRST), EntryFn(big), EntryData(big), entries, FieldsOf(entries),
                Preamble(big, |entries|), Put32(big, 0), base, b);
  }

  lemma {:induction false} TiffReads(big: bool, n: nat, rest: seq<byte>)
    ensures ReadTiff(Preamble(big, n) + rest) == ReadIfd(Preamble(big, n) + rest, big, FIRST - 2)
    ensures At16(Preamble(big, n), big, FIRST - 2) == n % U16
  {
    PreambleReads(big, n, Preamble(big, n) + rest, rest);
    PreambleReads(big, n, Preamble(big, n), []);
  }

  lemma {:induction false} Regroup(p: seq<byte>, d: seq<byte>, z: seq<byte>, x: seq<byte>)
    ensures p + d + z + x == p + (d + z + x)
  {
  }

  lemma {:induction false} WholeReads(big: bool, fields: seq<Field>, d: seq<byte>, x: seq<byte>)
    requires |fields| < U16 && |d| == 12 * |fields|
    requires ReadAll(EntryReader(Preamble(big, |fields|) + d + Put32(big, 0) + x, big, FIRST), |fields|) == Some(fields)
    ensures ReadTiff(Preamble(big, |fields|) + d + Put32(big, 0) + x) == Some(Ifd(big, fields, 0))
  {
    hide Preamble, Put32, ReadTiff;
    var p := Preamble(big, |fields|);
    var b := p + d + Put32(big, 0) + x;
    TiffReads(big, |fields|, d + Put32(big, 0) + x);
    IfdEndExact(|fields|);
    Regroup(p, d, Put32(big, 0), x);
    IfdReads(big, fields, p, d, x, b);
  }

  /**
   The writer's blob, read as TIFF 6.0 says, is one directory with exactly the
   entries written, in order: tag, type, count and every number, in either byte order.
   */
  lemma {:induction false} BlobReads(big: bool, entries: seq<Entry>)
    requires AllFit(entries) && AllHomogeneous(entries) && |entries| < U16 && |Blob(big, entries)| < U32
    ensures ReadTiff(Blob(big, entries)) == Some(Ifd(big, FieldsOf(entries), 0))
  {
    BlobLength(big, entries);
    var base := IfdEnd(|entries|);
    BlobEntriesRead(big, entries, base);
    WholeReads(big, FieldsOf(entries), Directory(big, entries, base), Data(big, entries));
  }

  lemma {:induction false} PreambleBegins(big: bool, n: nat)
    ensures Preamble(big, n)[..8] ==
      if big then [0x4d, 0x4d, 0, 0x2a, 0, 0, 0, 8] else [0x49, 0x49, 0x2a, 0, 8, 0, 0, 0]
  {
    var count := Put16(big, n % U16);
    assert Preamble(big, n)[..8] == Mark(big) + Put16(big, 42) + Put32(big, 8);
  }

  /** Every blob begins with its byte order, 42, and the offset of its directory, byte for byte. */
  lemma {:induction false} BlobBegins(big: bool, entries: seq<Entry>)
    requires AllFit(entries)
    ensures HoldsAt(Blob(big, entries), 0,
      if big then [0x4d, 0x4d, 0, 0x2a, 0, 0, 0, 8] else [0x49, 0x49, 0x2a, 0, 8, 0, 0, 0])
  {
    hide Preamble, Directory, Data, Put32, IfdEnd;
    PreambleBegins(big, |entries|);
    var p := Preamble(big, |entries|);
    assert Blob(big, entries)[0..8] == p[..8];
  }

  /** With more entries than the 16-bit count holds, no reader gets them all back. */
  lemma {:induction false} TooManyEntriesAreLost(big: bool, entries: seq<Entry>)
    requires AllFit(entries) && |entries| >= U16
    ensures ReadTiff(Blob(big, entries)).Some? ==> |ReadTiff(Blob(big, entries)).value.fields| < |entries|
  {
    hide Blob, ReadEntry;
    var b := Blob(big, entries);
    var r := ReadTiff(b);
    if r.Some? {
      var o := At32(b, r.value.big, 4);
      ReadAllCount(EntryReader(b, r.value.big, o + 2), At16(b, r.value.big, o));
    }
  }

  lemma {:induction false} ReadAllCount(rd: nat -> Option<Field>, n: nat)
    ensures ReadAll(rd, n).Some? ==> |ReadAll(rd, n).value| == n
    decreases n
  {
    if n > 0 { ReadAllCount(rd, n - 1); }
  }

  // ---- Offsets ----

  /** Where entry `k`'s share of what `f` gives lies when that begins at `base`; empty for one that has none. */
  ghost function DataRange(f: Entry -> seq<byte>, entries: seq<Entry>, base: nat, k: nat): (r: Range)
    requires k < |entries|
  {
    var start := base + |Flat(f, entries[..k])|;
    Range(start, start + |f(entries[k])|)
  }

  ghost function DataRanges(f: Entry -> seq<byte>, entries: seq<Entry>, base: nat, n: nat): (s: seq<Range>)
    requires n <= |entries|
    ensures |s| == n && forall k :: 0 <= k < n ==> s[k] == DataRange(f, entries, base, k)
    decreases n
  {
    if n == 0 then [] else DataRanges(f, entries, base, n - 1) + [DataRange(f, entries, base, n - 1)]
  }

  lemma {:induction false} DataTilesUpTo(f: Entry -> seq<byte>, entries: seq<Entry>, base: nat, n: nat)
    requires n <= |entries|
    ensures Tiling(DataRanges(f, entries, base, n), base, base + |Flat(f, entries[..n])|)
    decreases n
  {
    if n > 0 {
      DataTilesUpTo(f, entries, base, n - 1);
      FlatPrefix(f, entries, n - 1);
      var (mid, end) := (base + |Flat(f, entries[..n - 1])|, base + |Flat(f, entries[..n])|);
      assert DataRange(f, entries, base, n - 1) == Range(mid, end);
      TilingSnoc(DataRanges(f, entries, base, n - 1), base, mid, end);
    }
  }

  /** The directory is exactly `IfdEnd` bytes, and the entries' data tile the rest of the blob, each its own. */
  lemma {:induction false} DataTiles(big: bool, entries: seq<Entry>)
    requires AllFit(entries) && |entries| < U16
    ensures Tiling(DataRanges(EntryData(big), entries, IfdEnd(|entries|), |entries|), IfdEnd(|entries|),
      |Blob(big, entries)|)
  {
    BlobLength(big, entries);
    DataTilesUpTo(EntryData(big), entries, IfdEnd(|entries|), |entries|);
    assert entries[..|entries|] == entries;
  }

  predicate Even(n: int) { n % 2 == 0 }

  /** Every offset of a directory whose data begins at `base` is on a word boundary, as TIFF 6.0 expects. */
  ghost predicate OnWords(big: bool, entries: seq<Entry>, base: nat)
    requires AllFit(entries)
  {
    forall k :: 0 <= k < |entries| && !Inline(entries[k].value) ==>
      Even(DataRange(EntryData(big), entries, base, k).start)
  }

  /** A value outside its entry with an odd number of bytes: only text and lists of bytes can be. */
  predicate Odd(v: Value)
    requires Wide(v)
  {
    !Inline(v) && Width(CodeOf(v)) == 1 && !Even(CountOf(v))
  }

  lemma {:induction false} StrideParity(code: nat, k: nat)
    requires code in FIELD_TYPES
    ensures Even(Stride(code, k)) <==> (Width(code) == 1 ==> Even(k))
  {
    hide Width, Even;
    EvenMultiples(k);
  }

  lemma {:induction false} EvenMultiples(k: nat)
    ensures Even(2 * k) && Even(4 * k)
  {
  }

  lemma {:induction false} OddData(big: bool, e: Entry)
    requires e.Fits() && Homogeneous(e.value)
    ensures Even(|EntryData(big)(e)|) <==> !Odd(e.value)
  {
    hide NumbersOf, Encode, Stride, Homogeneous, CountOf, AllInUnit;
    var v := e.value;
    NumbersCounted(v);
    NumbersInUnit(v);
    EncodeLength(big, CodeOf(v), NumbersOf(v));
    StrideParity(CodeOf(v), |NumbersOf(v)|);
  }

  lemma {:induction false} EvenSum(a: int, b: int)
    requires Even(a)
    ensures Even(a + b) <==> Even(b)
  {
  }

  lemma {:induction false} EvenDifference(a: int, b: int, c: int)
    requires Even(a) && Even(c) && c == a + b
    ensures Even(b)
  {
  }

  lemma {:induction false} EvenTwice(a: int)
    ensures Even(2 * a)
  {
  }

  lemma {:induction false} EvenBase(n: nat)
    ensures Even(IfdEnd(n))
  {
    EvenTwice(7 + 6 * (n % U16));
  }

  /** No odd value is followed by another outside its entry. */
  ghost predicate OddOnlyLast(entries: seq<Entry>)
    requires AllFit(entries)
  {
    forall j, k :: 0 <= j < k < |entries| && Odd(entries[j].value) ==> Inline(entries[k].value)
  }

  lemma {:induction false} EvenPrefix(f: Entry -> seq<byte>, entries: seq<Entry>, k: nat)
    requires k <= |entries|
    requires forall j :: 0 <= j < k ==> Even(|f(entries[j])|)
    ensures Even(|Flat(f, entries[..k])|)
    decreases k
  {
    if k > 0 {
      EvenPrefix(f, entries, k - 1);
      FlatPrefix(f, entries, k - 1);
      EvenSum(|Flat(f, entries[..k - 1])|, |f(entries[k - 1])|);
    }
  }

  /** The next value that has any starts where the last one ended. */
  lemma {:induction false} NextStart(f: Entry -> seq<byte>, entries: seq<Entry>, base: nat, j: nat, k: nat)
    requires j < k < |entries| && forall m :: j < m < k ==> f(entries[m]) == []
    ensures DataRange(f, entries, base, k).start == DataRange(f, entries, base, j).end
    decreases k
  {
    FlatPrefix(f, entries, k - 1);
    if j < k - 1 { NextStart(f, entries, base, j, k - 1); }
  }

  lemma {:induction false} NoData(big: bool, e: Entry)
    requires e.Fits() && Inline(e.value)
    ensures EntryData(big)(e) == []
  {
  }

  /** If the next value outside its entry is on a word boundary too, this one is not odd. */
  lemma {:induction false} OddShifts(big: bool, entries: seq<Entry>, base: nat, j: nat, k: nat)
    requires AllFit(entries) && AllHomogeneous(entries) && j < k < |entries| && OnWords(big, entries, base)
    requires !Inline(entries[j].value) && !Inline(entries[k].value)
    ensures !Odd(entries[j].value)
    decreases k - j
  {
    if m :| j < m < k && !Inline(entries[m].value) {
      OddShifts(big, entries, base, j, m);
    } else {
      forall m | j < m < k ensures EntryData(big)(entries[m]) == [] { NoData(big, entries[m]); }
      NextStart(EntryData(big), entries, base, j, k);
      OddData(big, entries[j]);
      EvenDifference(DataRange(EntryData(big), entries, base, j).start, |EntryData(big)(entries[j])|,
        DataRange(EntryData(big), entries, base, k).start);
    }
  }

  lemma {:induction false} LastOddOnWord(big: bool, entries: seq<Entry>, base: nat, k: nat)
    requires AllFit(entries) && AllHomogeneous(entries) && Even(base) && k < |entries|
    requires OddOnlyLast(entries) && !Inline(entries[k].value)
    ensures Even(DataRange(EntryData(big), entries, base, k).start)
  {
    hide EntryData, Data;
    forall j | 0 <= j < k ensures Even(|EntryData(big)(entries[j])|) { OddData(big, entries[j]); }
    EvenPrefix(EntryData(big), entries, k);
    EvenSum(base, |Data(big, entries[..k])|);
  }

  /** Offsets are on word boundaries exactly when no odd value is followed by another outside its entry. */
  lemma {:induction false} WordsIffOddLast(big: bool, entries: seq<Entry>)
    requires AllFit(entries) && AllHomogeneous(entries)
    ensures OnWords(big, entries, IfdEnd(|entries|)) <==> OddOnlyLast(entries)
  {
    var base := IfdEnd(|entries|);
    EvenBase(|entries|);
    if OnWords(big, entries, base) {
      forall j, k | 0 <= j < k < |entries| && Odd(entries[j].value) ensures Inline(entries[k].value) {
        if !Inline(entries[k].value) { OddShifts(big, entries, base, j, k); }
      }
    }
    if OddOnlyLast(entries) {
      forall k | 0 <= k < |entries| && !Inline(entries[k].value)
        ensures Even(DataRange(EntryData(big), entries, base, k).start)
      {
        LastOddOnWord(big, entries, base, k);
      }
    }
  }

  /** Not always: a four-letter text before a fraction puts the fraction at an odd offset. */
  lemma {:induction false} OffWordExample(big: bool)
    ensures
      var entries := [Entry(271, AsciiV([0x61, 0x62, 0x63, 0x64])), Entry(282, RationalV(72, 1))];
      AllFit(entries) && !OnWords(big, entries, IfdEnd(2))
  {
    var entries := [Entry(271, AsciiV([0x61, 0x62, 0x63, 0x64])), Entry(282, RationalV(72, 1))];
    assert Odd(entries[0].value) && !Inline(entries[1].value);
    WordsIffOddLast(big, entries);
  }

  // ---- The caller ----

  function TagOf(e: Entry): (k: int) { e.tag }

  lemma {:induction false} SortedFits(found: seq<Entry>)
    requires AllFit(found) && AllHomogeneous(found)
    ensures AllFit(SortBy(TagOf, found)) && AllHomogeneous(SortBy(TagOf, found)) && |SortBy(TagOf, found)| == |found|
  {
    SortBySorts(TagOf, found);
    var sorted := SortBy(TagOf, found);
    assert |sorted| == |multiset(sorted)| == |multiset(found)|;
    forall i | 0 <= i < |sorted| ensures sorted[i].Fits() && Homogeneous(sorted[i].value) {
      assert sorted[i] in multiset(sorted);
      var j :| 0 <= j < |found| && found[j] == sorted[i];
    }
  }

  /** The tags of a directory, in order. */
  ghost predicate TagsAscend(fields: seq<Field>) {
    forall i, j :: 0 <= i < j < |fields| ==> fields[i].tag <= fields[j].tag
  }

  /**
   `read_exif_bytes` once the tags are found: sorted by tag, equal tags in the order
   found, and a blob whose reader gets every one of them back with its tags ascending.
   */
  method ReadExifBytes(big: bool, found: seq<Entry>) returns (r: Option<seq<byte>>)
    requires AllFit(found) && AllHomogeneous(found)
    ensures r.None? <==> found == []
    ensures
      var sorted := SortBy(TagOf, found);
      && multiset(sorted) == multiset(found) && (forall t :: WithKey(TagOf, sorted, t) == WithKey(TagOf, found, t))
      && (r.Some? && |found| < U16 && |r.value| < U32 ==>
            && AllFit(sorted) && ReadTiff(r.value) == Some(Ifd(big, FieldsOf(sorted), 0))
            && TagsAscend(FieldsOf(sorted)))
  {
    ghost var sortedEntries := SortBy(TagOf, found);
    SortBySorts(TagOf, found);
    SortedFits(found);
    if found == [] { return None; }
    var entries := SortBy(TagOf, found);
    r := SerializeExifIfd(big, entries);
    if |found| < U16 && |r.value| < U32 {
      BlobReads(big, entries);
      SortedTags(entries);
    }
  }

  lemma {:induction false} SortedTags(entries: seq<Entry>)
    requires AllFit(entries) && Sorted(TagOf, entries)
    ensures TagsAscend(FieldsOf(entries))
  {
    var fs := FieldsOf(entries);
    forall i, j | 0 <= i < j < |fs| ensures fs[i].tag <= fs[j].tag {
      assert TagOf(entries[i]) <= TagOf(entries[j]);
    }
  }
}
