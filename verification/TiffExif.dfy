/** The EXIF writer: one directory and its data, built in two buffers. */
module TiffExif {
  import opened Wrappers
  import opened Bytes
  import opened TiffValues

  datatype Entry = Entry(tag: nat, value: Value) {
    predicate Fits() { tag < U16 && Wide(value) }
  }

  ghost predicate AllFit(entries: seq<Entry>) { forall i :: 0 <= i < |entries| ==> entries[i].Fits() }

  // ---- The layout ----

  /** A value's bytes, wherever they go. */
  ghost function ValueBytes(big: bool, v: Value): (b: seq<byte>)
    requires Wide(v)
  {
    Encode(big, CodeOf(v), NumbersOf(v))
  }

  /** Four bytes, left-justified. */
  function Padded(b: seq<byte>): (p: seq<byte>)
    ensures |p| == 4
  {
    if |b| >= 4 then b[..4] else b + seq(4 - |b|, _ => 0)
  }

  /** The bytes of a value that does not fit its entry. */
  ghost function DataOf(big: bool, v: Value): (b: seq<byte>)
    requires Wide(v)
  {
    if Inline(v) then [] else ValueBytes(big, v)
  }

  /** The last four bytes of an entry: the value, or where it is. */
  ghost function ValueField(big: bool, v: Value, offset: nat): (b: seq<byte>)
    requires Wide(v) && offset < U32
    ensures |b| == 4
  {
    if Inline(v) then Padded(ValueBytes(big, v)) else Put32(big, offset)
  }

  ghost function EntryBytes(big: bool, e: Entry, offset: nat): (b: seq<byte>)
    requires e.Fits() && offset < U32
    ensures |b| == 12
  {
    Put16(big, e.tag) + Put16(big, CodeOf(e.value)) + Put32(big, CountOf(e.value)) + ValueField(big, e.value, offset)
  }

  /** A length as a 32-bit offset past `base`, wrapping around. */
  function Offset(base: nat, n: nat): (offset: nat)
    ensures offset < U32 && (base + n < U32 ==> offset == base + n)
  {
    (base + n % U32) % U32
  }

  ghost function EntryData(big: bool): (f: Entry -> seq<byte>) {
    (e: Entry) => if e.Fits() then DataOf(big, e.value) else []
  }

  /** The data of the entries, one after another. */
  ghost function Data(big: bool, entries: seq<Entry>): (b: seq<byte>) { Flat(EntryData(big), entries) }

  ghost function EntryFn(big: bool): (g: (Entry, nat) -> seq<byte>) {
    (e: Entry, offset: nat) => if e.Fits() && offset < U32 then EntryBytes(big, e, offset) else []
  }

  /** Entries one after another, each told where the data of those before it ends. */
  ghost function Rows(g: (Entry, nat) -> seq<byte>, f: Entry -> seq<byte>, entries: seq<Entry>,
      base: nat): (b: seq<byte>)
    decreases |entries|
  {
    if entries == [] then []
    else
      var front := entries[..|entries| - 1];
      Rows(g, f, front, base) + g(entries[|entries| - 1], Offset(base, |Flat(f, front)|))
  }

  /** The entries, each pointing past the data of those before it. */
  ghost function Directory(big: bool, entries: seq<Entry>, base: nat): (b: seq<byte>) {
    Rows(EntryFn(big), EntryData(big), entries, base)
  }

  /** Where the data begins. The entry count is narrowed to 16 bits first. */
  function IfdEnd(n: nat): (end: nat) { 8 + 2 + (n % U16) * 12 + 4 }

  function Mark(big: bool): (b: seq<byte>)
    ensures |b| == 2
  {
    if big then [0x4d, 0x4d] else [0x49, 0x49]
  }

  ghost function Preamble(big: bool, n: nat): (b: seq<byte>)
    ensures |b| == 10
  {
    Mark(big) + Put16(big, 42) + Put32(big, 8) + Put16(big, n % U16)
  }

  ghost function Blob(big: bool, entries: seq<Entry>): (b: seq<byte>)
    requires AllFit(entries)
  {
    Preamble(big, |entries|) + Directory(big, entries, IfdEnd(|entries|)) + Put32(big, 0) + Data(big, entries)
  }

  // ---- The writer ----

  lemma {:induction false} Snoc<T>(s: seq<T>, i: nat)
    requires i < |s|
    ensures s[..i + 1][..i] == s[..i] && s[..i + 1][i] == s[i] && |s[..i + 1]| == i + 1
  {
  }

  lemma {:induction false} ItemSnoc(f: int -> seq<byte>, first: Value, items: seq<Value>, i: nat, fill: bool)
    requires Listable(first) && i < |items|
    ensures ListNumbers(first, items[..i + 1], fill) == ListNumbers(first, items[..i], fill) +
      ItemNumbers(first, items[i], fill)
    ensures Flat(f, ListNumbers(first, items[..i + 1], fill))
         == Flat(f, ListNumbers(first, items[..i], fill)) + Flat(f, ItemNumbers(first, items[i], fill))
  {
    Snoc(items, i);
    FlatJoins(f, ListNumbers(first, items[..i], fill), ItemNumbers(first, items[i], fill));
  }

  /** One list item's bytes, when it is of the list's kind. */
  method ItemBytes(big: bool, first: Value, item: Value) returns (b: seq<byte>)
    requires Listable(first) && SameKind(first, item) && Wide(item)
    ensures b == Encode(big, CodeOf(first), ItemNumbers(first, item, false))
  {
    ghost var f := UnitOf(big, CodeOf(first));
    match item
    case ByteV(n) => FlatOne(f, n as int); b := [n];
    case ShortV(n) => FlatOne(f, n as int); b := Put16(big, n);
    case UnsignedV(n) => FlatOne(f, n as int); b := Put32(big, n);
    case RationalV(num, den) => FlatTwo(f, num as int, den as int); b := Put32(big, num) + Put32(big, den);
  }

  /** One item's bytes among the list's, nothing for an item of another kind. */
  method AppendItem(big: bool, first: Value, item: Value, data: seq<byte>) returns (data': seq<byte>)
    requires Listable(first) && Wide(item)
    ensures data' == data + Encode(big, CodeOf(first), ItemNumbers(first, item, false))
  {
    data' := data;
    if SameKind(first, item) {
      var b := ItemBytes(big, first, item);
      data' := data' + b;
    }
  }

  /** A list outside its entry: the items of its kind, one after another. */
  method AppendItems(big: bool, first: Value, items: seq<Value>, data: seq<byte>) returns (data': seq<byte>)
    requires Listable(first) && forall i :: 0 <= i < |items| ==> Wide(items[i])
    ensures data' == data + Encode(big, CodeOf(first), ListNumbers(first, items, false))
  {
    var i := 0;
    data' := data;
    ghost var f := UnitOf(big, CodeOf(first));
    while i < |items|
      invariant 0 <= i <= |items|
      invariant data' == data + Flat(f, ListNumbers(first, items[..i], false))
    {
      ItemSnoc(f, first, items, i, false);
      Assoc(data, Flat(f, ListNumbers(first, items[..i], false)), Flat(f, ItemNumbers(first, items[i], false)));
      data' := AppendItem(big, first, items[i], data');
      i := i + 1;
    }
    assert items[..i] == items;
  }

  /** Where item `i` of a list is inside an entry. */
  function SlotAt(first: Value, i: nat): (at: nat) { if first.ByteV? then i else 2 * i }

  /** The entry's value field once the first `i` items are in it. */
  ghost predicate Filled(first: Value, i: nat, before: seq<byte>, field: seq<byte>) {
    |before| == SlotAt(first, i) && field == Padded(before)
  }

  lemma {:induction false} NothingFilled(f: int -> seq<byte>, first: Value)
    requires Listable(first)
    ensures Filled(first, 0, Flat(f, ListNumbers(first, [], true)), [0, 0, 0, 0])
  {
  }

  lemma {:induction false} FilledField(first: Value, i: nat, before: seq<byte>, field: seq<byte>)
    requires Filled(first, i, before, field)
    ensures field == Padded(before)
  {
  }

  /** One item put at its place, a hole left for an item of another kind. */
  method PlaceItem(big: bool, first: Value, item: Value, i: nat, field: seq<byte>, ghost before: seq<byte>)
      returns (field': seq<byte>)
    requires (first.ByteV? || first.ShortV?) && Wide(item) && SlotAt(first, i + 1) <= 4
      && Filled(first, i, before, field)
    ensures Filled(first, i + 1, before + Encode(big, CodeOf(first), ItemNumbers(first, item, true)), field')
  {
    if SameKind(first, item) {
      var b := ItemBytes(big, first, item);
      var at := SlotAt(first, i);
      ItemLength(big, first, item);
      PaddedSplice(before, b, at);
      field' := field[..at] + b + field[at + |b|..];
    } else {
      HoleBytes(big, first, item);
      PaddedZeros(before, Encode(big, CodeOf(first), [0]));
      field' := field;
    }
  }

  /** A list inside its entry: each item of its kind at its own place among four zero bytes. */
  method InlineItems(big: bool, first: Value, items: seq<Value>) returns (field: seq<byte>)
    requires (first.ByteV? || first.ShortV?) && SlotAt(first, |items|) <= 4
    requires forall i :: 0 <= i < |items| ==> Wide(items[i])
    ensures field == Padded(Encode(big, CodeOf(first), ListNumbers(first, items, true)))
  {
    var i := 0;
    field := [0, 0, 0, 0];
    ghost var f := UnitOf(big, CodeOf(first));
    hide Flat, ListNumbers, ItemNumbers, UnitOf, Padded, CodeOf, SameKind, Filled, Wide;
    assert items[..0] == [];
    NothingFilled(f, first);
    while i < |items|
      invariant 0 <= i <= |items|
      invariant Filled(first, i, Flat(f, ListNumbers(first, items[..i], true)), field)
    {
      ItemSnoc(f, first, items, i, true);
      field := PlaceItem(big, first, items[i], i, field, Flat(f, ListNumbers(first, items[..i], true)));
      i := i + 1;
    }
    assert items[..i] == items;
    FilledField(first, i, Flat(f, ListNumbers(first, items, true)), field);
  }

  lemma {:induction false} ItemLength(big: bool, first: Value, item: Value)
    requires (first.ByteV? || first.ShortV?) && SameKind(first, item) && Wide(item)
    ensures |Encode(big, CodeOf(first), ItemNumbers(first, item, false))| == if first.ByteV? then 1 else 2
    ensures ItemNumbers(first, item, true) == ItemNumbers(first, item, false)
  {
    EncodeLength(big, CodeOf(first), ItemNumbers(first, item, false));
  }

  lemma {:induction false} HoleBytes(big: bool, first: Value, item: Value)
    requires (first.ByteV? || first.ShortV?) && !SameKind(first, item)
    ensures ItemNumbers(first, item, true) == [0]
    ensures Encode(big, CodeOf(first), [0]) == if first.ByteV? then [0] else [0, 0]
  {
    FlatOne(UnitOf(big, CodeOf(first)), 0);
  }

  lemma {:induction false} PaddedSplice(before: seq<byte>, b: seq<byte>, at: nat)
    requires |before| == at && at + |b| <= 4
    ensures
      var field := Padded(before);
      field[..at] + b + field[at + |b|..] == Padded(before + b)
  {
  }

  lemma {:induction false} PaddedZeros(before: seq<byte>, z: seq<byte>)
    requires |before| + |z| <= 4 && forall i :: 0 <= i < |z| ==> z[i] == 0
    ensures Padded(before + z) == Padded(before)
  {
  }

  /** Type, count and value field of one value, and its data. */
  ghost predicate Wrote(big: bool, v: Value, ifdEnd: nat, buf: seq<byte>, data: seq<byte>, buf': seq<byte>,
      data': seq<byte>)
    requires Wide(v)
  {
    && buf' == buf + Put16(big, CodeOf(v)) + Put32(big, CountOf(v)) + ValueField(big, v, Offset(ifdEnd, |data|))
    && data' == data + DataOf(big, v)
  }

  lemma {:induction false} OneLong(big: bool, items: seq<Value>)
    requires |items| == 1 && items[0].UnsignedV? && Wide(items[0])
    ensures Inline(ListV(items)) && ValueField(big, ListV(items), 0) == Put32(big, items[0].n)
  {
    var n := items[0].n;
    assert items[..0] == [] && ListNumbers(items[0], items, true) == [] + [n];
    FlatOne(UnitOf(big, LONG), n as int);
  }

  method WriteList(big: bool, items: seq<Value>, ifdEnd: nat, buf: seq<byte>, data: seq<byte>)
      returns (buf': seq<byte>, data': seq<byte>)
    requires Wide(ListV(items)) && items != [] && Listable(items[0])
    ensures Wrote(big, ListV(items), ifdEnd, buf, data, buf', data')
  {
    hide Put16, Put32, Flat, ListNumbers, Padded, UnitOf;
    var first, count := items[0], |items|;
    buf', data' := buf + Put16(big, CodeOf(first)) + Put32(big, count), data;
    if (first.ByteV? && count <= 4) || (first.ShortV? && count <= 2) {
      var field := InlineItems(big, first, items);
      buf' := buf' + field;
    } else if first.UnsignedV? && count == 1 {
      OneLong(big, items);
      buf' := buf' + Put32(big, first.n);
    } else {
      buf' := buf' + Put32(big, Offset(ifdEnd, |data|));
      data' := AppendItems(big, first, items, data);
    }
  }

  /** What a single number leaves in its entry, and nowhere else. */
  lemma {:induction false} ScalarField(big: bool, v: Value, offset: nat)
    requires Wide(v) && (v.ByteV? || v.ShortV? || v.UnsignedV? || v.SignedV?) && offset < U32
    ensures CountOf(v) == 1 && DataOf(big, v) == []
    ensures ValueField(big, v, offset) ==
      match v
      case ByteV(b) => [b, 0, 0, 0]
      case ShortV(n) => Put16(big, n) + [0, 0]
      case UnsignedV(n) => Put32(big, n)
      case SignedV(z) => Put32(big, Unsigned32(z))
  {
    hide Put16, Put32;
    ghost var f := UnitOf(big, CodeOf(v));
    match v
    case ByteV(b) => FlatOne(f, b as int);
    case ShortV(n) => FlatOne(f, n as int);
    case UnsignedV(n) => FlatOne(f, n as int);
    case SignedV(z) => FlatOne(f, z);
  }

  method WriteScalar(big: bool, v: Value, ifdEnd: nat, buf: seq<byte>, data: seq<byte>)
      returns (buf': seq<byte>, data': seq<byte>)
    requires Wide(v) && (v.ByteV? || v.ShortV? || v.UnsignedV? || v.SignedV?)
    ensures Wrote(big, v, ifdEnd, buf, data, buf', data')
  {
    hide Put16, Put32, ValueField, DataOf, CodeOf, CountOf;
    buf', data' := buf + Put16(big, CodeOf(v)) + Put32(big, 1), data;
    ScalarField(big, v, Offset(ifdEnd, |data|));
    match v
    case ByteV(b) => buf' := buf' + [b, 0, 0, 0];
    case ShortV(n) => buf' := buf' + (Put16(big, n) + [0, 0]);
    case UnsignedV(n) => buf' := buf' + Put32(big, n);
    case SignedV(z) => buf' := buf' + Put32(big, Unsigned32(z));
  }

  method WriteFraction(big: bool, v: Value, ifdEnd: nat, buf: seq<byte>, data: seq<byte>)
      returns (buf': seq<byte>, data': seq<byte>)
    requires Wide(v) && (v.RationalV? || v.SRationalV?)
    ensures Wrote(big, v, ifdEnd, buf, data, buf', data')
  {
    hide Put16, Put32;
    buf', data' := buf + Put16(big, CodeOf(v)) + Put32(big, 1), data;
    buf' := buf' + Put32(big, Offset(ifdEnd, |data|));
    ghost var f := UnitOf(big, CodeOf(v));
    match v
    case RationalV(num, den) =>
      FlatTwo(f, num as int, den as int);
      data' := data' + (Put32(big, num) + Put32(big, den));
    case SRationalV(num, den) =>
      FlatTwo(f, num, den);
      data' := data' + (Put32(big, Unsigned32(num)) + Put32(big, Unsigned32(den)));
  }

  method WriteAscii(big: bool, text: seq<byte>, ifdEnd: nat, buf: seq<byte>, data: seq<byte>)
      returns (buf': seq<byte>, data': seq<byte>)
    requires Wide(AsciiV(text))
    ensures Wrote(big, AsciiV(text), ifdEnd, buf, data, buf', data')
  {
    var count := |text| + 1;
    TextBytes(big, text);
    buf', data' := buf + Put16(big, ASCII) + Put32(big, count), data;
    if count <= 4 {
      buf' := buf' + (text + seq(4 - |text|, _ => 0));
      assert text + seq(4 - |text|, _ => 0) == Padded(text + [0]);
    } else {
      buf' := buf' + Put32(big, Offset(ifdEnd, |data|));
      data' := data' + text + [0];
      assert data' == data + (text + [0]);
    }
  }

  lemma {:induction false} TextBytes(big: bool, text: seq<byte>)
    requires Wide(AsciiV(text))
    ensures ValueBytes(big, AsciiV(text)) == text + [0]
  {
    CodesEncode(big, ASCII, text);
    FlatSnoc(UnitOf(big, ASCII), Codes(text), 0);
  }

  method WriteValue(big: bool, v: Value, ifdEnd: nat, buf: seq<byte>, data: seq<byte>)
      returns (buf': seq<byte>, data': seq<byte>)
    requires Wide(v)
    ensures Wrote(big, v, ifdEnd, buf, data, buf', data')
  {
    if v.AsciiV? {
      buf', data' := WriteAscii(big, v.text, ifdEnd, buf, data);
    } else if v.ListV? && v.items != [] && Listable(v.items[0]) {
      buf', data' := WriteList(big, v.items, ifdEnd, buf, data);
    } else if v.ListV? || v.Other? {
      buf', data' := buf + Put16(big, UNDEFINED) + Put32(big, 0) + Put32(big, 0), data;
      assert Put32(big, 0) == [0, 0, 0, 0] == Padded([]);
    } else if v.RationalV? || v.SRationalV? {
      buf', data' := WriteFraction(big, v, ifdEnd, buf, data);
    } else {
      buf', data' := WriteScalar(big, v, ifdEnd, buf, data);
    }
  }

  /** One directory entry and its data. */
  method WriteEntry(big: bool, e: Entry, ifdEnd: nat, buf: seq<byte>, data: seq<byte>)
      returns (buf': seq<byte>, data': seq<byte>)
    requires e.Fits()
    ensures buf' == buf + EntryBytes(big, e, Offset(ifdEnd, |data|)) && data' == data + DataOf(big, e.value)
  {
    hide Put16, Put32, ValueField, DataOf, CodeOf;
    buf' := buf + Put16(big, e.tag);
    buf', data' := WriteValue(big, e.value, ifdEnd, buf', data);
  }

  /** `serialize_exif_ifd`: the blob of the entries in the order given, or nothing for no entries. */
  method SerializeExifIfd(big: bool, entries: seq<Entry>) returns (r: Option<seq<byte>>)
    requires AllFit(entries)
    ensures r == if entries == [] then None else Some(Blob(big, entries))
  {
    hide EntryBytes, DataOf, Put16, Put32;
    var buf: seq<byte>, data: seq<byte> := Mark(big), [];
    buf := buf + Put16(big, 42);
    buf := buf + Put32(big, 8);
    buf := buf + Put16(big, |entries| % U16);
    ghost var preamble := buf;
    assert preamble == Preamble(big, |entries|);
    var ifdEnd := IfdEnd(|entries|);
    var i := 0;
    while i < |entries|
      invariant 0 <= i <= |entries|
      invariant buf == preamble + Directory(big, entries[..i], ifdEnd)
      invariant data == Data(big, entries[..i])
    {
      Snoc(entries, i);
      assert entries[i].Fits();
      Assoc(preamble, Directory(big, entries[..i], ifdEnd), EntryBytes(big, entries[i], Offset(ifdEnd, |data|)));
      buf, data := WriteEntry(big, entries[i], ifdEnd, buf, data);
      i := i + 1;
    }
    assert entries[..i] == entries;
    buf := buf + Put32(big, 0);
    buf := buf + data;
    r := if |buf| > 8 + 2 + 4 then Some(buf) else None;
  }
}
