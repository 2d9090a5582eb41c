/** The children of a JP2 header box: what each says, and which of several wins. */
module Jp2Header {
  import opened Wrappers
  import opened Bytes
  import opened Sorting
  import opened Inventory
  import opened Jp2Boxes

  const COLR: seq<byte> := [0x63, 0x6f, 0x6c, 0x72]
  const PCLR: seq<byte> := [0x70, 0x63, 0x6c, 0x72]
  const CDEF: seq<byte> := [0x63, 0x64, 0x65, 0x66]
  const CMAP: seq<byte> := [0x63, 0x6d, 0x61, 0x70]
  const IHDR: seq<byte> := [0x69, 0x68, 0x64, 0x72]
  const BPCC: seq<byte> := [0x62, 0x70, 0x63, 0x63]
  const RES: seq<byte> := [0x72, 0x65, 0x73, 0x20]

  // ---- colr ----

  datatype Colr = Enumerated(value: nat, used: nat) | Icc(channels: Option<nat>) | OtherMethod(method_: nat)

  predicate KnownColourSpace(e: nat) { e in {0, 1, 3, 4, 9} || 11 <= e <= 26 }

  /** `XYZ `, `Lab `, `Luv `, `YCbr`, `Yxy `, `Lms `, `RGB `, `HSV `, `HLS `, `CMY ` and `3CLR`. */
  const THREE_CHANNELS: set<seq<byte>> := {
    [0x58, 0x59, 0x5a, 0x20], [0x4c, 0x61, 0x62, 0x20], [0x4c, 0x75, 0x76, 0x20], [0x59, 0x43, 0x62, 0x72],
    [0x59, 0x78, 0x79, 0x20], [0x4c, 0x6d, 0x73, 0x20], [0x52, 0x47, 0x42, 0x20], [0x48, 0x53, 0x56, 0x20],
    [0x48, 0x4c, 0x53, 0x20], [0x43, 0x4d, 0x59, 0x20], [0x33, 0x43, 0x4c, 0x52]}

  /** `GRAY` and `1CLR`, and `CMYK` and `4CLR`. */
  const ONE_CHANNEL: set<seq<byte>> := {[0x47, 0x52, 0x41, 0x59], [0x31, 0x43, 0x4c, 0x52]}
  const FOUR_CHANNELS: set<seq<byte>> := {[0x43, 0x4d, 0x59, 0x4b], [0x34, 0x43, 0x4c, 0x52]}

  /** How many channels a profile of this color space has; `None` when the decoder does not know the space. */
  function ProfileChannels(signature: seq<byte>): (n: Option<nat>) {
    if signature in THREE_CHANNELS then Some(3)
    else if signature in ONE_CHANNEL then Some(1)
    else if signature in FOUR_CHANNELS then Some(4)
    else None
  }

  /** `parse_colr`; `None` aborts the decode. */
  function ParseColr(b: seq<byte>): (r: Option<Colr>)
    ensures r.Some? && r.value.Enumerated? ==> 7 <= r.value.used <= |b|
  {
    if |b| < 3 then None
    else if b[0] == 1 then
      if |b| < 7 || !KnownColourSpace(BeU32At(b, 3)) then None
      else
        var e := BeU32At(b, 3);
        Some(Enumerated(e, if e == 14 then 7 + 4 * Min((|b| - 7) / 4, 7) else 7))
    else if b[0] == 2 then Some(Icc(if |b| >= 23 then ProfileChannels(b[19..23]) else None))
    else Some(OtherMethod(b[0]))
  }

  // ---- pclr ----

  /** Bytes of one palette row; `None` when a column is signed. */
  function RowWidth(desc: seq<byte>): (w: Option<nat>) {
    if desc == [] then Some(0) else
    match RowWidth(desc[..|desc| - 1])
    case None => None
    case Some(w) => if desc[|desc| - 1] >= 128 then None else Some(w + (desc[|desc| - 1] as int + 8) / 8)
  }

  /** Bytes of `entries` rows of a palette. */
  function PaletteBytes(entries: nat, row: nat): (n: nat) { entries * row }

  /** `parse_pclr`: columns and bytes read. */
  function ParsePclr(b: seq<byte>): (r: Option<(nat, nat)>)
    ensures r.Some? ==> 3 <= r.value.1 <= |b|
  {
    if |b| < 3 then None else
    var entries := BeU16At(b, 0);
    var cols: nat := b[2];
    if entries == 0 || cols == 0 || |b| < 3 + cols then None else
    match RowWidth(b[3..3 + cols])
    case None => None
    case Some(row) =>
      var size := 3 + cols + PaletteBytes(entries, row);
      if size <= |b| then Some((cols, size)) else None
  }

  // ---- cdef ----

  datatype ChannelDef = ChannelDef(index: nat, ty: nat, assoc: nat)

  function Definitions(b: seq<byte>, n: nat): (ds: seq<ChannelDef>)
    requires 2 + 6 * n <= |b|
    ensures |ds| == n && forall i :: 0 <= i < n ==>
      ds[i] == ChannelDef(BeU16At(b, 2 + 6 * i), BeU16At(b, 4 + 6 * i), BeU16At(b, 6 + 6 * i))
  {
    seq(n, i requires 0 <= i < n => ChannelDef(BeU16At(b, 2 + 6 * i), BeU16At(b, 4 + 6 * i), BeU16At(b, 6 + 6 * i)))
  }

  predicate Usable(d: ChannelDef) { d.ty <= 1 && d.assoc != U16 - 1 }

  function Indices(ds: seq<ChannelDef>): (s: seq<nat>)
    ensures |s| == |ds| && forall i :: 0 <= i < |ds| ==> s[i] == ds[i].index
  {
    seq(|ds|, i requires 0 <= i < |ds| => ds[i].index)
  }

  /** 0, 1, ... */
  function Iota(n: nat): (s: seq<nat>)
    ensures |s| == n && forall i :: 0 <= i < n ==> s[i] == i
  {
    seq(n, i => i)
  }

  /** Whether each channel from 0 up is defined exactly once, all usably. */
  ghost predicate DefinesAll(ds: seq<ChannelDef>) {
    (forall d :: d in ds ==> Usable(d)) && multiset(Indices(ds)) == multiset(Iota(|ds|))
  }

  ghost predicate InOrder(a: seq<nat>) { forall i, j :: 0 <= i < j < |a| ==> a[i] <= a[j] }

  lemma {:induction false} FirstIsLeast(a: seq<nat>, b: seq<nat>)
    requires multiset(a) == multiset(b) && InOrder(a) && a != [] && b != []
    ensures a[0] <= b[0]
  {
    assert b[0] in multiset(b);
    assert b[0] in a;
  }

  lemma {:induction false} WithoutFirst(a: seq<nat>)
    requires a != []
    ensures multiset(a[1..]) == multiset(a) - multiset{a[0]}
  {
    assert a == [a[0]] + a[1..];
  }

  lemma {:induction false} SortedUnique(a: seq<nat>, b: seq<nat>)
    requires multiset(a) == multiset(b) && InOrder(a) && InOrder(b)
    ensures a == b
    decreases |a|
  {
    assert |a| == |multiset(a)| == |multiset(b)| == |b|;
    if a != [] {
      FirstIsLeast(a, b);
      FirstIsLeast(b, a);
      WithoutFirst(a);
      WithoutFirst(b);
      SortedUnique(a[1..], b[1..]);
    }
  }

  /** Sorting the indices gives 0, 1, ... exactly when each is there once. */
  lemma {:induction false} SortsToIota(s: seq<nat>)
    ensures Ascending(s) == Iota(|s|) <==> multiset(s) == multiset(Iota(|s|))
  {
    AscendingSorts(s);
    if multiset(s) == multiset(Iota(|s|)) { SortedUnique(Ascending(s), Iota(|s|)); }
  }

  /** Whether some definition makes channel `last` opacity. */
  ghost predicate Opacity(ds: seq<ChannelDef>, last: nat) { exists d :: d in ds && d.index == last && d.ty == 1 }

  lemma {:induction false} OneMoreDefinition(ds: seq<ChannelDef>, last: nat, i: nat)
    requires i < |ds|
    ensures Indices(ds)[..i + 1] == Indices(ds)[..i] + [ds[i].index]
    ensures Opacity(ds[..i + 1], last) <==> Opacity(ds[..i], last) || (ds[i].index == last && ds[i].ty == 1)
  {
    assert ds[..i + 1] == ds[..i] + [ds[i]];
    if Opacity(ds[..i], last) {
      var d :| d in ds[..i] && d.index == last && d.ty == 1;
      assert d in ds[..i + 1];
    }
    assert ds[i] in ds[..i + 1];
  }

  /** `parse_cdef`: whether the last channel is opacity, and the bytes read. */
  method ParseCdef(b: seq<byte>) returns (r: Option<(bool, nat)>)
    ensures r == CdefOf(b)
  {
    hide BeU16At, Opacity, Usable;
    if |b| < 2 { return None; }
    var count := BeU16At(b, 0);
    if count == 0 { return None; }
    if |b| < 2 + 6 * count { return None; }
    ghost var ds := Definitions(b, count);
    var idx, lastIsOpacity, bad := ReadDefinitions(b, count);
    if bad { return None; }
    SortsToIota(Indices(ds));
    if Ascending(idx) != Iota(count) { return None; }
    r := Some((lastIsOpacity, 2 + 6 * count));
  }

  method ReadDefinitions(b: seq<byte>, count: nat) returns (idx: seq<nat>, lastIsOpacity: bool, bad: bool)
    requires 0 < count && 2 + 6 * count <= |b|
    ensures bad == exists d :: d in Definitions(b, count) && !Usable(d)
    ensures !bad ==> idx == Indices(Definitions(b, count)) && lastIsOpacity == Opacity(Definitions(b, count), count - 1)
  {
    hide BeU16At, Opacity;
    ghost var ds := Definitions(b, count);
    NoOpacity(count - 1);
    assert ds[..0] == [];
    idx, lastIsOpacity, bad := [], false, false;
    var i := 0;
    while i < count
      invariant 0 <= i <= count && idx == Indices(ds)[..i]
      invariant forall j :: 0 <= j < i ==> Usable(ds[j])
      invariant lastIsOpacity == Opacity(ds[..i], count - 1)
    {
      OneMoreDefinition(ds, count - 1, i);
      var d := ChannelDef(BeU16At(b, 2 + 6 * i), BeU16At(b, 4 + 6 * i), BeU16At(b, 6 + 6 * i));
      assert d == ds[i] && ds[i] in ds;
      if d.ty > 1 || d.assoc == U16 - 1 { return idx, false, true; }
      if d.index == count - 1 && d.ty == 1 { lastIsOpacity := true; }
      idx := idx + [d.index];
      i := i + 1;
    }
    assert ds[..i] == ds && Indices(ds)[..i] == Indices(ds);
  }

  lemma {:induction false} NoOpacity(last: nat)
    ensures !Opacity([], last)
  {
  }

  /** What a `cdef` box says: nothing unless each of its channels is defined once. */
  ghost function CdefOf(b: seq<byte>): (r: Option<(bool, nat)>)
    ensures r.Some? ==> 2 <= r.value.1 <= |b|
  {
    if |b| < 2 || BeU16At(b, 0) == 0 || |b| < 2 + 6 * BeU16At(b, 0) then None else
    var ds := Definitions(b, BeU16At(b, 0));
    if !DefinesAll(ds) then None else Some((Opacity(ds, |ds| - 1), 2 + 6 * |ds|))
  }

  // ---- cmap ----

  predicate CmapValid(b: seq<byte>) {
    |b| % 4 == 0 && forall i :: 0 <= i < |b| / 4 ==> b[4 * i + 2] <= 1
  }

  /** `parse_cmap`. */
  method ParseCmap(b: seq<byte>) returns (ok: bool)
    ensures ok == CmapValid(b)
  {
    if |b| % 4 != 0 { return false; }
    var i := 0;
    while i < |b| / 4
      invariant 0 <= i <= |b| / 4
      invariant forall j :: 0 <= j < i ==> b[4 * j + 2] <= 1
    {
      if b[4 * i + 2] > 1 { return false; }
      i := i + 1;
    }
    ok := true;
  }

  // ---- The first pass ----

  /** What the first pass finds. Positions are box starts. */
  datatype HdrInfo = HdrInfo(
    colr: Option<(nat, Colr)>, pclr: Option<(nat, (nat, nat))>, cdef: Option<(nat, (bool, nat))>, cmap: Option<nat>,
    invalid: set<nat>, fatal: Option<nat>)

  const NOTHING: HdrInfo := HdrInfo(None, None, None, None, {}, None)

  function PayloadOf(data: seq<byte>, b: BoxHdr): (p: seq<byte>) {
    if b.Payload().start <= b.end <= |data| then data[b.Payload().start..b.end] else []
  }

  /** One complete box: winners are overwritten, except that the first `colr` stays. */
  ghost function Seen(data: seq<byte>, h: HdrInfo, b: BoxHdr): (h': HdrInfo) {
    var p := PayloadOf(data, b);
    if b.ty == COLR && h.colr.None? then
      match ParseColr(p)
      case Some(c) => h.(colr := Some((b.start, c)))
      case None => h.(fatal := Some(b.start))
    else if b.ty == PCLR then
      match ParsePclr(p)
      case Some(palette) => h.(pclr := Some((b.start, palette)))
      case None => h.(invalid := h.invalid + {b.start})
    else if b.ty == CDEF then
      match CdefOf(p)
      case Some(channels) => h.(cdef := Some((b.start, channels)))
      case None => h.(invalid := h.invalid + {b.start})
    else if b.ty == CMAP then
      if CmapValid(p) then h.(cmap := Some(b.start)) else h.(fatal := Some(b.start))
    else h
  }

  /** The boxes in order, up to the first that aborts. */
  ghost function Scan(data: seq<byte>, bs: seq<BoxHdr>): (h: HdrInfo) {
    if bs == [] then NOTHING else
    var h := Scan(data, bs[..|bs| - 1]);
    if h.fatal.Some? then h else Seen(data, h, bs[|bs| - 1])
  }

  lemma {:induction false} ScanSnoc(data: seq<byte>, bs: seq<BoxHdr>, b: BoxHdr)
    ensures Scan(data, bs + [b]) == if Scan(data, bs).fatal.Some? then Scan(data, bs) else Seen(data, Scan(data, bs), b)
  {
    assert (bs + [b])[..|bs|] == bs;
  }

  lemma {:induction false} ScanStops(data: seq<byte>, bs: seq<BoxHdr>, more: seq<BoxHdr>)
    requires Scan(data, bs).fatal.Some?
    ensures Scan(data, bs + more) == Scan(data, bs)
    decreases |more|
  {
    hide Seen;
    if more == [] {
      assert bs + more == bs;
    } else {
      var k := |more| - 1;
      ScanStops(data, bs, more[..k]);
      ScanSnoc(data, bs + more[..k], more[k]);
      assert bs + more == (bs + more[..k]) + [more[k]];
    }
  }

  /** One box of the first pass, parsed. */
  method See(data: seq<byte>, h: HdrInfo, b: BoxHdr) returns (h': HdrInfo)
    ensures h' == Seen(data, h, b)
  {
    var p := PayloadOf(data, b);
    h' := h;
    if b.ty == COLR && h.colr.None? {
      match ParseColr(p) {
        case Some(c) => h' := h.(colr := Some((b.start, c)));
        case None => h' := h.(fatal := Some(b.start));
      }
    } else if b.ty == PCLR {
      match ParsePclr(p) {
        case Some(palette) => h' := h.(pclr := Some((b.start, palette)));
        case None => h' := h.(invalid := h.invalid + {b.start});
      }
    } else if b.ty == CDEF {
      var c := ParseCdef(p);
      if c.Some? { h' := h.(cdef := Some((b.start, c.value))); } else { h' := h.(invalid := h.invalid + {b.start}); }
    } else if b.ty == CMAP {
      var ok := ParseCmap(p);
      if ok { h' := h.(cmap := Some(b.start)); } else { h' := h.(fatal := Some(b.start)); }
    }
  }

  ghost predicate NoneTruncated(bs: seq<BoxHdr>) { forall b :: b in bs ==> !b.truncated }

  /** `scan_jp2h`: the complete boxes of the body, up to the first that aborts. */
  method ScanJp2h(data: seq<byte>, body: Range) returns (h: HdrInfo)
    requires body.start <= body.end <= |data| < U64
    ensures h == Scan(data, Complete(BoxesOf(data, body.start, body.end).list))
  {
    hide BoxesOf, ReadTo, Seen, Scan, ReadBox;
    h := NOTHING;
    var pos: nat := body.start;
    ghost var done: seq<BoxHdr> := [];
    ReadNothing(data, body.start, body.end);
    ScanNothing(data);
    while pos < body.end
      invariant pos <= body.end && ReadTo(data, body.start, body.end, done, pos) && NoneTruncated(done)
      invariant h == Scan(data, done) && h.fatal.None?
      decreases body.end - pos
    {
      ReadNext(data, body.start, body.end, done, pos);
      var r := ReadBox(data, pos, body.end);
      if r.Err? {
        assert Complete(done) == done;
        return;
      }
      var b := r.value;
      if b.truncated {
        TruncatedLast(data, body, done, b);
        return;
      }
      h := See(data, h, b);
      ScanSnoc(data, done, b);
      done := done + [b];
      pos := b.end;
      if h.fatal.Some? {
        FatalDecides(data, body, done, pos);
        return;
      }
    }
    ReadAll(data, body.start, body.end, done);
    assert Complete(done) == done;
  }

  lemma {:induction false} ScanNothing(data: seq<byte>)
    ensures Scan(data, []) == NOTHING
  {
  }

  lemma {:induction false} TruncatedLast(data: seq<byte>, body: Range, done: seq<BoxHdr>, b: BoxHdr)
    requires body.start <= body.end <= |data| < U64 && b.start <= body.end
      && ReadBox(data, b.start, body.end) == Ok(b) && b.truncated
    requires ReadTo(data, body.start, body.end, done + [b], b.end)
    ensures Complete(BoxesOf(data, body.start, body.end).list) == done
  {
    BoxAdvances(data, b.start, body.end);
    assert BoxesOf(data, b.end, body.end).list == [];
    assert done + [b] + [] == done + [b];
  }

  lemma {:induction false} FatalDecides(data: seq<byte>, body: Range, done: seq<BoxHdr>, pos: nat)
    requires body.start <= body.end <= |data| < U64 && ReadTo(data, body.start, body.end, done, pos)
    requires NoneTruncated(done) && Scan(data, done).fatal.Some?
    ensures Scan(data, Complete(BoxesOf(data, body.start, body.end).list)) == Scan(data, done)
  {
    hide Scan, Seen, BoxesOf, ReadBox;
    var more := BoxesOf(data, pos, body.end).list;
    var all := done + more;
    if all != [] && all[|all| - 1].truncated {
      assert more != [];
      assert all[..|all| - 1] == done + more[..|more| - 1];
      ScanStops(data, done, more[..|more| - 1]);
    } else {
      ScanStops(data, done, more);
    }
  }

  // ---- Winners ----

  /** The start of the last, or the first, box that passes. */
  function LastBy(f: BoxHdr -> bool, bs: seq<BoxHdr>): (p: Option<nat>) {
    if bs == [] then None else if f(bs[|bs| - 1]) then Some(bs[|bs| - 1].start) else LastBy(f, bs[..|bs| - 1])
  }

  function FirstBy(f: BoxHdr -> bool, bs: seq<BoxHdr>): (p: Option<nat>) {
    if bs == [] then None
    else if FirstBy(f, bs[..|bs| - 1]).Some? then FirstBy(f, bs[..|bs| - 1])
    else if f(bs[|bs| - 1]) then Some(bs[|bs| - 1].start) else None
  }

  /** The boxes parsed before any that aborts. */
  ghost function Parsed(data: seq<byte>, bs: seq<BoxHdr>): (p: seq<BoxHdr>) {
    if bs == [] then []
    else if Scan(data, bs).fatal.Some? then Parsed(data, bs[..|bs| - 1])
    else bs
  }

  function ValidColr(data: seq<byte>): (f: BoxHdr -> bool) {
    (b: BoxHdr) => b.ty == COLR && ParseColr(PayloadOf(data, b)).Some?
  }

  function ValidPclr(data: seq<byte>): (f: BoxHdr -> bool) {
    (b: BoxHdr) => b.ty == PCLR && ParsePclr(PayloadOf(data, b)).Some?
  }

  ghost function ValidCdef(data: seq<byte>): (f: BoxHdr -> bool) {
    (b: BoxHdr) => b.ty == CDEF && CdefOf(PayloadOf(data, b)).Some?
  }

  function ValidCmap(data: seq<byte>): (f: BoxHdr -> bool) {
    (b: BoxHdr) => b.ty == CMAP && CmapValid(PayloadOf(data, b))
  }

  function PosOf<T>(p: Option<(nat, T)>): (pos: Option<nat>) { if p.Some? then Some(p.value.0) else None }

  /** What one box does to the winners. */
  lemma {:induction false} SeenWinners(data: seq<byte>, h: HdrInfo, b: BoxHdr)
    ensures
      var h' := Seen(data, h, b);
      h'.fatal == h.fatal ==>
        && PosOf(h'.colr) == (if h.colr.None? && ValidColr(data)(b) then Some(b.start) else PosOf(h.colr))
        && PosOf(h'.pclr) == (if ValidPclr(data)(b) then Some(b.start) else PosOf(h.pclr))
        && PosOf(h'.cdef) == (if ValidCdef(data)(b) then Some(b.start) else PosOf(h.cdef))
        && h'.cmap == (if ValidCmap(data)(b) then Some(b.start) else h.cmap)
    ensures
      var h' := Seen(data, h, b);
      h'.fatal != h.fatal ==> h' == h.(fatal := h'.fatal)
    ensures Seen(data, h, b).fatal == h.fatal || Seen(data, h, b).fatal.Some?
  {
    hide ParseColr, ParsePclr, CdefOf, CmapValid, PayloadOf;
  }

  /**
   The winners: the first valid `colr`, and the last valid `pclr`, `cdef` and `cmap`, of the boxes parsed
   before any that aborts.
   */
  lemma {:induction false} ScanWinners(data: seq<byte>, bs: seq<BoxHdr>)
    ensures
      var (h, p) := (Scan(data, bs), Parsed(data, bs));
      && PosOf(h.colr) == FirstBy(ValidColr(data), p) && PosOf(h.pclr) == LastBy(ValidPclr(data), p)
      && PosOf(h.cdef) == LastBy(ValidCdef(data), p) && h.cmap == LastBy(ValidCmap(data), p)
  {
    hide Seen, ValidColr, ValidPclr, ValidCdef, ValidCmap;
    if bs != [] {
      ScanWinners(data, bs[..|bs| - 1]);
      SeenWinners(data, Scan(data, bs[..|bs| - 1]), bs[|bs| - 1]);
      if Scan(data, bs).fatal.None? { AllParsed(data, bs[..|bs| - 1]); }
    }
  }

  lemma {:induction false} AllParsed(data: seq<byte>, bs: seq<BoxHdr>)
    ensures Scan(data, bs).fatal.None? ==> Parsed(data, bs) == bs
  {
  }

  // ---- The second pass's verdicts ----

  /** A color space, by what it needs of the codestream. */
  datatype Space = Gray | Rgb | Cmyk | Profile(channels: nat) {
    function Channels(): (n: nat) {
      match this case Gray => 1 case Rgb => 3 case Cmyk => 4 case Profile(n) => n
    }
  }

  /** The space a `colr` asks for, and whether it is one of those kept even when replaced; `None` when unsupported. */
  function Asked(c: Colr): (r: Option<(Space, bool)>) {
    match c
    case Enumerated(e, _) =>
      if e == 12 then Some((Cmyk, false))
      else if e == 13 then Some((Cmyk, true))
      else if e == 16 || e == 20 then Some((Rgb, false))
      else if e == 18 then Some((Rgb, true))
      else if e == 17 then Some((Gray, false))
      else if e == 21 then Some((Profile(3), false))
      else if e == 14 then Some((Profile(3), true))
      else None
    case Icc(channels) => Some((if channels.Some? then Profile(channels.value) else Rgb, false))
    case OtherMethod(_) => Some((Rgb, false))
  }

  /** Whether the space accounts for every component, taking one too many for alpha; a palette always fits. */
  predicate Accounts(cs: Space, csiz: nat, palette: bool, alpha: bool) {
    palette || csiz == cs.Channels() + (if alpha then 1 else 0) || (csiz == cs.Channels() + 1 && !alpha)
  }

  /** The space the decoder takes instead for this many components; `None` when there is none. */
  function Instead(csiz: nat, alpha: bool): (r: Option<Space>) {
    if csiz == 1 || (csiz == 2 && alpha) then Some(Gray)
    else if csiz == 3 then Some(Rgb)
    else if csiz == 4 then Some(if alpha then Rgb else Cmyk)
    else None
  }

  /**
   `colr_effect`: the disposition of the first `colr`, and whether the decode fails
   there, for a codestream of `csiz` components, a palette or none, and alpha or none.
   */
  function ColrEffect(c: Colr, csiz: Option<nat>, palette: bool, alpha: bool): (r: (Disposition, bool)) {
    var kept := if c.Icc? then Metadata else Colour;
    if c.OtherMethod? || (c.Icc? && c.channels.None?) then (Dropped, false)
    else if csiz.None? then (kept, false)
    else if Asked(c).None? then (Disposition.Malformed, true)
    else
      var (cs, lenient) := Asked(c).value;
      var taken := if Accounts(cs, csiz.value, palette, alpha) then Some(cs) else Instead(csiz.value, alpha);
      if taken.None? then (Disposition.Malformed, true)
      else if taken.value != cs && !lenient then (Dropped, false)
      else (kept, false)
  }

  /**
   An embedded profile reaches the caller exactly when the decoder knows its space and
   there is no codestream to compare it with, or a palette, or its channels are all the
   components but an alpha.
   */
  lemma {:induction false} ProfileIsKeptIff(n: nat, csiz: Option<nat>, palette: bool, alpha: bool)
    ensures ColrEffect(Icc(Some(n)), csiz, palette, alpha).0 == Metadata <==>
      csiz.None? || palette || csiz.value == n + 1 || (csiz.value == n && !alpha)
    ensures ColrEffect(Icc(None), csiz, palette, alpha) == (Dropped, false)
  {
  }

  /** The enumerated spaces that are supported, and their channels: 12 CMYK, 13 YCCK, 14 Lab, 16 sRGB, 17 gray, ... */
  const ENUMERATED: map<nat, nat> := map[12 := 4, 13 := 4, 14 := 3, 16 := 3, 17 := 1, 18 := 3, 20 := 3, 21 := 3]

  /** The components are the channels, or they and one for alpha; a palette always fits. */
  predicate Fit(n: nat, csiz: nat, palette: bool, alpha: bool) {
    palette || csiz == n + 1 || (csiz == n && !alpha)
  }

  /** The enumerated spaces that are what components which do not fit are taken for. */
  function TakenFor(csiz: nat, alpha: bool): (spaces: set<nat>) {
    if csiz == 1 || (csiz == 2 && alpha) then {17}
    else if csiz == 3 || (csiz == 4 && alpha) then {16, 18, 20}
    else if csiz == 4 then {12, 13}
    else {}
  }

  /**
   An enumerated space is kept exactly when there is no codestream, or it is supported and
   its channels fit the components, or these are taken for it or, for YCCK, Lab and sYCC,
   for any; it fails the decode exactly when there is a codestream, and it is not
   supported or its channels do not fit components that are taken for nothing.
   */
  lemma {:induction false} EnumeratedIsKeptIff(e: nat, used: nat, csiz: Option<nat>, palette: bool, alpha: bool)
    ensures
      var (d, fails) := ColrEffect(Enumerated(e, used), csiz, palette, alpha);
      var fits := csiz.Some? && e in ENUMERATED && Fit(ENUMERATED[e], csiz.value, palette, alpha);
      && (d == Colour <==>
            csiz.None? || fits || (e in ENUMERATED && (e in TakenFor(csiz.value, alpha) ||
                                                       (e in {13, 14, 18} && TakenFor(csiz.value, alpha) != {}))))
      && (fails <==> csiz.Some? && !fits && (e !in ENUMERATED || TakenFor(csiz.value, alpha) == {}))
      && (fails <==> d == Disposition.Malformed) && (d == Colour || fails || d == Dropped)
  {
    TakenForSome(csiz, alpha);
  }

  lemma {:induction false} TakenForSome(csiz: Option<nat>, alpha: bool)
    ensures csiz.Some? ==> (TakenFor(csiz.value, alpha) == {} <==> Instead(csiz.value, alpha).None?)
  {
    if csiz.Some? && Instead(csiz.value, alpha).Some? {
      var taken := TakenFor(csiz.value, alpha);
      assert 17 in taken || 16 in taken || 12 in taken;
    }
  }

  /**
   The decode fails at a `colr` exactly when there is a codestream, and the space is
   enumerated but not supported, or its channels, or a profile's, do not fit components
   that are taken for nothing: none of them, two without alpha, or more than four.
   */
  lemma {:induction false} ColrFailsIff(c: Colr, csiz: Option<nat>, palette: bool, alpha: bool)
    ensures
      var (d, fails) := ColrEffect(c, csiz, palette, alpha);
      && (fails <==> d == Disposition.Malformed)
      && (fails <==>
            csiz.Some? &&
            var stuck := csiz.value == 0 || csiz.value > 4 || (csiz.value == 2 && !alpha);
            match c
            case Enumerated(e, _) => e !in ENUMERATED || (stuck && !Fit(ENUMERATED[e], csiz.value, palette, alpha))
            case Icc(Some(n)) => stuck && !Fit(n, csiz.value, palette, alpha)
            case _ => false)
  {
    TakenForSome(csiz, alpha);
    if c.Enumerated? { EnumeratedIsKeptIff(c.value, c.used, csiz, palette, alpha); }
  }

  /** The signatures of the profiles whose channels the decoder knows. */
  lemma {:induction false} ProfilesAreSpelled()
    ensures THREE_CHANNELS == {
      Ascii("XYZ "), Ascii("Lab "), Ascii("Luv "), Ascii("YCbr"), Ascii("Yxy "), Ascii("Lms "), Ascii("RGB "),
      Ascii("HSV "), Ascii("HLS "), Ascii("CMY "), Ascii("3CLR")}
    ensures ONE_CHANNEL == {Ascii("GRAY"), Ascii("1CLR")} && FOUR_CHANNELS == {Ascii("CMYK"), Ascii("4CLR")}
  {
    assert Ascii("XYZ ") == [0x58, 0x59, 0x5a, 0x20] && Ascii("Lab ") == [0x4c, 0x61, 0x62, 0x20];
    assert Ascii("Luv ") == [0x4c, 0x75, 0x76, 0x20] && Ascii("YCbr") == [0x59, 0x43, 0x62, 0x72];
    assert Ascii("Yxy ") == [0x59, 0x78, 0x79, 0x20] && Ascii("Lms ") == [0x4c, 0x6d, 0x73, 0x20];
    assert Ascii("RGB ") == [0x52, 0x47, 0x42, 0x20] && Ascii("HSV ") == [0x48, 0x53, 0x56, 0x20];
    assert Ascii("HLS ") == [0x48, 0x4c, 0x53, 0x20] && Ascii("CMY ") == [0x43, 0x4d, 0x59, 0x20];
    assert Ascii("3CLR") == [0x33, 0x43, 0x4c, 0x52] && Ascii("GRAY") == [0x47, 0x52, 0x41, 0x59];
    assert Ascii("1CLR") == [0x31, 0x43, 0x4c, 0x52] && Ascii("CMYK") == [0x43, 0x4d, 0x59, 0x4b];
    assert Ascii("4CLR") == [0x34, 0x43, 0x4c, 0x52];
  }

  /** What the first `colr` of a header comes to, given the header's own palette and channel definitions. */
  function HeaderEffect(info: HdrInfo, csiz: Option<nat>): (r: (Disposition, bool))
    requires info.colr.Some?
  {
    ColrEffect(info.colr.value.1, csiz, info.pclr.Some?, info.cdef.Some? && info.cdef.value.1.0)
  }

  /** The disposition of a child of `jp2h`, before anything dead or superseded is dropped. */
  function ChildDisposition(b: BoxHdr, info: HdrInfo, csiz: Option<nat>): (d: Disposition) {
    if b.truncated then Malformed
    else if b.ty == IHDR || b.ty == BPCC || b.ty == RES then Skipped
    else if b.ty == COLR then
      if info.fatal == Some(b.start) then Malformed
      else if PosOf(info.colr) == Some(b.start) then HeaderEffect(info, csiz).0
      else Skipped
    else if b.ty == PCLR then
      if b.start in info.invalid then Malformed else if PosOf(info.pclr) == Some(b.start) then Structure else Dropped
    else if b.ty == CDEF then
      if b.start in info.invalid then Malformed else if PosOf(info.cdef) == Some(b.start) then Structure else Dropped
    else if b.ty == CMAP then
      if info.fatal == Some(b.start) then Malformed else if info.cmap == Some(b.start) then Structure else Dropped
    else Unknown
  }

  const WINNER_TYPES: set<seq<byte>> := {COLR, PCLR, CDEF, CMAP}

  /** Of several `colr`, `pclr`, `cdef` or `cmap` boxes, at most one keeps a consumed disposition. */
  lemma {:induction false} OneOfEachConsumed(a: BoxHdr, b: BoxHdr, info: HdrInfo, csiz: Option<nat>)
    requires a.ty == b.ty && a.ty in WINNER_TYPES
    requires Consumed(ChildDisposition(a, info, csiz)) && Consumed(ChildDisposition(b, info, csiz))
    ensures a.start == b.start
  {
    assert COLR != IHDR && COLR != BPCC && COLR != RES by {
      assert COLR[0] != IHDR[0] && COLR[0] != BPCC[0] && COLR[0] != RES[0];
    }
    assert PCLR != IHDR && PCLR != BPCC && PCLR != RES by {
      assert PCLR[0] != IHDR[0] && PCLR[0] != BPCC[0] && PCLR[0] != RES[0];
    }
    assert CDEF != IHDR && CDEF != BPCC && CDEF != RES by {
      assert CDEF[0] != IHDR[0] && CDEF[0] != BPCC[0] && CDEF[0] != RES[0];
    }
    assert CMAP != IHDR && CMAP != BPCC && CMAP != RES by {
      assert CMAP[0] != IHDR[0] && CMAP[0] != BPCC[0] && CMAP[0] != RES[0];
    }
  }
}
