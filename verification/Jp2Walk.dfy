/** The two-pass walk over a JP2 file's boxes. */
module Jp2Walk {
  import opened Wrappers
  import opened Bytes
  import opened Inventory
  import opened Nesting
  import opened Jp2Boxes
  import opened Jp2Header

  const JP2H: seq<byte> := [0x6a, 0x70, 0x32, 0x68]
  const JP2C: seq<byte> := [0x6a, 0x70, 0x32, 0x63]
  const SIGNATURE_BOX: seq<byte> := [0x6a, 0x50, 0x20, 0x20]
  const FTYP: seq<byte> := [0x66, 0x74, 0x79, 0x70]
  const ASOC: seq<byte> := [0x61, 0x73, 0x6f, 0x63]
  const UINF: seq<byte> := [0x75, 0x69, 0x6e, 0x66]
  const FREE: seq<byte> := [0x66, 0x72, 0x65, 0x65]
  const LBL: seq<byte> := [0x6c, 0x62, 0x6c, 0x20]
  const XML: seq<byte> := [0x78, 0x6d, 0x6c, 0x20]
  const ULST: seq<byte> := [0x75, 0x6c, 0x73, 0x74]
  const URL: seq<byte> := [0x75, 0x72, 0x6c, 0x20]
  const RESC: seq<byte> := [0x72, 0x65, 0x73, 0x63]
  const RESD: seq<byte> := [0x72, 0x65, 0x73, 0x64]

  /**
   Box types that are known and not read: `xml `, `uuid`, `asoc`, `uinf`, `jp2i`, and
   the extensions `rreq` to `comp`.
   */
  const SKIPPED_TYPES: set<seq<byte>> := {
    [0x78, 0x6d, 0x6c, 0x20], [0x75, 0x75, 0x69, 0x64], [0x61, 0x73, 0x6f, 0x63], [0x75, 0x69, 0x6e, 0x66],
    [0x6a, 0x70, 0x32, 0x69], [0x72, 0x72, 0x65, 0x71], [0x6a, 0x70, 0x63, 0x68], [0x6a, 0x70, 0x6c, 0x68],
    [0x63, 0x67, 0x72, 0x70], [0x66, 0x74, 0x62, 0x6c], [0x6c, 0x62, 0x6c, 0x20], [0x6a, 0x70, 0x78, 0x6c],
    [0x64, 0x72, 0x65, 0x70], [0x64, 0x74, 0x62, 0x6c], [0x66, 0x6c, 0x73, 0x74], [0x6e, 0x6c, 0x73, 0x74],
    [0x72, 0x6f, 0x69, 0x64], [0x6d, 0x70, 0x37, 0x62], [0x62, 0x66, 0x69, 0x6c], [0x63, 0x6f, 0x6d, 0x70]}

  /** The types as text. */
  lemma {:induction false} TypesAreSpelled()
    ensures JP2H == Ascii("jp2h") && JP2C == Ascii("jp2c") && SIGNATURE_BOX == Ascii("jP  ") && FTYP == Ascii("ftyp")
    ensures ASOC == Ascii("asoc") && UINF == Ascii("uinf") && FREE == Ascii("free") && LBL == Ascii("lbl ")
    ensures XML == Ascii("xml ") && ULST == Ascii("ulst") && URL == Ascii("url ")
    ensures RESC == Ascii("resc") && RESD == Ascii("resd")
  {
  }

  /** How deep associations are walked. */
  const MAX_DEPTH: nat := 8

  /** A child's part, and the box it records. */
  type Kid = (nat, BoxHdr)

  function BoxesIn(kids: seq<Kid>): (bs: seq<BoxHdr>)
    ensures |bs| == |kids| && forall i :: 0 <= i < |kids| ==> bs[i] == kids[i].1
  {
    seq(|kids|, i requires 0 <= i < |kids| => kids[i].1)
  }

  /**
   What a walk goes by: the components of the codestream that is used, whether the caller wants a profile, and
   whether a codestream fails the decode, which is decided outside this model.
   */
  datatype Rules = Rules(csiz: Option<nat>, keepIcc: bool, fails: Range -> bool)

  /** Nothing consumed survives what is superseded or past a fatal point, and no profile the caller does not want. */
  function Settled(d: Disposition, alive: bool, keepIcc: bool): (s: Disposition) {
    if (!alive && Consumed(d)) || (!keepIcc && d == Metadata) then Dropped else d
  }

  // ---- The children of a body ----

  /** The part of a kid lies in `id` and holds the kid's box. */
  ghost predicate IsKid(parts: seq<Part>, id: nat, kid: Kid) {
    id < kid.0 < |parts| && parts[kid.0].parent == Some(id) && parts[kid.0].range == Range(kid.1.start, kid.1.end)
  }

  ghost predicate AreKids(parts: seq<Part>, id: nat, kids: seq<Kid>) {
    forall i :: 0 <= i < |kids| ==> IsKid(parts, id, kids[i])
  }

  /** The kids are exactly the boxes of a body, and with the bytes that are no box they tile it. */
  ghost predicate Kids(data: seq<byte>, parts: seq<Part>, id: nat, body: Range, kids: seq<Kid>) {
    && body.start <= body.end <= |data| < U64 && BoxesIn(kids) == BoxesOf(data, body.start, body.end).list
    && OpenAt(parts, Some(id), body.start, body.end) && AreKids(parts, id, kids)
  }

  lemma {:induction false} StillKids(before: seq<Part>, after: seq<Part>, p: Option<nat>, id: nat, kids: seq<Kid>)
    requires AreKids(before, id, kids) && AddsUnder(before, after, p)
    ensures AreKids(after, id, kids)
  {
    KeepsParts(before, after, p);
  }

  lemma {:induction false} KidsStay(before: seq<Part>, after: seq<Part>, p: Option<nat>, data: seq<byte>, id: nat,
      body: Range, kids: seq<Kid>)
    requires Kids(data, before, id, body, kids) && AddsUnder(before, after, p) && p != Some(id) && id < |before|
    ensures Kids(data, after, id, body, kids)
  {
    hide OpenAt, BoxesOf, AddsUnder, AreKids;
    StillKids(before, after, p, id, kids);
    StillOpen(before, after, p, Some(id), body.start, body.end);
  }

  predicate IsAsoc(b: BoxHdr) { b.ty == ASOC }

  /** A classifier of child boxes. */
  type Classify = BoxHdr -> Disposition

  /** Never consumed, so never dropped. */
  ghost predicate Passive(f: Classify) { forall b :: !Consumed(f(b)) }

  /** The kids' parts have the dispositions their boxes get. */
  ghost predicate Classified(parts: seq<Part>, kids: seq<Kid>, f: Classify) {
    forall i :: 0 <= i < |kids| ==> kids[i].0 < |parts| && parts[kids[i].0].disposition == f(kids[i].1)
  }

  lemma {:induction false} OneMoreKid(before: seq<Part>, after: seq<Part>, kids: seq<Kid>, f: Classify, id: nat,
      kid: Kid)
    requires Classified(before, kids, f) && AreKids(before, id, kids) && |before| <= |after|
    requires forall i :: 0 <= i < |before| ==> after[i] == before[i]
    requires IsKid(after, id, kid) && after[kid.0].disposition == f(kid.1)
    ensures Classified(after, kids + [kid], f) && AreKids(after, id, kids + [kid])
    ensures BoxesIn(kids + [kid]) == BoxesIn(kids) + [kid.1]
  {
  }

  lemma {:induction false} StillClassified(before: seq<Part>, after: seq<Part>, p: Option<nat>, kids: seq<Kid>,
      f: Classify)
    requires Classified(before, kids, f) && AddsUnder(before, after, p)
    ensures Classified(after, kids, f)
  {
    KeepsParts(before, after, p);
  }

  lemma {:induction false} NoKids(parts: seq<Part>, id: nat, f: Classify)
    ensures Classified(parts, [], f) && AreKids(parts, id, [])
  {
  }

  function AsocChild(): (f: Classify)
    ensures Passive(f)
  {
    (b: BoxHdr) =>
      if b.truncated then Malformed else if b.ty == LBL || b.ty == XML || b.ty == ASOC then Skipped else Unknown
  }

  function UinfChild(): (f: Classify)
    ensures Passive(f)
  {
    (b: BoxHdr) => if b.truncated then Malformed else if b.ty == ULST || b.ty == URL then Skipped else Unknown
  }

  function ResChild(): (f: Classify)
    ensures Passive(f)
  {
    (b: BoxHdr) => if b.truncated then Malformed else if b.ty == RESC || b.ty == RESD then Skipped else Unknown
  }

  /** The boxes of a body are recorded and classified. */
  ghost predicate ChildrenWalked(data: seq<byte>, parts: seq<Part>, id: nat, body: Range, f: Classify) {
    exists kids: seq<Kid> :: Kids(data, parts, id, body, kids) && Classified(parts, kids, f)
  }

  lemma {:induction false} ChildrenStay(before: seq<Part>, after: seq<Part>, p: Option<nat>, data: seq<byte>, id: nat,
      body: Range, f: Classify)
    requires ChildrenWalked(data, before, id, body, f) && AddsUnder(before, after, p) && p != Some(id) && id < |before|
    ensures ChildrenWalked(data, after, id, body, f)
  {
    hide Kids, Classified, AddsUnder;
    var kids: seq<Kid> :| Kids(data, before, id, body, kids) && Classified(before, kids, f);
    KidsStay(before, after, p, data, id, body, kids);
    StillClassified(before, after, p, kids, f);
  }

  // ---- Associations ----

  /**
   The boxes of an association are recorded, and so are those of every association
   among them, down to the eighth level below the first. All parts but the first come from `base` on.
   */
  ghost predicate AsocTree(data: seq<byte>, parts: seq<Part>, id: nat, body: Range, depth: nat, base: nat)
    decreases 8 - depth
  {
    depth <= 8 && exists kids: seq<Kid> ::
      && Kids(data, parts, id, body, kids) && Classified(parts, kids, AsocChild())
      && (forall i :: 0 <= i < |kids| ==> kids[i].0 >= base)
      && (depth < 8 ==> forall i :: 0 <= i < |kids| && IsAsoc(kids[i].1) ==>
            AsocTree(data, parts, kids[i].0, kids[i].1.Payload(), depth + 1, base))
  }

  lemma {:induction false} AsocStays(before: seq<Part>, after: seq<Part>, p: Option<nat>, data: seq<byte>, id: nat,
      body: Range, depth: nat, base: nat, lower: nat)
    requires AsocTree(data, before, id, body, depth, base) && AddsUnder(before, after, p) && id < |before|
    requires p != Some(id) && (p.Some? ==> p.value < base) && lower <= base
    ensures AsocTree(data, after, id, body, depth, lower)
    decreases MAX_DEPTH - depth
  {
    hide Kids, Classified, AddsUnder;
    var kids: seq<Kid> :|
      && Kids(data, before, id, body, kids) && Classified(before, kids, AsocChild())
      && (forall i :: 0 <= i < |kids| ==> kids[i].0 >= base)
      && (depth < MAX_DEPTH ==> forall i :: 0 <= i < |kids| && IsAsoc(kids[i].1) ==>
            AsocTree(data, before, kids[i].0, kids[i].1.Payload(), depth + 1, base));
    KidsStay(before, after, p, data, id, body, kids);
    StillClassified(before, after, p, kids, AsocChild());
    KidsExist(data, before, id, body, kids);
    if depth < MAX_DEPTH {
      forall i | 0 <= i < |kids| && IsAsoc(kids[i].1)
        ensures AsocTree(data, after, kids[i].0, kids[i].1.Payload(), depth + 1, lower)
      {
        AsocStays(before, after, p, data, kids[i].0, kids[i].1.Payload(), depth + 1, base, lower);
      }
    }
  }

  lemma {:induction false} KidsExist(data: seq<byte>, parts: seq<Part>, id: nat, body: Range, kids: seq<Kid>)
    requires Kids(data, parts, id, body, kids)
    ensures forall i :: 0 <= i < |kids| ==> id < kids[i].0 < |parts|
  {
  }

  /** The associations among the first `n` kids are walked. */
  ghost predicate AsocsWalked(data: seq<byte>, parts: seq<Part>, kids: seq<Kid>, n: nat, depth: nat, base: nat)
    requires n <= |kids|
  {
    forall i :: 0 <= i < n && IsAsoc(kids[i].1) ==>
      kids[i].0 < |parts| && AsocTree(data, parts, kids[i].0, kids[i].1.Payload(), depth, base)
  }

  lemma {:induction false} AsocsStay(before: seq<Part>, after: seq<Part>, p: nat, data: seq<byte>, kids: seq<Kid>,
      n: nat, depth: nat, base: nat)
    requires n <= |kids| && AsocsWalked(data, before, kids, n, depth, base) && AddsUnder(before, after, Some(p))
    requires p < base && forall i :: 0 <= i < n ==> kids[i].0 != p
    ensures AsocsWalked(data, after, kids, n, depth, base)
  {
    hide AddsUnder, AsocTree;
    KeepsParts(before, after, Some(p));
    forall i | 0 <= i < n && IsAsoc(kids[i].1)
      ensures kids[i].0 < |after| && AsocTree(data, after, kids[i].0, kids[i].1.Payload(), depth, base)
    {
      AsocStays(before, after, Some(p), data, kids[i].0, kids[i].1.Payload(), depth, base, base);
    }
  }

  /** Kids' parts in order, from `base` on, with no children yet. */
  ghost predicate Fresh(parts: seq<Part>, kids: seq<Kid>, base: nat) {
    && (forall i :: 0 <= i < |kids| ==> base <= kids[i].0 < |parts| && ChildRanges(parts, Some(kids[i].0)) == [])
    && (forall i, j :: 0 <= i < j < |kids| ==> kids[i].0 < kids[j].0)
  }

  lemma {:induction false} FreshStays(before: seq<Part>, after: seq<Part>, kids: seq<Kid>, base: nat, p: nat)
    requires Fresh(before, kids, base) && AddsUnder(before, after, Some(p))
    requires forall i :: 0 <= i < |kids| ==> kids[i].0 != p
    ensures Fresh(after, kids, base)
  {
    forall i | 0 <= i < |kids| ensures ChildRanges(after, Some(kids[i].0)) == [] {
      AddsNothingElsewhere(before, after, Some(p), Some(kids[i].0));
    }
  }

  lemma {:induction false} FreshGrows(before: seq<Part>, after: seq<Part>, kids: seq<Kid>, base: nat, p: nat, kid: Kid)
    requires Fresh(before, kids, base) && p < base <= |before| == kid.0 < |after| && AddsUnder(before, after, Some(p))
    requires ChildRanges(after, Some(kid.0)) == []
    ensures Fresh(after, kids + [kid], base)
  {
    hide ChildRanges, AddsUnder;
    FreshIds(before, kids, base);
    FreshStays(before, after, kids, base, p);
  }

  lemma {:induction false} FreshHead(parts: seq<Part>, kids: seq<Kid>, base: nat)
    requires Fresh(parts, kids, base) && kids != []
    ensures base <= kids[0].0 < |parts| && Fresh(parts, kids[1..], base)
    ensures forall j :: 0 <= j < |kids[1..]| ==> kids[1..][j].0 != kids[0].0
    ensures forall at :: OpenAt(parts, Some(kids[0].0), at, at)
  {
  }

  lemma {:induction false} FreshIds(parts: seq<Part>, kids: seq<Kid>, base: nat)
    requires Fresh(parts, kids, base)
    ensures forall j :: 0 <= j < |kids| ==> base <= kids[j].0 < |parts|
    ensures forall i, j :: 0 <= i < j < |kids| ==> kids[i].0 != kids[j].0
  {
  }

  lemma {:induction false} NothingFresh(parts: seq<Part>)
    ensures Fresh(parts, [], |parts|)
  {
  }

  lemma {:induction false} KidInside(data: seq<byte>, body: Range, kids: seq<Kid>, i: nat)
    requires body.start <= body.end <= |data| < U64 && i < |kids|
      && BoxesIn(kids) == BoxesOf(data, body.start, body.end).list
    ensures kids[i].1.Payload().start <= kids[i].1.Payload().end <= |data|
  {
    BoxOf(data, body.start, body.end, i);
    BoxAdvances(data, kids[i].1.start, body.end);
  }

  // ---- jp2h ----

  /** Where the decoder stops reading a consumed child's payload; `None` if it reads none of it. */
  function FieldsEnd(b: BoxHdr, info: HdrInfo, csiz: Option<nat>): (end: Option<nat>) {
    var start := b.Payload().start;
    var end: Option<nat> :=
      if b.truncated || !Consumed(ChildDisposition(b, info, csiz)) then None
      else if b.ty == COLR && info.colr.Some? then
        match info.colr.value.1
        case Enumerated(_, used) => Some(start + used)
        case Icc(_) => Some(b.end)
        case OtherMethod(_) => Some(start + 3)
      else if b.ty == PCLR && info.pclr.Some? then Some(start + info.pclr.value.1.1)
      else if b.ty == CDEF && info.cdef.Some? then Some(start + info.cdef.value.1.1)
      else None;
    if end.Some? && start < end.value then end else None
  }

  /** The disposition of a child's own part: framing when its payload is read, and otherwise the child's. */
  function ChildPart(b: BoxHdr, info: HdrInfo, csiz: Option<nat>): (d: Disposition) {
    if FieldsEnd(b, info, csiz).Some? then Structure else ChildDisposition(b, info, csiz)
  }

  lemma {:induction false} FieldsInside(b: BoxHdr, info: HdrInfo, csiz: Option<nat>)
    requires b.Payload().start <= b.end && FieldsEnd(b, info, csiz).Some?
    ensures b.Payload().start <= Min(FieldsEnd(b, info, csiz).value, b.end)
  {
    hide ChildDisposition;
  }

  /** Whether the decode fails at a child. */
  predicate Aborts(b: BoxHdr, info: HdrInfo, csiz: Option<nat>) {
    || b.truncated
    || ((b.ty == COLR || b.ty == CMAP) && info.fatal == Some(b.start))
    || (b.ty == COLR && info.colr.Some? && info.colr.value.0 == b.start && HeaderEffect(info, csiz).1)
  }

  /** The decode goes on at kid `i`. */
  ghost predicate AliveAt(bs: seq<BoxHdr>, i: nat, info: HdrInfo, csiz: Option<nat>, alive: bool) {
    alive && forall j :: 0 <= j < i && j < |bs| ==> !Aborts(bs[j], info, csiz)
  }

  /**
   A kid's part has the disposition the first pass settles, and what is read of it is recorded and tiles
   its payload.
   */
  ghost predicate JudgedKid(parts: seq<Part>, kid: Kid, info: HdrInfo, rules: Rules, alive: bool) {
    && kid.0 < |parts|
    && parts[kid.0].disposition == Settled(ChildPart(kid.1, info, rules.csiz), alive, rules.keepIcc)
    && (FieldsEnd(kid.1, info, rules.csiz).Some? ==> ReadOf(parts, kid, info, rules, alive))
  }

  ghost predicate ReadOf(parts: seq<Part>, kid: Kid, info: HdrInfo, rules: Rules, alive: bool)
    requires FieldsEnd(kid.1, info, rules.csiz).Some?
  {
    var (b, end) := (kid.1, FieldsEnd(kid.1, info, rules.csiz).value);
    && kid.0 + 1 < |parts| && OpenAt(parts, Some(kid.0), b.Payload().start, b.end)
    && parts[kid.0 + 1] == Part(Some(kid.0), FieldPart, Range(b.Payload().start, Min(end, b.end)),
                                Settled(ChildDisposition(b, info, rules.csiz), alive, rules.keepIcc))
  }

  /** The boxes of a resolution child are recorded. */
  ghost predicate ResRead(data: seq<byte>, parts: seq<Part>, kid: Kid) {
    kid.1.ty == RES && !kid.1.truncated ==>
      kid.0 < |parts| && ChildrenWalked(data, parts, kid.0, kid.1.Payload(), ResChild())
  }

  ghost predicate Judged(data: seq<byte>, parts: seq<Part>, kids: seq<Kid>, info: HdrInfo, rules: Rules, alive: bool) {
    forall i :: 0 <= i < |kids| ==>
      && JudgedKid(parts, kids[i], info, rules, AliveAt(BoxesIn(kids), i, info, rules.csiz, alive))
      && ResRead(data, parts, kids[i])
  }

  lemma {:induction false} NothingJudged(data: seq<byte>, parts: seq<Part>, info: HdrInfo, rules: Rules, alive: bool)
    ensures Judged(data, parts, [], info, rules, alive)
  {
  }

  lemma {:induction false} KidStays(before: seq<Part>, after: seq<Part>, p: Option<nat>, data: seq<byte>, kid: Kid,
      info: HdrInfo, rules: Rules, alive: bool)
    requires JudgedKid(before, kid, info, rules, alive) && ResRead(data, before, kid)
    requires AddsUnder(before, after, p) && p != Some(kid.0)
    ensures JudgedKid(after, kid, info, rules, alive) && ResRead(data, after, kid)
  {
    hide ChildDisposition, FieldsEnd, OpenAt, AddsUnder, ChildrenWalked;
    KeepsParts(before, after, p);
    if FieldsEnd(kid.1, info, rules.csiz).Some? {
      StillOpen(before, after, p, Some(kid.0), kid.1.Payload().start, kid.1.end);
    }
    if kid.1.ty == RES && !kid.1.truncated {
      ChildrenStay(before, after, p, data, kid.0, kid.1.Payload(), ResChild());
    }
  }

  lemma {:induction false} StillJudged(before: seq<Part>, after: seq<Part>, p: Option<nat>, data: seq<byte>,
      kids: seq<Kid>, info: HdrInfo, rules: Rules, alive: bool)
    requires Judged(data, before, kids, info, rules, alive) && AddsUnder(before, after, p)
    requires forall i :: 0 <= i < |kids| ==> p != Some(kids[i].0)
    ensures Judged(data, after, kids, info, rules, alive)
  {
    hide JudgedKid, ResRead, AddsUnder, AliveAt;
    forall i | 0 <= i < |kids|
      ensures JudgedKid(after, kids[i], info, rules, AliveAt(BoxesIn(kids), i, info, rules.csiz, alive))
        && ResRead(data, after, kids[i])
    {
      KidStays(before, after, p, data, kids[i], info, rules, AliveAt(BoxesIn(kids), i, info, rules.csiz, alive));
    }
  }

  lemma {:induction false} OneMoreJudged(data: seq<byte>, parts: seq<Part>, kids: seq<Kid>, kid: Kid, info: HdrInfo,
      rules: Rules, alive: bool)
    requires Judged(data, parts, kids, info, rules, alive) && ResRead(data, parts, kid)
    requires JudgedKid(parts, kid, info, rules, AliveAt(BoxesIn(kids), |kids|, info, rules.csiz, alive))
    ensures Judged(data, parts, kids + [kid], info, rules, alive)
  {
    hide JudgedKid, ResRead;
    var all := kids + [kid];
    forall i | 0 <= i < |all|
      ensures JudgedKid(parts, all[i], info, rules, AliveAt(BoxesIn(all), i, info, rules.csiz, alive))
        && ResRead(data, parts, all[i])
    {
      SameBefore(kids, kid, i, info, rules.csiz, alive);
    }
  }

  lemma {:induction false} SameBefore(kids: seq<Kid>, kid: Kid, i: nat, info: HdrInfo, csiz: Option<nat>, alive: bool)
    requires i <= |kids|
    ensures AliveAt(BoxesIn(kids + [kid]), i, info, csiz, alive) == AliveAt(BoxesIn(kids), i, info, csiz, alive)
  {
    hide Aborts;
    forall j | 0 <= j < i ensures BoxesIn(kids + [kid])[j] == BoxesIn(kids)[j] {}
  }

  lemma {:induction false} AliveNext(bs: seq<BoxHdr>, b: BoxHdr, info: HdrInfo, csiz: Option<nat>, alive: bool)
    ensures AliveAt(bs + [b], |bs| + 1, info, csiz, alive)
      == (AliveAt(bs, |bs|, info, csiz, alive) && !Aborts(b, info, csiz))
  {
    hide Aborts;
    assert (bs + [b])[|bs|] == b;
    forall j | 0 <= j < |bs| ensures (bs + [b])[j] == bs[j] {}
  }

  ghost predicate ConsumedWinner(parts: seq<Part>, kid: Kid) {
    kid.1.ty in WINNER_TYPES && kid.0 < |parts| && Consumed(parts[kid.0].disposition)
  }

  /** Of the children of one type among `colr`, `pclr`, `cdef` and `cmap`, at most one is consumed. */
  ghost predicate OneWinnerEach(parts: seq<Part>, kids: seq<Kid>) {
    forall i, j :: 0 <= i < j < |kids| && ConsumedWinner(parts, kids[i]) && ConsumedWinner(parts, kids[j]) ==>
      kids[i].1.ty != kids[j].1.ty
  }

  lemma {:induction false} ConsumedWasJudged(parts: seq<Part>, kid: Kid, info: HdrInfo, rules: Rules, alive: bool)
    requires JudgedKid(parts, kid, info, rules, alive) && Consumed(parts[kid.0].disposition)
    ensures Consumed(ChildDisposition(kid.1, info, rules.csiz))
  {
    hide ChildDisposition, ReadOf;
  }

  lemma {:induction false} JudgedOnce(data: seq<byte>, body: Range, parts: seq<Part>, kids: seq<Kid>, info: HdrInfo,
      rules: Rules, alive: bool)
    requires body.start <= body.end <= |data| < U64 && BoxesIn(kids) == BoxesOf(data, body.start, body.end).list
    requires Judged(data, parts, kids, info, rules, alive)
    ensures OneWinnerEach(parts, kids)
  {
    hide ChildDisposition, Consumed, BoxesOf, ChildPart, JudgedKid, ResRead, AliveAt;
    forall i, j | 0 <= i < j < |kids| && ConsumedWinner(parts, kids[i]) && ConsumedWinner(parts, kids[j])
      ensures kids[i].1.ty != kids[j].1.ty
    {
      ConsumedWasJudged(parts, kids[i], info, rules, AliveAt(BoxesIn(kids), i, info, rules.csiz, alive));
      ConsumedWasJudged(parts, kids[j], info, rules, AliveAt(BoxesIn(kids), j, info, rules.csiz, alive));
      if kids[i].1.ty == kids[j].1.ty {
        OneOfEachConsumed(kids[i].1, kids[j].1, info, rules.csiz);
        StartsAscendIn(data, body, i, j);
      }
    }
  }

  lemma {:induction false} StartsAscendIn(data: seq<byte>, body: Range, i: nat, k: nat)
    requires body.start <= body.end <= |data| < U64 && i < k < |BoxesOf(data, body.start, body.end).list|
    ensures
      var bs := BoxesOf(data, body.start, body.end).list;
      bs[i].start < bs[k].start
    decreases k
  {
    hide BoxesOf;
    BoxOf(data, body.start, body.end, k - 1);
    if i < k - 1 { StartsAscendIn(data, body, i, k - 1); }
  }

  /** What the first pass over a header box settles. */
  ghost function InfoOf(data: seq<byte>, body: Range): (info: HdrInfo)
    requires body.start <= body.end <= |data| < U64
  {
    Scan(data, Complete(BoxesOf(data, body.start, body.end).list))
  }

  /** The kids of a header box: each as the first pass and what came before it settle, with one winner each. */
  ghost predicate HeaderKids(data: seq<byte>, parts: seq<Part>, id: nat, body: Range, kids: seq<Kid>, rules: Rules,
      alive: bool)
  {
    && Kids(data, parts, id, body, kids) && OneWinnerEach(parts, kids)
    && Judged(data, parts, kids, InfoOf(data, body), rules, alive)
  }

  ghost predicate HeaderWalked(data: seq<byte>, parts: seq<Part>, id: nat, body: Range, rules: Rules, alive: bool) {
    exists kids: seq<Kid> :: HeaderKids(data, parts, id, body, kids, rules, alive)
  }

  /** Whether the decode fails inside a header box. */
  ghost predicate HeaderDies(data: seq<byte>, body: Range, rules: Rules)
    requires body.start <= body.end <= |data| < U64
  {
    var bs := BoxesOf(data, body.start, body.end);
    bs.why.Some? || !AliveAt(bs.list, |bs.list|, InfoOf(data, body), rules.csiz, true)
  }

  lemma {:induction false} HeaderStays(before: seq<Part>, after: seq<Part>, data: seq<byte>, id: nat, body: Range,
      rules: Rules, alive: bool)
    requires HeaderWalked(data, before, id, body, rules, alive) && AddsUnder(before, after, None) && id < |before|
    ensures HeaderWalked(data, after, id, body, rules, alive)
  {
    hide HeaderKids, AddsUnder;
    var kids: seq<Kid> :| HeaderKids(data, before, id, body, kids, rules, alive);
    HeaderKidsStay(before, after, data, id, body, kids, rules, alive);
  }

  lemma {:induction false} HeaderKidsStay(before: seq<Part>, after: seq<Part>, data: seq<byte>, id: nat, body: Range,
      kids: seq<Kid>, rules: Rules, alive: bool)
    requires HeaderKids(data, before, id, body, kids, rules, alive) && AddsUnder(before, after, None) && id < |before|
    ensures HeaderKids(data, after, id, body, kids, rules, alive)
  {
    hide Kids, Judged, AddsUnder, OneWinnerEach, InfoOf;
    InBody(data, before, id, body, kids);
    KidsStay(before, after, None, data, id, body, kids);
    StillJudged(before, after, None, data, kids, InfoOf(data, body), rules, alive);
    JudgedOnce(data, body, after, kids, InfoOf(data, body), rules, alive);
  }

  lemma {:induction false} InBody(data: seq<byte>, parts: seq<Part>, id: nat, body: Range, kids: seq<Kid>)
    requires Kids(data, parts, id, body, kids)
    ensures body.start <= body.end <= |data| < U64 && BoxesIn(kids) == BoxesOf(data, body.start, body.end).list
  {
  }

  // ---- Top-level boxes ----

  /** What a complete top-level box is, before anything dead or superseded is dropped. */
  function TopDisposition(ty: seq<byte>, index: nat): (d: Disposition) {
    if ty == SIGNATURE_BOX then if index == 0 then Structure else Skipped
    else if ty == FTYP then if index == 1 then Structure else Skipped
    else if ty == JP2H then Structure
    else if ty == JP2C then ImageData
    else if ty in SKIPPED_TYPES then Skipped
    else if ty == FREE then Padding
    else Unknown
  }

  lemma {:induction false} TypesDiffer()
    ensures JP2H != JP2C && JP2H != SIGNATURE_BOX && JP2H != FTYP && JP2C != SIGNATURE_BOX && JP2C != FTYP
    ensures UINF != JP2H && ASOC != JP2H && ASOC != UINF && UINF != FTYP && ASOC != FTYP && UINF != SIGNATURE_BOX
      && ASOC != SIGNATURE_BOX
  {
    assert JP2H[3] != JP2C[3] && JP2H[2] != SIGNATURE_BOX[2] && JP2C[2] != SIGNATURE_BOX[2];
    assert JP2H[0] != FTYP[0] && JP2C[0] != FTYP[0];
    assert UINF[0] != JP2H[0] && ASOC[0] != JP2H[0] && ASOC[0] != UINF[0] && UINF[0] != FTYP[0] && ASOC[0] != FTYP[0];
    assert UINF[0] != SIGNATURE_BOX[0] && ASOC[0] != SIGNATURE_BOX[0];
  }

  lemma {:induction false} LastOfNothing()
    ensures LastOf([], JP2H).None? && LastOf([], JP2C).None?
  {
  }

  /** `csiz_at`: the component count of the codestream at `at`, when it opens with SOC and SIZ. */
  function CsizAt(data: seq<byte>, at: nat): (n: Option<nat>) {
    if at + 42 <= |data| && data[at..at + 4] == [0xff, 0x4f, 0xff, 0x51] then Some(BeU16At(data, at + 40)) else None
  }

  /** The component count of the last codestream box. */
  function LastCsiz(data: seq<byte>, bs: seq<BoxHdr>): (n: Option<nat>) {
    if bs == [] then None
    else if bs[|bs| - 1].ty == JP2C then CsizAt(data, bs[|bs| - 1].Payload().start)
    else LastCsiz(data, bs[..|bs| - 1])
  }

  lemma {:induction false} NoCsiz(data: seq<byte>)
    ensures LastCsiz(data, []).None?
  {
  }

  lemma {:induction false} CsizSnoc(data: seq<byte>, bs: seq<BoxHdr>, b: BoxHdr)
    ensures LastCsiz(data, bs + [b]) == if b.ty == JP2C then CsizAt(data, b.Payload().start) else LastCsiz(data, bs)
  {
    assert (bs + [b])[..|bs|] == bs;
  }

  /** The components that color is compared with are those of the codestream that is used: the last. */
  lemma {:induction false} CsizIsTheLast(data: seq<byte>, bs: seq<BoxHdr>, i: nat)
    requires i < |bs| && bs[i].ty == JP2C && forall j :: i < j < |bs| ==> bs[j].ty != JP2C
    ensures LastCsiz(data, bs) == CsizAt(data, bs[i].Payload().start)
    decreases |bs|
  {
    if i < |bs| - 1 { CsizIsTheLast(data, bs[..|bs| - 1], i); }
  }

  /** A complete box replaced by a later one of its kind. */
  predicate SupersededBox(b: BoxHdr, lastJp2h: Option<nat>, lastJp2c: Option<nat>) {
    !b.truncated && ((b.ty == JP2H && lastJp2h != Some(b.start)) || (b.ty == JP2C && lastJp2c != Some(b.start)))
  }

  /** The disposition of top-level box `index`, unless the decode had failed before it. */
  function TopPart(b: BoxHdr, index: nat, lastJp2h: Option<nat>, lastJp2c: Option<nat>): (d: Disposition) {
    if SupersededBox(b, lastJp2h, lastJp2c) then Dropped
    else if b.truncated then Malformed
    else TopDisposition(b.ty, index)
  }

  /** The signature and file type boxes, where they are read as such. */
  predicate Opening(b: BoxHdr, index: nat) { (index == 0 && b.ty == SIGNATURE_BOX) || (index == 1 && b.ty == FTYP) }

  /** What lies in a complete box is recorded. */
  ghost predicate BodyWalked(data: seq<byte>, parts: seq<Part>, id: nat, b: BoxHdr, index: nat, superseded: bool,
      rules: Rules, alive: bool)
  {
    !b.truncated ==>
      && (Opening(b, index) ==> OpenAt(parts, Some(id), b.Payload().start, b.Payload().end))
      && (b.ty == JP2H ==> HeaderWalked(data, parts, id, b.Payload(), rules, alive && !superseded))
      && (b.ty == UINF ==> ChildrenWalked(data, parts, id, b.Payload(), UinfChild()))
      && (b.ty == ASOC ==> AsocTree(data, parts, id, b.Payload(), 0, id + 1))
  }

  /**
   A top-level part holds its box, with the disposition its place and what came before it settle, and its
   body is walked.
   */
  ghost predicate TopKid(data: seq<byte>, parts: seq<Part>, kid: Kid, index: nat, rules: Rules, alive: bool,
      lastJp2h: Option<nat>, lastJp2c: Option<nat>)
  {
    var b := kid.1;
    && kid.0 < |parts|
    && parts[kid.0] == Part(None, if index == 0 then HeaderPart else BoxPart, Range(b.start, b.end),
                            Settled(TopPart(b, index, lastJp2h, lastJp2c), alive, rules.keepIcc))
    && BodyWalked(data, parts, kid.0, b, index, SupersededBox(b, lastJp2h, lastJp2c), rules, alive)
  }

  lemma {:induction false} BodyStays(before: seq<Part>, after: seq<Part>, data: seq<byte>, id: nat, b: BoxHdr,
      index: nat, superseded: bool, rules: Rules, alive: bool)
    requires BodyWalked(data, before, id, b, index, superseded, rules, alive)
    requires AddsUnder(before, after, None) && id < |before|
    ensures BodyWalked(data, after, id, b, index, superseded, rules, alive)
  {
    hide OpenAt, HeaderWalked, ChildrenWalked, AsocTree, AddsUnder;
    if !b.truncated {
      if Opening(b, index) { StillOpen(before, after, None, Some(id), b.Payload().start, b.Payload().end); }
      if b.ty == JP2H { HeaderStays(before, after, data, id, b.Payload(), rules, alive && !superseded); }
      if b.ty == UINF { ChildrenStay(before, after, None, data, id, b.Payload(), UinfChild()); }
      if b.ty == ASOC { AsocStays(before, after, None, data, id, b.Payload(), 0, id + 1, id + 1); }
    }
  }

  /** Whether the decode fails at a top-level box or inside it. */
  ghost predicate Dies(data: seq<byte>, b: BoxHdr, index: nat, rules: Rules) {
    || (index == 1 && b.ty != FTYP)
    || (!b.truncated && b.ty == JP2C && rules.fails(b.Payload()))
    || (!b.truncated && b.ty == JP2H
        && b.Payload().start <= b.Payload().end <= |data| < U64 && HeaderDies(data, b.Payload(), rules))
  }

  /** No top-level box before `n` fails the decode. */
  ghost predicate AliveBefore(data: seq<byte>, bs: seq<BoxHdr>, n: nat, rules: Rules) {
    forall j :: 0 <= j < n && j < |bs| ==> !Dies(data, bs[j], j, rules)
  }

  ghost predicate TopKids(data: seq<byte>, parts: seq<Part>, kids: seq<Kid>, rules: Rules, lastJp2h: Option<nat>,
      lastJp2c: Option<nat>)
  {
    forall i :: 0 <= i < |kids| ==>
      TopKid(data, parts, kids[i], i, rules, AliveBefore(data, BoxesIn(kids), i, rules), lastJp2h, lastJp2c)
  }

  lemma {:induction false} NothingAtAll(data: seq<byte>, rules: Rules, lastJp2h: Option<nat>, lastJp2c: Option<nat>)
    ensures OpenAt([], None, 0, 0) && TopKids(data, [], [], rules, lastJp2h, lastJp2c)
    ensures AliveBefore(data, [], 0, rules)
  {
  }

  lemma {:induction false} TopKidsStay(before: seq<Part>, after: seq<Part>, data: seq<byte>, kids: seq<Kid>,
      rules: Rules, lastJp2h: Option<nat>, lastJp2c: Option<nat>)
    requires TopKids(data, before, kids, rules, lastJp2h, lastJp2c) && AddsUnder(before, after, None)
    ensures TopKids(data, after, kids, rules, lastJp2h, lastJp2c)
  {
    hide BodyWalked, AddsUnder, AliveBefore, TopPart;
    KeepsParts(before, after, None);
    forall i | 0 <= i < |kids|
      ensures TopKid(data, after, kids[i], i, rules, AliveBefore(data, BoxesIn(kids), i, rules), lastJp2h, lastJp2c)
    {
      BodyStays(before, after, data, kids[i].0, kids[i].1, i, SupersededBox(kids[i].1, lastJp2h, lastJp2c), rules,
        AliveBefore(data, BoxesIn(kids), i, rules));
    }
  }

  lemma {:induction false} OneMoreTop(data: seq<byte>, parts: seq<Part>, kids: seq<Kid>, kid: Kid, rules: Rules,
      lastJp2h: Option<nat>, lastJp2c: Option<nat>)
    requires TopKids(data, parts, kids, rules, lastJp2h, lastJp2c)
    requires
      TopKid(data, parts, kid, |kids|, rules, AliveBefore(data, BoxesIn(kids), |kids|, rules), lastJp2h, lastJp2c)
    ensures TopKids(data, parts, kids + [kid], rules, lastJp2h, lastJp2c)
    ensures AliveBefore(data, BoxesIn(kids + [kid]), |kids| + 1, rules)
      == (AliveBefore(data, BoxesIn(kids), |kids|, rules) && !Dies(data, kid.1, |kids|, rules))
    ensures BoxesIn(kids + [kid]) == BoxesIn(kids) + [kid.1]
  {
    hide TopKid, Dies, AliveBefore;
    var all := kids + [kid];
    assert BoxesIn(all) == BoxesIn(kids) + [kid.1];
    AliveGrows(data, BoxesIn(kids), kid.1, rules);
    forall i | 0 <= i < |all|
      ensures TopKid(data, parts, all[i], i, rules, AliveBefore(data, BoxesIn(all), i, rules), lastJp2h, lastJp2c)
    {
      assert AliveBefore(data, BoxesIn(kids) + [kid.1], i, rules) == AliveBefore(data, BoxesIn(kids), i, rules);
    }
  }

  lemma {:induction false} AliveGrows(data: seq<byte>, bs: seq<BoxHdr>, b: BoxHdr, rules: Rules)
    ensures forall i: nat :: i <= |bs| ==> AliveBefore(data, bs + [b], i, rules) == AliveBefore(data, bs, i, rules)
    ensures AliveBefore(data, bs + [b], |bs| + 1, rules)
      == (AliveBefore(data, bs, |bs|, rules) && !Dies(data, b, |bs|, rules))
  {
    hide Dies;
    var all := bs + [b];
    assert all[|bs|] == b && forall j :: 0 <= j < |bs| ==> all[j] == bs[j];
  }

  /**
   Of the complete `jp2h` boxes, and of the complete `jp2c` boxes, every one but the last
   is dropped, and the last is kept exactly when no box before it fails the decode.
   */
  lemma {:induction false} OnlyLastIsKept(data: seq<byte>, parts: seq<Part>, kids: seq<Kid>, rules: Rules, i: nat)
    requires |data| < U64 && BoxesIn(kids) == BoxesOf(data, 0, |data|).list && i < |kids| && !kids[i].1.truncated
    requires
      var c := Complete(BoxesIn(kids));
      TopKids(data, parts, kids, rules, LastOf(c, JP2H), LastOf(c, JP2C))
    ensures kids[i].1.ty == JP2H || kids[i].1.ty == JP2C ==>
      var last := forall j :: i < j < |kids| && kids[j].1.ty == kids[i].1.ty ==> kids[j].1.truncated;
      && kids[i].0 < |parts|
      && parts[kids[i].0].disposition ==
           (if !last || !AliveBefore(data, BoxesIn(kids), i, rules) then Dropped
            else if kids[i].1.ty == JP2H then Structure else ImageData)
  {
    hide BoxesOf, LastOf, AliveBefore, BodyWalked;
    var bs := BoxesIn(kids);
    var c := Complete(bs);
    TypesDiffer();
    InComplete(data, kids, i);
    if bs[i].ty == JP2H || bs[i].ty == JP2C { ExactlyLastWins(data, bs[i].ty, i); }
    assert TopKid(data, parts, kids[i], i, rules, AliveBefore(data, bs, i, rules), LastOf(c, JP2H), LastOf(c, JP2C));
    SameTail(data, kids, i);
  }

  lemma {:induction false} InComplete(data: seq<byte>, kids: seq<Kid>, i: nat)
    requires |data| < U64 && BoxesIn(kids) == BoxesOf(data, 0, |data|).list && i < |kids| && !kids[i].1.truncated
    ensures i < |Complete(BoxesIn(kids))| && Complete(BoxesIn(kids))[i] == kids[i].1
  {
    hide BoxesOf;
  }

  /** Past a complete box, the complete boxes of a type are those not truncated. */
  lemma {:induction false} SameTail(data: seq<byte>, kids: seq<Kid>, i: nat)
    requires |data| < U64 && BoxesIn(kids) == BoxesOf(data, 0, |data|).list && i < |kids| && !kids[i].1.truncated
    ensures
      var c := Complete(BoxesIn(kids));
      (forall j :: i < j < |c| ==> c[j].ty != kids[i].1.ty)
      <==> (forall j :: i < j < |kids| && kids[j].1.ty == kids[i].1.ty ==> kids[j].1.truncated)
  {
    hide BoxesOf;
    var (bs, c) := (BoxesIn(kids), Complete(BoxesIn(kids)));
    forall j | 0 <= j < |kids| && kids[j].1.truncated ensures j == |kids| - 1 { BoxOf(data, 0, |data|, j); }
    forall j | 0 <= j < |c| ensures c[j] == kids[j].1 && !kids[j].1.truncated { assert c[j] == bs[j]; }
  }

  lemma {:induction false} NoChildrenOpen(parts: seq<Part>, id: nat, at: nat)
    ensures ChildRanges(parts, Some(id)) == [] ==> OpenAt(parts, Some(id), at, at)
  {
  }

  // ---- The walker ----

  class Walker {
    const data: seq<byte>
    const inv: Recorder
    const keepIcc: bool
    const fails: Range -> bool
    var superseded: bool
    var dead: bool

    ghost predicate Valid()
      reads this, inv
    {
      |data| < U64 && WellParented(inv.parts)
    }

    constructor (bytes: seq<byte>, wantsIcc: bool, codestreamFails: Range -> bool)
      requires |bytes| < U64
      ensures Valid() && data == bytes && keepIcc == wantsIcc && fails == codestreamFails
      ensures fresh(inv) && inv.parts == [] && !superseded && !dead
    {
      data, keepIcc, fails, superseded, dead := bytes, wantsIcc, codestreamFails, false, false;
      inv := new Recorder();
    }

    /** The rules for a codestream of this many components. */
    function With(csiz: Option<nat>): (rules: Rules) { Rules(csiz, keepIcc, fails) }

    predicate Alive()
      reads this
    {
      !superseded && !dead
    }

    method Push(parent: Option<nat>, kind: Kind, range: Range, d: Disposition, ghost start: nat) returns (id: nat)
      requires Valid() && (parent.Some? ==> parent.value < |inv.parts|)
      requires OpenAt(inv.parts, parent, start, range.start) && range.start <= range.end
      modifies inv
      ensures Valid() && id == |old(inv.parts)|
      ensures inv.parts == old(inv.parts) + [Part(parent, kind, range, Settled(d, Alive(), keepIcc))]
      ensures AddsUnder(old(inv.parts), inv.parts, parent)
      ensures OpenAt(inv.parts, parent, start, range.end) && ChildRanges(inv.parts, Some(id)) == []
    {
      id := Add(inv, parent, kind, range, Settled(d, Alive(), keepIcc), start);
    }

    /** Bytes that are no box, or that nothing reads. */
    method Gap(parent: Option<nat>, range: Range, d: Disposition, ghost start: nat)
      requires Valid() && (parent.Some? ==> parent.value < |inv.parts|)
      requires OpenAt(inv.parts, parent, start, range.start) && range.start <= range.end
      modifies inv
      ensures Valid() && AddsUnder(old(inv.parts), inv.parts, parent) && OpenAt(inv.parts, parent, start, range.end)
    {
      AddsNothing(inv.parts, parent);
      if range.start < range.end {
        var _ := Add(inv, parent, GapPart, range, d, start);
      }
    }

    /** `walk_children`: the boxes of a body in order, and the bytes that are no box. */
    method WalkChildren(parent: nat, body: Range, classify: Classify) returns (kids: seq<Kid>)
      requires Valid() && parent < |inv.parts| && body.start <= body.end <= |data|
      requires OpenAt(inv.parts, Some(parent), body.start, body.start) && Passive(classify)
      modifies inv
      ensures Valid() && AddsUnder(old(inv.parts), inv.parts, Some(parent))
      ensures Kids(data, inv.parts, parent, body, kids) && Classified(inv.parts, kids, classify)
      ensures Fresh(inv.parts, kids, |old(inv.parts)|)
    {
      hide Classified, OpenAt, Tiling, ChildRanges, AddsUnder, BoxesOf, ReadTo, ReadBox, WellParented, Fresh, AreKids;
      ghost var before := inv.parts;
      var pos: nat := body.start;
      kids := [];
      ReadNothing(data, body.start, body.end);
      AddsNothing(before, Some(parent));
      NothingFresh(before);
      NoKids(before, parent, classify);
      while pos < body.end
        invariant pos <= body.end && Valid() && parent < |before| <= |inv.parts|
        invariant ReadTo(data, body.start, body.end, BoxesIn(kids), pos)
        invariant AddsUnder(before, inv.parts, Some(parent)) && OpenAt(inv.parts, Some(parent), body.start, pos)
        invariant Fresh(inv.parts, kids, |before|) && Classified(inv.parts, kids, classify)
        invariant AreKids(inv.parts, parent, kids)
        decreases body.end - pos
      {
        ReadNext(data, body.start, body.end, BoxesIn(kids), pos);
        var r := ReadBox(data, pos, body.end);
        ghost var mid := inv.parts;
        FreshIds(mid, kids, |before|);
        if r.Err? {
          Gap(Some(parent), Range(pos, body.end), Malformed, body.start);
          AddsTwice(before, mid, inv.parts, Some(parent), Some(parent));
          FreshStays(mid, inv.parts, kids, |before|, parent);
          StillKids(mid, inv.parts, Some(parent), parent, kids);
          StillClassified(mid, inv.parts, Some(parent), kids, classify);
          return;
        }
        var b := r.value;
        var id := Push(Some(parent), BoxPart, Range(b.start, b.end), classify(b), body.start);
        AddsTwice(before, mid, inv.parts, Some(parent), Some(parent));
        KeepsParts(mid, inv.parts, Some(parent));
        OneMoreKid(mid, inv.parts, kids, classify, parent, (id, b));
        FreshGrows(mid, inv.parts, kids, |before|, parent, (id, b));
        kids := kids + [(id, b)];
        pos := b.end;
      }
      ReadAll(data, body.start, body.end, BoxesIn(kids));
    }

    /** `walk_asoc`: children, and the associations among them down to the fixed depth. */
    method WalkAsoc(parent: nat, body: Range, depth: nat)
      requires Valid() && parent < |inv.parts| && body.start <= body.end <= |data| && depth <= MAX_DEPTH
      requires OpenAt(inv.parts, Some(parent), body.start, body.start)
      modifies inv
      ensures Valid() && AddsUnder(old(inv.parts), inv.parts, Some(parent))
      ensures AsocTree(data, inv.parts, parent, body, depth, |old(inv.parts)|)
      decreases MAX_DEPTH - depth
    {
      hide OpenAt, Tiling, ChildRanges, AddsUnder, BoxesOf, WellParented, Fresh, AsocTree, AsocsWalked, Kids,
        Classified;
      ghost var before := inv.parts;
      var kids := WalkChildren(parent, body, AsocChild());
      ghost var first := inv.parts;
      KeepsParts(before, first, Some(parent));
      FreshIds(first, kids, |before|);
      NoAsocs(data, first, kids, depth + 1);
      assert kids[0..] == kids;
      var i := 0;
      while i < |kids|
        invariant 0 <= i <= |kids| && Valid() && |first| <= |inv.parts|
        invariant AddsUnder(before, inv.parts, Some(parent))
        invariant Kids(data, inv.parts, parent, body, kids) && Classified(inv.parts, kids, AsocChild())
        invariant Fresh(inv.parts, kids[i..], |before|)
        invariant depth < MAX_DEPTH ==> AsocsWalked(data, inv.parts, kids, i, depth + 1, |first|)
        decreases |kids| - i
      {
        FreshHead(inv.parts, kids[i..], |before|);
        assert kids[i..][0] == kids[i] && kids[i..][1..] == kids[i + 1..];
        if IsAsoc(kids[i].1) && depth < MAX_DEPTH {
          ghost var mid := inv.parts;
          var (id, b) := kids[i];
          InBody(data, mid, parent, body, kids);
          KidInside(data, body, kids, i);
          WalkAsoc(id, b.Payload(), depth + 1);
          KeepsParts(mid, inv.parts, Some(id));
          AsocDone(before, mid, inv.parts, data, parent, body, kids, i, depth, |first|);
        } else if depth < MAX_DEPTH {
          NotAsoc(data, inv.parts, kids, i, depth + 1, |first|);
        }
        i := i + 1;
      }
      TreeOf(data, inv.parts, parent, body, kids, depth, |before|, |first|);
    }

    // ---- jp2h ----

    /** Records one child of `jp2h` with what the decoder reads of it and what it does not. */
    method HeaderChild(parent: nat, start: nat, b: BoxHdr, info: HdrInfo, csiz: Option<nat>) returns (id: nat)
      requires Valid() && parent < |inv.parts| && start <= b.start < b.end <= |data|
        && b.start <= b.Payload().start <= b.end == b.Payload().end
      requires OpenAt(inv.parts, Some(parent), start, b.start)
      modifies inv
      ensures Valid() && AddsUnder(old(inv.parts), inv.parts, Some(parent))
        && OpenAt(inv.parts, Some(parent), start, b.end)
      ensures id == |old(inv.parts)| && IsKid(inv.parts, parent, (id, b))
      ensures JudgedKid(inv.parts, (id, b), info, With(csiz), Alive()) && ResRead(data, inv.parts, (id, b))
    {
      var rules := With(csiz);
      hide OpenAt, Tiling, ChildRanges, AddsUnder, BoxesOf, WellParented, ChildDisposition, FieldsEnd, ChildrenWalked;
      ghost var before := inv.parts;
      var d := ChildDisposition(b, info, rules.csiz);
      var fields := FieldsEnd(b, info, rules.csiz);
      id := Push(Some(parent), BoxPart, Range(b.start, b.end), if fields.Some? then Structure else d, start);
      ghost var mid := inv.parts;
      KeepsParts(before, mid, Some(parent));
      NoChildrenOpen(mid, id, b.Payload().start);
      FieldsNotRes(b, info, rules.csiz);
      if fields.Some? {
        var fend := Min(fields.value, b.end);
        FieldsInside(b, info, rules.csiz);
        var field := Push(Some(id), FieldPart, Range(b.Payload().start, fend), d, b.Payload().start);
        ghost var withField := inv.parts;
        KeepsParts(mid, withField, Some(id));
        Gap(Some(id), Range(fend, b.end), Unreferenced, b.Payload().start);
        KeepsParts(withField, inv.parts, Some(id));
        AddsTwice(mid, withField, inv.parts, Some(id), Some(id));
      } else if b.ty == RES && !b.truncated {
        var kids := WalkChildren(id, b.Payload(), ResChild());
        KidsWalked(data, inv.parts, id, b.Payload(), kids, ResChild());
      } else {
        AddsNothing(mid, Some(id));
      }
      KeepsParts(mid, inv.parts, Some(id));
      AddsTwice(before, mid, inv.parts, Some(parent), Some(id));
      StillOpen(mid, inv.parts, Some(id), Some(parent), start, b.end);
    }

    /** `walk_jp2h`: the second pass over a header box's children. */
    method WalkJp2h(parent: nat, body: Range, csiz: Option<nat>)
      requires Valid() && parent < |inv.parts| && body.start <= body.end <= |data|
      requires OpenAt(inv.parts, Some(parent), body.start, body.start)
      modifies this`dead, inv
      ensures Valid() && AddsUnder(old(inv.parts), inv.parts, Some(parent))
      ensures HeaderWalked(data, inv.parts, parent, body, With(csiz), old(Alive()))
      ensures dead == (old(dead) || HeaderDies(data, body, With(csiz)))
    {
      var rules := With(csiz);
      hide OpenAt, Tiling, ChildRanges, AddsUnder, BoxesOf, WellParented, ChildDisposition, ReadTo, ReadBox, Scan,
        Judged, JudgedKid, ResRead, Aborts, FieldsEnd, Complete, AliveAt, AreKids, IsKid;
      var info := ScanJp2h(data, body);
      ghost var (before, alive) := (inv.parts, Alive());
      var pos: nat := body.start;
      ghost var kids: seq<Kid> := [];
      ReadNothing(data, body.start, body.end);
      AddsNothing(before, Some(parent));
      NothingJudged(data, before, info, rules, alive);
      NoKids(before, parent, ResChild());
      NoneBefore(info, rules.csiz);
      while pos < body.end
        invariant pos <= body.end && Valid() && parent < |before| <= |inv.parts|
        invariant ReadTo(data, body.start, body.end, BoxesIn(kids), pos)
        invariant AddsUnder(before, inv.parts, Some(parent)) && OpenAt(inv.parts, Some(parent), body.start, pos)
        invariant AreKids(inv.parts, parent, kids) && Judged(data, inv.parts, kids, info, rules, alive)
        invariant dead == (old(dead) || !AliveAt(BoxesIn(kids), |kids|, info, rules.csiz, true))
        decreases body.end - pos
      {
        ReadNext(data, body.start, body.end, BoxesIn(kids), pos);
        BoxAdvances(data, pos, body.end);
        var r := ReadBox(data, pos, body.end);
        ghost var mid := inv.parts;
        KidsAreAfter(mid, parent, kids);
        AliveBoth(BoxesIn(kids), |kids|, info, rules.csiz, alive);
        if r.Err? {
          Gap(Some(parent), Range(pos, body.end), Malformed, body.start);
          dead := true;
          AddsTwice(before, mid, inv.parts, Some(parent), Some(parent));
          StillKids(mid, inv.parts, Some(parent), parent, kids);
          StillJudged(mid, inv.parts, Some(parent), data, kids, info, rules, alive);
          JudgedOnce(data, body, inv.parts, kids, info, rules, alive);
          assert HeaderKids(data, inv.parts, parent, body, kids, rules, alive);
          return;
        }
        var b := r.value;
        var id := HeaderChild(parent, body.start, b, info, csiz);
        AddsTwice(before, mid, inv.parts, Some(parent), Some(parent));
        StillKids(mid, inv.parts, Some(parent), parent, kids);
        StillJudged(mid, inv.parts, Some(parent), data, kids, info, rules, alive);
        OneMoreJudged(data, inv.parts, kids, (id, b), info, rules, alive);
        OneMoreIs(inv.parts, parent, kids, (id, b));
        AliveNext(BoxesIn(kids), b, info, rules.csiz, true);
        if Aborts(b, info, rules.csiz) { dead := true; }
        kids := kids + [(id, b)];
        pos := b.end;
      }
      ReadAll(data, body.start, body.end, BoxesIn(kids));
      JudgedOnce(data, body, inv.parts, kids, info, rules, alive);
      assert HeaderKids(data, inv.parts, parent, body, kids, rules, alive);
    }

    // ---- The top level ----

    /** `scan_top_level`: which `jp2h` and `jp2c` are the last complete ones, and the components of the latter. */
    method ScanTopLevel() returns (jp2h: Option<nat>, jp2c: Option<nat>, csiz: Option<nat>)
      requires Valid()
      ensures jp2h == LastOf(Complete(BoxesOf(data, 0, |data|).list), JP2H)
      ensures jp2c == LastOf(Complete(BoxesOf(data, 0, |data|).list), JP2C)
      ensures csiz == LastCsiz(data, Complete(BoxesOf(data, 0, |data|).list))
    {
      hide BoxesOf, ReadTo, ReadBox, LastOf, CsizAt, LastCsiz;
      jp2h, jp2c, csiz := None, None, None;
      NoCsiz(data);
      var pos: nat := 0;
      ghost var done: seq<BoxHdr> := [];
      ReadNothing(data, 0, |data|);
      LastOfNothing();
      TypesDiffer();
      while pos < |data|
        invariant pos <= |data| && ReadTo(data, 0, |data|, done, pos) && NoneTruncated(done)
        invariant jp2h == LastOf(done, JP2H) && jp2c == LastOf(done, JP2C) && csiz == LastCsiz(data, done)
        decreases |data| - pos
      {
        ReadNext(data, 0, |data|, done, pos);
        var r := ReadBox(data, pos, |data|);
        if r.Err? {
          assert Complete(done) == done;
          return;
        }
        var b := r.value;
        if b.truncated {
          TruncatedLast(data, Range(0, |data|), done, b);
          return;
        }
        LastSnoc(done, b);
        CsizSnoc(data, done, b);
        if b.ty == JP2H { jp2h := Some(pos); }
        if b.ty == JP2C { jp2c, csiz := Some(pos), CsizAt(data, b.Payload().start); }
        done := done + [b];
        pos := b.end;
      }
      ReadAll(data, 0, |data|, done);
      assert Complete(done) == done;
    }

    /** What lies in a complete box. What a codestream records is not part of this model; whether it fails is. */
    method Descend(id: nat, b: BoxHdr, index: nat, supersededHere: bool, csiz: Option<nat>)
      requires Valid() && !superseded && id + 1 == |inv.parts| &&
        b.Payload().start <= b.end == b.Payload().end <= |data|
      requires OpenAt(inv.parts, Some(id), b.Payload().start, b.Payload().start) && !b.truncated && !Opening(b, index)
      modifies this, inv
      ensures Valid() && !superseded && AddsUnder(old(inv.parts), inv.parts, Some(id))
      ensures BodyWalked(data, inv.parts, id, b, index, supersededHere, With(csiz), !old(dead))
      ensures dead == (old(dead) || (b.ty == JP2C && With(csiz).fails(b.Payload()))
                       || (b.ty == JP2H && HeaderDies(data, b.Payload(), With(csiz))))
    {
      var rules := With(csiz);
      hide OpenAt, Tiling, ChildRanges, AddsUnder, BoxesOf, WellParented, Fresh, HeaderWalked, AsocTree, ChildrenWalked,
        HeaderDies;
      TypesDiffer();
      AddsNothing(inv.parts, Some(id));
      if b.ty == JP2H {
        superseded := supersededHere;
        WalkJp2h(id, b.Payload(), csiz);
        superseded := false;
      } else if b.ty == JP2C {
        if rules.fails(b.Payload()) { dead := true; }
      } else if b.ty == UINF {
        var kids := WalkChildren(id, b.Payload(), UinfChild());
        KidsWalked(data, inv.parts, id, b.Payload(), kids, UinfChild());
      } else if b.ty == ASOC {
        WalkAsoc(id, b.Payload(), 0);
      }
    }

    /** What lies in a box, if it is complete. */
    method Enter(id: nat, b: BoxHdr, index: nat, supersededHere: bool, csiz: Option<nat>)
      requires Valid() && !superseded && id + 1 == |inv.parts| &&
        b.Payload().start <= b.end == b.Payload().end <= |data|
      requires OpenAt(inv.parts, Some(id), b.Payload().start, b.Payload().start)
      modifies this, inv
      ensures Valid() && !superseded && AddsUnder(old(inv.parts), inv.parts, Some(id))
      ensures BodyWalked(data, inv.parts, id, b, index, supersededHere, With(csiz), !old(dead))
      ensures (dead || (index == 1 && b.ty != FTYP)) == (old(dead) || Dies(data, b, index, With(csiz)))
    {
      var rules := With(csiz);
      hide OpenAt, Tiling, ChildRanges, AddsUnder, BoxesOf, WellParented, HeaderWalked, AsocTree, ChildrenWalked,
        HeaderDies;
      AddsNothing(inv.parts, Some(id));
      TypesDiffer();
      if b.truncated { return; }
      if Opening(b, index) {
        if b.Payload().start < b.end {
          var _ := Push(Some(id), FieldPart, b.Payload(), Skipped, b.Payload().start);
        }
      } else {
        Descend(id, b, index, supersededHere, csiz);
      }
    }

    /** `top_level_box`. */
    method TopLevelBox(b: BoxHdr, index: nat, lastJp2h: Option<nat>, lastJp2c: Option<nat>,
        csiz: Option<nat>) returns (id: nat)
      requires Valid() && !superseded && b.start < b.end <= |data| && b.Payload().start <= b.end == b.Payload().end
      requires OpenAt(inv.parts, None, 0, b.start)
      modifies this, inv
      ensures Valid() && !superseded && id == |old(inv.parts)|
      ensures AddsUnder(old(inv.parts), inv.parts, None) && OpenAt(inv.parts, None, 0, b.end)
      ensures TopKid(data, inv.parts, (id, b), index, With(csiz), !old(dead), lastJp2h, lastJp2c)
      ensures dead == (old(dead) || Dies(data, b, index, With(csiz)))
    {
      var rules := With(csiz);
      hide OpenAt, Tiling, ChildRanges, AddsUnder, BoxesOf, WellParented, TopPart, BodyWalked, Dies, SupersededBox;
      var supersededHere := SupersededBox(b, lastJp2h, lastJp2c);
      ghost var before := inv.parts;
      id := Push(None, if index == 0 then HeaderPart else BoxPart, Range(b.start, b.end),
        TopPart(b, index, lastJp2h, lastJp2c), 0);
      ghost var mid := inv.parts;
      KeepsParts(before, mid, None);
      NoChildrenOpen(mid, id, b.Payload().start);
      Enter(id, b, index, supersededHere, csiz);
      KeepsParts(mid, inv.parts, Some(id));
      AddsTwice(before, mid, inv.parts, None, Some(id));
      StillOpen(mid, inv.parts, Some(id), None, 0, b.end);
      if index == 1 && b.ty != FTYP { dead := true; }
    }

    /**
     `walk_jp2`: the top-level boxes and the bytes that are no box tile the file; every
     box has the disposition that its place, its rivals and the boxes before it settle;
     and what lies in every header, information and association box is recorded.
     */
    method WalkJp2() returns (kids: seq<Kid>)
      requires Valid() && !superseded && !dead && inv.parts == []
      modifies this, inv
      ensures Valid() && OpenAt(inv.parts, None, 0, |data|)
      ensures BoxesIn(kids) == BoxesOf(data, 0, |data|).list
      ensures
        var c := Complete(BoxesIn(kids));
        TopKids(data, inv.parts, kids, With(LastCsiz(data, c)), LastOf(c, JP2H), LastOf(c, JP2C))
      ensures dead == !AliveBefore(data, BoxesIn(kids), |kids|, With(LastCsiz(data, Complete(BoxesIn(kids)))))
    {
      hide LastCsiz, OpenAt, Tiling, ChildRanges, AddsUnder, BoxesOf, WellParented, ReadTo, ReadBox, LastOf, Complete;
      hide TopKid, TopKids, Dies, AliveBefore;
      var lastJp2h, lastJp2c, csiz := ScanTopLevel();
      ghost var rules := With(csiz);
      var pos: nat, index: nat := 0, 0;
      kids := [];
      ReadNothing(data, 0, |data|);
      NothingAtAll(data, rules, lastJp2h, lastJp2c);
      assert BoxesIn([]) == [];
      while pos < |data|
        invariant pos <= |data| && Valid() && !superseded && index == |kids|
        invariant ReadTo(data, 0, |data|, BoxesIn(kids), pos) && OpenAt(inv.parts, None, 0, pos)
        invariant TopKids(data, inv.parts, kids, rules, lastJp2h, lastJp2c)
        invariant dead == !AliveBefore(data, BoxesIn(kids), |kids|, rules)
        decreases |data| - pos
      {
        ReadNext(data, 0, |data|, BoxesIn(kids), pos);
        BoxAdvances(data, pos, |data|);
        var r := ReadBox(data, pos, |data|);
        ghost var before := inv.parts;
        if r.Err? {
          Gap(None, Range(pos, |data|), Malformed, 0);
          TopKidsStay(before, inv.parts, data, kids, rules, lastJp2h, lastJp2c);
          return;
        }
        var b := r.value;
        var id := TopLevelBox(b, index, lastJp2h, lastJp2c, csiz);
        TopKidsStay(before, inv.parts, data, kids, rules, lastJp2h, lastJp2c);
        OneMoreTop(data, inv.parts, kids, (id, b), rules, lastJp2h, lastJp2c);
        kids := kids + [(id, b)];
        pos := b.end;
        index := index + 1;
      }
      ReadAll(data, 0, |data|, BoxesIn(kids));
    }
  }

  // ---- Steps of the walks ----

  lemma {:induction false} KidsWalked(data: seq<byte>, parts: seq<Part>, id: nat, body: Range, kids: seq<Kid>,
      f: Classify)
    requires Kids(data, parts, id, body, kids) && Classified(parts, kids, f)
    ensures ChildrenWalked(data, parts, id, body, f)
  {
  }

  lemma {:induction false} NoAsocs(data: seq<byte>, parts: seq<Part>, kids: seq<Kid>, depth: nat)
    ensures AsocsWalked(data, parts, kids, 0, depth, |parts|)
  {
  }

  lemma {:induction false} NotAsoc(data: seq<byte>, parts: seq<Part>, kids: seq<Kid>, i: nat, depth: nat, base: nat)
    requires i < |kids| && !IsAsoc(kids[i].1) && AsocsWalked(data, parts, kids, i, depth, base)
    ensures AsocsWalked(data, parts, kids, i + 1, depth, base)
  {
  }

  /** One more association among the kids walked. */
  lemma {:induction false} AsocDone(before: seq<Part>, mid: seq<Part>, now: seq<Part>, data: seq<byte>, id: nat,
      body: Range, kids: seq<Kid>, i: nat, depth: nat, inner: nat)
    requires i < |kids| && depth < MAX_DEPTH && id < |before| <= inner <= |mid|
    requires AddsUnder(before, mid, Some(id)) && AddsUnder(mid, now, Some(kids[i].0))
    requires Fresh(mid, kids[i..], |before|)
    requires forall j :: 0 <= j < |kids| ==> |before| <= kids[j].0 < inner
    requires forall j, k :: 0 <= j < k < |kids| ==> kids[j].0 != kids[k].0
    requires Kids(data, mid, id, body, kids) && Classified(mid, kids, AsocChild())
    requires AsocsWalked(data, mid, kids, i, depth + 1, inner)
    requires AsocTree(data, now, kids[i].0, kids[i].1.Payload(), depth + 1, |mid|)
    ensures AddsUnder(before, now, Some(id)) && Fresh(now, kids[i + 1..], |before|)
    ensures Kids(data, now, id, body, kids) && Classified(now, kids, AsocChild())
    ensures AsocsWalked(data, now, kids, i + 1, depth + 1, inner)
  {
    hide AddsUnder, Fresh, Kids, Classified, AsocTree, AsocsWalked;
    var p := kids[i].0;
    KeepsParts(mid, now, Some(p));
    AddsTwice(before, mid, now, Some(id), Some(p));
    assert kids[i..][1..] == kids[i + 1..] && kids[i..][0] == kids[i];
    FreshHead(mid, kids[i..], |before|);
    FreshStays(mid, now, kids[i + 1..], |before|, p);
    KidsStay(mid, now, Some(p), data, id, body, kids);
    StillClassified(mid, now, Some(p), kids, AsocChild());
    AsocsStay(mid, now, p, data, kids, i, depth + 1, inner);
    AddsNothing(now, None);
    AsocStays(now, now, None, data, p, kids[i].1.Payload(), depth + 1, |mid|, inner);
    OneMoreAsoc(data, now, kids, i, depth + 1, inner);
  }

  lemma {:induction false} OneMoreAsoc(data: seq<byte>, parts: seq<Part>, kids: seq<Kid>, i: nat, depth: nat, base: nat)
    requires i < |kids| && AsocsWalked(data, parts, kids, i, depth, base) && kids[i].0 < |parts|
    requires AsocTree(data, parts, kids[i].0, kids[i].1.Payload(), depth, base)
    ensures AsocsWalked(data, parts, kids, i + 1, depth, base)
  {
    hide AsocTree;
  }

  /** The whole tree, once every association among its kids is walked. */
  lemma {:induction false} TreeOf(data: seq<byte>, parts: seq<Part>, id: nat, body: Range, kids: seq<Kid>, depth: nat,
      base: nat, inner: nat)
    requires depth <= MAX_DEPTH && Kids(data, parts, id, body, kids) && Classified(parts, kids, AsocChild())
    requires base <= inner && forall i :: 0 <= i < |kids| ==> kids[i].0 >= base
    requires depth < MAX_DEPTH ==> AsocsWalked(data, parts, kids, |kids|, depth + 1, inner)
    requires WellParented(parts)
    ensures AsocTree(data, parts, id, body, depth, base)
  {
    hide Kids, Classified, WellParented;
    if depth < MAX_DEPTH { SubTrees(data, parts, kids, depth + 1, base, inner); }
  }

  lemma {:induction false} SubTrees(data: seq<byte>, parts: seq<Part>, kids: seq<Kid>, depth: nat, base: nat,
      inner: nat)
    requires AsocsWalked(data, parts, kids, |kids|, depth, inner) && base <= inner && WellParented(parts)
    ensures forall i :: 0 <= i < |kids| && IsAsoc(kids[i].1) ==>
      AsocTree(data, parts, kids[i].0, kids[i].1.Payload(), depth, base)
  {
    hide AsocTree, WellParented, AddsUnder;
    AddsNothing(parts, None);
    forall i | 0 <= i < |kids| && IsAsoc(kids[i].1)
      ensures AsocTree(data, parts, kids[i].0, kids[i].1.Payload(), depth, base)
    {
      AsocStays(parts, parts, None, data, kids[i].0, kids[i].1.Payload(), depth, inner, base);
    }
  }

  lemma {:induction false} FieldsNotRes(b: BoxHdr, info: HdrInfo, csiz: Option<nat>)
    ensures FieldsEnd(b, info, csiz).Some? ==> b.ty != RES
    ensures FieldsEnd(b, info, csiz).Some? ==> Consumed(ChildDisposition(b, info, csiz))
  {
    assert RES[0] != COLR[0] && RES[0] != PCLR[0] && RES[0] != CDEF[0];
  }

  lemma {:induction false} NoneBefore(info: HdrInfo, csiz: Option<nat>)
    ensures AliveAt(BoxesIn([]), 0, info, csiz, true)
  {
  }

  lemma {:induction false} AliveBoth(bs: seq<BoxHdr>, n: nat, info: HdrInfo, csiz: Option<nat>, alive: bool)
    ensures AliveAt(bs, n, info, csiz, alive) == (alive && AliveAt(bs, n, info, csiz, true))
  {
  }

  lemma {:induction false} KidsAreAfter(parts: seq<Part>, id: nat, kids: seq<Kid>)
    requires AreKids(parts, id, kids)
    ensures forall i :: 0 <= i < |kids| ==> id < kids[i].0 < |parts|
  {
  }

  lemma {:induction false} OneMoreIs(parts: seq<Part>, id: nat, kids: seq<Kid>, kid: Kid)
    requires AreKids(parts, id, kids) && IsKid(parts, id, kid)
    ensures AreKids(parts, id, kids + [kid]) && BoxesIn(kids + [kid]) == BoxesIn(kids) + [kid.1]
  {
  }
}
