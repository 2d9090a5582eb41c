/** The IVF byte format, and what a whole file says read front to back. */
module IvfFormat {
  import opened Wrappers
  import opened Bytes

  const HEADER_LEN: nat := 32
  const PACKET_HEADER_LEN: nat := 12
  const COUNT_OFFSET: nat := 24

  /** `DKIF`. */
  const SIGNATURE: seq<byte> := [0x44, 0x4b, 0x49, 0x46]

  /** A frame count that means unknown, besides zero. */
  const NO_COUNT: nat := U32 - 1

  datatype IvfError =
    | BadSignature | UnsupportedVersion(version: nat) | ShortHeader | ZeroDimensions | ZeroTimeBase
    | Truncated | EmptyPacket | CountMismatch(declared: nat, found: nat) | NoSuchFrame | HeadersFirst
    | NoSuchTrack | UnsupportedSeek | OneVideoTrack | UnsupportedCodec | DimensionsTooLarge | TooManyPackets
    | BeginTwice | NoBegin | MissingTimestamp | ClockMismatch | PacketTooLarge

  /** Seconds per tick. */
  datatype TimeBase = TimeBase(num: nat, den: nat) {
    predicate Valid() { 0 < num < U32 && 0 < den < U32 }
  }

  datatype Header = Header(
    fourcc: seq<byte>, width: nat, height: nat, timeBase: TimeBase, declared: Option<nat>, headerLen: nat
  )

  datatype Packet = Packet(payload: seq<byte>, pts: int, ordinal: nat, offset: nat)

  datatype IndexEntry = IndexEntry(offset: nat, pts: int, ordinal: nat)

  /** A declared count other than 0 and all ones. */
  function Declared(frames: nat): (d: Option<nat>) {
    if frames != 0 && frames != NO_COUNT then Some(frames) else None
  }

  /** The header of a file that holds at least 32 bytes, fields checked in file order. */
  function ParseHeader(b: seq<byte>): (r: Result<Header, IvfError>)
    requires |b| >= HEADER_LEN
  {
    if b[0..4] != SIGNATURE then Err(BadSignature)
    else if U16At(b, 4) != 0 then Err(UnsupportedVersion(U16At(b, 4)))
    else if U16At(b, 6) < HEADER_LEN then Err(ShortHeader)
    else if U16At(b, 12) == 0 || U16At(b, 14) == 0 then Err(ZeroDimensions)
    else if U32At(b, 16) == 0 || U32At(b, 20) == 0 then Err(ZeroTimeBase)
    else Ok(Header(b[8..12], U16At(b, 12), U16At(b, 14), TimeBase(U32At(b, 20), U32At(b, 16)),
                   Declared(U32At(b, 24)), U16At(b, 6)))
  }

  // ---- The header's bytes ----

  /** The first bytes of a file whose header is this one, with `frames` where the count is. */
  ghost predicate HeaderHeld(b: seq<byte>, h: Header, frames: nat) {
    && h.headerLen < U16 && h.width < U16 && h.height < U16 && h.timeBase.num < U32 && h.timeBase.den < U32
    && frames < U32 && |b| >= 32
    && HoldsAt(b, 0, Ascii("DKIF")) && HoldsAt(b, 4, [0, 0]) && HoldsAt(b, 6, Le16(h.headerLen))
    && HoldsAt(b, 8, h.fourcc) && |h.fourcc| == 4
    && HoldsAt(b, 12, Le16(h.width)) && HoldsAt(b, 14, Le16(h.height))
    && HoldsAt(b, 16, Le32(h.timeBase.den)) && HoldsAt(b, 20, Le32(h.timeBase.num)) && HoldsAt(b, 24, Le32(frames))
  }

  /** Zero and four bytes of all ones declare no count, and any other number declares itself. */
  ghost predicate DeclaredBy(b: seq<byte>, declared: Option<nat>, frames: nat)
    requires frames < U32
  {
    if HoldsAt(b, 24, [0, 0, 0, 0]) || HoldsAt(b, 24, [0xff, 0xff, 0xff, 0xff]) then declared.None?
    else declared == Some(frames)
  }

  lemma {:induction false} CountDeclares(b: seq<byte>, frames: nat)
    requires frames < U32 && HoldsAt(b, 24, Le32(frames))
    ensures DeclaredBy(b, Declared(frames), frames)
  {
    assert Le32(0) == [0, 0, 0, 0] && Le32(0xffff_ffff) == [0xff, 0xff, 0xff, 0xff];
    ReadLe32(b, 24, frames);
    if HoldsAt(b, 24, [0, 0, 0, 0]) { ReadLe32(b, 24, 0); }
    if HoldsAt(b, 24, [0xff, 0xff, 0xff, 0xff]) { ReadLe32(b, 24, 0xffff_ffff); }
  }

  /** Why a header is refused: the first of its fields, in file order, that is not what it must be. */
  ghost predicate RefusedFor(b: seq<byte>, e: IvfError)
    requires |b| >= 32
  {
    if !HoldsAt(b, 0, Ascii("DKIF")) then e == BadSignature
    else if !HoldsAt(b, 4, [0, 0]) then e.UnsupportedVersion? && e.version < U16 && HoldsAt(b, 4, Le16(e.version))
    else if (exists n: nat :: n < 32 && HoldsAt(b, 6, Le16(n))) then e == ShortHeader
    else if HoldsAt(b, 12, [0, 0]) || HoldsAt(b, 14, [0, 0]) then e == ZeroDimensions
    else (HoldsAt(b, 16, [0, 0, 0, 0]) || HoldsAt(b, 20, [0, 0, 0, 0])) && e == ZeroTimeBase
  }

  lemma {:induction false} ZeroHeld16(b: seq<byte>, i: nat)
    requires i + 2 <= |b|
    ensures HoldsAt(b, i, [0, 0]) <==> U16At(b, i) == 0
  {
    assert Le16(0) == [0, 0];
    HeldLe16(b, i);
    if HoldsAt(b, i, [0, 0]) { ReadLe16(b, i, 0); }
  }

  lemma {:induction false} ZeroHeld32(b: seq<byte>, i: nat)
    requires i + 4 <= |b|
    ensures HoldsAt(b, i, [0, 0, 0, 0]) <==> U32At(b, i) == 0
  {
    assert Le32(0) == [0, 0, 0, 0];
    HeldLe32(b, i);
    if HoldsAt(b, i, [0, 0, 0, 0]) { ReadLe32(b, i, 0); }
  }

  lemma {:induction false} SignatureHeld(b: seq<byte>)
    requires |b| >= 32
    ensures HoldsAt(b, 0, Ascii("DKIF")) <==> b[0..4] == SIGNATURE
  {
    assert Ascii("DKIF") == SIGNATURE;
  }

  /** An accepted header is in the bytes, field for field. */
  lemma {:induction false} AcceptedIsHeld(b: seq<byte>)
    requires |b| >= HEADER_LEN && ParseHeader(b).Ok?
    ensures
      var (h, frames) := (ParseHeader(b).value, U32At(b, 24));
      && HeaderHeld(b, h, frames) && DeclaredBy(b, h.declared, frames)
      && h.headerLen >= 32 && h.width > 0 && h.height > 0 && h.timeBase.Valid()
  {
    hide Le16, Le32, U16At, U32At, Declared;
    SignatureHeld(b);
    ZeroHeld16(b, 4);
    HeldLe16(b, 6);
    HeldLe16(b, 12);
    HeldLe16(b, 14);
    HeldLe32(b, 16);
    HeldLe32(b, 20);
    HeldLe32(b, 24);
    CountDeclares(b, U32At(b, 24));
  }

  /** And a header in the bytes is read, however long: field for field, or refused for the first bad one. */
  lemma {:induction false} HeldIsRead(b: seq<byte>, h: Header, frames: nat)
    requires HeaderHeld(b, h, frames)
    ensures
      if h.headerLen < 32 then ParseHeader(b) == Err(ShortHeader)
      else if h.width == 0 || h.height == 0 then ParseHeader(b) == Err(ZeroDimensions)
      else if !h.timeBase.Valid() then ParseHeader(b) == Err(ZeroTimeBase)
      else exists d :: DeclaredBy(b, d, frames) && ParseHeader(b) == Ok(h.(declared := d))
  {
    hide Le16, Le32, U16At, U32At, Declared;
    SignatureHeld(b);
    ZeroHeld16(b, 4);
    ReadLe16(b, 6, h.headerLen);
    ReadLe16(b, 12, h.width);
    ReadLe16(b, 14, h.height);
    ReadLe32(b, 16, h.timeBase.den);
    ReadLe32(b, 20, h.timeBase.num);
    ReadLe32(b, 24, frames);
    CountDeclares(b, frames);
  }

  /** The refusals, by the bytes. */
  lemma {:induction false} RefusedIsHeld(b: seq<byte>)
    requires |b| >= HEADER_LEN && ParseHeader(b).Err?
    ensures RefusedFor(b, ParseHeader(b).error)
  {
    hide Le16, Le32, U16At, U32At, Declared;
    SignatureHeld(b);
    ZeroHeld16(b, 4);
    HeldLe16(b, 4);
    HeldLe16(b, 6);
    if n: nat :| n < 32 && HoldsAt(b, 6, Le16(n)) { ReadLe16(b, 6, n); }
    ZeroHeld16(b, 12);
    ZeroHeld16(b, 14);
    ZeroHeld32(b, 16);
    ZeroHeld32(b, 20);
  }

  /** The packets from `pos` on, where they stop, and why if not at the end of the file. */
  datatype Chain = Chain(packets: seq<Packet>, end: nat, error: Option<IvfError>)

  /** What stops the chain at `pos`; `None` when a whole packet starts there. */
  function StopAt(file: seq<byte>, pos: nat): (r: Option<Option<IvfError>>) {
    if pos >= |file| then Some(None)
    else if pos + PACKET_HEADER_LEN > |file| then Some(Some(Truncated))
    else if U32At(file, pos) == 0 then Some(Some(EmptyPacket))
    else if pos + PACKET_HEADER_LEN + U32At(file, pos) > |file| then Some(Some(Truncated))
    else None
  }

  /** The position after the packet at `pos`. */
  function NextPos(file: seq<byte>, pos: nat): (next: nat)
    requires pos + PACKET_HEADER_LEN <= |file|
    ensures next >= pos + PACKET_HEADER_LEN
  {
    pos + PACKET_HEADER_LEN + U32At(file, pos)
  }

  function PacketAt(file: seq<byte>, pos: nat, ordinal: nat): (p: Packet)
    requires StopAt(file, pos).None?
    ensures p.payload != [] && IsI64(p.pts)
  {
    Packet(file[pos + PACKET_HEADER_LEN..NextPos(file, pos)], Signed64(U64At(file, pos + 4)), ordinal, pos)
  }

  /** A packet at `pos` by its bytes: a payload length, a timestamp, and the payload. */
  ghost predicate PacketHeld(file: seq<byte>, pos: nat, p: Packet) {
    && p.offset == pos && 0 < |p.payload| < U32 && IsI64(p.pts)
    && HoldsAt(file, pos, Le32(|p.payload|)) && HoldsAt(file, pos + 4, Le64(Unsigned64(p.pts)))
    && HoldsAt(file, pos + 12, p.payload)
  }

  /** The packet read at `pos` is the one held there, and it ends where the next begins. */
  lemma {:induction false} PacketIsHeld(file: seq<byte>, pos: nat, ordinal: nat)
    requires StopAt(file, pos).None?
    ensures
      var p := PacketAt(file, pos, ordinal);
      PacketHeld(file, pos, p) && p.ordinal == ordinal && NextPos(file, pos) == pos + 12 + |p.payload|
  {
    hide Le32, Le64, U32At, U64At;
    HeldLe32(file, pos);
    HeldLe64(file, pos + 4);
    UnsignedBack(U64At(file, pos + 4));
  }

  lemma UnsignedBack(n: nat)
    requires n < U64
    ensures Unsigned64(Signed64(n)) == n
  {
  }

  /** What there is instead of a packet: nothing, a length of zero, or a header or payload that the file cuts short. */
  lemma {:induction false} StopIsHeld(file: seq<byte>, pos: nat)
    requires StopAt(file, pos).Some?
    ensures match StopAt(file, pos).value
      case None => pos >= |file|
      case Some(e) =>
        pos < |file| &&
        if pos + 12 > |file| then e == Truncated
        else if HoldsAt(file, pos, [0, 0, 0, 0]) then e == EmptyPacket
        else e == Truncated && forall n: nat :: n < U32 && HoldsAt(file, pos, Le32(n)) ==> pos + 12 + n > |file|
  {
    hide Le32, U32At;
    if pos + 12 <= |file| {
      ZeroHeld32(file, pos);
      forall n: nat | n < U32 && HoldsAt(file, pos, Le32(n)) ensures n == U32At(file, pos) { ReadLe32(file, pos, n); }
    }
  }

  /** The file's packets from `pos`, numbered from `ordinal`. */
  function ReadChain(file: seq<byte>, pos: nat, ordinal: nat): (c: Chain)
    decreases |file| - pos
  {
    match StopAt(file, pos)
    case Some(error) => Chain([], pos, error)
    case None =>
      var rest := ReadChain(file, NextPos(file, pos), ordinal + 1);
      Chain([PacketAt(file, pos, ordinal)] + rest.packets, rest.end, rest.error)
  }

  function EntryOf(p: Packet): (e: IndexEntry) { IndexEntry(p.offset, p.pts, p.ordinal) }

  /** The true table of a chain: one entry per packet. */
  function Table(c: Chain): (t: seq<IndexEntry>)
    ensures |t| == |c.packets| && forall i :: 0 <= i < |t| ==> t[i] == EntryOf(c.packets[i])
  {
    seq(|c.packets|, i requires 0 <= i < |c.packets| => EntryOf(c.packets[i]))
  }

  /** Where packet `k` of a chain starts, or the chain ends. */
  function PosOf(c: Chain, k: nat): (pos: nat)
    requires k <= |c.packets|
  {
    if k < |c.packets| then c.packets[k].offset else c.end
  }

  lemma {:induction false} FirstAt(file: seq<byte>, pos: nat, ordinal: nat)
    ensures PosOf(ReadChain(file, pos, ordinal), 0) == pos
  {
  }

  /** Reading a chain from its `k`-th packet gives the rest of it. */
  lemma {:induction false} ChainSuffix(file: seq<byte>, pos: nat, ordinal: nat, k: nat)
    requires k <= |ReadChain(file, pos, ordinal).packets|
    ensures
      var c := ReadChain(file, pos, ordinal);
      ReadChain(file, PosOf(c, k), ordinal + k) == Chain(c.packets[k..], c.end, c.error)
    decreases |file| - pos
  {
    hide NextPos, PacketAt, U32At;
    var c := ReadChain(file, pos, ordinal);
    if k == 0 {
      FirstAt(file, pos, ordinal);
      assert c.packets[0..] == c.packets;
      assert PosOf(c, 0) == pos;
    } else {
      var next := NextPos(file, pos);
      var rest := ReadChain(file, next, ordinal + 1);
      ChainSuffix(file, next, ordinal + 1, k - 1);
      assert c.packets[k..] == rest.packets[k - 1..];
      assert PosOf(c, k) == PosOf(rest, k - 1);
    }
  }

  /** What one step at packet `k` sees. */
  lemma {:induction false} ChainStep(file: seq<byte>, pos: nat, k: nat)
    requires k <= |ReadChain(file, pos, 0).packets|
    ensures
      var c := ReadChain(file, pos, 0);
      match StopAt(file, PosOf(c, k))
      case Some(error) => k == |c.packets| && c.end == PosOf(c, k) && c.error == error
      case None => k < |c.packets| && c.packets[k] == PacketAt(file, PosOf(c, k), k)
                   && PosOf(c, k + 1) == NextPos(file, PosOf(c, k))
  {
    hide PacketAt, NextPos;
    var c := ReadChain(file, pos, 0);
    var at := PosOf(c, k);
    ChainSuffix(file, pos, 0, k);
    if StopAt(file, at).None? {
      var rest := ReadChain(file, NextPos(file, at), k + 1);
      assert c.packets[k..][0] == c.packets[k];
      ChainSuffix(file, pos, 0, k + 1);
      assert c.packets[k + 1..] == c.packets[k..][1..] == rest.packets;
      FirstOffset(file, NextPos(file, at), k + 1);
      if k + 1 < |c.packets| { assert c.packets[k + 1..][0] == c.packets[k + 1]; }
    }
  }

  lemma FirstOffset(file: seq<byte>, pos: nat, ordinal: nat)
    ensures PosOf(ReadChain(file, pos, ordinal), 0) == pos
  {
  }
}
