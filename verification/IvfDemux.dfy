/**
 The IVF demuxer: a sans-I/O reader fed windows of a file, with a seek index built
 as it goes.
 */
module IvfDemux {
  import opened Wrappers
  import opened Bytes
  import opened IvfFormat
  import opened IvfPick

  datatype Phase = AtHeader | Packets | Scanning | Finished

  datatype SeekResult = SeekResult(pts: int, ordinal: nat)

  datatype Event = Headers | PacketEvent(packet: Packet) | Seeked(result: SeekResult) | Done

  /** What a step comes to; `Panic` is the failed expectation that a scan has a target. */
  datatype Outcome = Need | Emit(event: Event) | Fail(error: IvfError) | Panic

  /** What the demuxer asks its driver for. */
  datatype Request = AtLeast(offset: nat, len: nat) | RangeOf(offset: nat, len: nat) | Len

  /** A window of the input. */
  datatype Input = Input(offset: nat, bytes: seq<byte>, totalLen: Option<nat>, reachesEnd: bool)

  datatype State = State(
    phase: Phase,
    header: Option<Header>,
    pos: nat,
    ordinal: nat,
    index: seq<IndexEntry>,
    indexComplete: bool,
    scanPos: nat,
    scanOrdinal: nat,
    pending: Option<SeekTarget>
  ) {
    /** After the header there is one. */
    predicate Valid() { !phase.AtHeader? ==> header.Some? }

    /** Scanning has a target. */
    predicate Aimed() { phase.Scanning? ==> pending.Some? }
  }

  const START: State := State(AtHeader, None, 0, 0, [], false, 0, 0, None)

  // ---- Reference: what the whole file makes the demuxer do next ----

  /** A window shows the file's bytes, and knows only true things about its end. */
  ghost predicate Shows(file: seq<byte>, w: Input) {
    && (if w.offset <= |file| then w.offset + |w.bytes| <= |file| && w.bytes == file[w.offset..w.offset + |w.bytes|]
        else w.bytes == [])
    && (w.reachesEnd ==> w.offset + |w.bytes| >= |file|)
    && (w.totalLen.Some? ==> w.totalLen.value == |file|)
  }

  /** The index with an entry noted if it is the next one. */
  function Noted(st: State, e: IndexEntry): (index: seq<IndexEntry>) {
    if !st.indexComplete && |st.index| == e.ordinal then st.index + [e] else st.index
  }

  /** Lands on the pending target once the index is complete. */
  function FinishScan(st: State): (r: (Outcome, State))
    requires st.header.Some?
  {
    var st1 := st.(indexComplete := true, pending := None);
    match st.pending
    case None => (Panic, st1)
    case Some(t) =>
      match Pick(st.index, st.header.value.timeBase, t)
      case None => (Fail(NoSuchFrame), st1)
      case Some(e) =>
        (Emit(Seeked(SeekResult(e.pts, e.ordinal))), st1.(pos := e.offset, ordinal := e.ordinal, phase := Packets))
  }

  /** A finished scan leaves a state that scans without a target exactly when nothing qualified, or it had none. */
  lemma {:induction false} FinishStaysAimed(st: State)
    requires st.header.Some? && st.phase.Scanning?
    ensures FinishScan(st).1.Aimed()
      <==> st.pending.Some? && Pick(st.index, st.header.value.timeBase, st.pending.value).Some?
  {
    hide Pick;
  }

  function AdvanceHeader(file: seq<byte>, st: State): (r: (Outcome, State)) {
    if |file| < HEADER_LEN then (Fail(Truncated), st) else
    match ParseHeader(file)
    case Err(e) => (Fail(e), st)
    case Ok(h) => (Emit(Headers), st.(phase := Packets, header := Some(h), pos := h.headerLen, scanPos := h.headerLen))
  }

  predicate PastDeclared(st: State)
    requires st.header.Some?
  {
    st.header.value.declared.Some? && st.ordinal >= st.header.value.declared.value
  }

  function AdvancePackets(file: seq<byte>, st: State): (r: (Outcome, State))
    requires st.header.Some?
  {
    var declared := st.header.value.declared;
    if st.pos >= |file| then
      var st1 := st.(phase := Finished, indexComplete := true);
      if declared.Some? && declared.value != st.ordinal then (Fail(CountMismatch(declared.value, st.ordinal)), st1)
      else (Emit(Done), st1)
    else if st.pos + PACKET_HEADER_LEN > |file| then (Fail(Truncated), st)
    else if PastDeclared(st) then (Fail(CountMismatch(declared.value, st.ordinal + 1)), st)
    else match StopAt(file, st.pos)
      case Some(error) => (Fail(error.value), st)
      case None =>
        var p := PacketAt(file, st.pos, st.ordinal);
        var next := NextPos(file, st.pos);
        var scanned := st.scanOrdinal <= st.ordinal;
        (Emit(PacketEvent(p)), st.(
          index := Noted(st, EntryOf(p)), pos := next, ordinal := st.ordinal + 1,
          scanPos := if scanned then next else st.scanPos,
          scanOrdinal := if scanned then st.ordinal + 1 else st.scanOrdinal))
  }

  /** One packet header scanned; `Need` means the scan goes on. */
  function AdvanceScan(file: seq<byte>, st: State): (r: (Outcome, State))
    requires st.header.Some?
  {
    if st.scanPos >= |file| then FinishScan(st)
    else if st.scanPos + PACKET_HEADER_LEN > |file| then (Fail(Truncated), st)
    else if U32At(file, st.scanPos) == 0 then (Fail(EmptyPacket), st)
    else
      var e := IndexEntry(st.scanPos, Signed64(U64At(file, st.scanPos + 4)), st.scanOrdinal);
      var st1 := st.(index := Noted(st, e), scanPos := NextPos(file, st.scanPos), scanOrdinal := st.scanOrdinal + 1);
      if st1.scanPos > |file| then (Fail(Truncated), st1)
      else if st1.scanPos == |file| then FinishScan(st1)
      else (Need, st1)
  }

  /** What the file makes the demuxer do, given a window large enough. */
  function Advance(file: seq<byte>, st: State): (r: (Outcome, State))
    requires st.Valid()
    ensures r.1.Valid()
  {
    match st.phase
    case AtHeader => AdvanceHeader(file, st)
    case Packets => AdvancePackets(file, st)
    case Scanning => AdvanceScan(file, st)
    case Finished => (Emit(Done), st)
  }

  /** Whether a window is enough to advance. */
  ghost predicate Sufficient(file: seq<byte>, st: State, w: Input)
    requires st.Valid()
  {
    match st.phase
    case AtHeader => w.offset == 0 && (|w.bytes| >= HEADER_LEN || w.reachesEnd)
    case Packets =>
      w.offset == st.pos && (w.reachesEnd || (|w.bytes| >= PACKET_HEADER_LEN && (
        PastDeclared(st) || U32At(w.bytes, 0) == 0 || |w.bytes| >= PACKET_HEADER_LEN + U32At(w.bytes, 0))))
    case Scanning =>
      w.totalLen.Some? && (st.scanPos >= |file|
        || (w.offset == st.scanPos && (|w.bytes| >= PACKET_HEADER_LEN || w.reachesEnd)))
    case Finished => true
  }

  /** The request a too-small window is answered with. */
  function RequestFor(st: State, w: Input): (r: Request) {
    match st.phase
    case AtHeader => AtLeast(0, HEADER_LEN)
    case Scanning => if w.totalLen.None? then Len else RangeOf(st.scanPos, PACKET_HEADER_LEN)
    case _ =>
      if w.offset == st.pos && |w.bytes| >= PACKET_HEADER_LEN
      then AtLeast(st.pos, PACKET_HEADER_LEN + U32At(w.bytes, 0))
      else AtLeast(st.pos, PACKET_HEADER_LEN)
  }

  /**
   One step: a window that is enough makes the demuxer do what the file says,
   whatever else it shows; any other changes nothing and is answered with a request.
   */
  ghost predicate Stepped(file: seq<byte>, st: State, w: Input, out: Outcome, st': State, requests: seq<Request>)
    requires st.Valid()
  {
    if Sufficient(file, st, w) then (out, st') == Advance(file, st)
    else out == Need && st' == st && requests == [RequestFor(st, w)]
  }

  datatype SeekStatus = Positioned(result: SeekResult) | ScanStarted

  /** What a seek does. */
  function SeekTo(st: State, target: SeekTarget): (r: (Result<SeekStatus, IvfError>, State))
    requires st.Valid()
  {
    if st.phase.AtHeader? then (Err(HeadersFirst), st)
    else if target.track != 0 then (Err(NoSuchTrack), st)
    else if !target.anyScope then (Err(UnsupportedSeek), st)
    else if st.indexComplete then
      match Pick(st.index, st.header.value.timeBase, target)
      case None => (Err(NoSuchFrame), st)
      case Some(e) =>
        (Ok(Positioned(SeekResult(e.pts, e.ordinal))), st.(pos := e.offset, ordinal := e.ordinal, phase := Packets))
    else (Ok(ScanStarted), st.(pending := Some(target), phase := Scanning))
  }

  /** A window that grants a request. */
  predicate Grants(w: Input, r: Request) {
    match r
    case AtLeast(offset, len) => w.offset == offset && (|w.bytes| >= len || w.reachesEnd)
    case RangeOf(offset, len) => w.offset == offset && (|w.bytes| >= len || w.reachesEnd)
    case Len => w.totalLen.Some?
  }

  /** Granting two requests in a row, without forgetting the file's length, is enough to advance. */
  lemma {:induction false} TwoGrantsSuffice(file: seq<byte>, st: State, w0: Input, w1: Input, w2: Input)
    requires st.Valid() && Shows(file, w1) && Shows(file, w2)
    requires (w0.totalLen.Some? ==> w1.totalLen.Some?) && (w1.totalLen.Some? ==> w2.totalLen.Some?)
    requires Grants(w1, RequestFor(st, w0)) && Grants(w2, RequestFor(st, w1))
    ensures Sufficient(file, st, w1) || Sufficient(file, st, w2)
  {
    if st.phase.Packets? && |w1.bytes| >= PACKET_HEADER_LEN && |w2.bytes| >= PACKET_HEADER_LEN
       && w1.offset == w2.offset {
      ShownPacketHeader(file, w1);
      ShownPacketHeader(file, w2);
    }
  }

  // ---- Windows agree with the file ----

  lemma {:induction false} ShownAt(file: seq<byte>, w: Input, i: nat)
    requires Shows(file, w) && i < |w.bytes|
    ensures w.offset + i < |file| && w.bytes[i] == file[w.offset + i]
  {
  }

  lemma {:induction false} ShownHeader(file: seq<byte>, w: Input)
    requires Shows(file, w) && w.offset == 0 && |w.bytes| >= HEADER_LEN
    ensures |file| >= HEADER_LEN && ParseHeader(w.bytes) == ParseHeader(file)
  {
    forall i | 0 <= i < HEADER_LEN ensures w.bytes[i] == file[i] { ShownAt(file, w, i); }
    assert w.bytes[0..4] == file[0..4];
    assert w.bytes[8..12] == file[8..12];
  }

  lemma {:induction false} ShownPacketHeader(file: seq<byte>, w: Input)
    requires Shows(file, w) && |w.bytes| >= PACKET_HEADER_LEN
    ensures w.offset + PACKET_HEADER_LEN <= |file|
    ensures U32At(w.bytes, 0) == U32At(file, w.offset) && U64At(w.bytes, 4) == U64At(file, w.offset + 4)
  {
    forall i: nat | 0 <= i < PACKET_HEADER_LEN ensures w.bytes[i] == file[w.offset + i] { ShownAt(file, w, i); }
  }

  lemma {:induction false} ShownPacket(file: seq<byte>, w: Input)
    requires Shows(file, w) && |w.bytes| >= PACKET_HEADER_LEN
    requires U32At(w.bytes, 0) > 0 && |w.bytes| >= PACKET_HEADER_LEN + U32At(w.bytes, 0)
    ensures StopAt(file, w.offset).None?
    ensures w.bytes[PACKET_HEADER_LEN..PACKET_HEADER_LEN + U32At(w.bytes, 0)] == PacketAt(file, w.offset, 0).payload
  {
    ShownPacketHeader(file, w);
    ShownSlice(file, w, PACKET_HEADER_LEN, PACKET_HEADER_LEN + U32At(w.bytes, 0));
  }

  lemma {:induction false} ShownSlice(file: seq<byte>, w: Input, from: nat, to: nat)
    requires Shows(file, w) && from <= to <= |w.bytes|
    ensures w.offset + to <= |file| || from == to
    ensures from < to ==> w.bytes[from..to] == file[w.offset + from..w.offset + to]
  {
    if from < to {
      SliceOfSlice(file, w.offset, w.offset + |w.bytes|, from, to);
    }
  }

  lemma {:induction false} SliceOfSlice(s: seq<byte>, lo: nat, hi: nat, from: nat, to: nat)
    requires lo <= hi <= |s| && from <= to <= hi - lo
    ensures s[lo..hi][from..to] == s[lo + from..lo + to]
  {
    var (a, b) := (s[lo..hi][from..to], s[lo + from..lo + to]);
    forall i | 0 <= i < to - from ensures a[i] == b[i] {
      assert s[lo..hi][from + i] == s[lo + from + i];
    }
  }

  // ---- The demuxer ----

  class IvfDemuxer {
    var phase: Phase
    var header: Option<Header>
    var pos: nat
    var ordinal: nat
    var index: seq<IndexEntry>
    var indexComplete: bool
    var scanPos: nat
    var scanOrdinal: nat
    var pending: Option<SeekTarget>
    var requests: seq<Request>

    function Abstract(): (st: State)
      reads this
    {
      State(phase, header, pos, ordinal, index, indexComplete, scanPos, scanOrdinal, pending)
    }

    constructor ()
      ensures Abstract() == START && requests == []
    {
      phase, header, pos, ordinal := AtHeader, None, 0, 0;
      index, indexComplete, scanPos, scanOrdinal, pending := [], false, 0, 0, None;
      requests := [];
    }

    /** Records an entry if it is the next the index lacks. */
    method Note(e: IndexEntry)
      modifies this`index
      ensures index == Noted(old(Abstract()), e)
    {
      if !indexComplete && |index| == e.ordinal {
        index := index + [e];
      }
    }

    method AskFor(r: Request) returns (out: Outcome)
      modifies this`requests
      ensures out == Need && requests == old(requests) + [r]
    {
      requests := requests + [r];
      out := Need;
    }

    method StepHeader(w: Input, ghost file: seq<byte>) returns (out: Outcome)
      requires Shows(file, w) && phase.AtHeader? && requests == []
      modifies this
      ensures Stepped(file, old(Abstract()), w, out, Abstract(), requests)
    {
      hide U16At, U32At, Declared;
      if w.offset != 0 {
        out := AskFor(AtLeast(0, HEADER_LEN));
        return;
      }
      var b := w.bytes;
      if |b| < HEADER_LEN {
        if w.reachesEnd { return Fail(Truncated); }
        out := AskFor(AtLeast(0, HEADER_LEN));
        return;
      }
      ShownHeader(file, w);
      if b[0..4] != SIGNATURE { return Fail(BadSignature); }
      var version := U16At(b, 4);
      if version != 0 { return Fail(UnsupportedVersion(version)); }
      var headerLen := U16At(b, 6);
      if headerLen < HEADER_LEN { return Fail(ShortHeader); }
      var width, height := U16At(b, 12), U16At(b, 14);
      if width == 0 || height == 0 { return Fail(ZeroDimensions); }
      var rate, scale := U32At(b, 16), U32At(b, 20);
      if scale == 0 || rate == 0 { return Fail(ZeroTimeBase); }
      var declared := Declared(U32At(b, 24));
      header := Some(Header(b[8..12], width, height, TimeBase(scale, rate), declared, headerLen));
      pos := headerLen;
      scanPos := headerLen;
      phase := Packets;
      out := Emit(Headers);
    }

    method StepPacket(w: Input, ghost file: seq<byte>) returns (out: Outcome)
      requires Shows(file, w) && phase.Packets? && header.Some? && requests == []
      modifies this
      ensures Stepped(file, old(Abstract()), w, out, Abstract(), requests)
    {
      if w.offset != pos {
        out := AskFor(AtLeast(pos, PACKET_HEADER_LEN));
        return;
      }
      var b, declared := w.bytes, header.value.declared;
      if |b| == 0 && w.reachesEnd {
        phase := Finished;
        indexComplete := true;
        if declared.Some? && declared.value != ordinal {
          return Fail(CountMismatch(declared.value, ordinal));
        }
        return Emit(Done);
      }
      if |b| < PACKET_HEADER_LEN {
        if w.reachesEnd { return Fail(Truncated); }
        out := AskFor(AtLeast(pos, PACKET_HEADER_LEN));
        return;
      }
      out := ReadPacket(w, file);
    }

    /** A packet whose header is in the window. */
    method ReadPacket(w: Input, ghost file: seq<byte>) returns (out: Outcome)
      requires Shows(file, w) && phase.Packets? && header.Some? && requests == []
      requires w.offset == pos && |w.bytes| >= PACKET_HEADER_LEN
      modifies this
      ensures Stepped(file, old(Abstract()), w, out, Abstract(), requests)
    {
      hide U16At, U32At, U64At, Signed64;
      var b, declared := w.bytes, header.value.declared;
      ShownPacketHeader(file, w);
      if declared.Some? && ordinal >= declared.value {
        return Fail(CountMismatch(declared.value, ordinal + 1));
      }
      var len := U32At(b, 0);
      if len == 0 { return Fail(EmptyPacket); }
      var total := PACKET_HEADER_LEN + len;
      if |b| < total {
        if w.reachesEnd { return Fail(Truncated); }
        out := AskFor(AtLeast(pos, total));
        return;
      }
      ShownPacket(file, w);
      out := Deliver(b[PACKET_HEADER_LEN..total], Signed64(U64At(b, 4)), total);
    }

    /** Hands out the packet at `pos` and moves past it. */
    method Deliver(payload: seq<byte>, pts: int, total: nat) returns (out: Outcome)
      modifies this
      ensures
        var st := old(Abstract());
        var p := Packet(payload, pts, st.ordinal, st.pos);
        var scanned := st.scanOrdinal <= st.ordinal;
        && out == Emit(PacketEvent(p)) && requests == old(requests)
        && Abstract() == st.(
             index := Noted(st, EntryOf(p)), pos := st.pos + total, ordinal := st.ordinal + 1,
             scanPos := if scanned then st.pos + total else st.scanPos,
             scanOrdinal := if scanned then st.ordinal + 1 else st.scanOrdinal)
    {
      var packet := Packet(payload, pts, ordinal, pos);
      Note(IndexEntry(pos, pts, ordinal));
      pos := pos + total;
      if scanOrdinal <= ordinal {
        scanPos := pos;
        scanOrdinal := ordinal + 1;
      }
      ordinal := ordinal + 1;
      out := Emit(PacketEvent(packet));
    }

    /** Resumes sequential reading at an index entry. */
    method Position(e: IndexEntry) returns (r: SeekResult)
      modifies this
      ensures r == SeekResult(e.pts, e.ordinal) && requests == old(requests)
      ensures Abstract() == old(Abstract()).(pos := e.offset, ordinal := e.ordinal, phase := Packets)
    {
      pos := e.offset;
      ordinal := e.ordinal;
      phase := Packets;
      r := SeekResult(e.pts, e.ordinal);
    }

    method CompleteScan() returns (out: Outcome)
      requires header.Some?
      modifies this
      ensures (out, Abstract()) == FinishScan(old(Abstract())) && requests == old(requests)
    {
      indexComplete := true;
      var target := pending;
      pending := None;
      if target.None? { return Panic; }
      var entry := Pick(index, header.value.timeBase, target.value);
      if entry.None? { return Fail(NoSuchFrame); }
      var result := Position(entry.value);
      out := Emit(Seeked(result));
    }

    method StepScan(w: Input, ghost file: seq<byte>) returns (out: Outcome)
      requires Shows(file, w) && phase.Scanning? && header.Some? && requests == []
      modifies this
      ensures Stepped(file, old(Abstract()), w, out, Abstract(), requests)
    {
      if w.totalLen.None? {
        out := AskFor(Len);
        return;
      }
      var total := w.totalLen.value;
      if scanPos >= total {
        out := CompleteScan();
        return;
      }
      if w.offset != scanPos || |w.bytes| < PACKET_HEADER_LEN {
        if w.offset == scanPos && w.reachesEnd { return Fail(Truncated); }
        out := AskFor(RangeOf(scanPos, PACKET_HEADER_LEN));
        return;
      }
      ShownPacketHeader(file, w);
      out := ScanPacket(w.bytes, total, file);
    }

    /** One packet header of a scan. */
    method ScanPacket(b: seq<byte>, total: nat, ghost file: seq<byte>) returns (out: Outcome)
      requires header.Some? && total == |file|
      requires |b| >= PACKET_HEADER_LEN && scanPos + PACKET_HEADER_LEN <= |file|
      requires U32At(b, 0) == U32At(file, scanPos) && U64At(b, 4) == U64At(file, scanPos + 4)
      modifies this
      ensures (out, Abstract()) == AdvanceScan(file, old(Abstract()))
    {
      var len := U32At(b, 0);
      if len == 0 { return Fail(EmptyPacket); }
      Note(IndexEntry(scanPos, Signed64(U64At(b, 4)), scanOrdinal));
      scanPos := scanPos + PACKET_HEADER_LEN + len;
      scanOrdinal := scanOrdinal + 1;
      if scanPos > total { return Fail(Truncated); }
      if scanPos == total {
        out := CompleteScan();
        return;
      }
      out := AskFor(RangeOf(scanPos, PACKET_HEADER_LEN));
    }

    /** `Demuxer::step`. */
    method Step(w: Input, ghost file: seq<byte>) returns (out: Outcome)
      requires Shows(file, w) && Abstract().Valid()
      modifies this
      ensures Stepped(file, old(Abstract()), w, out, Abstract(), requests)
    {
      requests := [];
      match phase
      case AtHeader => out := StepHeader(w, file);
      case Packets => out := StepPacket(w, file);
      case Scanning => out := StepScan(w, file);
      case Finished => out := Emit(Done);
    }

    /** `Demuxer::seek`: at once when the index is complete, by scanning otherwise. */
    method Seek(target: SeekTarget) returns (r: Result<SeekStatus, IvfError>)
      requires Abstract().Valid()
      modifies this
      ensures (r, Abstract()) == SeekTo(old(Abstract()), target) && requests == old(requests)
    {
      if phase.AtHeader? { return Err(HeadersFirst); }
      if target.track != 0 { return Err(NoSuchTrack); }
      if !target.anyScope { return Err(UnsupportedSeek); }
      if indexComplete {
        var e := Pick(index, header.value.timeBase, target);
        if e.None? { return Err(NoSuchFrame); }
        var result := Position(e.value);
        return Ok(Positioned(result));
      }
      pending := Some(target);
      phase := Scanning;
      return Ok(ScanStarted);
    }
  }
}
