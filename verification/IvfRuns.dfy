/** Whole runs of the demuxer: what every error-free run keeps, and what no schedule of windows can change. */
module IvfRuns {
  import opened Wrappers
  import opened Bytes
  import opened IvfFormat
  import opened IvfPick
  import opened IvfDemux

  // ---- What every error-free run keeps ----

  /** The file's packets behind the header the demuxer read. */
  function FileChain(file: seq<byte>, h: Header): (c: Chain) { ReadChain(file, h.headerLen, 0) }

  /** The header is the file's. */
  ghost predicate OwnHeader(file: seq<byte>, h: Header) {
    |file| >= HEADER_LEN && ParseHeader(file) == Ok(h)
  }

  /**
   The index is a prefix of the file's true table, the scan stands just past it, and
   a complete index is the whole table of a chain that ends at the end of the file.
   Reading stands at packet `ordinal`.
   */
  ghost predicate Sound(file: seq<byte>, st: State) {
    && st.Valid() && st.Aimed()
    && match st.header
       case None => st == START
       case Some(h) =>
         var c := FileChain(file, h);
         && OwnHeader(file, h) && !st.phase.AtHeader?
         && st.index <= Table(c)
         && st.scanOrdinal == |st.index| && st.scanPos == PosOf(c, |st.index|)
         && (st.indexComplete ==> st.index == Table(c) && c.error.None?)
         && (st.phase.Scanning? ==> !st.indexComplete)
         && (st.phase.Packets? ==> st.ordinal <= |c.packets| && st.pos == PosOf(c, st.ordinal))
         && (st.phase.Packets? && !st.indexComplete ==> st.ordinal == |st.index|)
         && (st.phase.Finished? ==> st.indexComplete && st.ordinal == |c.packets|)
  }

  /** A scan that found nothing leaves the whole index, but goes on scanning without a target. */
  ghost predicate Stranded(file: seq<byte>, st: State) {
    && st.header.Some? && OwnHeader(file, st.header.value) && st.phase.Scanning? && st.pending.None?
    && var c := FileChain(file, st.header.value);
       && st.indexComplete && st.index == Table(c) && c.error.None?
       && st.scanOrdinal == |c.packets| && st.scanPos == c.end && c.end >= |file|
  }

  /** What is kept: sound, or stranded by a scan that found nothing. */
  ghost predicate Kept(file: seq<byte>, st: State) { Sound(file, st) || Stranded(file, st) }

  /** The packet header a scan reads next promises more bytes than the file has. */
  predicate Overruns(file: seq<byte>, st: State) {
    && st.phase.Scanning? && st.scanPos + PACKET_HEADER_LEN <= |file|
    && U32At(file, st.scanPos) > 0 && NextPos(file, st.scanPos) > |file|
  }

  lemma {:induction false} IndexGrows(c: Chain, index: seq<IndexEntry>, e: IndexEntry)
    requires index <= Table(c) && |index| < |c.packets| && e == EntryOf(c.packets[|index|])
    ensures index + [e] <= Table(c)
  {
    assert Table(c)[|index|] == e;
  }

  /** Offsets and ordinals of a table entry. */
  lemma {:induction false} TableEntry(file: seq<byte>, h: Header, k: nat)
    requires k < |FileChain(file, h).packets|
    ensures
      var c := FileChain(file, h);
      c.packets[k].ordinal == k && c.packets[k].offset == PosOf(c, k)
  {
    ChainStep(file, h.headerLen, k);
  }

  lemma {:induction false} PacketsKeepSound(file: seq<byte>, st: State)
    requires Sound(file, st) && st.phase.Packets?
    ensures Sound(file, AdvancePackets(file, st).1)
  {
    hide ReadChain, ParseHeader, U32At, U64At;
    var h := st.header.value;
    var c := FileChain(file, h);
    ChainStep(file, h.headerLen, st.ordinal);
    if StopAt(file, st.pos).None? && !st.indexComplete {
      IndexGrows(c, st.index, EntryOf(c.packets[st.ordinal]));
    }
    if st.pos >= |file| && !st.indexComplete {
      assert Table(c)[..|st.index|] == st.index;
      assert st.index == Table(c);
    }
  }

  /** A pick from a complete index is one of its entries. */
  lemma {:induction false} PickedEntry(index: seq<IndexEntry>, tb: TimeBase, t: SeekTarget)
    ensures Pick(index, tb, t).Some? ==> Pick(index, tb, t).value in index
  {
    if index != [] {
      PickedEntry(index[..|index| - 1], tb, t);
    }
  }

  lemma {:induction false} LandsOnPacket(file: seq<byte>, h: Header, e: IndexEntry)
    requires e in Table(FileChain(file, h))
    ensures
      var c := FileChain(file, h);
      e.ordinal < |c.packets| && e == EntryOf(c.packets[e.ordinal]) && e.offset == PosOf(c, e.ordinal)
  {
    var t := Table(FileChain(file, h));
    var k :| 0 <= k < |t| && t[k] == e;
    TableEntry(file, h, k);
  }

  lemma {:induction false} FinishKeepsSound(file: seq<byte>, st: State)
    requires st.header.Some? && st.pending.Some? && st.phase.Scanning? && OwnHeader(file, st.header.value)
    requires
      var c := FileChain(file, st.header.value);
      && c.error.None? && st.index == Table(c)
      && st.scanOrdinal == |c.packets| && st.scanPos == c.end
    ensures if FinishScan(st).0.Emit? then Sound(file, FinishScan(st).1)
            else FinishScan(st).0 == Fail(NoSuchFrame) && Stranded(file, FinishScan(st).1)
  {
    PickedEntry(st.index, st.header.value.timeBase, st.pending.value);
    var e := Pick(st.index, st.header.value.timeBase, st.pending.value);
    if e.Some? { LandsOnPacket(file, st.header.value, e.value); }
    ChainStep(file, st.header.value.headerLen, |st.index|);
  }

  /** Scanning one packet header notes the next packet and moves past it. */
  lemma {:induction false} ScanNotes(file: seq<byte>, h: Header, index: seq<IndexEntry>) returns (e: IndexEntry)
    requires index <= Table(FileChain(file, h)) && StopAt(file, PosOf(FileChain(file, h), |index|)).None?
    ensures
      var c := FileChain(file, h);
      var at := PosOf(c, |index|);
      && e == IndexEntry(at, Signed64(U64At(file, at + 4)), |index|)
      && index + [e] <= Table(c)
      && PosOf(c, |index| + 1) == NextPos(file, at)
  {
    var c := FileChain(file, h);
    ChainStep(file, h.headerLen, |index|);
    TableEntry(file, h, |index|);
    e := EntryOf(c.packets[|index|]);
    IndexGrows(c, index, e);
  }

  /** A scan that reaches the end of the file has the whole table. */
  lemma {:induction false} ScanComplete(file: seq<byte>, h: Header, index: seq<IndexEntry>)
    requires index <= Table(FileChain(file, h)) && PosOf(FileChain(file, h), |index|) >= |file|
    ensures
      var c := FileChain(file, h);
      index == Table(c) && c.error.None? && PosOf(c, |index|) == c.end
  {
    var c := FileChain(file, h);
    ChainStep(file, h.headerLen, |index|);
    assert Table(c)[..|index|] == index;
  }

  /** A scan step keeps what is kept exactly when the packet it reads is not cut short by the end of the file. */
  lemma {:induction false} ScanKeeps(file: seq<byte>, st: State)
    requires Sound(file, st) && st.phase.Scanning?
    ensures Kept(file, AdvanceScan(file, st).1) <==> !Overruns(file, st)
    ensures !AdvanceScan(file, st).0.Panic?
  {
    hide FileChain, FinishScan, Sound, Stranded;
    var h := ScanStart(file, st);
    if st.scanPos >= |file| {
      ScanComplete(file, h, st.index);
      FinishKeepsSound(file, st);
    } else if StopAt(file, st.scanPos).Some? {
      ScanStops(file, st, h);
    } else {
      ScanStepKeeps(file, st, h);
    }
  }

  /** What soundness says of a scan. */
  lemma {:induction false} ScanStart(file: seq<byte>, st: State) returns (h: Header)
    requires Sound(file, st) && st.phase.Scanning?
    ensures st.header == Some(h) && OwnHeader(file, h) && st.pending.Some? && !st.indexComplete
    ensures
      var c := FileChain(file, h);
      && st.index <= Table(c) && st.scanOrdinal == |st.index| && st.scanPos == PosOf(c, |st.index|)
  {
    h := st.header.value;
  }

  /** A packet header that cannot be a packet's: nothing changes, unless the scan noted it before it saw the end. */
  lemma {:induction false} ScanStops(file: seq<byte>, st: State, h: Header)
    requires Sound(file, st) && st.phase.Scanning? && st.header == Some(h)
    requires st.scanPos < |file| && StopAt(file, st.scanPos).Some?
    ensures
      var (out, st1) := AdvanceScan(file, st);
      out.Fail? && if Overruns(file, st) then !Kept(file, st1) else st1 == st
  {
    ChainStep(file, h.headerLen, |st.index|);
  }

  /** The scan moved past one packet. */
  function Scanned(file: seq<byte>, st: State, e: IndexEntry): (st1: State)
    requires st.scanPos + PACKET_HEADER_LEN <= |file|
  {
    st.(index := st.index + [e], scanPos := NextPos(file, st.scanPos), scanOrdinal := st.scanOrdinal + 1)
  }

  lemma {:induction false} ScanStepKeeps(file: seq<byte>, st: State, h: Header)
    requires Sound(file, st) && st.phase.Scanning? && st.header == Some(h)
    requires st.scanPos < |file| && StopAt(file, st.scanPos).None?
    ensures Kept(file, AdvanceScan(file, st).1) && !Overruns(file, st)
    ensures !AdvanceScan(file, st).0.Panic?
    ensures AdvanceScan(file, st).0 == Need ==> Sound(file, AdvanceScan(file, st).1)
  {
    hide FileChain, FinishScan, Stranded;
    var e := ScanNotes(file, h, st.index);
    var st1 := Scanned(file, st, e);
    ScanMovesOn(file, st, e);
    if st1.scanPos == |file| {
      ScanComplete(file, h, st1.index);
      FinishKeepsSound(file, st1);
    }
  }

  /** What a step over a whole packet does. */
  lemma {:induction false} ScanMovesOn(file: seq<byte>, st: State, e: IndexEntry)
    requires st.header.Some? && !st.indexComplete && st.scanOrdinal == |st.index|
    requires st.scanPos < |file| && StopAt(file, st.scanPos).None?
    requires e == IndexEntry(st.scanPos, Signed64(U64At(file, st.scanPos + 4)), |st.index|)
    ensures
      var st1 := Scanned(file, st, e);
      AdvanceScan(file, st) == if st1.scanPos == |file| then FinishScan(st1) else (Need, st1)
  {
    hide FinishScan, Signed64, U64At;
    assert Noted(st, e) == st.index + [e];
  }

  /** Every step keeps what is kept, except one that scans a packet cut short by the end of the file. */
  lemma {:induction false} AdvanceKeeps(file: seq<byte>, st: State)
    requires Kept(file, st)
    ensures Kept(file, Advance(file, st).1) <==> !Overruns(file, st)
  {
    if Stranded(file, st) { return; }
    match st.phase
    case AtHeader => if !Advance(file, st).0.Fail? { AdvanceKeepsSound(file, st); }
    case Packets => PacketsKeepSound(file, st);
    case Scanning => ScanKeeps(file, st);
    case Finished =>
  }

  /** And every step that does not fail keeps the demuxer sound. */
  lemma {:induction false} AdvanceKeepsSound(file: seq<byte>, st: State)
    requires Sound(file, st) && !Advance(file, st).0.Fail?
    ensures Sound(file, Advance(file, st).1)
  {
    match st.phase
    case AtHeader =>
      var h := ParseHeader(file).value;
      FirstOffset(file, h.headerLen, 0);
    case Packets => PacketsKeepSound(file, st);
    case Scanning => ScanKeepsSound(file, st);
    case Finished =>
  }

  lemma {:induction false} ScanKeepsSound(file: seq<byte>, st: State)
    requires Sound(file, st) && st.phase.Scanning? && !AdvanceScan(file, st).0.Fail?
    ensures Sound(file, AdvanceScan(file, st).1)
  {
    hide FileChain, FinishScan, Sound, Stranded;
    var h := ScanStart(file, st);
    if st.scanPos >= |file| {
      ScanComplete(file, h, st.index);
      FinishKeepsSound(file, st);
    } else if StopAt(file, st.scanPos).Some? {
      ScanStops(file, st, h);
    } else {
      var e := ScanNotes(file, h, st.index);
      ScanMovesOn(file, st, e);
      ScanStepKeeps(file, st, h);
      if Scanned(file, st, e).scanPos == |file| {
        ScanComplete(file, h, Scanned(file, st, e).index);
        FinishKeepsSound(file, Scanned(file, st, e));
      }
    }
  }

  /** A step panics exactly where a scan that found nothing was left without a target. */
  lemma {:induction false} PanicsIffStranded(file: seq<byte>, st: State)
    requires Kept(file, st)
    ensures Advance(file, st).0.Panic? <==> Stranded(file, st)
  {
    if Sound(file, st) && st.phase.Scanning? { ScanKeeps(file, st); }
  }

  /** Every seek, whatever it answers, keeps what is kept; one that answers leaves a sound state. */
  lemma {:induction false} SeekKeepsSound(file: seq<byte>, st: State, t: SeekTarget)
    requires Kept(file, st)
    ensures Kept(file, SeekTo(st, t).1)
    ensures Sound(file, st) || SeekTo(st, t).0.Ok? ==> Sound(file, SeekTo(st, t).1)
  {
    hide Pick, ReadChain, ParseHeader;
    if !st.phase.AtHeader? && st.indexComplete {
      PickedEntry(st.index, st.header.value.timeBase, t);
      var e := Pick(st.index, st.header.value.timeBase, t);
      if e.Some? { LandsOnPacket(file, st.header.value, e.value); }
    }
  }

  // ---- Runs ----

  datatype Action = Feed(window: Input) | SeekCall(target: SeekTarget)

  /** What the driver sees of an action. */
  datatype Seen = Stepped_(out: Outcome) | SeekAnswer(answer: Result<SeekStatus, IvfError>)

  /** One action of a driver that feeds true windows. */
  ghost predicate Acts(file: seq<byte>, st: State, a: Action, seen: Seen, st': State) {
    st.Valid() && match a
      case Feed(w) =>
        Shows(file, w) && seen.Stepped_? && exists requests :: Stepped(file, st, w, seen.out, st', requests)
      case SeekCall(t) => seen == SeekAnswer(SeekTo(st, t).0) && st' == SeekTo(st, t).1
  }

  /** An action that feeds a scan the header of a packet cut short by the end of the file. */
  ghost predicate ReadsPastEnd(file: seq<byte>, st: State, a: Action) {
    st.Valid() && a.Feed? && Sufficient(file, st, a.window) && Overruns(file, st)
  }

  /** `states` are the states of a run of `actions` from the start. */
  ghost predicate Run(file: seq<byte>, states: seq<State>, actions: seq<Action>, seen: seq<Seen>) {
    && |states| == |actions| + 1 && |seen| == |actions| && states[0] == START
    && (forall i :: 0 <= i < |actions| ==> Acts(file, states[i], actions[i], seen[i], states[i + 1]))
  }

  /**
   However steps and seeks interleave, and whatever fails, every state of a run is
   kept, until a scan reads past the end of the file; that step breaks it for good.
   */
  lemma {:induction false} RunsKeep(file: seq<byte>, states: seq<State>, actions: seq<Action>, seen: seq<Seen>, i: nat)
    requires Run(file, states, actions, seen) && i < |states|
    requires forall k :: 0 <= k < i ==> !ReadsPastEnd(file, states[k], actions[k])
    ensures Kept(file, states[i])
    ensures i < |actions| ==> (Kept(file, states[i + 1]) <==> !ReadsPastEnd(file, states[i], actions[i]))
  {
    hide Kept, Overruns, SeekTo;
    if i > 0 { RunsKeep(file, states, actions, seen, i - 1); } else { StartIsKept(file); }
    if i < |actions| {
      assert Acts(file, states[i], actions[i], seen[i], states[i + 1]);
      match actions[i]
      case Feed(w) => if Sufficient(file, states[i], w) { AdvanceKeeps(file, states[i]); }
      case SeekCall(t) => SeekKeepsSound(file, states[i], t);
    }
  }

  lemma {:induction false} StartIsKept(file: seq<byte>)
    ensures Kept(file, START)
  {
  }

  predicate Failed(s: Seen) { s.Stepped_? && s.out.Fail? }

  /** In a run without failures every state is sound. */
  lemma {:induction false} RunsStaySound(file: seq<byte>, states: seq<State>, actions: seq<Action>, seen: seq<Seen>,
      i: nat)
    requires Run(file, states, actions, seen) && i < |states|
    requires forall k :: 0 <= k < i ==> !Failed(seen[k])
    ensures Sound(file, states[i])
  {
    hide Kept, SeekTo, Sound;
    if i > 0 {
      RunsStaySound(file, states, actions, seen, i - 1);
      assert Acts(file, states[i - 1], actions[i - 1], seen[i - 1], states[i - 1 + 1]);
      match actions[i - 1]
      case Feed(w) => if Sufficient(file, states[i - 1], w) { AdvanceKeepsSound(file, states[i - 1]); }
      case SeekCall(t) => SoundIsKept(file, states[i - 1]); SeekKeepsSound(file, states[i - 1], t);
    } else {
      StartIsSound(file);
    }
  }

  lemma {:induction false} StartIsSound(file: seq<byte>)
    ensures Sound(file, START)
  {
  }

  lemma {:induction false} SoundIsKept(file: seq<byte>, st: State)
    requires Sound(file, st)
    ensures Kept(file, st)
  {
  }

  /** One packet at time 5. */
  const ONE_PACKET: seq<byte> :=
    SIGNATURE + [0, 0, 32, 0] + [0x56, 0x50, 0x38, 0x30] + [1, 0, 1, 0] + [1, 0, 0, 0] + [1, 0, 0, 0] + [0, 0, 0, 0]
    + [0, 0, 0, 0] + [1, 0, 0, 0] + [5, 0, 0, 0, 0, 0, 0, 0] + [7]

  /**
   A seek for a packet at or before time 0 scans the file, finds none, and leaves the
   demuxer scanning without a target: a further step panics, and a seek for time 9 lands.
   */
  lemma {:induction false} StrandedExample()
    ensures
      var early := SeekTarget(0, 0, TimeBase(1, 1), AtOrBefore, true);
      var late := early.(ticks := 9);
      var begun := Advance(ONE_PACKET, START);
      var asked := SeekTo(begun.1, early);
      var scanned := Advance(ONE_PACKET, asked.1);
      && begun.0 == Emit(Headers) && asked.0 == Ok(ScanStarted) && scanned.0 == Fail(NoSuchFrame)
      && Stranded(ONE_PACKET, scanned.1) && Advance(ONE_PACKET, scanned.1).0 == Panic
      && SeekTo(scanned.1, late).0 == Ok(Positioned(SeekResult(5, 0)))
  {
    hide ONE_PACKET, ParseHeader, U32At, U64At, StopAt, Sound, FileChain;
    OnePacketBytes();
    StartIsSound(ONE_PACKET);
    AdvanceKeepsSound(ONE_PACKET, START);
    var tb := TimeBase(1, 1);
    var early := SeekTarget(0, 0, tb, AtOrBefore, true);
    var st := Advance(ONE_PACKET, START).1;
    SeekKeepsSound(ONE_PACKET, st, early);
    var asked := SeekTo(st, early).1;
    var e := IndexEntry(32, 5, 0);
    ScanMovesOn(ONE_PACKET, asked, e);
    PickOne(e, tb, early);
    PickOne(e, tb, early.(ticks := 9));
    assert [] + [e] == [e];
    AdvanceKeeps(ONE_PACKET, asked);
    var scanned := Advance(ONE_PACKET, asked).1;
    NotSound(ONE_PACKET, scanned);
    PanicsIffStranded(ONE_PACKET, scanned);
  }

  lemma {:induction false} NotSound(file: seq<byte>, st: State)
    requires !st.Aimed()
    ensures !Sound(file, st)
  {
  }

  lemma {:induction false} PickOne(e: IndexEntry, tb: TimeBase, t: SeekTarget)
    ensures Pick([e], tb, t) == if Eligible(e, tb, t) then Some(e) else None
  {
    assert [e][..0] == [];
  }

  lemma {:induction false} OnePacketBytes()
    ensures |ONE_PACKET| == 45
    ensures ParseHeader(ONE_PACKET) == Ok(Header([0x56, 0x50, 0x38, 0x30], 1, 1, TimeBase(1, 1), None, 32))
    ensures U32At(ONE_PACKET, 32) == 1 && Signed64(U64At(ONE_PACKET, 36)) == 5
    ensures StopAt(ONE_PACKET, 32).None?
  {
    assert ONE_PACKET[0..4] == SIGNATURE && ONE_PACKET[8..12] == [0x56, 0x50, 0x38, 0x30];
  }
}
