/** Reading a file on from any packet, and seeking, seen from the driver. */
module IvfReading {
  import opened Wrappers
  import opened Bytes
  import opened IvfFormat
  import opened IvfPick
  import opened IvfDemux
  import opened IvfRuns
  import opened IvfSchedules

  function PacketEvents(ps: seq<Packet>): (e: seq<Event>)
    ensures |e| == |ps| && forall i :: 0 <= i < |ps| ==> e[i] == PacketEvent(ps[i])
  {
    seq(|ps|, i requires 0 <= i < |ps| => PacketEvent(ps[i]))
  }

  // ---- Sequential reading ----

  /** The first packet reading does not deliver: past a declared count, or past the end. */
  function StopBefore(h: Header, c: Chain): (n: nat)
    ensures n <= |c.packets|
  {
    if h.declared.Some? && h.declared.value < |c.packets| then h.declared.value else |c.packets|
  }

  /** What a reader standing before a packet it must refuse, or before none, sees next. */
  function EndAt(file: seq<byte>, h: Header, c: Chain, ordinal: nat): (out: Outcome) {
    var atEnd := ordinal == |c.packets|;
    if atEnd && c.error.None? then
      if h.declared.Some? && h.declared.value != ordinal then Fail(CountMismatch(h.declared.value, ordinal))
      else Emit(Done)
    else if atEnd && c.end + PACKET_HEADER_LEN > |file| then Fail(Truncated)
    else if h.declared.Some? && ordinal >= h.declared.value then Fail(CountMismatch(h.declared.value, ordinal + 1))
    else if c.error.Some? then Fail(c.error.value)
    else Emit(Done)
  }

  /** Standing before packet `k` of the file. */
  ghost predicate StandsAt(file: seq<byte>, st: State, h: Header, k: nat) {
    Sound(file, st) && st.phase.Packets? && st.header == Some(h) && st.ordinal == k
  }

  lemma {:induction false} DeliversOne(file: seq<byte>, st: State, h: Header)
    requires StandsAt(file, st, h, st.ordinal) && st.ordinal < StopBefore(h, FileChain(file, h))
    ensures
      var (out, st1) := MachineOf(file)(st);
      && out == Emit(PacketEvent(FileChain(file, h).packets[st.ordinal]))
      && StandsAt(file, st1, h, st.ordinal + 1)
  {
    ChainStep(file, h.headerLen, st.ordinal);
    PacketsKeepSound(file, st);
  }

  lemma {:induction false} StopsThere(file: seq<byte>, st: State, h: Header)
    requires StandsAt(file, st, h, st.ordinal)
    requires st.ordinal == |FileChain(file, h).packets| || PastDeclared(st)
    ensures MachineOf(file)(st).0 == EndAt(file, h, FileChain(file, h), st.ordinal)
    ensures Terminal(MachineOf(file)(st).0)
  {
    ChainStep(file, h.headerLen, st.ordinal);
  }

  /** `k` steps deliver `events` and end with `end`. */
  ghost predicate Ends(m: Machine, st: State, k: nat, events: seq<Event>, end: Outcome) {
    var t := Follow(m, st, k);
    t.events == events + EventOf(end) && t.terminal == Some(end)
  }

  lemma {:induction false} EndsNow(m: Machine, st: State, end: Outcome)
    requires m(st).0 == end && Terminal(end)
    ensures Ends(m, st, 1, [], end)
  {
    assert [] + EventOf(end) == EventOf(end);
  }

  lemma {:induction false} EndsLater(m: Machine, st: State, k: nat, first: Event, events: seq<Event>, end: Outcome)
    requires m(st).0 == Emit(first) && first != Done && Ends(m, m(st).1, k, events, end)
    ensures Ends(m, st, k + 1, [first] + events, end)
  {
    assert [first] + (events + EventOf(end)) == ([first] + events) + EventOf(end);
  }

  /** From packet `k` a machine delivers the packets before `stop` and ends. */
  ghost predicate Delivers(m: Machine, st: State, packets: seq<Packet>, k: nat, stop: nat, end: Outcome) {
    k <= stop <= |packets| && Ends(m, st, stop - k + 1, PacketEvents(packets[k..stop]), end)
  }

  lemma {:induction false} DeliversMore(m: Machine, st: State, packets: seq<Packet>, k: nat, stop: nat, end: Outcome)
    requires k < stop && Delivers(m, m(st).1, packets, k + 1, stop, end)
    requires m(st).0 == Emit(PacketEvent(packets[k]))
    ensures Delivers(m, st, packets, k, stop, end)
  {
    var rest := PacketEvents(packets[k + 1..stop]);
    EndsLater(m, st, stop - k, PacketEvent(packets[k]), rest, end);
    assert PacketEvents(packets[k..stop]) == [PacketEvent(packets[k])] + rest;
  }

  lemma {:induction false} DeliversNone(m: Machine, st: State, packets: seq<Packet>, k: nat, end: Outcome)
    requires m(st).0 == end && Terminal(end) && k <= |packets|
    ensures Delivers(m, st, packets, k, k, end)
  {
    EndsNow(m, st, end);
    assert PacketEvents(packets[k..k]) == [];
  }

  /**
   From packet `ordinal` on, the demuxer delivers exactly the rest of the file's
   packets, up to a declared count, then ends as the file says.
   */
  lemma {:induction false} ReadsOn(file: seq<byte>, st: State, h: Header)
    requires StandsAt(file, st, h, st.ordinal) && st.ordinal <= StopBefore(h, FileChain(file, h))
    ensures
      var c := FileChain(file, h);
      var stop := StopBefore(h, c);
      Delivers(MachineOf(file), st, c.packets, st.ordinal, stop, EndAt(file, h, c, stop))
    decreases StopBefore(h, FileChain(file, h)) - st.ordinal
  {
    hide FileChain, Sound, EndAt, Advance, Delivers;
    var c := FileChain(file, h);
    var stop := StopBefore(h, c);
    if st.ordinal < stop {
      DeliversOne(file, st, h);
      ReadsOn(file, MachineOf(file)(st).1, h);
      DeliversMore(MachineOf(file), st, c.packets, st.ordinal, stop, EndAt(file, h, c, stop));
    } else {
      StopsThere(file, st, h);
      DeliversNone(MachineOf(file), st, c.packets, st.ordinal, EndAt(file, h, c, stop));
    }
  }

  /** A seek may land past a wrong declared count: then nothing is delivered. */
  lemma {:induction false} PastCountRefuses(file: seq<byte>, st: State, h: Header)
    requires StandsAt(file, st, h, st.ordinal) && h.declared.Some?
      && h.declared.value <= st.ordinal < |FileChain(file, h).packets|
    ensures Ends(MachineOf(file), st, 1, [], Fail(CountMismatch(h.declared.value, st.ordinal + 1)))
  {
    hide FileChain, ReadChain, Sound, Ends, Terminal;
    EndsPastCount(file, st, h);
    StopsThere(file, st, h);
    EndsNow(MachineOf(file), st, EndAt(file, h, FileChain(file, h), st.ordinal));
  }

  lemma {:induction false} EndsPastCount(file: seq<byte>, st: State, h: Header)
    requires StandsAt(file, st, h, st.ordinal) && h.declared.Some?
      && h.declared.value <= st.ordinal < |FileChain(file, h).packets|
    ensures PastDeclared(st)
    ensures EndAt(file, h, FileChain(file, h), st.ordinal) == Fail(CountMismatch(h.declared.value, st.ordinal + 1))
  {
    hide Sound;
    ChainStep(file, h.headerLen, st.ordinal);
  }

  /** The whole sequential read of a file: its headers, its packets, its end. */
  lemma {:induction false} SequentialRead(file: seq<byte>, h: Header)
    requires OwnHeader(file, h)
    ensures
      var c := FileChain(file, h);
      var stop := StopBefore(h, c);
      Ends(MachineOf(file), START, stop + 2, [Headers] + PacketEvents(c.packets[..stop]), EndAt(file, h, c, stop))
  {
    hide FileChain, Sound, ParseHeader, EndAt;
    StartIsSound(file);
    AdvanceKeepsSound(file, START);
    var c := FileChain(file, h);
    var stop := StopBefore(h, c);
    var st1 := MachineOf(file)(START).1;
    assert StandsAt(file, st1, h, 0);
    ReadsOn(file, st1, h);
    assert c.packets[0..stop] == c.packets[..stop];
    EndsLater(MachineOf(file), START, stop + 1, Headers, PacketEvents(c.packets[..stop]), EndAt(file, h, c, stop));
  }

  /**
   A file that leaves its count at zero, or at all ones as a writer does that cannot go
   back, is read to its packets' end whatever their number: never to a count mismatch.
   */
  lemma {:induction false} UncountedNeverMismatch(file: seq<byte>, h: Header)
    requires OwnHeader(file, h) && (HoldsAt(file, 24, [0, 0, 0, 0]) || HoldsAt(file, 24, [0xff, 0xff, 0xff, 0xff]))
    ensures
      var c := FileChain(file, h);
      exists end: Outcome ::
        && Ends(MachineOf(file), START, |c.packets| + 2, [Headers] + PacketEvents(c.packets), end)
        && !(end.Fail? && end.error.CountMismatch?) && (c.error.None? ==> end == Emit(Done))
  {
    hide Ends, FileChain, ParseHeader, EndAt;
    var c := FileChain(file, h);
    AcceptedIsHeld(file);
    SequentialRead(file, h);
    UncountedEnd(file, h);
    assert c.packets[..|c.packets|] == c.packets;
    assert Ends(MachineOf(file), START, |c.packets| + 2, [Headers] + PacketEvents(c.packets),
                EndAt(file, h, c, |c.packets|));
  }

  lemma {:induction false} UncountedEnd(file: seq<byte>, h: Header)
    requires h.declared.None?
    ensures
      var c := FileChain(file, h);
      var end := EndAt(file, h, c, |c.packets|);
      && StopBefore(h, c) == |c.packets|
      && !(end.Fail? && end.error.CountMismatch?) && (c.error.None? ==> end == Emit(Done))
  {
    ChainFault(file, h.headerLen, 0);
  }

  /** What stops a chain is never a count. */
  lemma {:induction false} ChainFault(file: seq<byte>, pos: nat, ordinal: nat)
    ensures
      var error := ReadChain(file, pos, ordinal).error;
      error.Some? ==> error.value == Truncated || error.value == EmptyPacket
    decreases |file| - pos
  {
    if StopAt(file, pos).None? { ChainFault(file, NextPos(file, pos), ordinal + 1); }
  }

  // ---- Seeking ----

  /**
   Standing where a seek over every packet of the file lands, index complete: on the
   packet it chooses, the optimum when every difference fits.
   */
  ghost predicate AtChosen(file: seq<byte>, st: State, h: Header, t: SeekTarget, r: SeekResult) {
    var c := FileChain(file, h);
    && StandsAt(file, st, h, r.ordinal) && st.indexComplete
    && r.ordinal < |c.packets| && r.pts == c.packets[r.ordinal].pts
    && Chosen(Table(c), r.ordinal, h.timeBase, t)
    && (Exact(Table(c), h.timeBase, t) ==> Optimum(Table(c), r.ordinal, h.timeBase, t))
  }

  /** No packet of the file is eligible. */
  ghost predicate NothingInTime(file: seq<byte>, h: Header, t: SeekTarget) {
    var table := Table(FileChain(file, h));
    forall j :: 0 <= j < |table| ==> !InTime(table[j], h.timeBase, t)
  }

  lemma {:induction false} HeaderTimeBase(file: seq<byte>, h: Header)
    requires OwnHeader(file, h)
    ensures h.timeBase.Valid()
  {
  }

  /** Every timestamp read is an i64. */
  lemma {:induction false} TableIsStamped(file: seq<byte>, pos: nat, ordinal: nat)
    ensures Stamped(Table(ReadChain(file, pos, ordinal)))
    decreases |file| - pos
  {
    if StopAt(file, pos).None? {
      TableIsStamped(file, NextPos(file, pos), ordinal + 1);
      var (table, rest) :=
        (Table(ReadChain(file, pos, ordinal)), Table(ReadChain(file, NextPos(file, pos), ordinal + 1)));
      forall e | e in table ensures IsI64(e.pts) {
        var k :| 0 <= k < |table| && table[k] == e;
        if k > 0 { assert rest[k - 1] == e; }
      }
    }
  }

  /** What picking from the complete table and landing there gives. */
  lemma {:induction false} PickLands(file: seq<byte>, h: Header, t: SeekTarget)
    requires OwnHeader(file, h) && t.Valid()
    ensures
      var c := FileChain(file, h);
      match Pick(Table(c), h.timeBase, t)
      case None => NothingInTime(file, h, t)
      case Some(e) => e.ordinal < |c.packets| && e == EntryOf(c.packets[e.ordinal]) && e.offset == PosOf(c, e.ordinal)
                      && Chosen(Table(c), e.ordinal, h.timeBase, t)
                      && (Exact(Table(c), h.timeBase, t) ==> Optimum(Table(c), e.ordinal, h.timeBase, t))
  {
    HeaderTimeBase(file, h);
    var table := Table(FileChain(file, h));
    TableIsStamped(file, h.headerLen, 0);
    PickIsOptimum(table, h.timeBase, t);
    match Pick(table, h.timeBase, t)
    case None =>
    case Some(e) =>
      var i :| 0 <= i < |table| && table[i] == e && Chosen(table, i, h.timeBase, t)
                     && (Exact(table, h.timeBase, t) ==> Optimum(table, i, h.timeBase, t));
      TableEntry(file, h, i);
      LandsOnPacket(file, h, e);
  }

  /**
   With a complete index a seek lands at once, on its choice over the whole file, or
   finds nothing; also where a scan that found nothing was left without a target.
   */
  lemma {:induction false} SeekLands(file: seq<byte>, st: State, h: Header, t: SeekTarget)
    requires (Sound(file, st) || Stranded(file, st)) && st.header == Some(h) && st.indexComplete
    requires t.track == 0 && t.anyScope && t.Valid()
    ensures
      var (answer, st1) := SeekTo(st, t);
      match answer
      case Ok(status) => status.Positioned? && AtChosen(file, st1, h, t, status.result)
      case Err(e) => e == NoSuchFrame && st1 == st && NothingInTime(file, h, t)
  {
    PickLands(file, h, t);
    SeekKeepsSound(file, st, t);
  }

  /** A scan for `t` under way. */
  ghost predicate Scans(file: seq<byte>, st: State, h: Header, t: SeekTarget) {
    Sound(file, st) && st.phase.Scanning? && st.header == Some(h) && st.pending == Some(t)
  }

  /** How a scan for `t` ends: at its choice, with nothing found, or at the chain's own error. */
  ghost predicate ScanOutcome(file: seq<byte>, h: Header, t: SeekTarget, out: Outcome, st: State) {
    var c := FileChain(file, h);
    match out
    case Emit(e) => e.Seeked? && c.error.None? && AtChosen(file, st, h, t, e.result)
    case Fail(e) =>
      if c.error.None? then e == NoSuchFrame && NothingInTime(file, h, t) && Stranded(file, st) else e == c.error.value
    case _ => false
  }

  lemma {:induction false} FinishOutcome(file: seq<byte>, st: State, h: Header, t: SeekTarget)
    requires OwnHeader(file, h) && st.header == Some(h) && st.pending == Some(t) && st.phase.Scanning?
    requires
      var c := FileChain(file, h);
      && c.error.None? && st.index == Table(c) && st.scanOrdinal == |c.packets|
      && st.scanPos == c.end
    requires t.Valid()
    ensures ScanOutcome(file, h, t, FinishScan(st).0, FinishScan(st).1)
  {
    PickLands(file, h, t);
    FinishKeepsSound(file, st);
  }

  /** The chain stops with an error at a packet header that cannot be a packet's. */
  lemma {:induction false} ScanFails(file: seq<byte>, st: State, h: Header, t: SeekTarget)
    requires Scans(file, st, h, t) && StopAt(file, st.scanPos).Some? && st.scanPos < |file|
    ensures
      var out := AdvanceScan(file, st).0;
      out.Fail? && FileChain(file, h).error == Some(out.error)
  {
    ChainStep(file, h.headerLen, |st.index|);
  }

  /** One step of a scan goes on scanning, or ends it as the whole file says. */
  lemma {:induction false} ScanOnce(file: seq<byte>, st: State, h: Header, t: SeekTarget)
    requires Scans(file, st, h, t) && t.Valid()
    ensures
      var (out, st1) := MachineOf(file)(st);
      if out == Need then Scans(file, st1, h, t) && st.scanPos < st1.scanPos && st.scanPos < |file|
      else ScanOutcome(file, h, t, out, st1)
  {
    assert MachineOf(file)(st) == AdvanceScan(file, st);
    if st.scanPos >= |file| {
      ScanComplete(file, h, st.index);
      FinishOutcome(file, st, h, t);
    } else if StopAt(file, st.scanPos).Some? {
      ScanFails(file, st, h, t);
    } else {
      ScanNext(file, st, h, t);
    }
  }

  lemma {:induction false} ScanNext(file: seq<byte>, st: State, h: Header, t: SeekTarget)
    requires Scans(file, st, h, t) && t.Valid()
    requires st.scanPos < |file| && StopAt(file, st.scanPos).None?
    ensures
      var (out, st1) := AdvanceScan(file, st);
      if out == Need then Scans(file, st1, h, t) && st.scanPos < st1.scanPos else ScanOutcome(file, h, t, out, st1)
  {
    var e := ScanNotes(file, h, st.index);
    var st1 := st.(index := st.index + [e], scanPos := NextPos(file, st.scanPos), scanOrdinal := st.scanOrdinal + 1);
    assert Noted(st, e) == st1.index;
    if st1.scanPos == |file| {
      assert AdvanceScan(file, st) == FinishScan(st1);
      ScanComplete(file, h, st1.index);
      FinishOutcome(file, st1, h, t);
    } else {
      assert AdvanceScan(file, st) == (Need, st1);
      ScanStepKeeps(file, st, h);
    }
  }

  /** After `k` steps that see nothing, the next one ends the scan as the whole file says. */
  ghost predicate ScanEndsAfter(m: Machine, file: seq<byte>, st: State, h: Header, t: SeekTarget, k: nat)
    decreases k
  {
    if k == 0 then ScanOutcome(file, h, t, m(st).0, m(st).1)
    else m(st).0 == Need && ScanEndsAfter(m, file, m(st).1, h, t, k - 1)
  }

  /** A scanning state either moves on to another, or ends the scan. */
  ghost predicate ScanMoves(m: Machine, file: seq<byte>, st: State, h: Header, t: SeekTarget) {
    if m(st).0 == Need then Scans(file, m(st).1, h, t) && st.scanPos < m(st).1.scanPos && st.scanPos < |file|
    else ScanEndsAfter(m, file, st, h, t, 0)
  }

  lemma {:induction false} ScansMove(file: seq<byte>, st: State, h: Header, t: SeekTarget)
    requires Scans(file, st, h, t) && t.Valid()
    ensures ScanMoves(MachineOf(file), file, st, h, t)
  {
    ScanOnce(file, st, h, t);
  }

  /** Every scan ends, as the whole file says. */
  lemma {:induction false} ScanEnds(file: seq<byte>, st: State, h: Header, t: SeekTarget) returns (k: nat)
    requires Scans(file, st, h, t) && t.Valid()
    ensures ScanEndsAfter(MachineOf(file), file, st, h, t, k)
    decreases |file| - st.scanPos
  {
    ScansMove(file, st, h, t);
    k := 0;
    if MachineOf(file)(st).0 == Need {
      k := ScanEnds(file, MachineOf(file)(st).1, h, t);
      k := k + 1;
    }
  }

  /** Seen from the driver: no event until the one that ends the scan. */
  lemma {:induction false} ScanIsQuiet(m: Machine, file: seq<byte>, st: State, h: Header, t: SeekTarget, k: nat)
    requires ScanEndsAfter(m, file, st, h, t, k)
    ensures
      var quiet := Follow(m, st, k);
      quiet.events == [] && quiet.terminal.None? && ScanOutcome(file, h, t, m(quiet.st).0, m(quiet.st).1)
    decreases k
  {
    if k > 0 { ScanIsQuiet(m, file, m(st).1, h, t, k - 1); }
  }

  lemma {:induction false} EndsCleanly(file: seq<byte>, h: Header, c: Chain)
    requires c.error.None? && (h.declared.Some? ==> h.declared.value == |c.packets|)
    ensures StopBefore(h, c) == |c.packets| && EndAt(file, h, c, |c.packets|) == Emit(Done)
  {
  }

  /** A complete index is that of a file read to its end. */
  lemma {:induction false} CompleteIsWhole(file: seq<byte>, st: State, h: Header)
    requires Sound(file, st) && st.header == Some(h) && st.indexComplete
    ensures FileChain(file, h).error.None?
  {
    hide FileChain;
  }

  /**
   Seeking refines reading: wherever a seek lands, at once or by scanning, the packets
   delivered next are exactly those of the full list from that packet on, up to a
   declared count, and the end is the file's. Unless the declared count is wrong they
   are all the rest, and then nothing but the end.
   */
  lemma {:induction false} SeekThenRead(file: seq<byte>, st: State, h: Header, t: SeekTarget, r: SeekResult)
    requires AtChosen(file, st, h, t, r)
    ensures
      var c := FileChain(file, h);
      var stop := StopBefore(h, c);
      if r.ordinal <= stop then Delivers(MachineOf(file), st, c.packets, r.ordinal, stop, EndAt(file, h, c, stop))
      else Ends(MachineOf(file), st, 1, [], Fail(CountMismatch(h.declared.value, r.ordinal + 1)))
    ensures
      var c := FileChain(file, h);
      (h.declared.Some? ==> h.declared.value == |c.packets|) ==>
        StopBefore(h, c) == |c.packets| && EndAt(file, h, c, |c.packets|) == Emit(Done)
  {
    hide FileChain, ReadChain, Sound, Delivers, Ends, Chosen, Optimum, Exact, EndAt;
    var c := FileChain(file, h);
    CompleteIsWhole(file, st, h);
    if h.declared.Some? ==> h.declared.value == |c.packets| { EndsCleanly(file, h, c); }
    if r.ordinal <= StopBefore(h, c) {
      ReadsOn(file, st, h);
    } else {
      PastCountRefuses(file, st, h);
    }
  }
}
