/** Why the windows a driver feeds the demuxer do not matter. */
module IvfSchedules {
  import opened Wrappers
  import opened Bytes
  import opened IvfFormat
  import opened IvfPick
  import opened IvfDemux

  // ---- Any machine that may be asked again without moving ----

  /** One deterministic step. */
  type Machine = State -> (Outcome, State)

  /** What a file makes the demuxer do, as a machine. */
  function MachineOf(file: seq<byte>): (m: Machine) {
    (st: State) => if st.Valid() then Advance(file, st) else (Need, st)
  }

  predicate Terminal(out: Outcome) { out.Fail? || out.Panic? || out == Emit(Done) }

  function EventOf(out: Outcome): (e: seq<Event>) { if out.Emit? then [out.event] else [] }

  /** Events, how they end, and the state left. */
  datatype Trace = Trace(events: seq<Event>, terminal: Option<Outcome>, st: State)

  /** At most `k` steps, stopping at the first failure or the end. */
  function Follow(m: Machine, st: State, k: nat): (t: Trace)
    decreases k
  {
    if k == 0 then Trace([], None, st) else
    var (out, st1) := m(st);
    if Terminal(out) then Trace(EventOf(out), Some(out), st1) else
    var rest := Follow(m, st1, k - 1);
    Trace(EventOf(out) + rest.events, rest.terminal, rest.st)
  }

  /** More steps only add events, and none after the end. */
  lemma {:induction false} FollowExtends(m: Machine, st: State, k: nat, n: nat)
    requires k <= n
    ensures Follow(m, st, k).events <= Follow(m, st, n).events
    ensures Follow(m, st, k).terminal.Some? ==> Follow(m, st, n) == Follow(m, st, k)
    decreases k
  {
    if k > 0 {
      var (out, st1) := m(st);
      if !Terminal(out) { FollowExtends(m, st1, k - 1, n - 1); }
    }
  }

  /** A step of the machine, or an answer that more input is needed. */
  predicate Stutters(m: Machine, st: State, out: Outcome, st': State) {
    (out, st') == m(st) || (out == Need && st' == st)
  }

  /** A sequence of stuttering steps, up to and including the first terminal outcome. */
  ghost predicate Stuttering(m: Machine, states: seq<State>, outs: seq<Outcome>) {
    && |states| == |outs| + 1
    && (forall i :: 0 <= i < |outs| - 1 ==> !Terminal(outs[i]))
    && (forall i :: 0 <= i < |outs| ==> Stutters(m, states[i], outs[i], states[i + 1]))
  }

  /** The events among outcomes. */
  function EventsOf(outs: seq<Outcome>): (e: seq<Event>) {
    if outs == [] then [] else EventOf(outs[0]) + EventsOf(outs[1..])
  }

  function TerminalOf(outs: seq<Outcome>): (t: Option<Outcome>) {
    if outs != [] && Terminal(outs[|outs| - 1]) then Some(outs[|outs| - 1]) else None
  }

  lemma {:induction false} StutteringTail(m: Machine, states: seq<State>, outs: seq<Outcome>)
    requires Stuttering(m, states, outs) && outs != []
    ensures Stuttering(m, states[1..], outs[1..])
  {
    forall i | 0 <= i < |outs| - 1 ensures Stutters(m, states[1..][i], outs[1..][i], states[1..][i + 1]) {
      assert Stutters(m, states[i + 1], outs[i + 1], states[i + 1 + 1]);
    }
  }

  /** Stuttering does what some number of steps does. */
  lemma {:induction false} StutteringFollows(m: Machine, states: seq<State>, outs: seq<Outcome>) returns (k: nat)
    requires Stuttering(m, states, outs)
    ensures Follow(m, states[0], k) == Trace(EventsOf(outs), TerminalOf(outs), states[|states| - 1])
    decreases |outs|
  {
    if outs == [] {
      k := 0;
    } else {
      assert Stutters(m, states[0], outs[0], states[0 + 1]);
      if Terminal(outs[0]) {
        assert |outs| == 1;
        assert EventsOf(outs[1..]) == [];
        k := 1;
      } else {
        StutteringTail(m, states, outs);
        var n := StutteringFollows(m, states[1..], outs[1..]);
        k := if (outs[0], states[1]) == m(states[0]) then n + 1 else n;
      }
    }
  }

  // ---- Windows ----

  /** A schedule of true windows, up to and including the first terminal outcome. */
  ghost predicate Schedule(file: seq<byte>, states: seq<State>, windows: seq<Input>, outs: seq<Outcome>) {
    && |states| == |windows| + 1 && |outs| == |windows|
    && (forall i :: 0 <= i < |outs| - 1 ==> !Terminal(outs[i]))
    && (forall i :: 0 <= i < |windows| ==> StepOf(file, states[i], windows[i], outs[i], states[i + 1]))
  }

  /** A step fed a window that shows the file. */
  ghost predicate StepOf(file: seq<byte>, st: State, w: Input, out: Outcome, st': State) {
    st.Valid() && Shows(file, w) && exists requests :: Stepped(file, st, w, out, st', requests)
  }

  lemma {:induction false} StepStutters(file: seq<byte>, st: State, w: Input, out: Outcome, st': State)
    requires StepOf(file, st, w, out, st')
    ensures Stutters(MachineOf(file), st, out, st')
  {
    var requests :| Stepped(file, st, w, out, st', requests);
    assert MachineOf(file)(st) == Advance(file, st);
  }

  lemma {:induction false} ScheduleStutters(file: seq<byte>, states: seq<State>, windows: seq<Input>,
      outs: seq<Outcome>)
    requires Schedule(file, states, windows, outs)
    ensures Stuttering(MachineOf(file), states, outs)
  {
    forall i | 0 <= i < |outs| ensures Stutters(MachineOf(file), states[i], outs[i], states[i + 1]) {
      StepStutters(file, states[i], windows[i], outs[i], states[i + 1]);
    }
  }

  /**
   Windows do not matter: of two schedules from the same state, the events of one
   extend the other's, and if both reach an end they saw the same events, ended the
   same way and left the same state.
   */
  lemma {:induction false} SchedulesAgree(file: seq<byte>,
    states: seq<State>, windows: seq<Input>, outs: seq<Outcome>,
    states': seq<State>, windows': seq<Input>, outs': seq<Outcome>)
    requires Schedule(file, states, windows, outs) && Schedule(file, states', windows', outs')
    requires states[0] == states'[0]
    ensures EventsOf(outs) <= EventsOf(outs') || EventsOf(outs') <= EventsOf(outs)
    ensures TerminalOf(outs).Some? && TerminalOf(outs').Some? ==>
      && EventsOf(outs) == EventsOf(outs') && TerminalOf(outs) == TerminalOf(outs')
      && states[|states| - 1] == states'[|states'| - 1]
  {
    ScheduleStutters(file, states, windows, outs);
    ScheduleStutters(file, states', windows', outs');
    var k := StutteringFollows(MachineOf(file), states, outs);
    var n := StutteringFollows(MachineOf(file), states', outs');
    if k < n {
      FollowExtends(MachineOf(file), states[0], k, n);
    } else {
      FollowExtends(MachineOf(file), states[0], n, k);
    }
  }

  /** How far the demuxer is from its end: phases first, then bytes. */
  ghost function Remaining(file: seq<byte>, st: State): (d: (nat, int)) {
    match st.phase
    case AtHeader => (2, 0)
    case Scanning => (1, |file| - st.scanPos)
    case _ => (0, |file| - st.pos)
  }

  ghost predicate Nearer(a: (nat, int), b: (nat, int)) { a.0 < b.0 || (a.0 == b.0 && a.1 < b.1 && b.1 >= 0) }

  /** Every step that is not the last brings the end nearer. */
  lemma {:induction false} AdvanceIsProgress(file: seq<byte>, st: State)
    requires st.Valid() && !Terminal(Advance(file, st).0)
    ensures Nearer(Remaining(file, Advance(file, st).1), Remaining(file, st))
  {
  }

  /** From every valid state the file leads to an end: no run reads for ever. */
  lemma {:induction false} FollowEnds(file: seq<byte>, st: State) returns (k: nat)
    requires st.Valid()
    ensures Follow(MachineOf(file), st, k).terminal.Some?
    decreases Remaining(file, st).0, Remaining(file, st).1
  {
    hide Advance, Remaining;
    var (out, st1) := MachineOf(file)(st);
    if Terminal(out) {
      k := 1;
    } else {
      AdvanceIsProgress(file, st);
      var n := FollowEnds(file, st1);
      k := n + 1;
    }
  }

  // ---- A driver that grants what is asked ----

  /** What feeding a window comes to, and the state it leaves. */
  ghost function Fed(file: seq<byte>, st: State, w: Input): (r: (Outcome, State))
    requires st.Valid()
    ensures r.1.Valid()
  {
    if Sufficient(file, st, w) then Advance(file, st) else (Need, st)
  }

  /** The state before window `i`. */
  ghost function StateAt(file: seq<byte>, st: State, ws: nat -> Input, i: nat): (r: State)
    requires st.Valid()
    ensures r.Valid()
  {
    if i == 0 then st else Fed(file, StateAt(file, st, ws, i - 1), ws(i - 1)).1
  }

  ghost function OutcomeAt(file: seq<byte>, st: State, ws: nat -> Input, i: nat): (r: Outcome)
    requires st.Valid()
  {
    Fed(file, StateAt(file, st, ws, i), ws(i)).0
  }

  /** No window before `i` ended the reading. */
  ghost predicate Running(file: seq<byte>, st: State, ws: nat -> Input, i: nat)
    requires st.Valid()
  {
    forall k: nat :: k < i ==> !Terminal(OutcomeAt(file, st, ws, k))
  }

  /** Window `i + 1` grants what was asked after window `i`, and does not forget the length of the file. */
  ghost predicate Answers(file: seq<byte>, st: State, ws: nat -> Input, i: nat)
    requires st.Valid()
  {
    && (ws(i).totalLen.Some? ==> ws(i + 1).totalLen.Some?)
    && var st1 := StateAt(file, st, ws, i);
       (!Sufficient(file, st1, ws(i)) ==> Grants(ws(i + 1), RequestFor(st1, ws(i))))
  }

  /** A driver of true windows that answers every request while the reading goes on. */
  ghost predicate Granting(file: seq<byte>, st: State, ws: nat -> Input)
    requires st.Valid()
  {
    && (forall i: nat :: Shows(file, ws(i)))
    && (forall i: nat :: Running(file, st, ws, i) ==> Answers(file, st, ws, i))
  }

  /** Within three windows of a granting driver the reading ends or the demuxer moves. */
  lemma {:induction false} MovesSoon(file: seq<byte>, st: State, ws: nat -> Input, i: nat) returns (k: nat)
    requires st.Valid() && Granting(file, st, ws) && Running(file, st, ws, i)
    ensures i <= k && Running(file, st, ws, k) && StateAt(file, st, ws, k) == StateAt(file, st, ws, i)
    ensures Sufficient(file, StateAt(file, st, ws, k), ws(k))
  {
    hide Sufficient, Shows, Grants, RequestFor, Advance;
    var st1 := StateAt(file, st, ws, i);
    k := i;
    if !Sufficient(file, st1, ws(i)) {
      assert Answers(file, st, ws, i);
      assert OutcomeAt(file, st, ws, i) == Need && Running(file, st, ws, i + 1);
      k := i + 1;
      if !Sufficient(file, st1, ws(i + 1)) {
        assert Answers(file, st, ws, i + 1);
        assert OutcomeAt(file, st, ws, i + 1) == Need && Running(file, st, ws, i + 2);
        TwoGrantsSuffice(file, st1, ws(i), ws(i + 1), ws(i + 2));
        k := i + 2;
      }
    }
  }

  /** So the reading ends. */
  lemma {:induction false} RunningEnds(file: seq<byte>, st: State, ws: nat -> Input, i: nat) returns (n: nat)
    requires st.Valid() && Granting(file, st, ws) && Running(file, st, ws, i)
    ensures Running(file, st, ws, n) && Terminal(OutcomeAt(file, st, ws, n))
    decreases Remaining(file, StateAt(file, st, ws, i)).0, Remaining(file, StateAt(file, st, ws, i)).1
  {
    hide Sufficient, Granting, Advance, Remaining;
    var k := MovesSoon(file, st, ws, i);
    if Terminal(OutcomeAt(file, st, ws, k)) {
      n := k;
    } else {
      AdvanceIsProgress(file, StateAt(file, st, ws, k));
      n := RunningEnds(file, st, ws, k + 1);
    }
  }

  lemma {:induction false} GrantingShows(file: seq<byte>, st: State, ws: nat -> Input)
    requires st.Valid() && Granting(file, st, ws)
    ensures forall i: nat :: Shows(file, ws(i))
  {
    hide Shows, Answers, Running;
  }

  lemma {:induction false} FedSteps(file: seq<byte>, st: State, w: Input)
    requires st.Valid() && Shows(file, w)
    ensures StepOf(file, st, w, Fed(file, st, w).0, Fed(file, st, w).1)
  {
    hide Sufficient, Advance, Shows;
    var (out, st1) := Fed(file, st, w);
    assert Stepped(file, st, w, out, st1, [RequestFor(st, w)]);
  }

  lemma {:induction false} StepAt(file: seq<byte>, st: State, ws: nat -> Input, i: nat)
    requires st.Valid() && Shows(file, ws(i))
    ensures StateAt(file, st, ws, 0) == st
    ensures StepOf(file, StateAt(file, st, ws, i), ws(i), OutcomeAt(file, st, ws, i), StateAt(file, st, ws, i + 1))
  {
    hide Fed, StepOf, Shows;
    FedSteps(file, StateAt(file, st, ws, i), ws(i));
  }

  /**
   A driver that grants every request is a schedule that ends; so any two of them, from
   one state, see the same events and the same end.
   */
  lemma {:induction false} GrantedSchedulesEnd(file: seq<byte>, st: State, ws: nat -> Input) returns (n: nat)
    requires st.Valid() && Granting(file, st, ws)
    ensures
      var states := seq(n + 2, i requires 0 <= i < n + 2 => StateAt(file, st, ws, i));
      var outs := seq(n + 1, i requires 0 <= i < n + 1 => OutcomeAt(file, st, ws, i));
      && states[0] == st && Schedule(file, states, seq(n + 1, i requires 0 <= i < n + 1 => ws(i)), outs)
      && TerminalOf(outs).Some?
  {
    hide Sufficient, Advance, Shows, Terminal, StepOf, Fed, Granting, StateAt, OutcomeAt;
    GrantingShows(file, st, ws);
    n := RunningEnds(file, st, ws, 0);
    StepAt(file, st, ws, 0);
    forall i: nat | i <= n
      ensures StepOf(file, StateAt(file, st, ws, i), ws(i), OutcomeAt(file, st, ws, i), StateAt(file, st, ws, i + 1))
    {
      StepAt(file, st, ws, i);
    }
  }
}
