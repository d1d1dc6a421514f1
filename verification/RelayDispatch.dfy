/** The rounds of the selector over the two descriptors of a relay, src/lib/selector/selector.c on src/server/forwarding.c. */
module RelayDispatch {
  import opened States
  import opened Relay
  import opened RelayRuns
  import opened HalfClose
  import Selector

  /**
   * One round: the side with the lower descriptor, the sides that `select` found readable and writable, and the events
   * of the lower and then of the higher descriptor, each with at most one read and one write.
   */
  datatype Round = Round(low: Side, readable: set<Side>, writable: set<Side>,
                         read1: seq<Event>, write1: seq<Event>, read2: seq<Event>, write2: seq<Event>)

  /** `select` reports only descriptors with the interest, and always those whose input has ended. */
  predicate Selected(s: Session, readable: set<Side>, writable: set<Side>) {
    forall side: Side ::
      && (side in readable ==> s.relay.InterestOf(side).read)
      && (side in writable ==> s.relay.InterestOf(side).write)
      && (s.relay.Closed(side) && s.relay.InterestOf(side).read ==> side in readable)
  }

  /** The read handler runs exactly when the side was found readable and the interest is still there. */
  predicate Reads(s: Session, side: Side, readable: set<Side>, es: seq<Event>) {
    if s.state == FORWARDING && side in readable && s.relay.InterestOf(side).read then
      |es| == 1 && es[0].Readable? && es[0].side == side && Legal(s, es[0])
      && (s.relay.Closed(side) ==> AtEnd(es[0].recv, es[0].errnoAgain))
    else es == []
  }

  /** And so does the write handler. */
  predicate Writes(s: Session, side: Side, writable: set<Side>, es: seq<Event>) {
    if s.state == FORWARDING && side in writable && s.relay.InterestOf(side).write then
      |es| == 1 && es[0].Writable? && es[0].side == side && Legal(s, es[0])
    else es == []
  }

  /** The session after at most one event. */
  function Then(s: Session, es: seq<Event>): Session
    requires es != [] ==> Legal(s, es[0])
  {
    if es == [] then s else Step(s, es[0])
  }

  /** The turn of one descriptor. */
  predicate Turn(s: Session, side: Side, readable: set<Side>, writable: set<Side>, rs: seq<Event>, ws: seq<Event>) {
    Reads(s, side, readable, rs) && Writes(Then(s, rs), side, writable, ws)
  }

  function AfterTurn(s: Session, side: Side, readable: set<Side>, writable: set<Side>, rs: seq<Event>, ws: seq<Event>): Session
    requires Turn(s, side, readable, writable, rs, ws)
  {
    Then(Then(s, rs), ws)
  }

  /** A round is two turns, the lower descriptor first, on what `select` found before both. */
  predicate IsRound(s: Session, r: Round) {
    && Selected(s, r.readable, r.writable)
    && Turn(s, r.low, r.readable, r.writable, r.read1, r.write1)
    && Turn(AfterTurn(s, r.low, r.readable, r.writable, r.read1, r.write1), Other(r.low), r.readable, r.writable, r.read2, r.write2)
  }

  function AfterRound(s: Session, r: Round): Session
    requires IsRound(s, r)
  {
    var s1 := AfterTurn(s, r.low, r.readable, r.writable, r.read1, r.write1);
    AfterTurn(s1, Other(r.low), r.readable, r.writable, r.read2, r.write2)
  }

  predicate AreRounds(s: Session, rounds: seq<Round>)
    decreases |rounds|
  {
    rounds == [] || (IsRound(s, rounds[0]) && AreRounds(AfterRound(s, rounds[0]), rounds[1..]))
  }

  function AfterRounds(s: Session, rounds: seq<Round>): Session
    requires AreRounds(s, rounds)
    decreases |rounds|
  {
    if rounds == [] then s else AfterRounds(AfterRound(s, rounds[0]), rounds[1..])
  }

  /** A buffer whose side has ended its input has room, so its read handler always gets to the end of the input. */
  ghost predicate RoomInv(s: Session) {
    s.state == FORWARDING ==> forall side :: s.relay.Closed(side) ==> s.relay.From(side).CanWrite()
  }

  ghost predicate Keeps(s: Session) {
    SessionInv(s) && RoomInv(s)
  }

  lemma {:induction false} StepKeepsRoom(s: Session, e: Event)
    requires RelayRuns.Inv(s) && RoomInv(s) && Legal(s, e)
    ensures RoomInv(Step(s, e))
  {
    assert DirectionInv(s.relay, ClientSide) && DirectionInv(s.relay, RemoteSide);
  }

  /** When a side at its end is read, its interests are withdrawn: the rest of the round does not write to it. */
  lemma {:induction false} ReadAtEndSilences(s: Session, e: Event)
    requires Keeps(s) && Legal(s, e) && e.Readable? && s.relay.Closed(e.side) && AtEnd(e.recv, e.errnoAgain)
    ensures Step(s, e).state == FORWARDING ==> Step(s, e).relay.InterestOf(e.side) == OP_NOOP
  {
  }

  /** The side may be written to in its turn: it is not at its end, or the turn has been, or will be, a read. */
  ghost predicate Safe(s: Session, side: Side, readable: set<Side>, writable: set<Side>) {
    s.state == FORWARDING && s.relay.Closed(side) ==> side in readable || side !in writable
  }

  /** The turn of a side keeps what dispatched events keep. */
  lemma {:induction false} TurnKeeps(s: Session, side: Side, readable: set<Side>, writable: set<Side>,
                                     rs: seq<Event>, ws: seq<Event>)
    requires Keeps(s) && Safe(s, side, readable, writable) && Turn(s, side, readable, writable, rs, ws)
    ensures Keeps(AfterTurn(s, side, readable, writable, rs, ws))
  {
    var s1 := Then(s, rs);
    if rs != [] {
      StepKeeps(s, rs[0]);
      StepKeepsRoom(s, rs[0]);
    }
    if ws != [] {
      TurnWritesToOpenSide(s, side, readable, writable, rs, ws);
      StepKeeps(s1, ws[0]);
      StepKeepsRoom(s1, ws[0]);
    }
  }

  /** A write in a turn goes to a side that has not ended its output. */
  lemma {:induction false} TurnWritesToOpenSide(s: Session, side: Side, readable: set<Side>, writable: set<Side>,
                                                rs: seq<Event>, ws: seq<Event>)
    requires Keeps(s) && Safe(s, side, readable, writable) && Turn(s, side, readable, writable, rs, ws)
    requires ws != []
    ensures !Then(s, rs).relay.Closed(side)
  {
    assert SideInv(s.relay, FORWARDING, side);
    if rs != [] && s.relay.Closed(side) {
      ReadAtEndSilences(s, rs[0]);
    }
  }

  /** Only a side's own events end its input. */
  lemma {:induction false} OtherStaysOpen(s: Session, e: Event, b: Side)
    requires Legal(s, e) && e.side != b && Step(s, e).state == FORWARDING
    ensures Step(s, e).relay.Closed(b) == s.relay.Closed(b)
  {
  }

  /** What the turn of the lower descriptor leaves for the other one. */
  lemma {:induction false} SecondTurnIsSafe(s: Session, r: Round)
    requires Keeps(s) && IsRound(s, r)
    ensures Safe(AfterTurn(s, r.low, r.readable, r.writable, r.read1, r.write1), Other(r.low), r.readable, r.writable)
  {
    var b := Other(r.low);
    assert s.state == FORWARDING ==> SideInv(s.relay, FORWARDING, b);
    assert Selected(s, r.readable, r.writable);
    var s1 := Then(s, r.read1);
    if r.read1 != [] && s1.state == FORWARDING {
      OtherStaysOpen(s, r.read1[0], b);
    }
    if r.write1 != [] && Then(s1, r.write1).state == FORWARDING {
      OtherStaysOpen(s1, r.write1[0], b);
    }
  }

  lemma {:induction false} RoundKeeps(s: Session, r: Round)
    requires Keeps(s) && IsRound(s, r)
    ensures Keeps(AfterRound(s, r))
  {
    assert s.state == FORWARDING ==> SideInv(s.relay, FORWARDING, r.low);
    TurnKeeps(s, r.low, r.readable, r.writable, r.read1, r.write1);
    SecondTurnIsSafe(s, r);
    var s1 := AfterTurn(s, r.low, r.readable, r.writable, r.read1, r.write1);
    TurnKeeps(s1, Other(r.low), r.readable, r.writable, r.read2, r.write2);
  }

  lemma {:induction false} RoundsKeep(s: Session, rounds: seq<Round>)
    requires Keeps(s) && AreRounds(s, rounds)
    ensures Keeps(AfterRounds(s, rounds))
    decreases |rounds|
  {
    if rounds != [] {
      RoundKeeps(s, rounds[0]);
      RoundsKeep(AfterRound(s, rounds[0]), rounds[1..]);
    }
  }

  lemma {:induction false} StartKeeps(cap: nat)
    requires cap > 0
    ensures Keeps(Start(cap))
  {
    assert Start(cap).relay.log == [];
  }

  /** In any rounds of the selector, a side that has ended its own output is never sent another byte. */
  lemma {:induction false} RoundsNeverSendToHalfClosed(cap: nat, rounds: seq<Round>)
    requires cap > 0 && AreRounds(Start(cap), rounds)
    ensures SilentAfterEof(AfterRounds(Start(cap), rounds).relay.log)
  {
    StartKeeps(cap);
    RoundsKeep(Start(cap), rounds);
  }

  /** So what comes late for such a side is never all delivered, and a session without an error is then never freed. */
  lemma {:induction false} RoundsStrandLateInput(cap: nat, rounds: seq<Round>, s: Side)
    requires cap > 0 && AreRounds(Start(cap), rounds) && Late(AfterRounds(Start(cap), rounds).relay.log, s)
    ensures var end := AfterRounds(Start(cap), rounds);
            !AllDelivered(end.relay.log) && (end.state != ERROR ==> !end.freed)
  {
    StartKeeps(cap);
    RoundsKeep(Start(cap), rounds);
    LateIsStranded(AfterRounds(Start(cap), rounds), s);
  }

  /** The two descriptors of the session. */
  datatype Fds = Fds(client: int, remote: int) {
    function Of(side: Side): int { if side.ClientSide? then client else remote }

    predicate Valid() {
      client != remote && !Selector.InvalidFd(client) && !Selector.InvalidFd(remote)
    }
  }

  /** The selector has both descriptors with the interests of the relay, or neither once the session is freed. */
  predicate Shows(t: Selector.Table, s: Session, fds: Fds) {
    ShowsSide(t, s, fds, ClientSide) && ShowsSide(t, s, fds, RemoteSide)
  }

  predicate ShowsSide(t: Selector.Table, s: Session, fds: Fds, side: Side) {
    if s.freed then fds.Of(side) !in t
    else fds.Of(side) in t && t[fds.Of(side)].interest == s.relay.InterestOf(side)
  }

  /** What a handler asks of the selector, in effect: the interests it leaves, or to forget the session. */
  function Asks(s: Session, fds: Fds): seq<Selector.Op> {
    if s.freed then [Selector.Unregister(fds.client), Selector.Unregister(fds.remote)]
    else [Selector.SetInterest(fds.client, s.relay.clientInterest), Selector.SetInterest(fds.remote, s.relay.destInterest)]
  }

  lemma {:induction false} AsksShow(t: Selector.Table, s: Session, s': Session, fds: Fds)
    requires fds.Valid() && Shows(t, s, fds) && !s.freed
    ensures Shows(Selector.ApplyAll(t, Asks(s', fds)), s', fds)
  {
    var ops := Asks(s', fds);
    var t1 := Selector.Apply(t, ops[0]).0;
    assert ops[1..] == [ops[1]] && [ops[1]][1..] == [];
    assert Selector.ApplyAll(t1, [ops[1]]) == Selector.ApplyAll(Selector.Apply(t1, ops[1]).0, []);
  }

  /** The descriptors of some sides. */
  ghost predicate ReadyFds(fds: Fds, ready: set<int>, sides: set<Side>) {
    forall side: Side :: fds.Of(side) in ready <==> side in sides
  }

  /**
   * The turns are those of the selector: with handlers that do what the relay does, its loop over the items dispatches
   * for a descriptor of the session exactly the events of the turn of that side. A session in DONE that is not freed is
   * set apart, because there the next dispatch aborts the program.
   */
  lemma {:induction false} TurnIsIteration(t: Selector.Table, s: Session, fds: Fds, side: Side, ready: set<int>, wready: set<int>,
                                           readable: set<Side>, writable: set<Side>, rs: seq<Event>, ws: seq<Event>,
                                           script: (int, bool) -> seq<Selector.Op>)
    requires fds.Valid() && Shows(t, s, fds) && s.state == FORWARDING && !s.freed
    requires ReadyFds(fds, ready, readable) && ReadyFds(fds, wready, writable)
    requires Turn(s, side, readable, writable, rs, ws) && Then(s, rs).freed == (Then(s, rs).state != FORWARDING)
    requires script(fds.Of(side), true) == Asks(Then(s, rs), fds) && script(fds.Of(side), false) == Asks(Then(Then(s, rs), ws), fds)
    ensures var (t', log) := Selector.IterateItem(t, fds.Of(side), ready, wready, script);
            var fd, data := fds.Of(side), t[fds.Of(side)].data;
            && Shows(t', Then(Then(s, rs), ws), fds)
            && log == (if rs != [] then [Selector.Dispatch(fd, true, data)] else [])
                      + (if ws != [] then [Selector.Dispatch(fd, false, data)] else [])
  {
    var s1 := Then(s, rs);
    AsksShow(t, s, s1, fds);
    var t1 := if rs != [] then Selector.ApplyAll(t, Asks(s1, fds)) else t;
    assert Shows(t1, s1, fds);
    if ws != [] {
      AsksShow(t1, s1, Then(s1, ws), fds);
    }
  }
}
