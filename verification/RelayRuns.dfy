/** Every run of the relay: what is delivered, when output is shut, when the session is freed. */
module RelayRuns {
  import opened Bytes
  import opened States
  import opened Relay

  /** A descriptor found ready, with what the socket call does. */
  datatype Event =
    | Readable(side: Side, recv: Recv, errnoAgain: bool)
    | Writable(side: Side, send: Send, errnoAgain: bool)

  /** The relay, the state of the session, and whether it has been freed. */
  datatype Session = Session(relay: Relay, state: ClientState, freed: bool)

  function Start(cap: nat): Session {
    Session(Setup(cap), FORWARDING, false)
  }

  /** The arrival of the next state: `end_connection` for DONE, `error_handler` for ERROR. */
  function Arrive(r: Relay, next: ClientState): Session {
    if next == DONE then Session(r, DONE, r.Finished())
    else if next == ERROR then Session(Discard(r), ERROR, Discard(r).Finished())
    else Session(r, next, false)
  }

  /** The socket calls keep their contract, and the end of input is permanent. */
  predicate Legal(s: Session, e: Event) {
    s.state == FORWARDING &&
    match e
    case Readable(side, recv, _) =>
      RecvFits(s.relay, side, recv) && (recv.Data? && s.relay.From(side).CanWrite() ==> !s.relay.Closed(side))
    case Writable(side, send, _) => SendFits(s.relay, side, send)
  }

  function Step(s: Session, e: Event): Session
    requires Legal(s, e)
  {
    var (r, next) :=
      match e
      case Readable(side, recv, errnoAgain) => OnReadable(s.relay, side, recv, errnoAgain)
      case Writable(side, send, errnoAgain) => OnWritable(s.relay, side, send, errnoAgain);
    Arrive(r, next)
  }

  predicate LegalRun(s: Session, run: seq<Event>)
    decreases |run|
  {
    run == [] || (Legal(s, run[0]) && LegalRun(Step(s, run[0]), run[1..]))
  }

  function End(s: Session, run: seq<Event>): Session
    requires LegalRun(s, run)
    decreases |run|
  {
    if run == [] then s else End(Step(s, run[0]), run[1..])
  }

  /** Every byte received from a side so far. */
  function BytesFrom(log: seq<Io>, s: Side): seq<Byte> {
    if log == [] then []
    else
      var n := |log| - 1;
      BytesFrom(log[..n], s) + if log[n].Received? && log[n].from == s then log[n].bytes else []
  }

  /** Every byte sent to a side so far. */
  function BytesTo(log: seq<Io>, s: Side): seq<Byte> {
    if log == [] then []
    else
      var n := |log| - 1;
      BytesTo(log[..n], s) + if log[n].SentTo? && log[n].to == s then log[n].bytes else []
  }

  /** Output is shut only after all there will ever be has been sent, and nothing is sent afterwards. */
  ghost predicate CleanShutdowns(log: seq<Io>) {
    forall i, s :: 0 <= i < |log| && log[i] == ShutWr(s) ==>
      && ReceivedEof(Other(s)) in log[..i]
      && BytesTo(log[..i], s) == BytesFrom(log, Other(s))
      && forall j :: i <= j < |log| ==> !(log[j].SentTo? && log[j].to == s)
  }

  /** In one direction, what was received is what was sent followed by what is buffered. */
  ghost predicate Conserved(r: Relay, s: Side) {
    BytesFrom(r.log, s) == BytesTo(r.log, Other(s)) + r.From(s).bytes
  }

  /** What every run keeps about the direction from `s` to the other side. */
  ghost predicate DirectionInv(r: Relay, s: Side) {
    && r.From(s).Valid() && r.From(s).cap > 0
    && Conserved(r, s)
    && (r.Closed(s) <==> ReceivedEof(s) in r.log)
    && (ShutWr(Other(s)) in r.log ==> r.Closed(s) && r.From(s).bytes == [])
  }

  ghost predicate RelayInv(r: Relay) {
    DirectionInv(r, ClientSide) && DirectionInv(r, RemoteSide) && CleanShutdowns(r.log)
  }

  ghost predicate Inv(s: Session) {
    match s.state
    case FORWARDING => RelayInv(s.relay) && !s.freed && !(s.relay.clientClosed && s.relay.destClosed)
    case DONE => RelayInv(s.relay) && s.relay.clientClosed && s.relay.destClosed && s.freed == s.relay.Finished()
    case ERROR => s.freed && CleanShutdowns(s.relay.log)
                  && forall side :: BytesTo(s.relay.log, Other(side)) <= BytesFrom(s.relay.log, side)
    case _ => false
  }

  /** One more entry in the log. */
  lemma {:induction false} LogAppend(log: seq<Io>, e: Io, s: Side)
    ensures BytesFrom(log + [e], s)
         == if e.Received? && e.from == s then BytesFrom(log, s) + e.bytes else BytesFrom(log, s)
    ensures BytesTo(log + [e], s) == if e.SentTo? && e.to == s then BytesTo(log, s) + e.bytes else BytesTo(log, s)
    ensures forall x :: x in log + [e] <==> x in log || x == e
  {
    assert (log + [e])[..|log|] == log;
    assert BytesFrom(log, s) + [] == BytesFrom(log, s);
    assert BytesTo(log, s) + [] == BytesTo(log, s);
  }

  /** A new entry leaves the shutdowns clean when it is no input for, and no output on, a side already shut. */
  lemma {:induction false} CleanAppend(log: seq<Io>, e: Io)
    requires CleanShutdowns(log)
    requires e.Received? ==> ShutWr(Other(e.from)) !in log
    requires e.SentTo? ==> ShutWr(e.to) !in log
    requires e.ShutWr? ==> ReceivedEof(Other(e.to)) in log && BytesTo(log, e.to) == BytesFrom(log, Other(e.to))
    ensures CleanShutdowns(log + [e])
  {
    var log' := log + [e];
    forall i, s | 0 <= i < |log'| && log'[i] == ShutWr(s)
      ensures ReceivedEof(Other(s)) in log'[..i]
      ensures BytesTo(log'[..i], s) == BytesFrom(log', Other(s))
      ensures forall j :: i <= j < |log'| ==> !(log'[j].SentTo? && log'[j].to == s)
    {
      assert log'[..i] == log[..i];
      LogAppend(log, e, Other(s));
      if i < |log| {
        assert log[i] == ShutWr(s);
      } else {
        assert log[..i] == log;
      }
    }
  }

  lemma Assoc(a: seq<Byte>, b: seq<Byte>, c: seq<Byte>)
    ensures (a + b) + c == a + (b + c)
  {
  }

  lemma SplitOff(a: seq<Byte>, b: seq<Byte>, n: nat)
    requires n <= |b|
    ensures a + b == (a + b[..n]) + b[n..]
  {
  }

  lemma ReceivedKeepsDirection(r: Relay, s: Side, bytes: seq<Byte>)
    requires DirectionInv(r, s) && !r.Closed(s) && bytes != [] && r.From(s).Write() + |bytes| <= r.From(s).cap
    ensures DirectionInv(r.WithFrom(s, r.From(s).Wrote(bytes)).Log(Received(s, bytes)), s)
  {
    LogAppend(r.log, Received(s, bytes), s);
    LogAppend(r.log, Received(s, bytes), Other(s));
    Assoc(BytesTo(r.log, Other(s)), r.From(s).bytes, bytes);
  }

  lemma ReceivedKeepsOtherDirection(r: Relay, s: Side, bytes: seq<Byte>)
    requires DirectionInv(r, Other(s))
    ensures DirectionInv(r.WithFrom(s, r.From(s).Wrote(bytes)).Log(Received(s, bytes)), Other(s))
  {
    LogAppend(r.log, Received(s, bytes), s);
    LogAppend(r.log, Received(s, bytes), Other(s));
  }

  lemma ReceivedKeeps(r: Relay, s: Side, bytes: seq<Byte>)
    requires RelayInv(r) && !r.Closed(s) && bytes != [] && r.From(s).Write() + |bytes| <= r.From(s).cap
    ensures RelayInv(r.WithFrom(s, r.From(s).Wrote(bytes)).Log(Received(s, bytes)))
  {
    ReceivedKeepsDirection(r, s, bytes);
    ReceivedKeepsOtherDirection(r, s, bytes);
    CleanAppend(r.log, Received(s, bytes));
  }

  lemma EofKeepsDirection(r: Relay, s: Side, d: Side)
    requires DirectionInv(r, d)
    ensures DirectionInv(r.WithClosed(s).Log(ReceivedEof(s)), d)
  {
    LogAppend(r.log, ReceivedEof(s), d);
    LogAppend(r.log, ReceivedEof(s), Other(d));
  }

  lemma EofKeeps(r: Relay, s: Side)
    requires RelayInv(r)
    ensures RelayInv(r.WithClosed(s).Log(ReceivedEof(s)))
  {
    EofKeepsDirection(r, s, ClientSide);
    EofKeepsDirection(r, s, RemoteSide);
    CleanAppend(r.log, ReceivedEof(s));
  }

  /** The relay after `n` bytes have gone out to `s`. */
  function AfterSending(r: Relay, s: Side, n: nat): Relay
    requires n <= |r.From(Other(s)).bytes|
  {
    var b := r.From(Other(s));
    r.WithFrom(Other(s), b.ReadOff(n)).Log(SentTo(s, b.bytes[..n]))
  }

  lemma SentKeepsDirection(r: Relay, s: Side, n: nat)
    requires DirectionInv(r, Other(s)) && 0 < n <= |r.From(Other(s)).bytes|
    ensures DirectionInv(AfterSending(r, s, n), Other(s))
  {
    var b := r.From(Other(s));
    var e := SentTo(s, b.bytes[..n]);
    LogAppend(r.log, e, s);
    LogAppend(r.log, e, Other(s));
    SplitOff(BytesTo(r.log, s), b.bytes, n);
    assert b.ReadOff(n).bytes == b.bytes[n..];
  }

  /** Sending to `s` does not touch what came from `s`. */
  lemma SentKeepsOtherDirection(r: Relay, s: Side, n: nat)
    requires DirectionInv(r, s) && 0 < n <= |r.From(Other(s)).bytes|
    ensures DirectionInv(AfterSending(r, s, n), s)
  {
    var e := SentTo(s, r.From(Other(s)).bytes[..n]);
    LogAppend(r.log, e, s);
    LogAppend(r.log, e, Other(s));
  }

  lemma SentKeeps(r: Relay, s: Side, n: nat)
    requires RelayInv(r) && 0 < n <= |r.From(Other(s)).bytes|
    ensures RelayInv(AfterSending(r, s, n))
  {
    SentKeepsDirection(r, s, n);
    SentKeepsOtherDirection(r, s, n);
    assert s == ClientSide || s == RemoteSide;
    CleanAppend(r.log, SentTo(s, r.From(Other(s)).bytes[..n]));
  }

  lemma ShutKeepsDirection(r: Relay, s: Side, d: Side)
    requires DirectionInv(r, d)
    requires d == Other(s) ==> r.Closed(d) && r.From(d).bytes == []
    ensures DirectionInv(r.Log(ShutWr(s)), d)
  {
    LogAppend(r.log, ShutWr(s), d);
    LogAppend(r.log, ShutWr(s), Other(d));
  }

  lemma ShutKeeps(r: Relay, s: Side)
    requires RelayInv(r) && r.Closed(Other(s)) && r.From(Other(s)).bytes == []
    ensures RelayInv(r.Log(ShutWr(s)))
  {
    ShutKeepsDirection(r, s, ClientSide);
    ShutKeepsDirection(r, s, RemoteSide);
    assert Conserved(r, Other(s));
    assert BytesTo(r.log, s) + [] == BytesTo(r.log, s);
    CleanAppend(r.log, ShutWr(s));
  }

  /** Interests are not part of what is kept. */
  lemma InterestKeeps(r: Relay, s: Side, i: Interest)
    requires RelayInv(r)
    ensures RelayInv(r.WithInterest(s, i))
  {
    assert forall d :: DirectionInv(r, d) ==> DirectionInv(r.WithInterest(s, i), d);
  }

  lemma ArriveKeeps(r: Relay, next: ClientState)
    requires RelayInv(r) && next in {FORWARDING, DONE, ERROR}
    requires next == FORWARDING ==> !(r.clientClosed && r.destClosed)
    requires next == DONE ==> r.clientClosed && r.destClosed
    ensures Inv(Arrive(r, next))
  {
    if next == ERROR {
      forall s
        ensures BytesTo(r.log, Other(s)) <= BytesFrom(r.log, s)
      {
        assert Conserved(r, s);
      }
    }
  }

  lemma ReadableKeeps(r: Relay, s: Side, recv: Recv, errnoAgain: bool)
    requires RelayInv(r) && RecvFits(r, s, recv) && !(r.clientClosed && r.destClosed)
    requires recv.Data? && r.From(s).CanWrite() ==> !r.Closed(s)
    ensures var (r', next) := OnReadable(r, s, recv, errnoAgain);
            && RelayInv(r') && next in {FORWARDING, DONE, ERROR}
            && (next == FORWARDING ==> !(r'.clientClosed && r'.destClosed))
            && (next == DONE ==> r'.clientClosed && r'.destClosed)
  {
    if !r.From(s).CanWrite() {
      InterestKeeps(r, s, OP_READ_WRITE);
    } else {
      match recv
      case Eof =>
        EofKeeps(r, s);
        var r1 := r.WithClosed(s).Log(ReceivedEof(s));
        InterestKeeps(r1, Other(s), OP_WRITE);
        InterestKeeps(r1.WithInterest(Other(s), OP_WRITE), s, OP_NOOP);
      case RecvFailed =>
        InterestKeeps(r, s, OP_NOOP);
      case Data(bytes) =>
        ReceivedKeeps(r, s, bytes);
        InterestKeeps(r.WithFrom(s, r.From(s).Wrote(bytes)).Log(Received(s, bytes)), Other(s), OP_READ_WRITE);
    }
  }

  lemma WritableKeeps(r: Relay, s: Side, send: Send, errnoAgain: bool)
    requires RelayInv(r) && SendFits(r, s, send) && !(r.clientClosed && r.destClosed)
    ensures var (r', next) := OnWritable(r, s, send, errnoAgain);
            RelayInv(r') && next in {FORWARDING, ERROR} && !(r'.clientClosed && r'.destClosed)
  {
    var b := r.From(Other(s));
    if !b.CanRead() {
      var r1 := if r.Closed(Other(s)) then r.Log(ShutWr(s)) else r;
      if r.Closed(Other(s)) {
        ShutKeeps(r, s);
      }
      InterestKeeps(r1, s, OP_READ);
    } else if send.SendFailed? {
      InterestKeeps(r, s, OP_NOOP);
    } else {
      var r1 := AfterSending(r, s, send.count);
      SentKeeps(r, s, send.count);
      var left := r1.From(Other(s)).CanRead();
      var r2 := if !left && r1.Closed(Other(s)) then r1.Log(ShutWr(s)) else r1;
      if !left && r1.Closed(Other(s)) {
        ShutKeeps(r1, s);
      }
      InterestKeeps(r2, s, if left then OP_READ_WRITE else OP_READ);
    }
  }

  lemma StepKeepsInv(s: Session, e: Event)
    requires Inv(s) && Legal(s, e)
    ensures Inv(Step(s, e))
  {
    match e
    case Readable(side, recv, errnoAgain) =>
      ReadableKeeps(s.relay, side, recv, errnoAgain);
      var (r', next) := OnReadable(s.relay, side, recv, errnoAgain);
      ArriveKeeps(r', next);
    case Writable(side, send, errnoAgain) =>
      WritableKeeps(s.relay, side, send, errnoAgain);
      var (r', next) := OnWritable(s.relay, side, send, errnoAgain);
      ArriveKeeps(r', next);
  }

  lemma {:induction false} RunKeepsInv(s: Session, run: seq<Event>)
    requires Inv(s) && LegalRun(s, run)
    ensures Inv(End(s, run))
    decreases |run|
  {
    if run != [] {
      StepKeepsInv(s, run[0]);
      RunKeepsInv(Step(s, run[0]), run[1..]);
    }
  }

  lemma StartHasInv(cap: nat)
    requires cap > 0
    ensures Inv(Start(cap))
  {
  }

  /**
   * In every run, in both directions, the bytes received are the bytes sent followed by the bytes in the buffer.
   * An error may drop the buffered ones, never reorder or repeat.
   */
  lemma {:induction false} NothingIsLostOrReordered(cap: nat, run: seq<Event>, side: Side)
    requires cap > 0 && LegalRun(Start(cap), run)
    ensures var s := End(Start(cap), run);
            if s.state == ERROR then BytesTo(s.relay.log, Other(side)) <= BytesFrom(s.relay.log, side)
            else BytesFrom(s.relay.log, side) == BytesTo(s.relay.log, Other(side)) + s.relay.From(side).bytes
  {
    StartHasInv(cap);
    RunKeepsInv(Start(cap), run);
    assert Conserved(End(Start(cap), run).relay, side) || End(Start(cap), run).state == ERROR;
  }

  /** In every run, output to a side is shut only after all input for it has come and gone out, and stays shut. */
  lemma {:induction false} ShutdownComesLast(cap: nat, run: seq<Event>)
    requires cap > 0 && LegalRun(Start(cap), run)
    ensures CleanShutdowns(End(Start(cap), run).relay.log)
  {
    StartHasInv(cap);
    RunKeepsInv(Start(cap), run);
  }

  /** Everything received from each side has been sent to the other. */
  ghost predicate AllDelivered(log: seq<Io>) {
    forall s :: BytesFrom(log, s) == BytesTo(log, Other(s))
  }

  /** A session that ends without an error has seen both ends close, and is freed exactly when everything was delivered. */
  lemma {:induction false} FreedExactlyWhenDelivered(cap: nat, run: seq<Event>)
    requires cap > 0 && LegalRun(Start(cap), run)
    requires End(Start(cap), run).state == DONE
    ensures var s := End(Start(cap), run);
            && ReceivedEof(ClientSide) in s.relay.log && ReceivedEof(RemoteSide) in s.relay.log
            && (s.freed <==> AllDelivered(s.relay.log))
  {
    StartHasInv(cap);
    RunKeepsInv(Start(cap), run);
    DeliveredWhenEmpty(End(Start(cap), run).relay);
  }

  lemma DeliveredWhenEmpty(r: Relay)
    requires Conserved(r, ClientSide) && Conserved(r, RemoteSide)
    ensures AllDelivered(r.log) <==> r.clientBuffer.bytes == [] && r.destinyBuffer.bytes == []
  {
    forall s
      ensures BytesFrom(r.log, s) == BytesTo(r.log, Other(s)) <==> r.From(s).bytes == []
    {
      assert Conserved(r, s);
      assert |BytesFrom(r.log, s)| == |BytesTo(r.log, Other(s))| + |r.From(s).bytes|;
    }
    assert r.From(ClientSide) == r.clientBuffer && r.From(RemoteSide) == r.destinyBuffer;
  }

  /** While forwarding, a buffer without room has something to send, so `recv` is never asked for nothing. */
  lemma {:induction false} FullBufferHasOutput(cap: nat, run: seq<Event>, side: Side)
    requires cap > 0 && LegalRun(Start(cap), run)
    requires End(Start(cap), run).state == FORWARDING
    ensures var b := End(Start(cap), run).relay.From(side); b.CanWrite() || b.CanRead()
  {
    StartHasInv(cap);
    RunKeepsInv(Start(cap), run);
    assert DirectionInv(End(Start(cap), run).relay, side);
  }
}
