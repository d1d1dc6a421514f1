/** What the dispatch order of the selector does to a relay in which one side has ended its output. */
module HalfClose {
  import opened Bytes
  import opened States
  import opened Buffers
  import opened Relay
  import opened RelayRuns

  /** After the end of input `recv` reports it again, or that the connection is broken. */
  predicate AtEnd(recv: Recv, errnoAgain: bool) {
    recv == Eof || (recv == RecvFailed && !errnoAgain)
  }

  /**
   * What comes of the order of dispatch: only interests that are set, and a side at the end of its input is written to
   * only while nobody asks to read it. The rounds of the selector have this property.
   */
  predicate Dispatched(s: Session, e: Event) {
    match e
    case Readable(side, recv, again) => s.relay.InterestOf(side).read && (s.relay.Closed(side) ==> AtEnd(recv, again))
    case Writable(side, _, _) =>
      s.relay.InterestOf(side).write && !(s.relay.Closed(side) && s.relay.InterestOf(side).read)
  }

  predicate DispatchedRun(s: Session, run: seq<Event>)
    decreases |run|
  {
    run == [] || (Legal(s, run[0]) && Dispatched(s, run[0]) && DispatchedRun(Step(s, run[0]), run[1..]))
  }

  lemma {:induction false} DispatchedRunIsLegal(s: Session, run: seq<Event>)
    requires DispatchedRun(s, run)
    ensures LegalRun(s, run)
    decreases |run|
  {
    if run != [] {
      DispatchedRunIsLegal(Step(s, run[0]), run[1..]);
    }
  }

  /** Nothing is sent to a side after the end of its own output. */
  ghost predicate SilentAfterEof(log: seq<Io>) {
    forall i, j :: 0 <= i < j < |log| && log[i].ReceivedEof? && log[j].SentTo? ==> log[i].from != log[j].to
  }

  /** Something came from the other side after `s` had ended its output. */
  ghost predicate Late(log: seq<Io>, s: Side) {
    exists i, j :: 0 <= i < j < |log| && log[i] == ReceivedEof(s) && log[j].Received? && log[j].from == Other(s)
  }

  ghost predicate SideInv(r: Relay, state: ClientState, s: Side) {
    && (ReceivedEof(s) in r.log ==> r.Closed(s))
    && (state == FORWARDING && r.Closed(s) ==> r.InterestOf(s) in {OP_NOOP, OP_READ_WRITE})
    && (Late(r.log, s) ==> r.From(Other(s)).bytes != [])
  }

  ghost predicate Inv(r: Relay, state: ClientState) {
    SideInv(r, state, ClientSide) && SideInv(r, state, RemoteSide) && SilentAfterEof(r.log)
  }

  lemma LateAppend(log: seq<Io>, e: Io, s: Side)
    ensures Late(log + [e], s) ==> Late(log, s) || (ReceivedEof(s) in log && e.Received? && e.from == Other(s))
  {
    var log' := log + [e];
    if Late(log', s) {
      var i, j :| 0 <= i < j < |log'| && log'[i] == ReceivedEof(s) && log'[j].Received? && log'[j].from == Other(s);
      assert log'[i] == log[i];
      assert j < |log| ==> log'[j] == log[j];
    }
  }

  lemma SilentAppend(log: seq<Io>, e: Io)
    requires SilentAfterEof(log) && (e.SentTo? ==> ReceivedEof(e.to) !in log)
    ensures SilentAfterEof(log + [e])
  {
    var log' := log + [e];
    forall i, j | 0 <= i < j < |log'| && log'[i].ReceivedEof? && log'[j].SentTo?
      ensures log'[i].from != log'[j].to
    {
      assert log'[i] == log[i];
      assert log[i] in log;
    }
  }

  /** A step that logs nothing. */
  lemma QuietKeeps(r: Relay, state: ClientState, r': Relay, state': ClientState)
    requires Inv(r, state) && r'.log == r.log
    requires r'.clientBuffer.bytes == r.clientBuffer.bytes && r'.destinyBuffer.bytes == r.destinyBuffer.bytes
    requires r'.clientClosed == r.clientClosed && r'.destClosed == r.destClosed
    requires state' == FORWARDING ==> forall s :: r'.Closed(s) ==> r'.InterestOf(s) in {OP_NOOP, OP_READ_WRITE}
    ensures Inv(r', state')
  {
  }

  /** One more entry, for a side `s`. */
  lemma LoggedKeeps(r: Relay, state: ClientState, e: Io, r': Relay, state': ClientState, s: Side)
    requires SideInv(r, state, s) && r'.log == r.log + [e]
    requires r.Closed(s) || e == ReceivedEof(s) ==> r'.Closed(s)
    requires r.From(Other(s)).bytes != [] && ReceivedEof(s) in r.log ==> r'.From(Other(s)).bytes != []
    requires e.Received? && e.from == Other(s) ==> r'.From(Other(s)).bytes != []
    requires state' == FORWARDING && r'.Closed(s) ==> r'.InterestOf(s) in {OP_NOOP, OP_READ_WRITE}
    ensures SideInv(r', state', s)
  {
    LateAppend(r.log, e, s);
    if Late(r.log, s) {
      var i, j :| 0 <= i < j < |r.log| && r.log[i] == ReceivedEof(s) && r.log[j].Received? && r.log[j].from == Other(s);
      assert ReceivedEof(s) in r.log;
    }
  }

  lemma ReadableKeeps(r: Relay, s: Side, recv: Recv, errnoAgain: bool)
    requires Inv(r, FORWARDING) && RecvFits(r, s, recv) && (r.Closed(s) ==> AtEnd(recv, errnoAgain))
    ensures var (r', next) := OnReadable(r, s, recv, errnoAgain); Inv(r', next)
  {
    var (r', next) := OnReadable(r, s, recv, errnoAgain);
    if !r.From(s).CanWrite() || recv.RecvFailed? {
      QuietKeeps(r, FORWARDING, r', next);
    } else {
      var e := if recv.Eof? then ReceivedEof(s) else Received(s, recv.bytes);
      SilentAppend(r.log, e);
      LoggedKeeps(r, FORWARDING, e, r', next, s);
      LoggedKeeps(r, FORWARDING, e, r', next, Other(s));
    }
  }

  lemma WritableKeeps(r: Relay, s: Side, send: Send, errnoAgain: bool)
    requires Inv(r, FORWARDING) && SendFits(r, s, send) && !r.Closed(s)
    ensures var (r', next) := OnWritable(r, s, send, errnoAgain); Inv(r', next)
  {
    var (r', next) := OnWritable(r, s, send, errnoAgain);
    var b := r.From(Other(s));
    if !b.CanRead() {
      if r.Closed(Other(s)) {
        SilentAppend(r.log, ShutWr(s));
        LoggedKeeps(r, FORWARDING, ShutWr(s), r', next, s);
        LoggedKeeps(r, FORWARDING, ShutWr(s), r', next, Other(s));
      } else {
        QuietKeeps(r, FORWARDING, r', next);
      }
    } else if send.SendFailed? {
      QuietKeeps(r, FORWARDING, r', next);
    } else {
      var e := SentTo(s, b.bytes[..send.count]);
      var r1 := AfterSending(r, s, send.count);
      SilentAppend(r.log, e);
      LoggedKeeps(r, FORWARDING, e, r1, FORWARDING, s);
      LoggedKeeps(r, FORWARDING, e, r1, FORWARDING, Other(s));
      if !r1.From(Other(s)).CanRead() && r1.Closed(Other(s)) {
        SilentAppend(r1.log, ShutWr(s));
        LoggedKeeps(r1, FORWARDING, ShutWr(s), r', next, s);
        LoggedKeeps(r1, FORWARDING, ShutWr(s), r', next, Other(s));
      } else {
        QuietKeeps(r1, FORWARDING, r', next);
      }
    }
  }

  /** What came late for `s` has not all been sent. */
  ghost predicate LateIsMissing(log: seq<Io>, s: Side) {
    Late(log, s) ==> BytesFrom(log, Other(s)) != BytesTo(log, s)
  }

  ghost predicate SessionInv(s: Session) {
    && RelayRuns.Inv(s)
    && (s.state != ERROR ==> Inv(s.relay, s.state))
    && SilentAfterEof(s.relay.log)
    && LateIsMissing(s.relay.log, ClientSide) && LateIsMissing(s.relay.log, RemoteSide)
  }

  lemma LateBytesAreBuffered(r: Relay, state: ClientState, s: Side)
    requires SideInv(r, state, s) && Conserved(r, Other(s))
    ensures LateIsMissing(r.log, s)
  {
    assert |BytesFrom(r.log, Other(s))| == |BytesTo(r.log, s)| + |r.From(Other(s)).bytes|;
  }

  lemma StepKeeps(s: Session, e: Event)
    requires SessionInv(s) && Legal(s, e) && Dispatched(s, e)
    ensures SessionInv(Step(s, e))
  {
    StepKeepsInv(s, e);
    match e
    case Readable(side, recv, errnoAgain) =>
      ReadableKeeps(s.relay, side, recv, errnoAgain);
      RelayRuns.ReadableKeeps(s.relay, side, recv, errnoAgain);
      var (r, next) := OnReadable(s.relay, side, recv, errnoAgain);
      LateBytesAreBuffered(r, next, ClientSide);
      LateBytesAreBuffered(r, next, RemoteSide);
    case Writable(side, send, errnoAgain) =>
      assert SideInv(s.relay, FORWARDING, side);
      WritableKeeps(s.relay, side, send, errnoAgain);
      RelayRuns.WritableKeeps(s.relay, side, send, errnoAgain);
      var (r, next) := OnWritable(s.relay, side, send, errnoAgain);
      LateBytesAreBuffered(r, next, ClientSide);
      LateBytesAreBuffered(r, next, RemoteSide);
  }

  lemma {:induction false} RunKeeps(s: Session, run: seq<Event>)
    requires SessionInv(s) && DispatchedRun(s, run)
    ensures LegalRun(s, run) && SessionInv(End(s, run))
    decreases |run|
  {
    DispatchedRunIsLegal(s, run);
    if run != [] {
      StepKeeps(s, run[0]);
      RunKeeps(Step(s, run[0]), run[1..]);
    }
  }

  /** A side that has ended its own output is never sent another byte. */
  lemma {:induction false} HalfClosedSideIsNeverSentTo(cap: nat, run: seq<Event>)
    requires cap > 0 && DispatchedRun(Start(cap), run)
    ensures LegalRun(Start(cap), run) && SilentAfterEof(End(Start(cap), run).relay.log)
  {
    RunKeeps(Start(cap), run);
  }

  /** What comes late for such a side is not all delivered, and a session without an error is then not freed. */
  lemma LateIsStranded(end: Session, s: Side)
    requires SessionInv(end) && Late(end.relay.log, s)
    ensures !AllDelivered(end.relay.log) && (end.state != ERROR ==> !end.freed)
  {
    assert LateIsMissing(end.relay.log, s);
    assert BytesFrom(end.relay.log, Other(s)) != BytesTo(end.relay.log, Other(Other(s)));
  }

  /** A dispatched event in front of a dispatched run. */
  lemma {:induction false} RunCons(s: Session, e: Event, rest: seq<Event>)
    requires Legal(s, e) && Dispatched(s, e) && DispatchedRun(Step(s, e), rest) && LegalRun(Step(s, e), rest)
    ensures DispatchedRun(s, [e] + rest) && LegalRun(s, [e] + rest) && End(s, [e] + rest) == End(Step(s, e), rest)
  {
    assert ([e] + rest)[1..] == rest;
  }

  /** The dispatches after a client has ended its output: it is forgotten, the answer `x` comes, the end is read again. */
  function AnswerRun(x: Byte): seq<Event> {
    [Readable(RemoteSide, Data([x]), false)] + ([Readable(ClientSide, Eof, false)]
      + ([Writable(RemoteSide, SendFailed, false)] + ([Readable(RemoteSide, Eof, false)] + [])))
  }

  /** A client that ends its output before the answer arrives. */
  function HalfCloseRun(x: Byte): seq<Event> {
    [Readable(ClientSide, Eof, false)] + ([Writable(RemoteSide, SendFailed, false)] + AnswerRun(x))
  }

  /** The session between the two parts of the run. */
  function HalfClosed(): Session {
    Session(Relay(Buf(16384, 0, []), Buf(16384, 0, []), true, false, OP_NOOP, OP_READ,
                  [ReceivedEof(ClientSide), ShutWr(RemoteSide)]), FORWARDING, false)
  }

  lemma AnswerIsStranded(x: Byte)
    ensures DispatchedRun(HalfClosed(), AnswerRun(x)) && LegalRun(HalfClosed(), AnswerRun(x))
    ensures var end := End(HalfClosed(), AnswerRun(x));
            && end.state == DONE && !end.freed
            && end.relay.destinyBuffer.bytes == [x] && end.relay.destInterest == OP_READ
  {
    var e3, e4 := Readable(RemoteSide, Data([x]), false), Readable(ClientSide, Eof, false);
    var e5, e6 := Writable(RemoteSide, SendFailed, false), Readable(RemoteSide, Eof, false);
    var s3 := Step(HalfClosed(), e3);
    assert s3.relay.destinyBuffer.bytes == [x];
    var s4 := Step(s3, e4);
    var s5 := Step(s4, e5);
    RunCons(s5, e6, []);
    RunCons(s4, e5, [e6] + []);
    RunCons(s3, e4, [e5] + ([e6] + []));
    RunCons(HalfClosed(), e3, [e4] + ([e5] + ([e6] + [])));
  }

  /** Six dispatches bring that session to DONE, not freed, the answer in its buffer, a descriptor waiting in a state without handlers. */
  lemma HalfCloseStrandsTheAnswer(x: Byte)
    ensures DispatchedRun(Start(16384), HalfCloseRun(x)) && LegalRun(Start(16384), HalfCloseRun(x))
    ensures var end := End(Start(16384), HalfCloseRun(x));
            && end.state == DONE && !end.freed
            && end.relay.destinyBuffer.bytes == [x] && end.relay.destInterest == OP_READ
  {
    var e1, e2 := Readable(ClientSide, Eof, false), Writable(RemoteSide, SendFailed, false);
    var s1 := Step(Start(16384), e1);
    assert s1.relay.log == [ReceivedEof(ClientSide)];
    assert Step(s1, e2).relay.log == [ReceivedEof(ClientSide), ShutWr(RemoteSide)];
    assert Step(s1, e2) == HalfClosed();
    AnswerIsStranded(x);
    RunCons(s1, e2, AnswerRun(x));
    RunCons(Start(16384), e1, [e2] + AnswerRun(x));
  }
}
