/** A whole session, from its first byte to the event that aborts the program. */
module SessionAbort {
  import opened Bytes
  import opened States
  import opened AuthUtils
  import opened Relay
  import Connect
  import opened Session
  import opened Negotiation
  import Hello
  import Request
  import RelayRuns
  import HalfClose
  import SessionRelay

  /** The run leads from `s` to `t`. */
  ghost predicate Leads(s: Session, run: seq<Event>, t: Session) {
    LegalRun(s, run) && StateAt(s, run, |run|) == t
  }

  ghost predicate Reaches(s: Session, t: Session) {
    exists run :: Leads(s, run, t)
  }

  /** The first event of a run, and the rest of it. */
  lemma {:induction false} LeadsTail(s: Session, run: seq<Event>, t: Session)
    requires run != [] && Leads(s, run, t)
    ensures Legal(s, run[0]) && Step(s, run[0]).Alive? && Leads(Step(s, run[0]).after, run[1..], t)
  {
  }

  lemma {:induction false} LeadsCons(s: Session, e: Event, rest: seq<Event>, t: Session)
    requires Legal(s, e) && Step(s, e).Alive? && Leads(Step(s, e).after, rest, t)
    ensures Leads(s, [e] + rest, t)
  {
    assert ([e] + rest)[1..] == rest;
  }

  /** One more event at the end of a run. */
  lemma {:induction false} LeadsOn(s: Session, run: seq<Event>, t: Session, e: Event)
    requires Leads(s, run, t) && Legal(t, e) && Step(t, e).Alive?
    ensures Leads(s, run + [e], Step(t, e).after)
    decreases |run|
  {
    if run == [] {
      LeadsCons(t, e, [], Step(t, e).after);
      assert [e] + [] == run + [e];
    } else {
      LeadsTail(s, run, t);
      LeadsOn(Step(s, run[0]).after, run[1..], t, e);
      LeadsCons(s, run[0], run[1..] + [e], Step(t, e).after);
      assert [run[0]] + (run[1..] + [e]) == run + [e];
    }
  }

  lemma {:induction false} ReachesOn(s: Session, t: Session, e: Event)
    requires Reaches(s, t) && Legal(t, e) && Step(t, e).Alive?
    ensures Reaches(s, Step(t, e).after)
  {
    var run :| Leads(s, run, t);
    LeadsOn(s, run, t, e);
  }

  lemma {:induction false} DeliverIsReached(s: Session, t: Session, env: Env, b: seq<Byte>, i: nat)
    requires Reaches(s, t)
    ensures Reaches(s, Deliver(t, env, b, i))
    decreases |b| - i
  {
    if i < |b| {
      ArrivalIsReached(s, t, env, [b[i]]);
      DeliverIsReached(s, Arrives(t, env, [b[i]]), env, b, i + 1);
    }
  }

  lemma {:induction false} ArrivalIsReached(s: Session, t: Session, env: Env, chunk: seq<Byte>)
    requires Reaches(s, t)
    ensures Reaches(s, Arrives(t, env, chunk))
  {
    var e := Incoming(env, chunk);
    if Legal(t, e) && Step(t, e).Alive? {
      ReachesOn(s, t, e);
    }
  }

  /** The events of the session for those of a relay. */
  function SessionEvent(env: Env, re: RelayRuns.Event): Event {
    match re
    case Readable(side, recv, again) => Event(side, true, env.(recv := recv, errnoAgain := again))
    case Writable(side, send, again) => Event(side, false, env.(send := send, errnoAgain := again))
  }

  /** A session that forwards to a destination. */
  ghost predicate Forwards(t: Session) {
    t.current == Some(FORWARDING) && !t.freed && t.conn.destFd != -1
  }

  lemma {:induction false} RelayEventIsLegal(t: Session, env: Env, re: RelayRuns.Event)
    requires Forwards(t)
    requires RelayRuns.Legal(SessionRelay.View(t), re) && HalfClose.Dispatched(SessionRelay.View(t), re)
    ensures Legal(t, SessionEvent(env, re)) && SessionRelay.EofIsPermanent(t, SessionEvent(env, re))
  {
  }

  lemma {:induction false} RelayEventDoes(t: Session, env: Env, re: RelayRuns.Event)
    requires Forwards(t) && RelayRuns.Legal(SessionRelay.View(t), re) && Legal(t, SessionEvent(env, re))
    requires SessionRelay.EofIsPermanent(t, SessionEvent(env, re))
    ensures var o := Step(t, SessionEvent(env, re));
            && o.Alive? && o.after.current.Some? && SessionRelay.View(o.after) == RelayRuns.Step(SessionRelay.View(t), re)
            && o.after.conn == t.conn
  {
    ForwardingIsRelaying(t, SessionEvent(env, re));
  }

  lemma {:induction false} RelayEventIsReached(s: Session, t: Session, env: Env, re: RelayRuns.Event) returns (u: Session)
    requires Reaches(s, t) && Forwards(t)
    requires RelayRuns.Legal(SessionRelay.View(t), re) && HalfClose.Dispatched(SessionRelay.View(t), re)
    ensures Reaches(s, u) && u.current.Some? && SessionRelay.View(u) == RelayRuns.Step(SessionRelay.View(t), re)
    ensures u.conn == t.conn
  {
    var e := SessionEvent(env, re);
    RelayEventIsLegal(t, env, re);
    RelayEventDoes(t, env, re);
    ReachesOn(s, t, e);
    u := Step(t, e).after;
  }

  /** Every run of the relay that the selector can dispatch is one of a session that forwards. */
  lemma {:induction false} RelayRunIsReached(s: Session, t: Session, env: Env, run: seq<RelayRuns.Event>) returns (u: Session)
    requires Reaches(s, t) && Forwards(t)
    requires HalfClose.DispatchedRun(SessionRelay.View(t), run) && RelayRuns.LegalRun(SessionRelay.View(t), run)
    ensures Reaches(s, u) && u.current.Some? && SessionRelay.View(u) == RelayRuns.End(SessionRelay.View(t), run)
    ensures u.conn == t.conn
    decreases |run|
  {
    u := t;
    if run != [] {
      u := RelayEventIsReached(s, t, env, run[0]);
      if run[1..] != [] {
        u := RelayRunIsReached(s, u, env, run[1..]);
      }
    }
  }

  /** An environment in which a connection is accepted at once, on descriptor `fd`. */
  function Calm(fd: int): Env {
    Env(RecvFailed, SendFailed, true, false, [], AcceptedList([0], {}), false, DnsInProgress,
        Connect.Call(Connect.NoError, [Connect.Connected(fd)], {}), NoName)
  }

  /** A request to connect to an IPv4 address. */
  function ConnectRequest(addr: seq<Byte>, port: seq<Byte>): seq<Byte> {
    [5, 1, 0, 1] + addr + port
  }

  /** A client that offers no authentication is let in. */
  lemma {:induction false} RequestIsReached(fd: int) returns (t: Session)
    ensures Reaches(Start, t) && Inv(t) && t.current == Some(REQUEST_READ)
    ensures t.slot.request == Request.Start
  {
    var s, env := Start, Calm(fd);
    assert Leads(s, [], s);
    t := Deliver(s, env, Greeting([0]));
    DeliverIsReached(s, s, env, Greeting([0]), 0);
    GreetingIsAnswered(env, [0]);
    Hello.SelectsLargestCommon(env.accepted, [0]);
    AnswerIsReached(s, t, env);
    t := Answered(t, env);
  }

  /** And a session that reads a request for an IPv4 address connects to it. */
  lemma {:induction false} ConnectIsReached(fd: int, addr: seq<Byte>, port: seq<Byte>) returns (t: Session)
    requires |addr| == 4 && |port| == 2
    ensures Reaches(Start, t) && Inv(t) && t.current == Some(DEST_CONNECT)
    ensures t.conn.destFd == -1 && t.conn.destAddr != []
  {
    var s := RequestIsReached(fd);
    var b := ConnectRequest(addr, port);
    t := Arrives(s, Calm(fd), b);
    ArrivalIsReached(Start, s, Calm(fd), b);
    ChunkArrives(s, Calm(fd), b);
    Request.RequestDecides(b);
  }

  lemma {:induction false} AnswerIsReached(s: Session, t: Session, env: Env)
    requires Reaches(s, t)
    ensures Reaches(s, Answered(t, env))
  {
    var e := Event(ClientSide, false, env.(replySent := true));
    if Legal(t, e) && Step(t, e).Alive? {
      ReachesOn(s, t, e);
    }
  }

  lemma {:induction false} ConnectionIsMade(t: Session, fd: int)
    requires Inv(t) && t.current == Some(DEST_CONNECT) && t.conn.destFd == -1 && t.conn.destAddr != []
    requires Connect.Registers({}, fd)
    ensures var e := Event(ClientSide, false, Calm(fd));
            && Legal(t, e) && Step(t, e).Alive?
            && var s := Step(t, e).after;
               s.current == Some(REQUEST_WRITE) && s.conn.destFd == fd && s.slot.RequestParser? && s.slot.replyStatus == 0
  {
  }

  lemma {:induction false} ConnectionIsReported(s: Session, fd: int)
    requires Inv(s) && s.current == Some(REQUEST_WRITE) && s.conn.destFd == fd && fd != -1 && s.slot.replyStatus == 0
    ensures var e := Event(ClientSide, false, Calm(fd));
            && Legal(s, e) && Step(s, e).Alive?
            && var u := Step(s, e).after;
               u.current == Some(FORWARDING) && !u.freed && u.conn.destFd == fd && u.relay == Setup(MAX_BUFFER)
  {
  }

  /** From there the connection is made and reported, and the session forwards. */
  lemma {:induction false} ForwardingIsReached(fd: int, t: Session) returns (u: Session)
    requires Reaches(Start, t) && Inv(t) && t.current == Some(DEST_CONNECT)
    requires t.conn.destFd == -1 && t.conn.destAddr != [] && Connect.Registers({}, fd)
    ensures Reaches(Start, u) && u.current == Some(FORWARDING) && !u.freed
    ensures u.conn.destFd == fd && u.relay == Setup(MAX_BUFFER)
  {
    var e := Event(ClientSide, false, Calm(fd));
    var s1 := Step(t, e).after;
    ConnectionIsMade(t, fd);
    ReachesOn(Start, t, e);
    StepKeepsInv(t, e);
    ConnectionIsReported(s1, fd);
    u := Step(s1, e).after;
    ReachesOn(Start, s1, e);
  }

  /**
   * For any address a client asks for and any byte `x` of an answer, a run of a whole session whose client ends its
   * output before the answer comes to an event on which the program aborts, with the answer still in the buffer.
   */
  lemma {:induction false} AnswerAborts(fd: int, addr: seq<Byte>, port: seq<Byte>, x: Byte)
    returns (run: seq<Event>, e: Event)
    requires |addr| == 4 && |port| == 2 && Connect.Registers({}, fd)
    ensures LegalRun(Start, run) && Legal(StateAt(Start, run, |run|), e)
    ensures var s := StateAt(Start, run, |run|);
            Step(s, e).Aborted? && s.current == Some(DONE) && s.relay.destinyBuffer.bytes == [x]
  {
    var t := ConnectIsReached(fd, addr, port);
    t := ForwardingIsReached(fd, t);
    HalfClose.HalfCloseStrandsTheAnswer(x);
    t := RelayRunIsReached(Start, t, Calm(fd), HalfClose.HalfCloseRun(x));
    run :| Leads(Start, run, t);
    e := Event(RemoteSide, true, Calm(fd));
    DoneAborts(t, fd);
  }

  /** In DONE there is no handler for a descriptor that still waits for input. */
  lemma {:induction false} DoneAborts(t: Session, fd: int)
    requires t.current == Some(DONE) && !t.freed && t.conn.destFd != -1 && t.relay.destInterest.read
    ensures var e := Event(RemoteSide, true, Calm(fd)); Legal(t, e) && Step(t, e).Aborted?
  {
  }
}
