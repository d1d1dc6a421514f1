/** What the two descriptors of a relay wait for, in every run: no byte and no shutdown is forgotten. */
module RelayInterests {
  import opened Bytes
  import opened States
  import opened Relay
  import opened RelayRuns

  /** There is something to do on the output of a side: bytes to send, or a shutdown that is still to come. */
  ghost predicate Owed(r: Relay, t: Side) {
    r.From(Other(t)).bytes != [] || (r.Closed(Other(t)) && ShutWr(t) !in r.log)
  }

  /**
   * A side that has not ended its input waits to be written to whenever something is owed to it, and always for
   * something: for input, or after the end of the other side's input for the shutdown.
   */
  ghost predicate Awake(r: Relay, t: Side) {
    !r.Closed(t) ==>
      && (Owed(r, t) ==> r.InterestOf(t).write)
      && (r.InterestOf(t).read || (r.InterestOf(t).write && r.Closed(Other(t))))
  }

  ghost predicate AllAwake(s: Session) {
    s.state == FORWARDING ==> Awake(s.relay, ClientSide) && Awake(s.relay, RemoteSide)
  }

  lemma {:induction false} ReadableKeepsAwake(r: Relay, s: Side, recv: Recv, again: bool)
    requires RecvFits(r, s, recv) && Awake(r, s) && Awake(r, Other(s))
    ensures var (r', next) := OnReadable(r, s, recv, again);
            next == FORWARDING ==> Awake(r', s) && Awake(r', Other(s))
  {
  }

  lemma {:induction false} WritableKeepsAwake(r: Relay, s: Side, send: Send, again: bool)
    requires SendFits(r, s, send) && Awake(r, s) && Awake(r, Other(s))
    ensures var (r', next) := OnWritable(r, s, send, again);
            next == FORWARDING ==> Awake(r', s) && Awake(r', Other(s))
  {
  }

  lemma {:induction false} StepKeepsAwake(s: Session, e: Event)
    requires AllAwake(s) && Legal(s, e)
    ensures AllAwake(Step(s, e))
  {
    match e
    case Readable(side, recv, again) => ReadableKeepsAwake(s.relay, side, recv, again);
    case Writable(side, send, again) => WritableKeepsAwake(s.relay, side, send, again);
  }

  lemma {:induction false} RunKeepsAwake(s: Session, run: seq<Event>)
    requires AllAwake(s) && LegalRun(s, run)
    ensures AllAwake(End(s, run))
    decreases |run|
  {
    if run != [] {
      StepKeepsAwake(s, run[0]);
      RunKeepsAwake(Step(s, run[0]), run[1..]);
    }
  }

  /** In every run, while forwarding, a side whose input is open waits for what is owed to it, and never for nothing. */
  lemma {:induction false} NothingOwedIsForgotten(cap: nat, run: seq<Event>, t: Side)
    requires LegalRun(Start(cap), run)
    requires End(Start(cap), run).state == FORWARDING && !End(Start(cap), run).relay.Closed(t)
    ensures var r := End(Start(cap), run).relay;
            && (r.From(Other(t)).bytes != [] ==> r.InterestOf(t).write)
            && (r.Closed(Other(t)) && ShutWr(t) !in r.log ==> r.InterestOf(t).write)
            && r.InterestOf(t) != OP_NOOP
            && (!r.Closed(Other(t)) ==> r.InterestOf(t).read)
  {
    RunKeepsAwake(Start(cap), run);
    assert Awake(End(Start(cap), run).relay, t);
  }

  /** After a side has been written to it waits for output exactly when bytes are left, and the other side as before. */
  lemma {:induction false} WritingSettlesInterest(s: Session, side: Side, send: Send, again: bool)
    requires Legal(s, Writable(side, send, again)) && Step(s, Writable(side, send, again)).state == FORWARDING
    ensures var r, r' := s.relay, Step(s, Writable(side, send, again)).relay;
            && r'.InterestOf(Other(side)) == r.InterestOf(Other(side))
            && (send.Sent? || r.From(Other(side)).bytes == [] ==>
                  r'.InterestOf(side).read && (r'.InterestOf(side).write <==> r'.From(Other(side)).bytes != []))
            && (send.SendFailed? && r.From(Other(side)).bytes != [] ==> again && r' == r)
  {
  }

  /** Input makes the other side wait for output; its end makes that side wait for nothing else, and its own for nothing. */
  lemma {:induction false} ReadingSettlesInterests(s: Session, side: Side, recv: Recv, again: bool)
    requires Legal(s, Readable(side, recv, again)) && Step(s, Readable(side, recv, again)).state == FORWARDING
    ensures var r, r' := s.relay, Step(s, Readable(side, recv, again)).relay;
            var own, other := r'.InterestOf(side), r'.InterestOf(Other(side));
            if !r.From(side).CanWrite() then own == OP_READ_WRITE && other == r.InterestOf(Other(side))
            else if recv.Data? then own == r.InterestOf(side) && other == OP_READ_WRITE
            else if recv.Eof? then own == OP_NOOP && other == OP_WRITE
            else again && r' == r
  {
  }

  /** A failure of a socket that is not to be tried again ends the session, with nothing waited for on that side. */
  lemma {:induction false} FailureEnds(s: Session, e: Event)
    requires Legal(s, e) && !e.errnoAgain
    requires match e
             case Readable(side, recv, _) => recv.RecvFailed? && s.relay.From(side).CanWrite()
             case Writable(side, send, _) => send.SendFailed? && s.relay.From(Other(side)).bytes != []
    ensures Step(s, e).state == ERROR && Step(s, e).freed && Step(s, e).relay.InterestOf(e.side) == OP_NOOP
  {
  }

  /** A write ends the relay exactly when nothing is left to come or to send, and a read when both inputs have ended. */
  lemma {:induction false} EndsExactlyWhenOver(s: Session, e: Event)
    requires Legal(s, e) && Step(s, e).state != ERROR
    ensures var r := Step(s, e).relay;
            match e
            case Writable(side, send, again) =>
              send.Sent? || s.relay.From(Other(side)).bytes == [] ==>
                (Step(s, e).state == DONE <==>
                   r.clientClosed && r.destClosed && r.clientBuffer.bytes == [] && r.destinyBuffer.bytes == [])
            case Readable(side, recv, again) =>
              Step(s, e).state == DONE <==> recv.Eof? && s.relay.From(side).CanWrite() && s.relay.Closed(Other(side))
  {
  }
}
