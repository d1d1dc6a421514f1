/** What a whole session delivers, from its first event to its last. */
module SessionRelay {
  import opened Bytes
  import opened States
  import opened Relay
  import opened Session
  import RelayRuns
  import RelayInterests

  /** Once `recv` has reported the end of input on a side, it reports no more data from there. */
  predicate EofIsPermanent(s: Session, e: Event) {
    s.current == Some(FORWARDING) && e.read && e.env.recv.Data? && s.relay.From(e.side).CanWrite() ==> !s.relay.Closed(e.side)
  }

  /** The relay's view of a session. */
  function View(s: Session): RelayRuns.Session
    requires s.current.Some?
  {
    RelayRuns.Session(s.relay, s.current.value, s.freed)
  }

  ghost predicate Unused(r: Relay) {
    r.log == [] && r.clientBuffer.bytes == [] && r.destinyBuffer.bytes == []
  }

  /** Nothing has been relayed, or what has been is as the relay's own runs leave it. */
  ghost predicate Relaying(s: Session) {
    if s.current == Some(FORWARDING) then RelayRuns.Inv(View(s))
    else Unused(s.relay) || (s.current.Some? && RelayRuns.Inv(View(s)))
  }

  /** The same contents and the same history. */
  ghost predicate SameContents(r: Relay, r': Relay) {
    r'.log == r.log && r'.clientBuffer == r.clientBuffer && r'.destinyBuffer == r.destinyBuffer
  }

  lemma ReadersLeaveRelay(s: Session, st: ClientState, e: Event)
    requires SlotFits(s, st) && CallsFit(s, st, e) && st in {HELLO_READ, AUTH_READ, REQUEST_READ}
    ensures SameContents(s.relay, Handle(s, st, e).0.relay)
  {
  }

  lemma WritersLeaveRelay(s: Session, st: ClientState, e: Event)
    requires SlotFits(s, st) && CallsFit(s, st, e) && st in {HELLO_WRITE, AUTH_WRITE, REQUEST_WRITE}
    ensures SameContents(s.relay, Handle(s, st, e).0.relay)
  {
  }

  lemma LookupLeavesRelay(s: Session, e: Event)
    ensures SameContents(s.relay, Handle(s, DNS_LOOKUP, e).0.relay)
  {
  }

  lemma ConnectingLeavesRelay(s: Session, e: Event)
    ensures SameContents(s.relay, Handle(s, DEST_CONNECT, e).0.relay)
  {
  }

  lemma HandlersLeaveRelay(s: Session, st: ClientState, e: Event)
    requires SlotFits(s, st) && CallsFit(s, st, e) && st != FORWARDING
    ensures SameContents(s.relay, Handle(s, st, e).0.relay)
  {
    if st in {HELLO_READ, AUTH_READ, REQUEST_READ} {
      ReadersLeaveRelay(s, st, e);
    } else if st in {HELLO_WRITE, AUTH_WRITE, REQUEST_WRITE} {
      WritersLeaveRelay(s, st, e);
    } else if st == DNS_LOOKUP {
      LookupLeavesRelay(s, e);
    } else if st == DEST_CONNECT {
      ConnectingLeavesRelay(s, e);
    }
  }

  lemma JumpLeavesRelay(s: Session, next: ClientState)
    requires Unused(s.relay) && JumpTo(s, next).Alive?
    ensures Unused(JumpTo(s, next).after.relay)
  {
  }

  /** Before forwarding nothing is relayed. */
  lemma EarlyStepsRelayNothing(s: Session, e: Event)
    requires Inv(s) && Legal(s, e) && Step(s, e).Alive? && s.current != Some(FORWARDING)
    ensures Unused(Step(s, e).after.relay)
  {
    var s1 := HandleFirst(s);
    HandlersLeaveRelay(s1, s1.current.value, e);
    var p := Handle(s1, s1.current.value, e);
    JumpLeavesRelay(p.0, p.1);
  }

  lemma StepKeepsRelaying(s: Session, e: Event)
    requires Inv(s) && Relaying(s) && Legal(s, e) && EofIsPermanent(s, e) && Step(s, e).Alive?
    ensures Relaying(Step(s, e).after)
  {
    if s.current == Some(FORWARDING) {
      ForwardingIsRelaying(s, e);
      var re := if e.read then RelayRuns.Readable(e.side, e.env.recv, e.env.errnoAgain)
                else RelayRuns.Writable(e.side, e.env.send, e.env.errnoAgain);
      RelayRuns.StepKeepsInv(View(s), re);
    } else {
      EarlyStepsRelayNothing(s, e);
      if Step(s, e).after.current == Some(FORWARDING) {
        ForwardingStartsFresh(s, e);
        StepKeepsInv(s, e);
        RelayRuns.StartHasInv(MAX_BUFFER);
      }
    }
  }

  /** A run in which the end of input is permanent. */
  predicate Faithful(s: Session, run: seq<Event>)
    requires LegalRun(s, run)
  {
    forall i :: 0 <= i < |run| ==> EofIsPermanent(StateAt(s, run, i), run[i])
  }

  /** A faithful run from a new session, and a point in it. */
  ghost predicate PointOf(run: seq<Event>, k: nat) {
    LegalRun(Start, run) && Faithful(Start, run) && k <= |run|
  }

  ghost predicate RelayingAt(run: seq<Event>, k: nat)
    requires PointOf(run, k)
  {
    Relaying(StateAt(Start, run, k))
  }

  lemma NextRelays(run: seq<Event>, k: nat)
    requires PointOf(run, k + 1) && RelayingAt(run, k)
    ensures RelayingAt(run, k + 1)
  {
    StateAtHasInv(Start, run, k);
    StateAtNext(Start, run, k);
    StepKeepsRelaying(StateAt(Start, run, k), run[k]);
  }

  lemma {:induction false} StateAtRelays(run: seq<Event>, k: nat)
    requires PointOf(run, k)
    ensures RelayingAt(run, k)
    decreases k
  {
    if k > 0 {
      StateAtRelays(run, k - 1);
      NextRelays(run, k - 1);
    }
  }

  /**
   * At any point of any session, what has been sent to a side is the beginning of what has come from the other one;
   * without an error the rest of it is in the buffer; and a session that is done is freed only when nothing is left.
   */
  lemma {:induction false} SessionsDeliver(run: seq<Event>, k: nat, side: Side)
    requires LegalRun(Start, run) && Faithful(Start, run) && k <= |run|
    ensures var s := StateAt(Start, run, k);
            var (in_, out) := (RelayRuns.BytesFrom(s.relay.log, side), RelayRuns.BytesTo(s.relay.log, Other(side)));
            && out <= in_
            && (s.current != Some(ERROR) ==> in_ == out + s.relay.From(side).bytes)
            && (s.current == Some(DONE) && s.freed ==> in_ == out)
  {
    StateAtHasInv(Start, run, k);
    StateAtRelays(run, k);
    var s := StateAt(Start, run, k);
    if !Unused(s.relay) {
      RelayDelivers(View(s), side);
    }
  }

  lemma {:induction false} RelayDelivers(r: RelayRuns.Session, side: Side)
    requires RelayRuns.Inv(r)
    ensures var (in_, out) := (RelayRuns.BytesFrom(r.relay.log, side), RelayRuns.BytesTo(r.relay.log, Other(side)));
            && out <= in_
            && (r.state != ERROR ==> in_ == out + r.relay.From(side).bytes)
            && (r.state == DONE && r.freed ==> in_ == out)
  {
    if r.state != ERROR {
      assert RelayRuns.Conserved(r.relay, side);
    } else {
      assert Other(Other(side)) == side;
    }
  }

  /** While it forwards, both sides of a session wait for what is owed to them. */
  ghost predicate IsAwake(s: Session) {
    s.current == Some(FORWARDING) ==> RelayInterests.AllAwake(View(s))
  }

  lemma {:induction false} StepKeepsAwake(s: Session, e: Event)
    requires Inv(s) && IsAwake(s) && Legal(s, e) && EofIsPermanent(s, e) && Step(s, e).Alive?
    ensures IsAwake(Step(s, e).after)
  {
    if s.current == Some(FORWARDING) {
      ForwardingIsRelaying(s, e);
      var re := if e.read then RelayRuns.Readable(e.side, e.env.recv, e.env.errnoAgain)
                else RelayRuns.Writable(e.side, e.env.send, e.env.errnoAgain);
      RelayInterests.StepKeepsAwake(View(s), re);
    } else if Step(s, e).after.current == Some(FORWARDING) {
      ForwardingStartsFresh(s, e);
    }
  }

  ghost predicate AwakeAt(run: seq<Event>, k: nat)
    requires PointOf(run, k)
  {
    IsAwake(StateAt(Start, run, k))
  }

  lemma {:induction false} NextIsAwake(run: seq<Event>, k: nat)
    requires PointOf(run, k + 1) && AwakeAt(run, k)
    ensures AwakeAt(run, k + 1)
  {
    StateAtHasInv(Start, run, k);
    StateAtNext(Start, run, k);
    StepKeepsAwake(StateAt(Start, run, k), run[k]);
  }

  /** At any point of any session that forwards, a side whose input is open waits for what is owed to it, and for something. */
  lemma {:induction false} SessionsStayAwake(run: seq<Event>, k: nat)
    requires PointOf(run, k)
    ensures AwakeAt(run, k)
    ensures var s := StateAt(Start, run, k);
            s.current == Some(FORWARDING) ==>
              forall t: Side | !s.relay.Closed(t) ::
                && (s.relay.From(Other(t)).bytes != [] ==> s.relay.InterestOf(t).write)
                && s.relay.InterestOf(t) != OP_NOOP
    decreases k
  {
    if k > 0 {
      SessionsStayAwake(run, k - 1);
      NextIsAwake(run, k - 1);
    }
    AwakeWaits(StateAt(Start, run, k));
  }

  lemma {:induction false} AwakeWaits(s: Session)
    ensures IsAwake(s) && s.current == Some(FORWARDING) ==>
              forall t: Side | !s.relay.Closed(t) ::
                && (s.relay.From(Other(t)).bytes != [] ==> s.relay.InterestOf(t).write)
                && s.relay.InterestOf(t) != OP_NOOP
  {
    forall t: Side | IsAwake(s) && s.current == Some(FORWARDING) && !s.relay.Closed(t)
      ensures s.relay.From(Other(t)).bytes != [] ==> s.relay.InterestOf(t).write
      ensures s.relay.InterestOf(t) != OP_NOOP
    {
      assert RelayInterests.Awake(s.relay, t);
    }
  }
}
