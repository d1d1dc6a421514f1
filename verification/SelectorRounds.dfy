/** The rounds of a relay inside whole iterations of the selector, with the items of other sessions in between. */
module SelectorRounds {
  import opened States
  import opened Relay
  import opened RelayRuns
  import opened RelayDispatch
  import opened Selector

  predicate Has(fds: Fds, fd: int) {
    fd == fds.client || fd == fds.remote
  }

  /** The calls of handlers for the descriptors of the session: which one, and whether to read. */
  function Ours(log: seq<Dispatch>, fds: Fds): seq<(int, bool)> {
    if log == [] then []
    else (if Has(fds, log[0].fd) then [(log[0].fd, log[0].read)] else []) + Ours(log[1..], fds)
  }

  lemma {:induction false} OursAppend(a: seq<Dispatch>, b: seq<Dispatch>, fds: Fds)
    ensures Ours(a + b, fds) == Ours(a, fds) + Ours(b, fds)
    decreases |a|
  {
    if a == [] {
      assert a + b == b;
    } else {
      assert (a + b)[1..] == a[1..] + b;
      OursAppend(a[1..], b, fds);
    }
  }

  /** The two tables have the same under a descriptor. */
  predicate SameAt(t: Table, t': Table, fd: int) {
    (fd in t <==> fd in t') && (fd in t ==> t[fd] == t'[fd])
  }

  predicate SameOn(t: Table, t': Table, fds: Fds) {
    SameAt(t, t', fds.client) && SameAt(t, t', fds.remote)
  }

  /** The handlers of other descriptors leave those of the session alone. */
  ghost predicate KeepOff(script: (int, bool) -> seq<Op>, fds: Fds) {
    forall fd, read, k :: !Has(fds, fd) && 0 <= k < |script(fd, read)| ==> !Has(fds, script(fd, read)[k].fd)
  }

  lemma {:induction false} OtherOpsKeep(t: Table, ops: seq<Op>, fds: Fds)
    requires forall k :: 0 <= k < |ops| ==> !Has(fds, ops[k].fd)
    ensures SameOn(t, ApplyAll(t, ops), fds)
    decreases |ops|
  {
    if ops != [] {
      OtherOpsKeep(Apply(t, ops[0]).0, ops[1..], fds);
    }
  }

  lemma {:induction false} OtherItemKeeps(t: Table, i: int, r: set<int>, w: set<int>, script: (int, bool) -> seq<Op>, fds: Fds)
    requires !Has(fds, i) && KeepOff(script, fds)
    ensures var (t', log) := IterateItem(t, i, r, w, script); SameOn(t, t', fds) && Ours(log, fds) == []
  {
    var t1 := if i in t && i in r && t[i].interest.read then ApplyAll(t, script(i, true)) else t;
    OtherOpsKeep(t, script(i, true), fds);
    OtherOpsKeep(t1, script(i, false), fds);
    if i in t {
      OursAppend(if i in r && t[i].interest.read then [Dispatch(i, true, t[i].data)] else [],
                 [Dispatch(i, false, t[i].data)], fds);
    }
  }

  lemma {:induction false} OtherItemsKeep(t: Table, i: int, n: int, r: set<int>, w: set<int>, script: (int, bool) -> seq<Op>,
                                          fds: Fds)
    requires KeepOff(script, fds) && forall fd :: i <= fd <= n ==> !Has(fds, fd)
    ensures var (t', log) := Iterate(t, i, n, r, w, script); SameOn(t, t', fds) && Ours(log, fds) == []
    decreases n + 1 - i
  {
    if i <= n {
      OtherItemKeeps(t, i, r, w, script, fds);
      var (t1, l1) := IterateItem(t, i, r, w, script);
      OtherItemsKeep(t1, i + 1, n, r, w, script, fds);
      OursAppend(l1, Iterate(t1, i + 1, n, r, w, script).1, fds);
    }
  }

  /** An iteration is one over its first items and then one over the rest. */
  lemma {:induction false} IterateSplit(t: Table, i: int, k: int, n: int, r: set<int>, w: set<int>,
                                        script: (int, bool) -> seq<Op>)
    requires i <= k <= n + 1
    ensures var (t1, l1) := Iterate(t, i, k - 1, r, w, script);
            var (t2, l2) := Iterate(t1, k, n, r, w, script);
            Iterate(t, i, n, r, w, script) == (t2, l1 + l2)
    decreases k - i
  {
    if i < k {
      var (t0, l0) := IterateItem(t, i, r, w, script);
      IterateSplit(t0, i + 1, k, n, r, w, script);
      var (t1, l1) := Iterate(t0, i + 1, k - 1, r, w, script);
      var l2 := Iterate(t1, k, n, r, w, script).1;
      assert (l0 + l1) + l2 == l0 + (l1 + l2);
    } else {
      assert [] + Iterate(t, k, n, r, w, script).1 == Iterate(t, k, n, r, w, script).1;
    }
  }

  /** Up to a descriptor of the session nothing happens to it, and then comes its item. */
  lemma {:induction false} UpToItem(t: Table, i: int, k: int, n: int, r: set<int>, w: set<int>,
                                    script: (int, bool) -> seq<Op>, fds: Fds) returns (t1: Table)
    requires i <= k <= n && KeepOff(script, fds) && forall fd :: i <= fd < k ==> !Has(fds, fd)
    ensures SameOn(t, t1, fds)
    ensures var (t2, l) := IterateItem(t1, k, r, w, script);
            var (t3, l3) := Iterate(t2, k + 1, n, r, w, script);
            Iterate(t, i, n, r, w, script).0 == t3
            && Ours(Iterate(t, i, n, r, w, script).1, fds) == Ours(l, fds) + Ours(l3, fds)
  {
    IterateSplit(t, i, k, n, r, w, script);
    OtherItemsKeep(t, i, k - 1, r, w, script, fds);
    t1 := Iterate(t, i, k - 1, r, w, script).0;
    var l0 := Iterate(t, i, k - 1, r, w, script).1;
    var (t2, l) := IterateItem(t1, k, r, w, script);
    var l3 := Iterate(t2, k + 1, n, r, w, script).1;
    OursAppend(l0, l + l3, fds);
    OursAppend(l, l3, fds);
  }

  /** The session forwards, or is freed: it is not left in DONE with bytes to send. */
  predicate Settled(s: Session) {
    s.freed == (s.state != FORWARDING)
  }

  /** The calls of a turn. */
  function TurnCalls(fd: int, rs: seq<Event>, ws: seq<Event>): seq<(int, bool)> {
    (if rs != [] then [(fd, true)] else []) + (if ws != [] then [(fd, false)] else [])
  }

  /** The handlers of a descriptor do what the relay does in its turn. */
  ghost predicate Plays(script: (int, bool) -> seq<Op>, fds: Fds, side: Side, s1: Session, s2: Session) {
    script(fds.Of(side), true) == Asks(s1, fds) && script(fds.Of(side), false) == Asks(s2, fds)
  }

  /** The item of a descriptor is the turn of its side. */
  lemma {:induction false} ItemIsTurn(t: Table, s: Session, fds: Fds, side: Side, ready: set<int>, wready: set<int>,
                                      readable: set<Side>, writable: set<Side>, rs: seq<Event>, ws: seq<Event>,
                                      script: (int, bool) -> seq<Op>)
    requires fds.Valid() && Shows(t, s, fds) && Settled(s)
    requires ReadyFds(fds, ready, readable) && ReadyFds(fds, wready, writable)
    requires Turn(s, side, readable, writable, rs, ws) && Settled(Then(s, rs))
    requires Plays(script, fds, side, Then(s, rs), Then(Then(s, rs), ws))
    ensures var (t', log) := IterateItem(t, fds.Of(side), ready, wready, script);
            Shows(t', Then(Then(s, rs), ws), fds) && Ours(log, fds) == TurnCalls(fds.Of(side), rs, ws)
  {
    if s.freed {
      assert ShowsSide(t, s, fds, side);
    } else {
      TurnIsIteration(t, s, fds, side, ready, wready, readable, writable, rs, ws, script);
      var fd, data := fds.Of(side), t[fds.Of(side)].data;
      OursAppend(if rs != [] then [Dispatch(fd, true, data)] else [], if ws != [] then [Dispatch(fd, false, data)] else [], fds);
    }
  }

  lemma {:induction false} SameShows(t: Table, t': Table, s: Session, fds: Fds)
    requires Shows(t, s, fds) && SameOn(t, t', fds)
    ensures Shows(t', s, fds)
  {
  }

  /** The rest of an iteration in which only one more item is of the session. */
  lemma {:induction false} LastTurn(t: Table, i: int, n: int, s: Session, fds: Fds, side: Side, ready: set<int>, wready: set<int>,
                                    readable: set<Side>, writable: set<Side>, rs: seq<Event>, ws: seq<Event>,
                                    script: (int, bool) -> seq<Op>)
    requires fds.Valid() && Shows(t, s, fds) && Settled(s) && KeepOff(script, fds) && i <= fds.Of(side) <= n
    requires forall fd :: i <= fd <= n && Has(fds, fd) ==> fd == fds.Of(side)
    requires ReadyFds(fds, ready, readable) && ReadyFds(fds, wready, writable)
    requires Turn(s, side, readable, writable, rs, ws) && Settled(Then(s, rs))
    requires Plays(script, fds, side, Then(s, rs), Then(Then(s, rs), ws))
    ensures var (t', log) := Iterate(t, i, n, ready, wready, script);
            Shows(t', Then(Then(s, rs), ws), fds) && Ours(log, fds) == TurnCalls(fds.Of(side), rs, ws)
  {
    var fd := fds.Of(side);
    var t1 := UpToItem(t, i, fd, n, ready, wready, script, fds);
    SameShows(t, t1, s, fds);
    ItemIsTurn(t1, s, fds, side, ready, wready, readable, writable, rs, ws, script);
    var t2 := IterateItem(t1, fd, ready, wready, script).0;
    OtherItemsKeep(t2, fd + 1, n, ready, wready, script, fds);
    SameShows(t2, Iterate(t2, fd + 1, n, ready, wready, script).0, Then(Then(s, rs), ws), fds);
  }

  /**
   * A whole iteration of the selector, over the items of all sessions, is one round for a session whose descriptors the
   * others leave alone: its handlers are called exactly for the events of the round, in their order, and the table shows
   * the session as it is after the round.
   */
  lemma {:induction false} RoundIsIteration(t: Table, s: Session, fds: Fds, round: Round, n: int, ready: set<int>, wready: set<int>,
                                            script: (int, bool) -> seq<Op>)
    requires fds.Valid() && Shows(t, s, fds) && Settled(s) && IsRound(s, round) && KeepOff(script, fds)
    requires 0 <= fds.Of(round.low) < fds.Of(Other(round.low)) <= n
    requires ReadyFds(fds, ready, round.readable) && ReadyFds(fds, wready, round.writable)
    requires var s1 := Then(s, round.read1);
             var s2 := Then(s1, round.write1);
             var s3 := Then(s2, round.read2);
             && Settled(s1) && Settled(s2) && Settled(s3)
             && Plays(script, fds, round.low, s1, s2) && Plays(script, fds, Other(round.low), s3, Then(s3, round.write2))
    ensures var (t', log) := Iterate(t, 0, n, ready, wready, script);
            && Shows(t', AfterRound(s, round), fds)
            && Ours(log, fds) == TurnCalls(fds.Of(round.low), round.read1, round.write1)
                                 + TurnCalls(fds.Of(Other(round.low)), round.read2, round.write2)
  {
    var a, b := fds.Of(round.low), Other(round.low);
    var s2 := Then(Then(s, round.read1), round.write1);
    var t1 := UpToItem(t, 0, a, n, ready, wready, script, fds);
    SameShows(t, t1, s, fds);
    ItemIsTurn(t1, s, fds, round.low, ready, wready, round.readable, round.writable, round.read1, round.write1, script);
    var t2 := IterateItem(t1, a, ready, wready, script).0;
    LastTurn(t2, a + 1, n, s2, fds, b, ready, wready, round.readable, round.writable, round.read2, round.write2, script);
  }
}
