/** A whole management session: its state machine over its handlers, in every run. */
module MonitorSession {
  import opened Bytes
  import opened Feeding
  import opened States
  import opened AuthUtils
  import opened Users
  import opened MonitorReqUtils
  import opened Stm
  import opened MonitorClient
  import MonitorAuth
  import MonitorReq

  type MonitorState = MonitorAuth.MonitorState

  /** The number of a state, which is its position in the table. */
  function Num(st: MonitorState): (n: nat)
    ensures n <= 3
  {
    match st
    case MONITOR_AUTH => 0 case MONITOR_REQ => 1 case MONITOR_DONE => 2 case MONITOR_ERROR => 3
  }

  /** `monitor_states`: arrival, departure, read and write callbacks. */
  const MonitorMachine := Machine(
    [ Row(0, true, true, true, false),
      Row(1, true, true, true, true),
      Row(2, true, false, false, false),
      Row(3, true, false, false, false) ],
    0, 3)

  // The values of `monitor_error_t` that are sent.
  const NO_ERROR: Byte := 0
  const MONITOR_USER_NOT_FOUND: Byte := 1
  const MONITOR_WRONG_PASSWORD: Byte := 3
  const MONITOR_LACKS_PRIVILEGE: Byte := 4
  const MONITOR_IO_ERROR: Byte := 5
  const MONITOR_UNKNOWN_ERROR: Byte := 8

  /** The union of the parsers. */
  datatype Slot = NoParser | AuthParser(auth: MonitorAuth.MonitorAuth) | ReqParser(req: MonitorReq.MonitorReq)

  /**
   * `monitor_t`: the current state, none before the first event, the access level, zero at first, the interest of
   * the descriptor and whether it is still registered, and the bytes handed to `send` so far.
   */
  datatype Monitor = Monitor(current: Option<MonitorState>, slot: Slot, level: int, error: Byte,
                             interest: Interest, registered: bool, sent: seq<Byte>)

  const Start := Monitor(None, NoParser, ADMIN, NO_ERROR, OP_READ, true, [])

  /** A ready descriptor: a read with its result, or a write with the statistics and whether `send` took the whole reply. */
  datatype Event =
    | Readable(recv: Recv, errnoAgain: bool)
    | Writable(stats: seq<Byte>, replySent: bool)

  /** The outcome of an event: the program aborts, it uses memory it must not, or the session goes on. */
  datatype Outcome = Aborted | Undefined | Alive(after: Monitor, stores: Stores)

  /** What a failed login leaves in `error`. */
  function LoginError(users: seq<User>, uname: seq<Byte>, passwd: seq<Byte>): Byte {
    var a := Apply(users, Login(uname, passwd)).1;
    if a.status == USERS_USER_NOT_FOUND then MONITOR_USER_NOT_FOUND
    else if a.status == USERS_WRONG_PASSWORD then MONITOR_WRONG_PASSWORD
    else MONITOR_LACKS_PRIVILEGE
  }

  /** `monitor_auth_read`. */
  function AuthRead(m: Monitor, e: Event, users: seq<User>): (Monitor, MonitorState)
    requires m.slot.AuthParser? && e.Readable? && (e.recv.Data? ==> |e.recv.bytes| == 1)
  {
    var (auth, next, level) := MonitorAuth.Read(m.slot.auth, e.recv, e.errnoAgain, users, m.level);
    var m1 := m.(slot := AuthParser(auth), level := level);
    if !next.MONITOR_ERROR? then (m1, next)
    else if !e.recv.Data? then (m1.(error := MONITOR_IO_ERROR), next)
    else
      match MonitorAuth.Step(m.slot.auth, e.recv.bytes[0])
      case Stop(Credentials(uname, passwd)) =>
        (m1.(error := LoginError(users, uname, passwd), sent := m.sent + [1]), next)
      case _ => (m1.(error := MONITOR_UNKNOWN_ERROR), next)
  }

  /** `monitor_req_read`. */
  function ReqRead(m: Monitor, e: Event, s: Stores): (Monitor, MonitorState, Stores)
    requires m.slot.ReqParser? && e.Readable? && HasRoom(m, e) && !Overruns(m, e) && |s.methods| == MAX_BUFFER_SIZE
  {
    if !e.recv.Data? then
      if e.errnoAgain then (m, MonitorAuth.MONITOR_REQ, s)
      else (m.(error := MONITOR_IO_ERROR), MonitorAuth.MONITOR_ERROR, s)
    else
      var v := MonitorReq.Step(m.slot.req, e.recv.bytes[0]);
      var (s', r) := MonitorReq.After(v, s);
      var m1 := if v.Go? then m.(slot := ReqParser(v.state)) else m;
      (if r.answer then m1.(interest := OP_WRITE) else m1,
       if r.goesOn then MonitorAuth.MONITOR_REQ else MonitorAuth.MONITOR_ERROR, s')
  }

  /** `monitor_req_write`: the status, and the statistics when they were asked for. */
  function ReqWrite(m: Monitor, e: Event): (Monitor, MonitorState)
    requires m.slot.ReqParser? && e.Writable?
  {
    var reply := [0] + if m.slot.req.typ == STATISTICS then e.stats else [];
    var m1 := m.(sent := m.sent + reply);
    if e.replySent then (m1.(interest := OP_NOOP), MonitorAuth.MONITOR_DONE)
    else (m1.(error := MONITOR_IO_ERROR), MonitorAuth.MONITOR_ERROR)
  }

  /** One byte is read at a time, and the array of arguments has its room. */
  predicate HasRoom(m: Monitor, e: Event) {
    e.Readable? && e.recv.Data? ==> |e.recv.bytes| == 1 && (m.slot.ReqParser? ==> |m.slot.req.args| < MAX_BUFFER_SIZE)
  }

  /** The 255th argument begins, and the null pointer after it falls outside the array. */
  predicate Overruns(m: Monitor, e: Event) {
    && m.slot.ReqParser? && e.Readable? && e.recv.Data? && |e.recv.bytes| == 1
    && MonitorReq.Step(m.slot.req, e.recv.bytes[0]) == Stop(MonitorReq.Overrun)
  }

  /** The connection fails before the first length of a request: the departure frees what an array not yet set points to. */
  predicate FreesUnset(m: Monitor, e: Event) {
    && m.current == Some(MonitorAuth.MONITOR_REQ) && m.slot.ReqParser? && m.slot.req.args == []
    && e.Readable? && !e.recv.Data? && !e.errnoAgain
  }

  /** The arrival callback of a state; the last two take the descriptor out of the selector, which ends the session. */
  function Arrive(m: Monitor, st: MonitorState): Monitor {
    match st
    case MONITOR_AUTH => m.(slot := AuthParser(MonitorAuth.Start))
    case MONITOR_REQ => m.(slot := ReqParser(MonitorReq.Start))
    case MONITOR_DONE => m.(interest := OP_NOOP, registered := false)
    case MONITOR_ERROR =>
      m.(interest := OP_NOOP, registered := false, sent := m.sent + if m.error != NO_ERROR then [m.error] else [])
  }

  /** The departure callback of a state: leaving the login sends a status made from the access level. */
  function Depart(m: Monitor, st: MonitorState): Monitor {
    if st.MONITOR_AUTH? then m.(sent := m.sent + [if m.level == ADMIN then 0 else 1]) else m
  }

  /** `handle_first`. */
  function HandleFirst(m: Monitor): Monitor {
    if m.current == None then Arrive(m.(current := Some(MonitorAuth.MONITOR_AUTH)), MonitorAuth.MONITOR_AUTH) else m
  }

  /** `jump`, from a state of the table. */
  function JumpTo(m: Monitor, next: MonitorState, s: Stores): Outcome
    requires m.current.Some?
  {
    if Num(next) > MonitorMachine.maxState then Aborted
    else if m.current == Some(next) then Alive(m, s)
    else Alive(Arrive(Depart(m, m.current.value).(current := Some(next)), next), s)
  }

  /** What the selector dispatches, with socket calls and stores that keep their contract. */
  predicate Legal(m: Monitor, s: Stores, e: Event) {
    && m.registered && (if e.Readable? then m.interest.read else m.interest.write)
    && HasRoom(m, e) && |s.methods| == MAX_BUFFER_SIZE
  }

  /** The handler of a row is there, and finds its parser in the union. */
  predicate HasHandler(m: Monitor, st: MonitorState, e: Event) {
    && Handles(MonitorMachine, Num(st), e.Readable?)
    && (st.MONITOR_AUTH? ==> m.slot.AuthParser?) && (st.MONITOR_REQ? ==> m.slot.ReqParser?)
  }

  /** The handler, on the stores it finds. */
  function Handle(m: Monitor, s: Stores, st: MonitorState, e: Event): (Monitor, MonitorState, Stores)
    requires HasHandler(m, st, e) && HasRoom(m, e) && !Overruns(m, e) && |s.methods| == MAX_BUFFER_SIZE
  {
    if st.MONITOR_AUTH? then var (m1, next) := AuthRead(m, e, s.users); (m1, next, s)
    else if e.Readable? then ReqRead(m, e, s)
    else var (m1, next) := ReqWrite(m, e); (m1, next, s)
  }

  /** `stm_handler_read` and `stm_handler_write` on the session and the stores it finds. */
  function Step(m: Monitor, s: Stores, e: Event): Outcome
    requires Legal(m, s, e)
  {
    var m1 := HandleFirst(m);
    var st := m1.current.value;
    if !HasHandler(m1, st, e) then Aborted
    else if Overruns(m1, e) || FreesUnset(m1, e) then Undefined
    else
      var (m2, next, s') := Handle(m1, s, st, e);
      JumpTo(m2, next, s')
  }

  /** What every run keeps. */
  ghost predicate Inv(m: Monitor) {
    match m.current
    case None => m == Start
    case Some(MONITOR_AUTH) => LoggingIn(m)
    case Some(MONITOR_REQ) => Requesting(m)
    case Some(_) => !m.registered
  }

  /** Before the login is decided nothing has been sent, and the parser has not come to its final states. */
  ghost predicate LoggingIn(m: Monitor) {
    && m.registered && m.interest == OP_READ && m.level == ADMIN && m.sent == [] && m.error == NO_ERROR
    && m.slot.AuthParser? && m.slot.auth.state <= MonitorAuth.MONITOR_AUTH_STATE_PASSWD
  }

  /** The descriptor waits for the request, or to send the reply. */
  ghost predicate Requesting(m: Monitor) {
    && m.registered && m.interest in {OP_READ, OP_WRITE} && m.sent == [0] && m.error == NO_ERROR
    && m.slot.ReqParser? && |m.slot.req.args| < MAX_BUFFER_SIZE
  }

  /** What the login leaves for the state it returns. */
  lemma {:induction false} LoginIsReady(m: Monitor, e: Event, users: seq<User>)
    requires m.current == Some(MonitorAuth.MONITOR_AUTH) && LoggingIn(m) && e.Readable? && HasRoom(m, e)
    ensures var (m1, next) := AuthRead(m, e, users);
            && m1.current == m.current && m1.registered && m1.interest == OP_READ
            && (next.MONITOR_AUTH? ==> LoggingIn(m1))
            && (next.MONITOR_REQ? ==> m1.level == ADMIN && m1.sent == [] && m1.error == NO_ERROR)
            && !next.MONITOR_DONE?
  {
  }

  lemma LoginKeepsInv(m: Monitor, s: Stores, e: Event)
    requires Inv(m) && Legal(m, s, e) && m.current != Some(MonitorAuth.MONITOR_REQ)
    ensures Step(m, s, e).Alive? && Inv(Step(m, s, e).after)
  {
    var m1 := HandleFirst(m);
    LoginIsReady(m1, e, s.users);
    var (m2, next) := AuthRead(m1, e, s.users);
    assert Step(m, s, e) == JumpTo(m2, next, s);
  }

  lemma RequestKeepsInv(m: Monitor, s: Stores, e: Event)
    requires Inv(m) && Legal(m, s, e) && m.current == Some(MonitorAuth.MONITOR_REQ)
    ensures if Overruns(m, e) || FreesUnset(m, e) then Step(m, s, e).Undefined?
            else Step(m, s, e).Alive? && Inv(Step(m, s, e).after)
  {
  }

  /** No event the selector dispatches finds no handler, and without one of the two memory errors the invariant is kept. */
  lemma StepKeepsInv(m: Monitor, s: Stores, e: Event)
    requires Inv(m) && Legal(m, s, e)
    ensures if Overruns(m, e) || FreesUnset(m, e) then Step(m, s, e).Undefined?
            else Step(m, s, e).Alive? && Inv(Step(m, s, e).after)
  {
    if m.current == Some(MonitorAuth.MONITOR_REQ) {
      RequestKeepsInv(m, s, e);
    } else {
      LoginKeepsInv(m, s, e);
    }
  }

  /** The state of a number of the table. */
  function StateOf(n: nat): (st: MonitorState)
    ensures n <= 3 ==> Num(st) == n
  {
    if n == 0 then MonitorAuth.MONITOR_AUTH else if n == 1 then MonitorAuth.MONITOR_REQ
    else if n == 2 then MonitorAuth.MONITOR_DONE else MonitorAuth.MONITOR_ERROR
  }

  /** What one callback of the table does to the session and the stores. */
  function Effect(w: (Monitor, Stores), cb: Callback, e: Event): (Monitor, Stores) {
    match cb
    case Arrival(n) => (Arrive(w.0, StateOf(n)), w.1)
    case Departure(n) => (Depart(w.0, StateOf(n)), w.1)
    case ReadReady(n) => HandlerEffect(w, StateOf(n), e)
    case WriteReady(n) => HandlerEffect(w, StateOf(n), e)
  }

  function HandlerEffect(w: (Monitor, Stores), st: MonitorState, e: Event): (Monitor, Stores) {
    if HasHandler(w.0, st, e) && HasRoom(w.0, e) && !Overruns(w.0, e) && |w.1.methods| == MAX_BUFFER_SIZE then
      var (m, _, s) := Handle(w.0, w.1, st, e); (m, s)
    else w
  }

  /** The callbacks in their order. */
  function Effects(w: (Monitor, Stores), cbs: seq<Callback>, e: Event): (Monitor, Stores)
    decreases |cbs|
  {
    if cbs == [] then w else Effects(Effect(w, cbs[0], e), cbs[1..], e)
  }

  lemma {:induction false} EffectsAppend(w: (Monitor, Stores), a: seq<Callback>, b: seq<Callback>, e: Event)
    ensures Effects(w, a + b, e) == Effects(Effects(w, a, e), b, e)
    decreases |a|
  {
    if a == [] {
      assert a + b == b;
    } else {
      assert (a + b)[1..] == a[1..] + b;
      EffectsAppend(Effect(w, a[0], e), a[1..], b, e);
    }
  }

  lemma {:induction false} OneEffect(w: (Monitor, Stores), cb: Callback, e: Event)
    ensures Effects(w, [cb], e) == Effect(w, cb, e)
  {
    assert [cb][1..] == [];
  }

  function NumOf(current: Option<MonitorState>): Option<nat> {
    if current == None then None else Some(Num(current.value))
  }

  /** The session once the engine has entered its first state, before any callback. */
  function Entered(m: Monitor): Monitor {
    if m.current == None then m.(current := Some(MonitorAuth.MONITOR_AUTH)) else m
  }

  lemma {:induction false} FirstMakesCallbacks(m: Monitor, s: Stores, e: Event)
    requires MonitorMachine.Valid()
    ensures (HandleFirst(m), s) == Effects((Entered(m), s), FirstCallbacks(MonitorMachine, NumOf(m.current)), e)
  {
    if m.current == None {
      assert FirstCallbacks(MonitorMachine, None) == [Arrival(0)];
      OneEffect((Entered(m), s), Arrival(0), e);
    }
  }

  /** The move to the next state makes the callbacks of `jump`: departure, then arrival. */
  lemma {:induction false} JumpMakesCallbacks(m: Monitor, s: Stores, next: MonitorState, e: Event)
    requires m.current.Some? && MonitorMachine.Valid()
    ensures var w := Effects((m, s), JumpCallbacks(MonitorMachine, Num(m.current.value), Num(next)), e);
            JumpTo(m, next, s) == Alive(w.0.(current := Some(next)), w.1)
  {
    var from, to := Num(m.current.value), Num(next);
    assert StateOf(from) == m.current.value && StateOf(to) == next;
    if from != to {
      if from <= 1 {
        assert JumpCallbacks(MonitorMachine, from, to) == [Departure(from)] + [Arrival(to)];
        EffectsAppend((m, s), [Departure(from)], [Arrival(to)], e);
        OneEffect((m, s), Departure(from), e);
        OneEffect((Depart(m, m.current.value), s), Arrival(to), e);
      } else {
        assert JumpCallbacks(MonitorMachine, from, to) == [Arrival(to)];
        OneEffect((m, s), Arrival(to), e);
      }
    }
  }

  lemma {:induction false} HandlerMakesCallback(m: Monitor, s: Stores, st: MonitorState, e: Event)
    requires HasHandler(m, st, e) && HasRoom(m, e) && !Overruns(m, e) && |s.methods| == MAX_BUFFER_SIZE
    ensures var (m1, _, s') := Handle(m, s, st, e);
            && Effects((m, s), [if e.Readable? then ReadReady(Num(st)) else WriteReady(Num(st))], e) == (m1, s')
            && m1.current == m.current
  {
    assert StateOf(Num(st)) == st;
    OneEffect((m, s), if e.Readable? then ReadReady(Num(st)) else WriteReady(Num(st)), e);
  }

  /** The three parts of the callbacks of an event, one after the other. */
  lemma {:induction false} EventInParts(w: (Monitor, Stores), current: Option<nat>, read: bool, next: nat, e: Event)
    requires MonitorMachine.Valid() && First(MonitorMachine, current) <= 3 && next <= 3
    ensures var st := First(MonitorMachine, current);
            var w1 := Effects(w, FirstCallbacks(MonitorMachine, current), e);
            var w2 := Effects(w1, [if read then ReadReady(st) else WriteReady(st)], e);
            Effects(w, EventCallbacks(MonitorMachine, current, read, next), e)
            == Effects(w2, JumpCallbacks(MonitorMachine, st, next), e)
  {
    var st, first := First(MonitorMachine, current), FirstCallbacks(MonitorMachine, current);
    var ready := [if read then ReadReady(st) else WriteReady(st)];
    EffectsAppend(w, first, ready, e);
    EffectsAppend(w, first + ready, JumpCallbacks(MonitorMachine, st, next), e);
  }

  lemma {:induction false} FirstHasHandler(m: Monitor, s: Stores, e: Event)
    requires Inv(m) && Legal(m, s, e)
    ensures var m1 := HandleFirst(m);
            && m1.current.Some? && HasHandler(m1, m1.current.value, e) && HasRoom(m1, e)
            && Num(m1.current.value) == First(MonitorMachine, NumOf(m.current))
  {
  }

  lemma MachineIsValid()
    ensures MonitorMachine.Valid()
  {
  }

  /**
   * An event of a session does to it and to the stores what the callbacks of the engine do, in its order: the first
   * arrival, the handler, and the departure and arrival of the move to the state it returns.
   */
  lemma {:induction false} StepMakesCallbacks(m: Monitor, s: Stores, e: Event)
    requires Inv(m) && Legal(m, s, e) && Step(m, s, e).Alive?
    ensures MonitorMachine.Valid()
    ensures var next := Step(m, s, e).after.current;
            var w := Effects((Entered(m), s), EventCallbacks(MonitorMachine, NumOf(m.current), e.Readable?, Num(next.value)), e);
            Step(m, s, e) == Alive(w.0.(current := next), w.1)
  {
    MachineIsValid();
    FirstHasHandler(m, s, e);
    var m1 := HandleFirst(m);
    var st := m1.current.value;
    var (m2, next, s') := Handle(m1, s, st, e);
    FirstMakesCallbacks(m, s, e);
    HandlerMakesCallback(m1, s, st, e);
    JumpMakesCallbacks(m2, s', next, e);
    EventInParts((Entered(m), s), NumOf(m.current), e.Readable?, Num(next), e);
  }

  /** The credentials the client completes on this event, if it does. */
  ghost function LoginOn(m: Monitor, e: Event): Option<(seq<Byte>, seq<Byte>)> {
    var m1 := HandleFirst(m);
    if m1.current == Some(MonitorAuth.MONITOR_AUTH) && m1.slot.AuthParser? && e.Readable? && e.recv.Data? && |e.recv.bytes| == 1
    then
      match MonitorAuth.Step(m1.slot.auth, e.recv.bytes[0])
      case Stop(Credentials(uname, passwd)) => Some((uname, passwd))
      case _ => None
    else None
  }

  /** The user table has these credentials, for an administrator. */
  ghost predicate IsAdmin(users: seq<User>, login: (seq<Byte>, seq<Byte>)) {
    exists i :: 0 <= i < |users| && users[i] == User(login.0, login.1, ADMIN)
                && forall j :: 0 <= j < i ==> users[j].username != login.0
  }

  /** On this event an administrator logs in. */
  ghost predicate AdminLogsIn(m: Monitor, s: Stores, e: Event) {
    LoginOn(m, e).Some? && IsAdmin(s.users, LoginOn(m, e).value)
  }

  lemma LoginFindsAdmin(users: seq<User>, login: (seq<Byte>, seq<Byte>))
    ensures IsAdmin(users, login) <==> Apply(users, Login(login.0, login.1)).1 == Answer(USERS_OK, Some(ADMIN))
  {
    var i := IndexOf(users, login.0);
    if i >= 0 && users[i].password == login.1 && users[i].level == ADMIN {
      assert users[i] == User(login.0, login.1, ADMIN);
    }
  }

  /** The login is over exactly when the connection fails or the credentials are complete; only an administrator passes. */
  lemma OnlyAdminsPass(m: Monitor, s: Stores, e: Event)
    requires Inv(m) && Legal(m, s, e) && m.current != Some(MonitorAuth.MONITOR_REQ)
    ensures Step(m, s, e).Alive? && Step(m, s, e).stores == s
    ensures Step(m, s, e).after.current == Some(MonitorAuth.MONITOR_REQ) <==> AdminLogsIn(m, s, e)
    ensures Step(m, s, e).after.current == Some(MonitorAuth.MONITOR_AUTH) <==>
            LoginOn(m, e).None? && (e.recv.Data? || e.errnoAgain)
  {
    if LoginOn(m, e).Some? {
      LoginFindsAdmin(s.users, LoginOn(m, e).value);
    }
  }

  /**
   * The bytes sent when the login is over. The first of them says whether an administrator has logged in, except when
   * the connection failed. A second status byte follows a refusal, and for unknown or wrong credentials it says success.
   */
  lemma LoginAnswers(m: Monitor, s: Stores, e: Event)
    requires Inv(m) && Legal(m, s, e) && m.current != Some(MonitorAuth.MONITOR_REQ)
    ensures var login, sent := LoginOn(m, e), Step(m, s, e).after.sent;
            && (login.None? && !e.recv.Data? && !e.errnoAgain ==> sent == [0, 5])
            && (login.Some? ==>
                  var i := IndexOf(s.users, login.value.0);
                  sent == if i < 0 then [1, 0, 1]
                          else if s.users[i].password != login.value.1 then [1, 0, 3]
                          else if s.users[i].level != 0 then [1, 1, 4]
                          else [0])
  {
  }

  /** The first of those bytes says whether an administrator has logged in. */
  lemma {:induction false} FirstByteTells(m: Monitor, s: Stores, e: Event)
    requires Inv(m) && Legal(m, s, e) && m.current != Some(MonitorAuth.MONITOR_REQ) && LoginOn(m, e).Some?
    ensures var sent := Step(m, s, e).after.sent; sent != [] && (sent[0] == 0 <==> IsAdmin(s.users, LoginOn(m, e).value))
  {
    LoginAnswers(m, s, e);
    LoginFindsAdmin(s.users, LoginOn(m, e).value);
  }

  /**
   * What an event does to a session that is logged in: a failed read waits or ends it with an error of 5; a byte of the
   * request goes on with it, ends the session when it is refused, or has it carried out; and the reply is a zero, with
   * the statistics for a request of type 3, after which the session ends.
   */
  lemma {:induction false} RequestAnswers(m: Monitor, s: Stores, e: Event)
    requires Inv(m) && Legal(m, s, e) && m.current == Some(MonitorAuth.MONITOR_REQ) && Step(m, s, e).Alive?
    ensures var (t, s') := (Step(m, s, e).after, Step(m, s, e).stores);
            match e
            case Writable(stats, replySent) =>
              var reply := [0] + [0] + if m.slot.req.typ == 3 then stats else [];
              && s' == s && !t.registered && t.sent == (if replySent then reply else reply + [5])
              && t.current == Some(if replySent then MonitorAuth.MONITOR_DONE else MonitorAuth.MONITOR_ERROR)
            case Readable(recv, again) =>
              if !recv.Data? then
                s' == s && if again then t == m else !t.registered && t.sent == [0, 5]
              else
                && t.sent == [0]
                && match MonitorReq.Step(m.slot.req, recv.bytes[0])
                   case Go(req) => s' == s && t == m.(slot := ReqParser(req))
                   case Stop(Handle(typ, args)) =>
                     var (s1, ok) := HandleRequest(typ, args, s);
                     s' == s1 && (t.registered <==> ok) && (ok ==> t == m.(interest := OP_WRITE))
                   case Stop(_) => s' == s && !t.registered
  {
    if e.Readable? && e.recv.Data? {
      ArgsOnlyGrow(m.slot.req, e.recv.bytes, 0);
    }
  }

  /** An event of the session, with the stores it finds: other sessions may have changed them in between. */
  datatype Turn = Turn(stores: Stores, event: Event)

  predicate LegalRun(m: Monitor, run: seq<Turn>)
    decreases |run|
  {
    run == [] ||
    (Legal(m, run[0].stores, run[0].event) && Step(m, run[0].stores, run[0].event).Alive?
     && LegalRun(Step(m, run[0].stores, run[0].event).after, run[1..]))
  }

  /** The session after the first `k` events of a run. */
  function StateAt(m: Monitor, run: seq<Turn>, k: nat): Monitor
    requires LegalRun(m, run) && k <= |run|
    decreases k
  {
    if k == 0 then m else StateAt(Step(m, run[0].stores, run[0].event).after, run[1..], k - 1)
  }

  /** A run one event longer. */
  lemma {:induction false} StateAtNext(m: Monitor, run: seq<Turn>, k: nat)
    requires LegalRun(m, run) && k < |run|
    ensures Legal(StateAt(m, run, k), run[k].stores, run[k].event)
    ensures Step(StateAt(m, run, k), run[k].stores, run[k].event).Alive?
    ensures StateAt(m, run, k + 1) == Step(StateAt(m, run, k), run[k].stores, run[k].event).after
    decreases k
  {
    if k > 0 {
      assert run[1..][k - 1] == run[k];
      StateAtNext(Step(m, run[0].stores, run[0].event).after, run[1..], k - 1);
    }
  }

  lemma {:induction false} StateAtHasInv(m: Monitor, run: seq<Turn>, k: nat)
    requires Inv(m) && LegalRun(m, run) && k <= |run|
    ensures Inv(StateAt(m, run, k))
    decreases k
  {
    if k > 0 {
      StepKeepsInv(m, run[0].stores, run[0].event);
      StateAtHasInv(Step(m, run[0].stores, run[0].event).after, run[1..], k - 1);
    }
  }

  /**
   * Whatever the run, the next event the selector dispatches does not come to an abort of the engine, and the session
   * goes on exactly when the event is neither the 255th argument nor a failure before the first length of a request.
   */
  lemma {:induction false} NoRunAborts(run: seq<Turn>, next: Turn)
    requires LegalRun(Start, run) && Legal(StateAt(Start, run, |run|), next.stores, next.event)
    ensures var m := StateAt(Start, run, |run|);
            var o := Step(m, next.stores, next.event);
            !o.Aborted? && (o.Undefined? <==> Overruns(m, next.event) || FreesUnset(m, next.event))
  {
    StateAtHasInv(Start, run, |run|);
    StepKeepsInv(StateAt(Start, run, |run|), next.stores, next.event);
  }

  /** An administrator logs in on the `j`-th event. */
  ghost predicate AdminAt(run: seq<Turn>, j: nat)
    requires LegalRun(Start, run) && j < |run|
  {
    AdminLogsIn(StateAt(Start, run, j), run[j].stores, run[j].event)
  }

  /** The session waits for requests after `k` events. */
  ghost predicate RequestingAt(run: seq<Turn>, k: nat)
    requires LegalRun(Start, run) && k <= |run|
  {
    StateAt(Start, run, k).current == Some(MonitorAuth.MONITOR_REQ)
  }

  lemma {:induction false} LastEventLogsIn(run: seq<Turn>, k: nat)
    requires LegalRun(Start, run) && k < |run| && !RequestingAt(run, k) && RequestingAt(run, k + 1)
    ensures AdminAt(run, k)
  {
    StateAtNext(Start, run, k);
    StateAtHasInv(Start, run, k);
    OnlyAdminsPass(StateAt(Start, run, k), run[k].stores, run[k].event);
  }

  /** In every run, a session that reaches the requests has earlier been logged in by an administrator. */
  lemma {:induction false} NobodyManagesWithoutAdmin(run: seq<Turn>, k: nat) returns (j: nat)
    requires LegalRun(Start, run) && k <= |run| && RequestingAt(run, k)
    ensures j < k && AdminAt(run, j)
    decreases k
  {
    if RequestingAt(run, k - 1) {
      j := NobodyManagesWithoutAdmin(run, k - 1);
    } else {
      LastEventLogsIn(run, k - 1);
      j := k - 1;
    }
  }

  /** The `k`-th event changes the stores. */
  ghost predicate ChangesStores(run: seq<Turn>, k: nat)
    requires LegalRun(Start, run) && k < |run|
  {
    StateAtNext(Start, run, k);
    Step(StateAt(Start, run, k), run[k].stores, run[k].event).stores != run[k].stores
  }

  /** A change is made by a request, after which the session reads no more. */
  lemma ChangeSpendsRequest(m: Monitor, s: Stores, e: Event)
    requires Inv(m) && Legal(m, s, e) && Step(m, s, e).Alive? && Step(m, s, e).stores != s
    ensures m.current == Some(MonitorAuth.MONITOR_REQ) && m.interest.read && !Step(m, s, e).after.interest.read
  {
    if m.current != Some(MonitorAuth.MONITOR_REQ) {
      OnlyAdminsPass(m, s, e);
    }
  }

  /** A session that reads no more never reads again. */
  lemma StaysSpent(m: Monitor, s: Stores, e: Event)
    requires Inv(m) && Legal(m, s, e) && Step(m, s, e).Alive? && !m.interest.read
    ensures !Step(m, s, e).after.interest.read
  {
  }

  /** The session reads no more after `k` events. */
  ghost predicate SpentAt(run: seq<Turn>, k: nat)
    requires LegalRun(Start, run) && k <= |run|
  {
    !StateAt(Start, run, k).interest.read
  }

  lemma {:induction false} NextStaysSpent(run: seq<Turn>, k: nat)
    requires LegalRun(Start, run) && k < |run| && SpentAt(run, k)
    ensures SpentAt(run, k + 1)
  {
    StateAtNext(Start, run, k);
    StateAtHasInv(Start, run, k);
    StaysSpent(StateAt(Start, run, k), run[k].stores, run[k].event);
  }

  lemma {:induction false} SpentFrom(run: seq<Turn>, i: nat, k: nat)
    requires LegalRun(Start, run) && i <= k <= |run| && SpentAt(run, i)
    ensures SpentAt(run, k)
    decreases k
  {
    if i < k {
      SpentFrom(run, i, k - 1);
      NextStaysSpent(run, k - 1);
    }
  }

  /** An event that changes the stores finds the session requesting, and is the last thing it reads. */
  lemma {:induction false} ChangeIsLastRead(run: seq<Turn>, k: nat)
    requires LegalRun(Start, run) && k < |run| && ChangesStores(run, k)
    ensures RequestingAt(run, k) && !SpentAt(run, k) && SpentAt(run, k + 1)
  {
    StateAtNext(Start, run, k);
    StateAtHasInv(Start, run, k);
    ChangeSpendsRequest(StateAt(Start, run, k), run[k].stores, run[k].event);
  }

  /** In every run a session changes the stores at most once, after an administrator has logged in on it. */
  lemma {:induction false} StoresChangeOnceForAdmins(run: seq<Turn>, k: nat)
    requires LegalRun(Start, run) && k < |run| && ChangesStores(run, k)
    ensures exists j :: 0 <= j < k && AdminAt(run, j)
    ensures forall i :: 0 <= i < k ==> !ChangesStores(run, i)
  {
    ChangeIsLastRead(run, k);
    var j := NobodyManagesWithoutAdmin(run, k);
    forall i | 0 <= i < k
      ensures !ChangesStores(run, i)
    {
      if ChangesStores(run, i) {
        ChangeIsLastRead(run, i);
        SpentFrom(run, i + 1, k);
      }
    }
  }

  /** The bytes of a client, arriving one after another at a session that no other one disturbs, for as long as it reads. */
  function Receive(m: Monitor, s: Stores, b: seq<Byte>, i: nat := 0): (Monitor, Stores)
    decreases |b| - i
  {
    if i >= |b| then (m, s)
    else
      var e := Readable(Data([b[i]]), false);
      if !Legal(m, s, e) then (m, s)
      else
        var o := Step(m, s, e);
        if !o.Alive? then (m, s) else Receive(o.after, o.stores, b, i + 1)
  }

  /** A login that has been refused ends the session. */
  ghost predicate Refused(m: Monitor) {
    m.current == Some(MonitorAuth.MONITOR_ERROR) && !m.registered && m.sent != [] && m.sent[0] == 1
  }

  /** A session that waits for a request. */
  ghost predicate Ready(m: Monitor) {
    Requesting(m) && m.current == Some(MonitorAuth.MONITOR_REQ) && m.interest == OP_READ
  }

  /** From inside the login, its bytes are received as the login parser is run over them. */
  lemma {:induction false} LoginReceived(m: Monitor, s: Stores, b: seq<Byte>, i: nat, login: (seq<Byte>, seq<Byte>), k: nat)
    returns (next: Monitor)
    requires m.current == Some(MonitorAuth.MONITOR_AUTH) && LoggingIn(m) && |s.methods| == MAX_BUFFER_SIZE
    requires Run(MonitorAuth.Step, m.slot.auth, b, i) == Done(MonitorAuth.Credentials(login.0, login.1), k)
    ensures IsAdmin(s.users, login) ==>
              Ready(next) && next.slot.req == MonitorReq.Start && Receive(m, s, b, i) == Receive(next, s, b, k)
    ensures !IsAdmin(s.users, login) ==> Refused(next) && Receive(m, s, b, i) == (next, s)
    decreases |b| - i
  {
    var e := Readable(Data([b[i]]), false);
    LoginKeepsInv(m, s, e);
    OnlyAdminsPass(m, s, e);
    next := Step(m, s, e).after;
    if MonitorAuth.Step(m.slot.auth, b[i]).Go? {
      next := LoginReceived(next, s, b, i + 1, login, k);
    } else {
      LoginAnswers(m, s, e);
    }
  }

  /** The parser never forgets an argument. */
  lemma {:induction false} ArgsOnlyGrow(r: MonitorReq.MonitorReq, b: seq<Byte>, i: nat)
    ensures var fed := Run(MonitorReq.Step, r, b, i);
            fed.Done? && fed.outcome.Handle? ==>
              |r.args| <= |fed.outcome.args| && MonitorReqUtils.Accepts(fed.outcome.typ, |fed.outcome.args|)
    decreases |b| - i
  {
    if i < |b| {
      var v := MonitorReq.Step(r, b[i]);
      if v.Go? {
        ArgsOnlyGrow(v.state, b, i + 1);
      }
    }
  }

  /** From inside the request, its bytes are received as the request parser is run over them. */
  lemma {:induction false} RequestReceived(m: Monitor, s: Stores, b: seq<Byte>, i: nat, typ: Byte, args: seq<seq<Byte>>)
    requires Ready(m) && |s.methods| == MAX_BUFFER_SIZE && |args| < MAX_BUFFER_SIZE && Accepts(typ, |args|)
    requires Run(MonitorReq.Step, m.slot.req, b, i) == Done(MonitorReq.Handle(typ, args), |b|)
    ensures var (s', ok) := HandleRequest(typ, args, s);
            var got := Receive(m, s, b, i);
            got.1 == s' && (got.0.registered <==> ok) && (ok ==> got.0.interest == OP_WRITE) && got.0.sent == [0]
    decreases |b| - i
  {
    var e := Readable(Data([b[i]]), false);
    var v := MonitorReq.Step(m.slot.req, b[i]);
    ArgsOnlyGrow(m.slot.req, b, i);
    if v.Go? {
      ArgsOnlyGrow(v.state, b, i + 1);
      assert Step(m, s, e) == Alive(m.(slot := ReqParser(v.state)), s);
      RequestReceived(m.(slot := ReqParser(v.state)), s, b, i + 1, typ, args);
    }
  }

  /**
   * The whole exchange, from a new session: of the login and the request a client writes, the request takes effect on
   * the stores exactly when the login is an administrator's, and is answered exactly when it was carried out.
   */
  lemma {:induction false} ClientIsServed(uname: seq<Byte>, passwd: seq<Byte>, typ: Byte, args: seq<seq<Byte>>, s: Stores)
    requires 1 <= |uname| <= 255 && 1 <= |passwd| <= 255 && 0 !in uname && 0 !in passwd
    requires MonitorReq.ArgsFit(args) && Accepts(typ, |args|) && |args| < MAX_BUFFER_SIZE == |s.methods|
    ensures var admin := IsAdmin(s.users, (uname, passwd));
            var (s', ok) := HandleRequest(typ, args, s);
            var got := Receive(Start, s, LoginMessage(uname, passwd) + MonitorReq.Frame(typ, args));
            && got.1 == (if admin then s' else s)
            && got.0.sent != [] && (got.0.sent[0] == 0 <==> admin)
            && (got.0.registered <==> admin && ok)
            && (got.0.registered ==> got.0.interest == OP_WRITE)
  {
    var login, frame := LoginMessage(uname, passwd), MonitorReq.Frame(typ, args);
    var b := login + frame;
    LoginIsUnderstood(uname, passwd);
    RunConcat(MonitorAuth.Step, MonitorAuth.Start, login, frame);
    var first := HandleFirst(Start);
    assert Receive(Start, s, b) == Receive(first, s, b);
    var next := LoginReceived(first, s, b, 0, (uname, passwd), |login|);
    if IsAdmin(s.users, (uname, passwd)) {
      MonitorReq.FrameIsHandled(typ, args);
      RunSecondPart(MonitorReq.Step, MonitorReq.Start, login, frame, 0);
      RequestReceived(next, s, b, |login|, typ, args);
    }
  }

  /** From inside the request, bytes that are refused end the session and change nothing. */
  lemma {:induction false} RefusalReceived(m: Monitor, s: Stores, b: seq<Byte>, i: nat)
    requires Ready(m) && |s.methods| == MAX_BUFFER_SIZE
    requires Run(MonitorReq.Step, m.slot.req, b, i) == Done(MonitorReq.Refused, |b|)
    ensures var got := Receive(m, s, b, i); got.1 == s && !got.0.registered && got.0.sent == [0]
    decreases |b| - i
  {
    var e := Readable(Data([b[i]]), false);
    var v := MonitorReq.Step(m.slot.req, b[i]);
    if v.Go? {
      RequestKeepsInv(m, s, e);
      assert Step(m, s, e) == Alive(m.(slot := ReqParser(v.state)), s);
      RefusalReceived(m.(slot := ReqParser(v.state)), s, b, i + 1);
    }
  }

  /** An administrator's request with a wrong number of arguments changes nothing and ends the session without a reply. */
  lemma {:induction false} WrongNumberIsRefused(uname: seq<Byte>, passwd: seq<Byte>, typ: Byte, args: seq<seq<Byte>>, s: Stores)
    requires 1 <= |uname| <= 255 && 1 <= |passwd| <= 255 && 0 !in uname && 0 !in passwd && IsAdmin(s.users, (uname, passwd))
    requires MonitorReq.ArgsFit(args) && |args| < MAX_BUFFER_SIZE == |s.methods|
    requires !(typ == 0 && |args| == 3) && !(typ == 1 && |args| == 1) && !(typ == 2 && |args| == 2) && !(typ == 3 && |args| == 0)
    requires typ != 4
    ensures var got := Receive(Start, s, LoginMessage(uname, passwd) + MonitorReq.Frame(typ, args));
            got.1 == s && !got.0.registered && got.0.sent == [0]
  {
    var login, frame := LoginMessage(uname, passwd), MonitorReq.Frame(typ, args);
    var b := login + frame;
    LoginIsUnderstood(uname, passwd);
    RunConcat(MonitorAuth.Step, MonitorAuth.Start, login, frame);
    var first := HandleFirst(Start);
    assert Receive(Start, s, b) == Receive(first, s, b);
    var next := LoginReceived(first, s, b, 0, (uname, passwd), |login|);
    MonitorReq.FrameIsHandled(typ, args);
    RunSecondPart(MonitorReq.Step, MonitorReq.Start, login, frame, 0);
    RefusalReceived(next, s, b, |login|);
  }
}
