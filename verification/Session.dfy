/** A whole SOCKS session: the client state machine over its handlers, in every run. */
module Session {
  import opened Bytes
  import opened States
  import opened Users
  import opened Relay
  import Connect
  import opened Stm
  import opened AuthUtils
  import Auth
  import Hello
  import Request
  import RelayRuns

  const MAX_BUFFER: nat := 16384

  /** The number of a state, which is its position in the table. */
  function Num(st: ClientState): (n: nat)
    ensures n <= 10
  {
    match st
    case HELLO_READ => 0 case HELLO_WRITE => 1 case AUTH_READ => 2 case AUTH_WRITE => 3
    case REQUEST_READ => 4 case DNS_LOOKUP => 5 case DEST_CONNECT => 6 case REQUEST_WRITE => 7
    case FORWARDING => 8 case DONE => 9 case ERROR => 10
  }

  /** `client_states`: arrival, departure, read and write callbacks. */
  const ClientMachine := Machine(
    [ Row(0, true, false, true, false),
      Row(1, false, false, false, true),
      Row(2, true, false, true, false),
      Row(3, false, false, false, true),
      Row(4, true, false, true, false),
      Row(5, false, false, false, true),
      Row(6, false, false, false, true),
      Row(7, false, false, false, true),
      Row(8, true, false, true, true),
      Row(9, true, false, false, false),
      Row(10, true, false, false, false) ],
    0, 10)

  /** The union of the parsers. */
  datatype Slot =
    | NoParser
    | HelloParser(hello: Hello.Hello)
    | AuthParser(auth: Auth.Auth)
    | RequestParser(request: Request.Request, replyStatus: Byte)

  /** The result of a name lookup. */
  datatype Dns = DnsInProgress | DnsFailed | DnsResolved(addrs: seq<Connect.AddrInfo>)

  /** What `getsockname` says of the proxy's end of a connection: nothing, or the bytes of an address and a port. */
  datatype Bound = NoName | Inet(bytes: seq<Byte>) | Inet6(bytes: seq<Byte>) | OtherFamily

  /** What the world outside the session gives a handler. */
  datatype Env = Env(recv: Recv, send: Send, replySent: bool, errnoAgain: bool, users: seq<User>, accepted: AcceptedList,
                     lookupStarted: bool, dns: Dns, call: Connect.Call, bound: Bound)

  /** A descriptor of the session found ready for reading or writing. */
  datatype Event = Event(side: Side, read: bool, env: Env)

  /**
   * `client_t`: the current state, none before the first event, the lookup asked for, whether the session has been freed,
   * and the answers sent to the client whole.
   */
  datatype Session = Session(current: Option<ClientState>, slot: Slot, lookup: Option<Request.Target>, conn: Connect.Conn, relay: Relay,
                             freed: bool, sent: seq<Byte>)

  /** A session as `handle_read_master` registers it. */
  const Start := Session(None, NoParser, None, Connect.Start([]), Setup(MAX_BUFFER), false, [])

  /** The outcome of an event: the program aborts, or the session goes on. */
  datatype Outcome = Aborted | Alive(after: Session)

  /** The address list made for a literal destination. */
  function AddrOf(t: Request.Target): Connect.AddrInfo {
    Connect.AddrInfo(if t.atyp == Request.SOCKS_ATYP_IPV4 then 4 else 6, t.addr + [t.port / 256 % 256, t.port % 256])
  }

  /** The interest a reaction gives to the descriptor the handler was called on. */
  function React(s: Session, side: Side, r: Reaction): (Session, ClientState) {
    (if r.interest == None then s else s.(relay := s.relay.WithInterest(side, r.interest.value)), r.next)
  }

  /** `dns_lookup`. */
  function DnsLookup(s: Session, side: Side, dns: Dns): (Session, ClientState) {
    var s := s.(relay := s.relay.WithInterest(side, OP_WRITE));
    match dns
    case DnsInProgress => (s, DNS_LOOKUP)
    case DnsFailed => (s, ERROR)
    case DnsResolved(addrs) => (s.(conn := s.conn.(destAddr := addrs)), DEST_CONNECT)
  }

  /** `try_connect`: a new descriptor waits for writing, and so does the client once connected. */
  function TryConnectStep(s: Session, side: Side, call: Connect.Call): (Session, ClientState) {
    var (conn, p) := Connect.CallOn(s.conn, call);
    var relay := if conn.registered != call.registered then s.relay.(destInterest := OP_WRITE) else s.relay;
    var s := s.(conn := conn, relay := relay);
    match p
    case Pending => (s, DEST_CONNECT)
    case QueryError => (s.(relay := s.relay.WithInterest(side, OP_NOOP)), ERROR)
    case Exhausted => (s.(relay := s.relay.WithInterest(side, OP_WRITE)), ERROR)
    case Succeeded =>
      var s := s.(relay := s.relay.WithInterest(ClientSide, OP_WRITE));
      (if s.slot.RequestParser? then s.(slot := s.slot.(replyStatus := 0)) else s, REQUEST_WRITE)
  }

  /** An answer that is sent whole, or not. */
  function Sending(s: Session, bytes: seq<Byte>, replySent: bool): Session {
    if replySent then s.(sent := s.sent + bytes) else s
  }

  /** The answer to a request: version, status, a zero, and the address the proxy has at its end of the connection. */
  function ReplyBytes(status: Byte, destFd: int, bound: Bound): seq<Byte> {
    [5, status, 0] +
    if destFd == -1 || bound.NoName? then [1, 0, 0, 0, 0, 0, 0]
    else if bound.Inet? then [1] + bound.bytes
    else if bound.Inet6? then [4] + bound.bytes
    else []
  }

  /** `request_write`. */
  function RequestWrite(s: Session, side: Side, replyStatus: Byte, replySent: bool, bound: Bound): (Session, ClientState) {
    var s := Sending(s, ReplyBytes(replyStatus, s.conn.destFd, bound), replySent);
    if !replySent then (s.(relay := s.relay.WithInterest(side, OP_WRITE)), ERROR)
    else if replyStatus != Request.SOCKS_REPLY_SUCCESS || s.conn.destFd == -1 then
      (s.(relay := s.relay.(clientClosed := true, destClosed := true).WithInterest(side, OP_NOOP)), DONE)
    else (s.(relay := s.relay.(clientInterest := OP_READ, destInterest := OP_READ)), FORWARDING)
  }

  /** The union holds the parser the handler works on. */
  predicate SlotFits(s: Session, st: ClientState) {
    match st
    case HELLO_READ => s.slot.HelloParser?
    case HELLO_WRITE => s.slot.HelloParser?
    case AUTH_READ => s.slot.AuthParser?
    case AUTH_WRITE => s.slot.AuthParser?
    case REQUEST_READ => s.slot.RequestParser?
    case REQUEST_WRITE => s.slot.RequestParser?
    case _ => true
  }

  /** The socket calls of the handler keep their contract. */
  predicate CallsFit(s: Session, st: ClientState, e: Event) {
    match st
    case HELLO_READ => e.env.recv.Data? ==> |e.env.recv.bytes| == 1
    case AUTH_READ => e.env.recv.Data? ==> |e.env.recv.bytes| == 1
    case REQUEST_READ => e.env.recv.Data? ==> 1 <= |e.env.recv.bytes| <= 1024
    case FORWARDING => if e.read then RecvFits(s.relay, e.side, e.env.recv) else SendFits(s.relay, e.side, e.env.send)
    case _ => true
  }

  /** `hello_read`. */
  function HelloRead(s: Session, side: Side, env: Env): (Session, ClientState)
    requires s.slot.HelloParser? && (env.recv.Data? ==> |env.recv.bytes| == 1)
  {
    var (h, r) := Hello.Read(s.slot.hello, env.recv, env.errnoAgain, env.accepted);
    React(s.(slot := HelloParser(h)), side, r)
  }

  /** `auth_read`. */
  function AuthRead(s: Session, side: Side, env: Env): (Session, ClientState)
    requires s.slot.AuthParser? && (env.recv.Data? ==> |env.recv.bytes| == 1)
  {
    var (a, r) := Auth.Read(s.slot.auth, env.recv, env.errnoAgain, env.users);
    React(s.(slot := AuthParser(a)), side, r)
  }

  /** `request_read`. */
  function RequestRead(s: Session, side: Side, env: Env): (Session, ClientState)
    requires s.slot.RequestParser?
  {
    var (r, res) := Request.Read(s.slot.request, env.recv, env.errnoAgain, env.lookupStarted);
    var status := if res.status == None then s.slot.replyStatus else res.status.value;
    var addrs := if res.target.Some? && res.reaction.next == DEST_CONNECT then [AddrOf(res.target.value)]
                 else s.conn.destAddr;
    var lookup := if res.reaction.next == DNS_LOOKUP then res.target else s.lookup;
    React(s.(slot := RequestParser(r, status), lookup := lookup, conn := s.conn.(destAddr := addrs)), side, res.reaction)
  }

  /** `forward_read` and `forward_write`. */
  function Forward(s: Session, e: Event): (Session, ClientState)
    requires CallsFit(s, FORWARDING, e)
  {
    var (r, next) := if e.read then OnReadable(s.relay, e.side, e.env.recv, e.env.errnoAgain)
                     else OnWritable(s.relay, e.side, e.env.send, e.env.errnoAgain);
    (s.(relay := r), next)
  }

  /** The handler of the current state's row, which must be there and find its parser in the union. */
  function Handle(s: Session, st: ClientState, e: Event): (Session, ClientState)
    requires SlotFits(s, st) && CallsFit(s, st, e)
  {
    match st
    case HELLO_READ => HelloRead(s, e.side, e.env)
    case HELLO_WRITE =>
      React(Sending(s, [5, s.slot.hello.methodSelected], e.env.replySent), e.side, Hello.Write(s.slot.hello, e.env.replySent))
    case AUTH_READ => AuthRead(s, e.side, e.env)
    case AUTH_WRITE =>
      React(Sending(s, [1, s.slot.auth.authStatus], e.env.replySent), e.side, Auth.Write(s.slot.auth, e.env.replySent))
    case REQUEST_READ => RequestRead(s, e.side, e.env)
    case DNS_LOOKUP => DnsLookup(s, e.side, e.env.dns)
    case DEST_CONNECT => TryConnectStep(s, e.side, e.env.call)
    case REQUEST_WRITE => RequestWrite(s, e.side, s.slot.replyStatus, e.env.replySent, e.env.bound)
    case FORWARDING => Forward(s, e)
    case _ => (s, st)
  }

  /** The arrival callback of a state. */
  function Arrive(s: Session, st: ClientState): Session {
    match st
    case HELLO_READ => s.(slot := HelloParser(Hello.Start))
    case AUTH_READ => s.(slot := AuthParser(Auth.Start))
    case REQUEST_READ => s.(slot := RequestParser(Request.Start, 0))
    case FORWARDING => s.(relay := s.relay.(clientInterest := OP_READ, destInterest := OP_READ))
    case DONE => s.(freed := s.relay.Finished())
    case ERROR => s.(relay := Discard(s.relay), freed := Discard(s.relay).Finished())
    case _ => s
  }

  /** `handle_first`. */
  function HandleFirst(s: Session): Session {
    if s.current == None then Arrive(s.(current := Some(HELLO_READ)), HELLO_READ) else s
  }

  /** What the selector dispatches: a registered descriptor of a live session, for an interest it has. */
  predicate Dispatched(s: Session, e: Event) {
    && !s.freed
    && (e.side == RemoteSide ==> s.conn.destFd != -1)
    && (if e.read then s.relay.InterestOf(e.side).read else s.relay.InterestOf(e.side).write)
  }

  predicate Legal(s: Session, e: Event) {
    Dispatched(s, e) && CallsFit(HandleFirst(s), HandleFirst(s).current.value, e)
  }

  /** `jump`, with the arrival of a state other than the current one. */
  function JumpTo(s: Session, next: ClientState): Outcome {
    if Num(next) > ClientMachine.maxState then Aborted
    else if s.current == Some(next) then Alive(s)
    else Alive(Arrive(s.(current := Some(next)), next))
  }

  /** `stm_handler_read` and `stm_handler_write` on the session. */
  function Step(s: Session, e: Event): Outcome
    requires Legal(s, e)
  {
    var s := HandleFirst(s);
    var st := s.current.value;
    if !Handles(ClientMachine, Num(st), e.read) || !SlotFits(s, st) then Aborted
    else
      var (s', next) := Handle(s, st, e);
      JumpTo(s', next)
  }

  /** The state of a number of the table. */
  function StateOf(n: nat): (st: ClientState)
    ensures n <= 10 ==> Num(st) == n
  {
    if n == 0 then HELLO_READ else if n == 1 then HELLO_WRITE else if n == 2 then AUTH_READ
    else if n == 3 then AUTH_WRITE else if n == 4 then REQUEST_READ else if n == 5 then DNS_LOOKUP
    else if n == 6 then DEST_CONNECT else if n == 7 then REQUEST_WRITE else if n == 8 then FORWARDING
    else if n == 9 then DONE else ERROR
  }

  /** What one callback of the table does to the session. */
  function Effect(s: Session, cb: Callback, e: Event): Session {
    match cb
    case Arrival(n) => Arrive(s, StateOf(n))
    case Departure(_) => s
    case ReadReady(n) => if SlotFits(s, StateOf(n)) && CallsFit(s, StateOf(n), e) then Handle(s, StateOf(n), e).0 else s
    case WriteReady(n) => if SlotFits(s, StateOf(n)) && CallsFit(s, StateOf(n), e) then Handle(s, StateOf(n), e).0 else s
  }

  /** The callbacks in their order. */
  function Effects(s: Session, cbs: seq<Callback>, e: Event): Session
    decreases |cbs|
  {
    if cbs == [] then s else Effects(Effect(s, cbs[0], e), cbs[1..], e)
  }

  lemma {:induction false} EffectsAppend(s: Session, a: seq<Callback>, b: seq<Callback>, e: Event)
    ensures Effects(s, a + b, e) == Effects(Effects(s, a, e), b, e)
    decreases |a|
  {
    if a == [] {
      assert a + b == b;
    } else {
      assert (a + b)[1..] == a[1..] + b;
      EffectsAppend(Effect(s, a[0], e), a[1..], b, e);
    }
  }

  predicate LegalRun(s: Session, run: seq<Event>)
    decreases |run|
  {
    run == [] || (Legal(s, run[0]) && Step(s, run[0]).Alive? && LegalRun(Step(s, run[0]).after, run[1..]))
  }

  /** The session after the first `k` events of a run. */
  function StateAt(s: Session, run: seq<Event>, k: nat): Session
    requires LegalRun(s, run) && k <= |run|
    decreases k
  {
    if k == 0 then s else StateAt(Step(s, run[0]).after, run[1..], k - 1)
  }

  /** Nothing has been relayed yet. */
  predicate Untouched(r: Relay) {
    r == Setup(MAX_BUFFER).(clientInterest := r.clientInterest, destInterest := r.destInterest)
  }

  /** What every run keeps: the interests, the parser in the union and the destination that each state comes with. */
  ghost predicate Inv(s: Session) {
    match s.current
    case None => s == Start
    case Some(st) =>
      match st
      case HELLO_READ => Early(s, OP_READ) && s.slot.HelloParser?
      case HELLO_WRITE => Early(s, OP_WRITE) && s.slot.HelloParser?
      case AUTH_READ => Early(s, OP_READ) && s.slot.AuthParser?
      case AUTH_WRITE => Early(s, OP_WRITE) && s.slot.AuthParser?
      case REQUEST_READ => Early(s, OP_READ) && s.slot.RequestParser? && s.slot.replyStatus == 0
      case DNS_LOOKUP => Early(s, OP_WRITE) && s.slot.RequestParser? && s.slot.replyStatus == 0
      case DEST_CONNECT => Connecting(s) && s.slot.replyStatus == 0
      case REQUEST_WRITE => Connecting(s) && (s.slot.replyStatus != 0 ==> s.conn.destFd == -1)
      case FORWARDING => !s.freed && s.conn.destFd != -1
      case DONE => s.relay.clientClosed && s.relay.destClosed && s.freed == s.relay.Finished()
      case ERROR => s.freed
  }

  /** Before a destination: only the client's descriptor, with interest `i`. */
  ghost predicate Early(s: Session, i: Interest) {
    !s.freed && Untouched(s.relay) && s.relay.clientInterest == i && s.conn == Connect.Start([])
  }

  /** Both descriptors, if there are two, wait for writing. */
  ghost predicate Connecting(s: Session) {
    && !s.freed && Untouched(s.relay) && s.slot.RequestParser? && s.relay.clientInterest == OP_WRITE
    && (s.conn.destFd != -1 ==> s.relay.destInterest == OP_WRITE)
  }

  /** The table has a handler for every interest a state comes with, except in the two final states. */
  lemma InterestsHaveHandlers(s: Session, e: Event)
    requires Inv(s) && Legal(s, e)
    ensures var s1 := HandleFirst(s);
            s1.current.value != DONE ==> Handles(ClientMachine, Num(s1.current.value), e.read) && SlotFits(s1, s1.current.value)
  {
  }

  /** What a handler leaves behind for the state it returns. */
  ghost predicate Ready(s: Session, next: ClientState) {
    if s.current == Some(next) then Inv(s)
    else
      match next
      case HELLO_READ => false
      case HELLO_WRITE => Early(s, OP_WRITE) && s.slot.HelloParser?
      case AUTH_READ => Early(s, OP_READ)
      case AUTH_WRITE => Early(s, OP_WRITE) && s.slot.AuthParser?
      case REQUEST_READ => Early(s, OP_READ)
      case DNS_LOOKUP => Early(s, OP_WRITE) && s.slot.RequestParser? && s.slot.replyStatus == 0
      case DEST_CONNECT => Connecting(s) && s.slot.replyStatus == 0
      case REQUEST_WRITE => Connecting(s) && (s.slot.replyStatus != 0 ==> s.conn.destFd == -1)
      case FORWARDING => !s.freed && s.conn.destFd != -1
      case DONE => s.relay.clientClosed && s.relay.destClosed
      case ERROR => true
  }

  lemma JumpKeepsInv(s: Session, next: ClientState)
    requires s.current.Some? && Ready(s, next)
    ensures JumpTo(s, next).Alive? && Inv(JumpTo(s, next).after)
  {
    assert Discard(s.relay).Finished();
  }

  lemma HelloIsReady(s: Session, e: Event)
    requires Inv(s) && s.current in {Some(HELLO_READ), Some(HELLO_WRITE)} && CallsFit(s, s.current.value, e)
    requires e.side == ClientSide
    ensures var p := Handle(s, s.current.value, e); p.0.current == s.current && Ready(p.0, p.1)
  {
  }

  lemma AuthIsReady(s: Session, e: Event)
    requires Inv(s) && s.current in {Some(AUTH_READ), Some(AUTH_WRITE)} && CallsFit(s, s.current.value, e)
    requires e.side == ClientSide
    ensures var p := Handle(s, s.current.value, e); p.0.current == s.current && Ready(p.0, p.1)
  {
  }

  lemma RequestIsReady(s: Session, e: Event)
    requires Inv(s) && s.current == Some(REQUEST_READ) && CallsFit(s, REQUEST_READ, e)
    requires e.side == ClientSide
    ensures var p := Handle(s, REQUEST_READ, e); p.0.current == s.current && Ready(p.0, p.1)
  {
  }

  lemma LookupIsReady(s: Session, e: Event)
    requires Inv(s) && s.current == Some(DNS_LOOKUP) && CallsFit(s, DNS_LOOKUP, e) && e.side == ClientSide
    ensures var p := Handle(s, DNS_LOOKUP, e); p.0.current == s.current && Ready(p.0, p.1)
  {
  }

  lemma ConnectIsReady(s: Session, e: Event)
    requires Inv(s) && s.current == Some(DEST_CONNECT) && CallsFit(s, DEST_CONNECT, e)
    ensures var p := Handle(s, DEST_CONNECT, e); p.0.current == s.current && Ready(p.0, p.1)
  {
    Connect.TryConnectHasDescriptor(s.conn.(registered := e.env.call.registered), e.env.call.so, e.env.call.attempts);
  }

  lemma ReplyIsReady(s: Session, e: Event)
    requires Inv(s) && s.current == Some(REQUEST_WRITE) && CallsFit(s, REQUEST_WRITE, e)
    ensures var p := Handle(s, REQUEST_WRITE, e); p.0.current == s.current && Ready(p.0, p.1)
  {
  }

  lemma ForwardIsReady(s: Session, e: Event)
    requires Inv(s) && s.current == Some(FORWARDING) && CallsFit(s, FORWARDING, e)
    ensures var p := Handle(s, FORWARDING, e); p.0.current == s.current && Ready(p.0, p.1)
  {
  }

  lemma HandleIsReady(s: Session, e: Event)
    requires Inv(s) && s.current.Some? && s.current.value !in {DONE, ERROR} && SlotFits(s, s.current.value)
    requires Dispatched(s, e) && CallsFit(s, s.current.value, e)
    ensures var p := Handle(s, s.current.value, e); p.0.current == s.current && Ready(p.0, p.1)
  {
    match s.current.value
    case HELLO_READ => HelloIsReady(s, e);
    case HELLO_WRITE => HelloIsReady(s, e);
    case AUTH_READ => AuthIsReady(s, e);
    case AUTH_WRITE => AuthIsReady(s, e);
    case REQUEST_READ => RequestIsReady(s, e);
    case DNS_LOOKUP => LookupIsReady(s, e);
    case DEST_CONNECT => ConnectIsReady(s, e);
    case REQUEST_WRITE => ReplyIsReady(s, e);
    case FORWARDING => ForwardIsReady(s, e);
  }

  lemma FirstKeepsInv(s: Session, e: Event)
    requires Inv(s) && Dispatched(s, e)
    ensures Inv(HandleFirst(s)) && HandleFirst(s).current.Some? && Dispatched(HandleFirst(s), e)
  {
  }

  /** From a session the runs can reach, an event aborts the program exactly when the state is DONE. */
  lemma StepKeepsInv(s: Session, e: Event)
    requires Inv(s) && Legal(s, e)
    ensures Step(s, e).Alive? <==> s.current != Some(DONE)
    ensures Step(s, e).Alive? ==> Inv(Step(s, e).after)
  {
    FirstKeepsInv(s, e);
    var s1 := HandleFirst(s);
    var st := s1.current.value;
    if st != DONE {
      InterestsHaveHandlers(s, e);
      HandleIsReady(s1, e);
      var p := Handle(s1, st, e);
      JumpKeepsInv(p.0, p.1);
    }
  }

  function NumOf(current: Option<ClientState>): Option<nat> {
    if current == None then None else Some(Num(current.value))
  }

  lemma MachineIsValid()
    ensures ClientMachine.Valid()
  {
  }

  /** The move to the next state makes the callbacks of `jump`. */
  lemma {:induction false} JumpMakesCallbacks(s: Session, next: ClientState, e: Event)
    requires s.current.Some? && ClientMachine.Valid()
    ensures JumpTo(s, next)
         == Alive(Effects(s, JumpCallbacks(ClientMachine, Num(s.current.value), Num(next)), e).(current := Some(next)))
  {
    var from, to := Num(s.current.value), Num(next);
    assert StateOf(from) == s.current.value && StateOf(to) == next;
    if from == to {
      assert JumpCallbacks(ClientMachine, from, to) == [];
    } else {
      ArrivalMakesCallback(s, next, e);
    }
  }

  /** Of a move to another state only an arrival does anything. */
  lemma {:induction false} ArrivalMakesCallback(s: Session, next: ClientState, e: Event)
    requires s.current.Some? && s.current.value != next && ClientMachine.Valid()
    ensures Effects(s, JumpCallbacks(ClientMachine, Num(s.current.value), Num(next)), e) == Arrive(s, next)
  {
    var to := Num(next);
    assert StateOf(to) == next && StateOf(Num(s.current.value)) == s.current.value;
    var arrival: seq<Callback> := if ClientMachine.states[to].onArrival then [Arrival(to)] else [];
    assert JumpCallbacks(ClientMachine, Num(s.current.value), to) == [] + arrival == arrival;
    if arrival != [] {
      assert Effects(s, arrival, e) == Effect(s, arrival[0], e);
    }
  }

  /** The session once the engine has entered its first state, before any callback. */
  function Entered(s: Session): Session {
    if s.current == None then s.(current := Some(HELLO_READ)) else s
  }

  lemma {:induction false} FirstMakesCallbacks(s: Session, e: Event)
    requires ClientMachine.Valid()
    ensures HandleFirst(s) == Effects(Entered(s), FirstCallbacks(ClientMachine, NumOf(s.current)), e)
  {
    assert FirstCallbacks(ClientMachine, Some(0)) == [];
    if s.current == None {
      assert FirstCallbacks(ClientMachine, None) == [Arrival(0)];
      assert Effects(Entered(s), [Arrival(0)], e) == Effect(Entered(s), Arrival(0), e);
    }
  }

  lemma {:induction false} HandlerMakesCallback(s: Session, st: ClientState, e: Event)
    requires SlotFits(s, st) && CallsFit(s, st, e)
    ensures Effects(s, [if e.read then ReadReady(Num(st)) else WriteReady(Num(st))], e) == Handle(s, st, e).0
  {
    assert StateOf(Num(st)) == st;
    var cbs := [if e.read then ReadReady(Num(st)) else WriteReady(Num(st))];
    assert Effects(s, cbs, e) == Effect(s, cbs[0], e);
  }

  /**
   * An event of a session aborts exactly when the engine finds no handler, and otherwise does what the callbacks of the
   * engine do, in its order: the first arrival, the handler, and the callbacks of the move to the state it returns.
   */
  lemma {:induction false} StepMakesCallbacks(s: Session, e: Event)
    requires Inv(s) && Legal(s, e)
    ensures ClientMachine.Valid()
    ensures Step(s, e).Aborted? <==> !Handles(ClientMachine, First(ClientMachine, NumOf(s.current)), e.read)
    ensures Step(s, e).Alive? ==>
              var next := Step(s, e).after.current;
              Step(s, e).after == Effects(Entered(s), EventCallbacks(ClientMachine, NumOf(s.current), e.read, Num(next.value)), e)
                                  .(current := next)
  {
    MachineIsValid();
    StepKeepsInv(s, e);
    FirstKeepsInv(s, e);
    if Step(s, e).Alive? {
      InterestsHaveHandlers(s, e);
      var m, s1 := ClientMachine, HandleFirst(s);
      var st := s1.current.value;
      HandleIsReady(s1, e);
      var (s2, next) := Handle(s1, st, e);
      FirstMakesCallbacks(s, e);
      HandlerMakesCallback(s1, st, e);
      JumpMakesCallbacks(s2, next, e);
      var first, ready := FirstCallbacks(m, NumOf(s.current)), [if e.read then ReadReady(Num(st)) else WriteReady(Num(st))];
      EffectsAppend(Entered(s), first, ready, e);
      EffectsAppend(Entered(s), first + ready, JumpCallbacks(m, Num(st), Num(next)), e);
    }
  }

  /** A run one event longer. */
  lemma {:induction false} StateAtNext(s: Session, run: seq<Event>, k: nat)
    requires LegalRun(s, run) && k < |run|
    ensures Legal(StateAt(s, run, k), run[k]) && Step(StateAt(s, run, k), run[k]).Alive?
    ensures StateAt(s, run, k + 1) == Step(StateAt(s, run, k), run[k]).after
    decreases k
  {
    if k > 0 {
      assert run[1..][k - 1] == run[k];
      StateAtNext(Step(s, run[0]).after, run[1..], k - 1);
    }
  }

  /** A legal run with a point in it. */
  predicate HasPoint(s: Session, run: seq<Event>, k: nat) {
    LegalRun(s, run) && k <= |run|
  }

  ghost predicate InvAt(s: Session, run: seq<Event>, k: nat)
    requires HasPoint(s, run, k)
  {
    Inv(StateAt(s, run, k))
  }

  lemma {:induction false} FirstHasInv(s: Session, run: seq<Event>)
    requires Inv(s) && HasPoint(s, run, 0)
    ensures InvAt(s, run, 0)
  {
  }

  lemma {:induction false} NextHasInv(s: Session, run: seq<Event>, k: nat)
    requires HasPoint(s, run, k + 1) && InvAt(s, run, k)
    ensures InvAt(s, run, k + 1)
  {
    StateAtNext(s, run, k);
    StepKeepsInv(StateAt(s, run, k), run[k]);
  }

  lemma {:induction false} EachHasInv(s: Session, run: seq<Event>, k: nat)
    requires HasPoint(s, run, k) && InvAt(s, run, 0)
    ensures InvAt(s, run, k)
    decreases k
  {
    if k > 0 {
      EachHasInv(s, run, k - 1);
      NextHasInv(s, run, k - 1);
    }
  }

  lemma {:induction false} StateAtHasInv(s: Session, run: seq<Event>, k: nat)
    requires Inv(s) && LegalRun(s, run) && k <= |run|
    ensures Inv(StateAt(s, run, k))
  {
    FirstHasInv(s, run);
    EachHasInv(s, run, k);
  }

  /**
   * In every run, an event the selector dispatches aborts the program exactly when the session has come to DONE
   * without being freed, and that is when bytes are still waiting to be sent.
   */
  lemma {:induction false} AbortsExactlyInUnfinishedDone(run: seq<Event>, e: Event)
    requires LegalRun(Start, run) && Legal(StateAt(Start, run, |run|), e)
    ensures var s := StateAt(Start, run, |run|);
            && (Step(s, e).Aborted? <==> s.current == Some(DONE))
            && (s.current == Some(DONE) ==> s.relay.clientBuffer.CanRead() || s.relay.destinyBuffer.CanRead())
  {
    StateAtHasInv(Start, run, |run|);
    StepKeepsInv(StateAt(Start, run, |run|), e);
  }

  /** The methods of the greeting the client completes on this event, if it does. */
  ghost function OfferOn(s: Session, e: Event): Option<seq<Byte>> {
    var s1 := HandleFirst(s);
    if s1.current == Some(HELLO_READ) && s1.slot.HelloParser? && e.env.recv.Data? && |e.env.recv.bytes| == 1 then
      match Hello.Step(s1.slot.hello, e.env.recv.bytes[0])
      case Stop(Offered(methods)) => Some(methods)
      case _ => None
    else None
  }

  /** On this event the client completes a greeting that offers no authentication, which is found on the accepted list. */
  ghost predicate NoAuthChosen(s: Session, e: Event) {
    OfferOn(s, e).Some? && 0 in OfferOn(s, e).value && Scan(e.env.accepted.list, 0) == Yes
  }

  /** On this event it is not found on the list, but outside its array. */
  ghost predicate Strays(s: Session, e: Event) {
    && OfferOn(s, e).Some? && 0 in OfferOn(s, e).value
    && Scan(e.env.accepted.list, 0) == Outside && 0 in e.env.accepted.beyond
  }

  /** On this event the client completes its credentials, and the user table has them. */
  ghost predicate LoggedIn(s: Session, e: Event) {
    && s.current == Some(AUTH_READ) && s.slot.AuthParser? && e.env.recv.Data? && |e.env.recv.bytes| == 1
    && var v := Auth.Step(s.slot.auth, e.env.recv.bytes[0]);
       && v.Stop? && v.outcome.Credentials?
       && Apply(e.env.users, Login(v.outcome.uname, v.outcome.passwd)).1.status == USERS_OK
  }

  /** The states from the request on. */
  predicate PastTheGate(st: ClientState) {
    st in {REQUEST_READ, DNS_LOOKUP, DEST_CONNECT, REQUEST_WRITE, FORWARDING, DONE}
  }

  /** Past the gate, or with the answer that opens it still to be sent. */
  predicate Open(s: Session) {
    match s.current
    case None => false
    case Some(HELLO_WRITE) => s.slot.HelloParser? && s.slot.hello.methodSelected == 0
    case Some(AUTH_WRITE) => s.slot.AuthParser? && s.slot.auth.authStatus == Auth.AUTH_SUCCESS
    case Some(st) => PastTheGate(st)
  }

  lemma HelloOpens(s: Session, e: Event)
    requires Inv(s) && Legal(s, e) && HandleFirst(s).current == Some(HELLO_READ)
    requires Step(s, e).Alive? && Open(Step(s, e).after)
    ensures NoAuthChosen(s, e) || Strays(s, e)
  {
    var s1 := HandleFirst(s);
    var v := Hello.Step(s1.slot.hello, e.env.recv.bytes[0]);
    Hello.SelectsLargestCommon(e.env.accepted, v.outcome.methods);
  }

  lemma AuthOpens(s: Session, e: Event)
    requires Inv(s) && Legal(s, e) && s.current == Some(AUTH_READ)
    requires Step(s, e).Alive? && Open(Step(s, e).after)
    ensures LoggedIn(s, e)
  {
  }

  /** The gate opens only on a login, on an accepted greeting without authentication, or on a scan outside the list. */
  lemma StepOpens(s: Session, e: Event)
    requires Inv(s) && Legal(s, e) && !Open(s)
    requires Step(s, e).Alive? && Open(Step(s, e).after)
    ensures NoAuthChosen(s, e) || LoggedIn(s, e) || Strays(s, e)
  {
    var st := HandleFirst(s).current.value;
    if st == HELLO_READ {
      HelloOpens(s, e);
    } else if st == AUTH_READ {
      AuthOpens(s, e);
    }
  }

  /** The `j`-th event of the run lets the client in. */
  ghost predicate LetInAt(s: Session, run: seq<Event>, j: nat)
    requires LegalRun(s, run) && j < |run|
  {
    NoAuthChosen(StateAt(s, run, j), run[j]) || LoggedIn(StateAt(s, run, j), run[j])
  }

  /** The `j`-th event of the run lets the client in by a scan outside the list. */
  ghost predicate StraysAt(s: Session, run: seq<Event>, j: nat)
    requires LegalRun(s, run) && j < |run|
  {
    Strays(StateAt(s, run, j), run[j])
  }

  /** A run from a session that has just been accepted. */
  ghost predicate NewRun(s: Session, run: seq<Event>) {
    Inv(s) && !Open(s) && LegalRun(s, run)
  }

  ghost predicate OpenAt(s: Session, run: seq<Event>, k: nat)
    requires NewRun(s, run) && k <= |run|
  {
    Open(StateAt(s, run, k))
  }

  lemma LastStepOpens(s: Session, run: seq<Event>, k: nat)
    requires NewRun(s, run) && k < |run| && !OpenAt(s, run, k) && OpenAt(s, run, k + 1)
    ensures LetInAt(s, run, k) || StraysAt(s, run, k)
  {
    StateAtHasInv(s, run, k);
    StateAtNext(s, run, k);
    StepOpens(StateAt(s, run, k), run[k]);
  }

  lemma {:induction false} OpenSession(s: Session, run: seq<Event>, k: nat) returns (j: nat)
    requires NewRun(s, run) && k <= |run| && OpenAt(s, run, k)
    ensures j < k && (LetInAt(s, run, j) || StraysAt(s, run, j))
    decreases k
  {
    assert k > 0;
    if OpenAt(s, run, k - 1) {
      j := OpenSession(s, run, k - 1);
    } else {
      LastStepOpens(s, run, k - 1);
      j := k - 1;
    }
  }

  /**
   * In every run, a session that reaches the request has earlier been let in, on that same session, or a scan of the
   * accepted list has left its array, which it does only for a list of at least 128 methods.
   */
  lemma {:induction false} NobodyPassesUnauthenticated(run: seq<Event>, k: nat) returns (j: nat)
    requires LegalRun(Start, run) && k <= |run|
    requires var s := StateAt(Start, run, k); s.current.Some? && PastTheGate(s.current.value)
    ensures j < k && (LetInAt(Start, run, j) || StraysAt(Start, run, j))
    ensures |run[j].env.accepted.list| < INDEX_LIMIT ==> LetInAt(Start, run, j)
  {
    j := OpenSession(Start, run, k);
    ScanFinds(run[j].env.accepted.list, 0);
  }

  /** Only the answer to a request leads to forwarding. */
  lemma {:induction false} OnlyReplyForwards(s: Session, st: ClientState, e: Event)
    requires SlotFits(s, st) && CallsFit(s, st, e) && st != FORWARDING && Handle(s, st, e).1 == FORWARDING
    ensures st == REQUEST_WRITE
  {
  }

  lemma {:induction false} ReplyStartsFresh(s: Session, e: Event)
    requires Inv(s) && s.current == Some(REQUEST_WRITE) && CallsFit(s, REQUEST_WRITE, e)
    requires Handle(s, REQUEST_WRITE, e).1 == FORWARDING
    ensures var p := Handle(s, REQUEST_WRITE, e);
            p.0.relay == Setup(MAX_BUFFER) && p.0.conn.destFd != -1 && p.0.current == s.current
  {
  }

  /** A session that starts forwarding has a destination and a relay in its initial state. */
  lemma ForwardingStartsFresh(s: Session, e: Event)
    requires Inv(s) && Legal(s, e) && s.current != Some(FORWARDING)
    requires Step(s, e).Alive? && Step(s, e).after.current == Some(FORWARDING)
    ensures Step(s, e).after.relay == Setup(MAX_BUFFER) && Step(s, e).after.conn.destFd != -1
  {
    FirstKeepsInv(s, e);
    var s1 := HandleFirst(s);
    var st := s1.current.value;
    var (s2, next) := Handle(s1, st, e);
    assert next == FORWARDING;
    OnlyReplyForwards(s1, st, e);
    ReplyStartsFresh(s1, e);
  }

  /** And from then on each event of the session is an event of the relay. */
  lemma ForwardingIsRelaying(s: Session, e: Event)
    requires s.current == Some(FORWARDING) && Legal(s, e) && !s.freed
    requires e.read && e.env.recv.Data? && s.relay.From(e.side).CanWrite() ==> !s.relay.Closed(e.side)
    ensures var r := RelayRuns.Session(s.relay, FORWARDING, false);
            var re := if e.read then RelayRuns.Readable(e.side, e.env.recv, e.env.errnoAgain)
                      else RelayRuns.Writable(e.side, e.env.send, e.env.errnoAgain);
            && RelayRuns.Legal(r, re) && Step(s, e).Alive?
            && var (s', r') := (Step(s, e).after, RelayRuns.Step(r, re));
               s'.relay == r'.relay && s'.current == Some(r'.state) && s'.freed == r'.freed
  {
  }
}
