/** Where a request takes a session, byte by byte and address by address. */
module Destinations {
  import opened Bytes
  import opened States
  import opened Relay
  import opened Session
  import opened Negotiation
  import Connect
  import Selector
  import Request

  /** A session that begins to read its request. */
  ghost predicate AtRequest(s: Session) {
    Inv(s) && s.current == Some(REQUEST_READ) && s.slot.request == Request.Start
  }

  /** The session after the request has come, in any chunks. */
  lemma {:induction false} BytesLead(s: Session, env: Env, chunks: seq<seq<Byte>>)
    requires AtRequest(s) && ChunksFit(chunks)
    ensures ReachedBy(DeliverChunks(s, env, chunks), Request.ActualRequest(Request.Concat(chunks)), env.lookupStarted)
  {
    Request.RequestDecides(Request.Concat(chunks));
    Request.ChunksDoNotMatter(Request.Start, chunks);
    RequestDelivered(s, env, chunks);
  }

  /** The bytes begin with a request for a name, its length before it and a port after it. */
  predicate AsksForName(b: seq<Byte>, name: seq<Byte>, p: Byte, q: Byte) {
    var n := 5 + |name|;
    && 1 <= |name| <= 255 && n + 2 <= |b|
    && b[0] == 5 && b[1] == 1 && b[3] == 3 && b[4] == |name| && b[5..n] == name && b[n] == p && b[n + 1] == q
  }

  /** The decision on the bytes of a request. */
  ghost predicate DecidesOn(b: seq<Byte>, o: Request.Outcome) {
    Request.ActualRequest(b).Some? && Request.ActualRequest(b).value.0 == o
  }

  /** The bytes lead where their decision does. */
  lemma {:induction false} BytesLeadTo(s: Session, env: Env, chunks: seq<seq<Byte>>, o: Request.Outcome)
    requires AtRequest(s) && ChunksFit(chunks)
    requires DecidesOn(Request.Concat(chunks), o)
    ensures Reached(DeliverChunks(s, env, chunks), o, env.lookupStarted)
  {
    BytesLead(s, env, chunks);
  }

  /** A literal address in the bytes of a request. */
  lemma {:induction false} LiteralIsParsed(b: seq<Byte>, rsv: Byte, atyp: Byte, addr: seq<Byte>, p: Byte, q: Byte, rest: seq<Byte>)
    requires b == [5, 1, rsv, atyp] + addr + [p, q] + rest && (if atyp == 1 then |addr| == 4 else atyp == 4 && |addr| == 16)
    ensures DecidesOn(b, Request.Parsed(atyp, addr, p as nat * 256 + q as nat))
  {
    var n := 4 + |addr|;
    assert b[4..n] == addr && b[n] == p && b[n + 1] == q && b[3] == atyp;
  }

  lemma {:induction false} NameIsParsed(b: seq<Byte>, name: seq<Byte>, p: Byte, q: Byte)
    requires AsksForName(b, name, p, q)
    ensures DecidesOn(b, Request.Parsed(3, name, p as nat * 256 + q as nat))
  {
  }

  /** The address to connect to has the two bytes of the port. */
  lemma {:induction false} AddressHasPort(atyp: Byte, addr: seq<Byte>, p: Byte, q: Byte)
    requires atyp == 1 || atyp == 4
    ensures AddrOf(Request.Target(atyp, addr, p as nat * 256 + q as nat))
         == Connect.AddrInfo(if atyp == 1 then 4 else 6, addr + [p, q])
  {
    var port := p as nat * 256 + q as nat;
    assert port / 256 == p as nat && port % 256 == q as nat;
  }

  /** A literal address is the only one to connect to, with the port of the request. */
  lemma {:induction false} LiteralIsConnectedTo(t: Session, atyp: Byte, addr: seq<Byte>, p: Byte, q: Byte, lookupStarted: bool)
    requires atyp == 1 || atyp == 4
    requires Reached(t, Request.Parsed(atyp, addr, p as nat * 256 + q as nat), lookupStarted)
    ensures t.current == Some(DEST_CONNECT) && t.conn.destFd == -1
    ensures t.conn.destAddr == [Connect.AddrInfo(if atyp == 1 then 4 else 6, addr + [p, q])]
  {
    AddressHasPort(atyp, addr, p, q);
  }

  /** A request for an IPv4 address connects to that address and port. */
  lemma {:induction false} Ipv4IsConnectedTo(s: Session, env: Env, chunks: seq<seq<Byte>>, rsv: Byte, addr: seq<Byte>,
                                             p: Byte, q: Byte, rest: seq<Byte>)
    requires AtRequest(s) && ChunksFit(chunks)
    requires |addr| == 4 && Request.Concat(chunks) == [5, 1, rsv, 1] + addr + [p, q] + rest
    ensures var t := DeliverChunks(s, env, chunks);
            t.current == Some(DEST_CONNECT) && t.conn.destFd == -1 && t.conn.destAddr == [Connect.AddrInfo(4, addr + [p, q])]
  {
    LiteralIsParsed(Request.Concat(chunks), rsv, 1, addr, p, q, rest);
    BytesLeadTo(s, env, chunks, Request.Parsed(1, addr, p as nat * 256 + q as nat));
    LiteralIsConnectedTo(DeliverChunks(s, env, chunks), 1, addr, p, q, env.lookupStarted);
  }

  /** And so does one for an IPv6 address. */
  lemma {:induction false} Ipv6IsConnectedTo(s: Session, env: Env, chunks: seq<seq<Byte>>, rsv: Byte, addr: seq<Byte>,
                                             p: Byte, q: Byte, rest: seq<Byte>)
    requires AtRequest(s) && ChunksFit(chunks)
    requires |addr| == 16 && Request.Concat(chunks) == [5, 1, rsv, 4] + addr + [p, q] + rest
    ensures var t := DeliverChunks(s, env, chunks);
            t.current == Some(DEST_CONNECT) && t.conn.destFd == -1 && t.conn.destAddr == [Connect.AddrInfo(6, addr + [p, q])]
  {
    LiteralIsParsed(Request.Concat(chunks), rsv, 4, addr, p, q, rest);
    BytesLeadTo(s, env, chunks, Request.Parsed(4, addr, p as nat * 256 + q as nat));
    LiteralIsConnectedTo(DeliverChunks(s, env, chunks), 4, addr, p, q, env.lookupStarted);
  }

  /** The session looks up the name, or tells the client that the host is unreachable. */
  ghost predicate LooksUpOrRefuses(t: Session, name: seq<Byte>, port: nat, lookupStarted: bool) {
    if lookupStarted then t.current == Some(DNS_LOOKUP) && t.lookup == Some(Request.Target(3, CString(name), port))
    else t.current == Some(REQUEST_WRITE) && t.slot.RequestParser? && t.slot.replyStatus == 4
  }

  /** A name that has been parsed is looked up as its C string, or refused with status 4. */
  lemma {:induction false} NameReaches(t: Session, name: seq<Byte>, port: nat, lookupStarted: bool)
    requires Reached(t, Request.Parsed(3, name, port), lookupStarted)
    ensures LooksUpOrRefuses(t, name, port, lookupStarted)
  {
  }

  lemma {:induction false} NameLeads(s: Session, env: Env, chunks: seq<seq<Byte>>, name: seq<Byte>, port: nat)
    requires AtRequest(s) && ChunksFit(chunks) && DecidesOn(Request.Concat(chunks), Request.Parsed(3, name, port))
    ensures LooksUpOrRefuses(DeliverChunks(s, env, chunks), name, port, env.lookupStarted)
  {
    BytesLeadTo(s, env, chunks, Request.Parsed(3, name, port));
    NameReaches(DeliverChunks(s, env, chunks), name, port, env.lookupStarted);
  }

  /** A request for a name: its C string and the port are looked up, or the client is told that the host is unreachable. */
  lemma {:induction false} NameIsLookedUp(s: Session, env: Env, chunks: seq<seq<Byte>>, name: seq<Byte>, p: Byte, q: Byte)
    requires AtRequest(s) && ChunksFit(chunks) && AsksForName(Request.Concat(chunks), name, p, q)
    ensures LooksUpOrRefuses(DeliverChunks(s, env, chunks), name, p as nat * 256 + q as nat, env.lookupStarted)
  {
    var port := p as nat * 256 + q as nat;
    assert DecidesOn(Request.Concat(chunks), Request.Parsed(3, name, port)) by {
      NameIsParsed(Request.Concat(chunks), name, p, q);
    }
    NameLeads(s, env, chunks, name, port);
  }

  /** What cannot be served: another version, another command, another type of address. */
  lemma {:induction false} OthersAreRefused(s: Session, env: Env, chunks: seq<seq<Byte>>)
    requires AtRequest(s) && ChunksFit(chunks)
    ensures var b, t := Request.Concat(chunks), DeliverChunks(s, env, chunks);
            && (|b| >= 1 && b[0] != 5 ==>
                  t.current == Some(REQUEST_WRITE) && t.slot.RequestParser? && t.slot.replyStatus == 1)
            && (|b| >= 2 && b[0] == 5 && b[1] != 1 ==>
                  t.current == Some(REQUEST_WRITE) && t.slot.RequestParser? && t.slot.replyStatus == 7)
            && (|b| >= 4 && b[0] == 5 && b[1] == 1 && b[3] !in {1, 3, 4} ==> t.current == Some(ERROR))
  {
    BytesLead(s, env, chunks);
  }

  /** Version 5, the status, a zero, and the proxy's own address and port, of type 1 or 4, or six zeros of type 1. */
  function Answer(status: Byte, destFd: int, bound: Bound): seq<Byte> {
    if destFd == -1 then [5, status, 0, 1, 0, 0, 0, 0, 0, 0]
    else
      match bound
      case NoName => [5, status, 0, 1, 0, 0, 0, 0, 0, 0]
      case Inet(bytes) => [5, status, 0, 1] + bytes
      case Inet6(bytes) => [5, status, 0, 4] + bytes
      case OtherFamily => [5, status, 0]
  }

  lemma {:induction false} AnswerIsReply(status: Byte, destFd: int, bound: Bound)
    ensures ReplyBytes(status, destFd, bound) == Answer(status, destFd, bound)
  {
  }

  /** A refusal ends the session once it is sent; success starts forwarding, both sides waiting for input. */
  lemma {:induction false} ReplyDecides(s: Session, e: Event)
    requires Inv(s) && Legal(s, e) && s.current == Some(REQUEST_WRITE)
    ensures Step(s, e).Alive?
    ensures var t := Step(s, e).after;
            if !e.env.replySent then t.current == Some(ERROR) && t.freed
            else
              && t.sent == s.sent + Answer(s.slot.replyStatus, s.conn.destFd, e.env.bound)
              && (if s.slot.replyStatus != 0 || s.conn.destFd == -1 then t.current == Some(DONE) && t.freed
                  else t.current == Some(FORWARDING) && t.relay == Setup(MAX_BUFFER) && t.conn == s.conn)
  {
    StepKeepsInv(s, e);
    AnswerIsReply(s.slot.replyStatus, s.conn.destFd, e.env.bound);
  }

  /** The end of a lookup: the session connects to exactly the addresses found, or ends. */
  lemma {:induction false} LookupEnds(s: Session, e: Event)
    requires Inv(s) && Legal(s, e) && s.current == Some(DNS_LOOKUP)
    ensures Step(s, e).Alive?
    ensures var t := Step(s, e).after;
            match e.env.dns
            case DnsInProgress => t == s
            case DnsFailed => t.current == Some(ERROR) && t.freed
            case DnsResolved(addrs) => t.current == Some(DEST_CONNECT) && t.conn == Connect.Start(addrs)
  {
    StepKeepsInv(s, e);
  }

  /** A run all of whose events come while the session connects. */
  predicate IsConnecting(s: Session, run: seq<Event>)
    decreases |run|
  {
    run == [] || (s.current == Some(DEST_CONNECT) && Legal(s, run[0]) && Step(s, run[0]).Alive?
                  && IsConnecting(Step(s, run[0]).after, run[1..]))
  }

  function After(s: Session, run: seq<Event>): Session
    requires IsConnecting(s, run)
    decreases |run|
  {
    if run == [] then s else After(Step(s, run[0]).after, run[1..])
  }

  function CallsOf(run: seq<Event>): (calls: seq<Connect.Call>)
    ensures |calls| == |run| && forall i :: 0 <= i < |run| ==> calls[i] == run[i].env.call
  {
    seq(|run|, i requires 0 <= i < |run| => run[i].env.call)
  }

  /** The state a result of the calls stands for. */
  ghost predicate Stands(t: Session, p: Connect.Progress) {
    match p
    case Pending => t.current == Some(DEST_CONNECT)
    case Succeeded => t.current == Some(REQUEST_WRITE) && t.slot.RequestParser? && t.slot.replyStatus == 0
    case Exhausted => t.current == Some(ERROR) && t.freed
    case QueryError => t.current == Some(ERROR) && t.freed
  }

  lemma {:induction false} EventIsCall(s: Session, e: Event)
    requires Inv(s) && Legal(s, e) && s.current == Some(DEST_CONNECT)
    ensures Step(s, e).Alive? && Inv(Step(s, e).after)
    ensures var (c, p) := Connect.CallOn(s.conn, e.env.call);
            Step(s, e).after.conn == c && Stands(Step(s, e).after, p)
  {
    StepKeepsInv(s, e);
  }

  /**
   * The events of a session that connects are the calls of its connection: the answer with success is reached exactly
   * when they end in success, and the error exactly when they end without.
   */
  lemma {:induction false} EventsAreCalls(s: Session, run: seq<Event>)
    requires Inv(s) && s.current == Some(DEST_CONNECT) && IsConnecting(s, run)
    ensures var (c, p) := Connect.Calls(s.conn, CallsOf(run));
            After(s, run).conn == c && Stands(After(s, run), p)
    decreases |run|
  {
    if run != [] {
      EventIsCall(s, run[0]);
      var s1 := Step(s, run[0]).after;
      assert CallsOf(run)[0] == run[0].env.call && CallsOf(run)[1..] == CallsOf(run[1..]);
      if run[1..] != [] {
        EventsAreCalls(s1, run[1..]);
      }
    }
  }

  /**
   * From the end of a lookup on, a session tries the addresses found in their order, each once, and ends in an error
   * only after all of them or on a failed query of the connection.
   */
  lemma {:induction false} ResolvedAddressesAreTried(s: Session, addrs: seq<Connect.AddrInfo>, run: seq<Event>)
    requires Inv(s) && s.current == Some(DEST_CONNECT) && s.conn == Connect.Start(addrs) && IsConnecting(s, run)
    ensures var t := After(s, run);
            && t.conn.tried <= addrs
            && (t.current == Some(REQUEST_WRITE) ==>
                  t.conn.tried != [] && t.conn.destAddr != []
                  && t.conn.tried[|t.conn.tried| - 1] == t.conn.destAddr[0])
            && (t.current == Some(ERROR) ==> t.conn.tried == addrs || exists i :: 0 <= i < |run| && run[i].env.call.so.QueryFailed?)
  {
    EventsAreCalls(s, run);
    Connect.AddressesAreTriedInOrder(addrs, CallsOf(run));
    if Connect.Calls(s.conn, CallsOf(run)).1 == Connect.QueryError {
      Connect.QueryErrorIsReported(s.conn, CallsOf(run));
    }
  }

  /** What the connection takes for registering is what the selector does with a client's handler. */
  lemma {:induction false} RegistersAsSelector(t: Selector.Table, fd: int, handler: nat, data: int)
    requires handler != 0
    ensures Connect.Registers(t.Keys, fd)
       <==> Selector.Apply(t, Selector.Register(fd, handler, OP_WRITE, data)).1 == Selector.SELECTOR_SUCCESS
  {
    Selector.RegisterChangesOne(t, fd, handler, OP_WRITE, data);
  }
}
