/** src/server/request.c: the incremental parser of the SOCKS request. */
module Request {
  import opened Bytes
  import opened Feeding
  import opened States
  import opened ParserEngine

  const SOCKS_ATYP_IPV4: Byte := 0x01
  const SOCKS_ATYP_DOMAINNAME: Byte := 0x03
  const SOCKS_ATYP_IPV6: Byte := 0x04
  const CMD_CONNECT: Byte := 0x01

  const SOCKS_REPLY_SUCCESS: Byte := 0x00
  const SOCKS_REPLY_GENERAL_FAILURE: Byte := 0x01
  const SOCKS_REPLY_HOST_UNREACHABLE: Byte := 0x04
  const SOCKS_REPLY_CMD_NOT_SUPPORTED: Byte := 0x07
  const SOCKS_REPLY_ATYP_NOT_SUPPORTED: Byte := 0x08

  /** The array for an address, with the byte after it: the first of the IPv4 address, which a domain name does not use. */
  const ADDR_ROOM: nat := 256
  const IPV4_LEN: nat := 4
  const IPV6_LEN: nat := 16

  // States and events of the parser share their numbers.
  const REQUEST_STATE_VER: nat := 0
  const REQUEST_STATE_CMD: nat := 1
  const REQUEST_STATE_RSV: nat := 2
  const REQUEST_STATE_ATYP: nat := 3
  const REQUEST_STATE_DSTADDR_IPV4: nat := 4
  const REQUEST_STATE_DSTADDR_IPV6: nat := 5
  const REQUEST_STATE_DSTADDR_DOMAINNAME: nat := 6
  const REQUEST_STATE_DSTPORT: nat := 7
  const REQUEST_STATE_FIN: nat := 8
  const REQUEST_STATE_ERROR: nat := 9

  /** A status code, not a state: the table sends an unknown address type to the row of this number. */
  const REQUEST_ATYP_ERROR: nat := 2

  const RequestDef := Definition(
    [ [Transition(ANY, REQUEST_STATE_CMD, Action(REQUEST_STATE_VER, true), None)],
      [Transition(ANY, REQUEST_STATE_RSV, Action(REQUEST_STATE_CMD, true), None)],
      [Transition(ANY, REQUEST_STATE_ATYP, Action(REQUEST_STATE_RSV, true), None)],
      [Transition(SOCKS_ATYP_IPV4, REQUEST_STATE_DSTADDR_IPV4, Action(REQUEST_STATE_ATYP, true), None),
       Transition(SOCKS_ATYP_IPV6, REQUEST_STATE_DSTADDR_IPV6, Action(REQUEST_STATE_ATYP, true), None),
       Transition(SOCKS_ATYP_DOMAINNAME, REQUEST_STATE_DSTADDR_DOMAINNAME, Action(REQUEST_STATE_ATYP, true), None),
       Transition(ANY, REQUEST_ATYP_ERROR, Action(REQUEST_STATE_ERROR, false), None)],
      [Transition(ANY, REQUEST_STATE_DSTADDR_IPV4, Action(REQUEST_STATE_DSTADDR_IPV4, true), None)],
      [Transition(ANY, REQUEST_STATE_DSTADDR_IPV6, Action(REQUEST_STATE_DSTADDR_IPV6, true), None)],
      [Transition(ANY, REQUEST_STATE_DSTADDR_DOMAINNAME, Action(REQUEST_STATE_DSTADDR_DOMAINNAME, true), None)],
      [Transition(ANY, REQUEST_STATE_DSTPORT, Action(REQUEST_STATE_DSTPORT, true), None)],
      [Transition(ANY, REQUEST_STATE_FIN, Action(REQUEST_STATE_FIN, false), None)],
      [Transition(ANY, REQUEST_STATE_ERROR, Action(REQUEST_STATE_ERROR, false), None)] ],
    REQUEST_STATE_VER)

  /** The fields of `request_parser_t`, with the address bytes read so far. */
  datatype Request = Request(state: nat, atyp: Byte, addrLen: Byte, addr: seq<Byte>, portRead: nat, port: nat)

  /** How parsing ends: with a refusal to be sent, with an error, or with a destination. */
  datatype Outcome = Reply(status: Byte) | Failed | Parsed(atyp: Byte, addr: seq<Byte>, port: nat)

  const Start := Request(REQUEST_STATE_VER, 0, 0, [], 0, 0)

  /** The state a state leads to on a byte. */
  function Dest(st: nat, c: Byte): nat {
    if st < REQUEST_STATE_ATYP then st + 1
    else if st > REQUEST_STATE_ATYP then st
    else if c == SOCKS_ATYP_IPV4 then REQUEST_STATE_DSTADDR_IPV4
    else if c == SOCKS_ATYP_IPV6 then REQUEST_STATE_DSTADDR_IPV6
    else if c == SOCKS_ATYP_DOMAINNAME then REQUEST_STATE_DSTADDR_DOMAINNAME
    else REQUEST_ATYP_ERROR
  }

  /** The event a state reports on a byte: its own number, except for an unknown address type. */
  function EventOf(st: nat, c: Byte): nat {
    if st == REQUEST_STATE_ATYP && c !in {SOCKS_ATYP_IPV4, SOCKS_ATYP_IPV6, SOCKS_ATYP_DOMAINNAME}
    then REQUEST_STATE_ERROR else st
  }

  /** The engine takes these transitions of the table. */
  lemma {:induction false} TableTransits(st: nat, c: Byte)
    requires st < |RequestDef.states|
    ensures var t := FirstMatch(RequestDef.states[st], c);
            t.Some? && t.value.dest == Dest(st, c) && t.value.act2 == None
            && t.value.act1 == Action(EventOf(st, c), EventOf(st, c) < REQUEST_STATE_FIN)
  {
    if st == REQUEST_STATE_ATYP {
      var row := RequestDef.states[st];
      assert row[1..][0] == row[1] && row[2..][0] == row[2] && row[3..][0] == row[3];
      if c != 1 {
        FirstMatchSkips(row, c, 1);
        if c != 4 {
          FirstMatchSkips(row, c, 2);
          if c != 3 {
            FirstMatchSkips(row, c, 3);
          }
        }
      }
    }
  }

  /** What one byte of the request does. */
  function Step(r: Request, c: Byte): Verdict<Request, Outcome> {
    OnEvent(r.(state := Dest(r.state, c)), EventOf(r.state, c), c)
  }

  /** The handling of the event reported for byte `c`. */
  function OnEvent(r: Request, event: nat, c: Byte): Verdict<Request, Outcome> {
    if event == REQUEST_STATE_FIN then Stop(Parsed(r.atyp, r.addr, r.port))
    else if event == REQUEST_STATE_CMD then
      if c != CMD_CONNECT then Stop(Reply(SOCKS_REPLY_CMD_NOT_SUPPORTED)) else Go(r)
    else if event == REQUEST_STATE_ATYP then
      if c !in {SOCKS_ATYP_IPV4, SOCKS_ATYP_IPV6, SOCKS_ATYP_DOMAINNAME} then Stop(Reply(SOCKS_REPLY_ATYP_NOT_SUPPORTED))
      else Go(r.(atyp := c))
    else if event == REQUEST_STATE_DSTADDR_IPV4 then Go(AddAddr(r, IPV4_LEN, c))
    else if event == REQUEST_STATE_DSTADDR_IPV6 then Go(AddAddr(r, IPV6_LEN, c))
    else if event == REQUEST_STATE_DSTADDR_DOMAINNAME then
      if r.addrLen == 0 then Go(r.(addrLen := c)) else Go(AddAddr(r, r.addrLen, c))
    else if event == REQUEST_STATE_DSTPORT then
      if r.portRead == 0 then Go(r.(port := c as nat * 256, portRead := 1))
      else
        var r := r.(port := r.port + c, portRead := 2, state := REQUEST_STATE_FIN);
        // The parser is fed a byte of its own to report the end.
        var end := EventOf(REQUEST_STATE_FIN, 0);
        if end == REQUEST_STATE_FIN then Stop(Parsed(r.atyp, r.addr, r.port))
        else if end == REQUEST_STATE_ERROR then Stop(Failed)
        else Go(r)
    else if event == REQUEST_STATE_VER then
      if c != 5 then Stop(Reply(SOCKS_REPLY_GENERAL_FAILURE)) else Go(r)
    else if event == REQUEST_STATE_RSV then Go(r)
    else Stop(Failed)
  }

  /** One more byte of an address of `len` bytes; the port comes after the last one. */
  function AddAddr(r: Request, len: nat, c: Byte): Request {
    var addr := if |r.addr| < len then r.addr + [c] else r.addr;
    r.(addr := addr, state := if |addr| == len then REQUEST_STATE_DSTPORT else r.state)
  }

  /** `n` address bytes at position `i` and the two bytes of the port, most significant first. */
  function AddrAndPort(atyp: Byte, b: seq<Byte>, i: nat, n: nat): Option<(Outcome, nat)> {
    if |b| < i + n + 2 then None
    else Some((Parsed(atyp, b[i..i + n], b[i + n] as nat * 256 + b[i + n + 1] as nat), i + n + 2))
  }

  /** Version, command and address type; `domain` reads a domain name from position 4 on. */
  function Request5(b: seq<Byte>, domain: seq<Byte> -> Option<(Outcome, nat)>): Option<(Outcome, nat)> {
    if |b| >= 1 && b[0] != 5 then Some((Reply(0x01), 1))
    else if |b| >= 2 && b[1] != 1 then Some((Reply(0x07), 2))
    else if |b| < 4 then None
    else if b[3] == 1 then AddrAndPort(b[3], b, 4, 4)
    else if b[3] == 4 then AddrAndPort(b[3], b, 4, 16)
    else if b[3] == 3 then domain(b)
    else Some((Failed, 4))
  }

  /** A domain name in RFC 1928: a length byte and that many bytes. */
  function RfcDomain(b: seq<Byte>): Option<(Outcome, nat)> {
    if |b| < 5 then None else AddrAndPort(3, b, 5, b[4])
  }

  /** Section 4 of RFC 1928 on a whole prefix. */
  function Rfc1928Request(b: seq<Byte>): Option<(Outcome, nat)> {
    Request5(b, RfcDomain)
  }

  /** A domain name as the parser reads it: zero bytes before the length are skipped. */
  function SkippingDomain(b: seq<Byte>, i: nat): Option<(Outcome, nat)>
    decreases |b| - i
  {
    if |b| <= i then None
    else if b[i] == 0 then SkippingDomain(b, i + 1)
    else AddrAndPort(3, b, i + 1, b[i])
  }

  /** The request as the parser reads it. */
  function ActualRequest(b: seq<Byte>): Option<(Outcome, nat)> {
    Request5(b, b => SkippingDomain(b, 4))
  }

  /** The length of the address being read. */
  function Need(r: Request): nat {
    if r.state == REQUEST_STATE_DSTADDR_IPV4 then IPV4_LEN
    else if r.state == REQUEST_STATE_DSTADDR_IPV6 then IPV6_LEN
    else r.addrLen
  }

  ghost predicate InAddr(r: Request) {
    && REQUEST_STATE_DSTADDR_IPV4 <= r.state <= REQUEST_STATE_DSTADDR_DOMAINNAME
    && |r.addr| < Need(r) && r.portRead == 0
  }

  /** The state once `bytes` have been added to the address. */
  function AddrRead(r: Request, bytes: seq<Byte>): Request {
    var addr := r.addr + bytes;
    r.(addr := addr, state := if |addr| == Need(r) then REQUEST_STATE_DSTPORT else r.state)
  }

  /** One byte of the address. */
  lemma AddrStep(r: Request, c: Byte)
    requires InAddr(r)
    ensures Step(r, c) == Go(AddrRead(r, [c]))
  {
  }

  /** Bytes of the address, up to its last one. */
  lemma {:induction false} AddrRun(r: Request, b: seq<Byte>, i: nat)
    requires InAddr(r) && i < |b| <= i + Need(r) - |r.addr|
    ensures Run(Step, r, b, i) == More(AddrRead(r, b[i..]))
    decreases |b| - i
  {
    AddrStep(r, b[i]);
    var r' := AddrRead(r, [b[i]]);
    assert Run(Step, r, b, i) == Run(Step, r', b, i + 1);
    assert b[i..] == [b[i]] + b[i + 1..];
    if i + 1 < |b| {
      AddrRun(r', b, i + 1);
      AddrReadOn(r, b[i], b[i + 1..]);
    } else {
      assert b[i..] == [b[i]];
    }
  }

  lemma {:induction false} AddrReadOn(r: Request, c: Byte, rest: seq<Byte>)
    requires |r.addr| + 1 < Need(r) && REQUEST_STATE_DSTADDR_IPV4 <= r.state <= REQUEST_STATE_DSTADDR_DOMAINNAME
    ensures AddrRead(AddrRead(r, [c]), rest) == AddrRead(r, [c] + rest)
  {
    assert (r.addr + [c]) + rest == r.addr + ([c] + rest);
  }

  /** The two bytes of the port decide. */
  lemma PortRun(r: Request, b: seq<Byte>, i: nat)
    requires r.state == REQUEST_STATE_DSTPORT && r.portRead == 0 && i <= |b|
    ensures if |b| < i + 2 then Run(Step, r, b, i).More?
            else Run(Step, r, b, i) == Done(Parsed(r.atyp, r.addr, b[i] as nat * 256 + b[i + 1] as nat), i + 2)
  {
    if i < |b| {
    }
  }

  /** An address of known length and the port. */
  lemma {:induction false} AddrAndPortRun(r: Request, b: seq<Byte>, i: nat)
    requires InAddr(r) && r.addr == [] && i <= |b|
    ensures Run(Step, r, b, i).Decision() == AddrAndPort(r.atyp, b, i, Need(r))
  {
    var j := i + Need(r);
    if |b| >= j {
      AddrRun(r, b[..j], i);
      assert b[..j][i..] == b[i..j];
      RunPast(Step, r, b, i, j);
      var r' := AddrRead(r, b[i..j]);
      assert r'.addr == b[i..j] && r'.state == REQUEST_STATE_DSTPORT;
      PortRun(r', b, j);
    } else if i < |b| {
      AddrRun(r, b, i);
    }
  }

  /** A domain name: zero bytes are skipped until a length comes. */
  lemma {:induction false} DomainRun(r: Request, b: seq<Byte>, i: nat)
    requires r.state == REQUEST_STATE_DSTADDR_DOMAINNAME && r.addr == [] && r.addrLen == 0 && r.portRead == 0
    requires r.atyp == 3 && i <= |b|
    ensures Run(Step, r, b, i).Decision() == SkippingDomain(b, i)
    decreases |b| - i
  {
    if i < |b| {
      if b[i] == 0 {
        assert r.(addrLen := b[i]) == r;
        DomainRun(r, b, i + 1);
      } else {
        AddrAndPortRun(r.(addrLen := b[i]), b, i + 1);
      }
    }
  }

  /** Fed byte by byte, the parser decides what `ActualRequest` says, on the byte that settles it. */
  lemma {:induction false} RequestDecides(b: seq<Byte>)
    ensures Run(Step, Start, b).Decision() == ActualRequest(b)
  {
    if |b| >= 2 && b[0] == 5 {
      if b[1] == 1 {
        AfterConnect(b);
      }
    }
  }

  /** The part of the request after version and command. */
  lemma {:induction false} AfterConnect(b: seq<Byte>)
    requires |b| >= 2 && b[0] == 5 && b[1] == 1
    ensures Run(Step, Start.(state := REQUEST_STATE_RSV), b, 2).Decision() == ActualRequest(b)
  {
    var r3 := Start.(state := REQUEST_STATE_ATYP);
    if |b| >= 4 {
      if b[3] == 1 || b[3] == 4 {
        AddrAndPortRun(Step(r3, b[3]).state, b, 4);
      } else if b[3] == 3 {
        DomainRun(Step(r3, b[3]).state, b, 4);
      }
    }
  }

  /** A connect request for an empty domain name, complete by the RFC. */
  predicate EmptyDomainRequest(b: seq<Byte>) {
    |b| >= 7 && b[0] == 5 && b[1] == 1 && b[3] == 3 && b[4] == 0
  }

  lemma {:induction false} SkippedDomainIsLater(b: seq<Byte>, i: nat)
    ensures SkippingDomain(b, i).Some? ==> SkippingDomain(b, i).value.1 >= i + 4
    decreases |b| - i
  {
    if i < |b| && b[i] == 0 {
      SkippedDomainIsLater(b, i + 1);
    }
  }

  /** The parser follows section 4 of RFC 1928 on exactly the inputs that do not complete a request for an empty domain. */
  lemma {:induction false} RequestFollowsRfc1928(b: seq<Byte>)
    ensures Run(Step, Start, b).Decision() == Rfc1928Request(b) <==> !EmptyDomainRequest(b)
  {
    RequestDecides(b);
    if |b| >= 5 && b[4] == 0 {
      SkippedDomainIsLater(b, 5);
    }
  }

  /** Calls of `request_read` on the chunks that `recv` returns, up to the one that decides. */
  function ReadChunks(r: Request, chunks: seq<seq<Byte>>): Fed<Request, Outcome>
    decreases |chunks|
  {
    if chunks == [] then More(r)
    else
      match Run(Step, r, chunks[0])
      case Done(o, used) => Done(o, used)
      case More(r') => ReadChunks(r', chunks[1..]).After(|chunks[0]|)
  }

  function Concat(chunks: seq<seq<Byte>>): seq<Byte> {
    if chunks == [] then [] else chunks[0] + Concat(chunks[1..])
  }

  /** However the stream is cut into chunks, the outcome and the deciding byte are those of the stream. */
  lemma {:induction false} ChunksDoNotMatter(r: Request, chunks: seq<seq<Byte>>)
    ensures ReadChunks(r, chunks) == Run(Step, r, Concat(chunks))
    decreases |chunks|
  {
    if chunks != [] {
      RunConcat(Step, r, chunks[0], Concat(chunks[1..]));
      match Run(Step, r, chunks[0])
      case Done(_, _) =>
      case More(r') => ChunksDoNotMatter(r', chunks[1..]);
    }
  }

  /** The destination a request asks for. */
  datatype Target = Target(atyp: Byte, addr: seq<Byte>, port: nat)

  /** What `request_read` does: its reaction, the status to reply with, and the destination to connect to. */
  datatype Result = Result(reaction: Reaction, status: Option<Byte>, target: Option<Target>)

  /**
   * What the handler makes of an outcome. A domain name needs a lookup, which may fail to start and is for the C string
   * in the address buffer.
   */
  function React(o: Outcome, lookupStarted: bool): Result {
    match o
    case Reply(status) => Result(Reaction(REQUEST_WRITE, Some(OP_WRITE)), Some(status), None)
    case Failed => Result(Reaction(ERROR, Some(OP_WRITE)), None, None)
    case Parsed(atyp, addr, port) =>
      if atyp == SOCKS_ATYP_DOMAINNAME then
        if lookupStarted then Result(Reaction(DNS_LOOKUP, Some(OP_WRITE)), None, Some(Target(atyp, CString(addr), port)))
        else Result(Reaction(REQUEST_WRITE, Some(OP_WRITE)), Some(SOCKS_REPLY_HOST_UNREACHABLE), None)
      else if atyp == SOCKS_ATYP_IPV4 || atyp == SOCKS_ATYP_IPV6 then
        Result(Reaction(DEST_CONNECT, Some(OP_WRITE)), None, Some(Target(atyp, addr, port)))
      else Result(Reaction(ERROR, Some(OP_WRITE)), None, None)
  }

  /** The name that is looked up is the one in the request exactly when that has no NUL. */
  lemma {:induction false} LookupIsOfTheName(addr: seq<Byte>, port: nat)
    ensures React(Parsed(SOCKS_ATYP_DOMAINNAME, addr, port), true).target == Some(Target(SOCKS_ATYP_DOMAINNAME, addr, port))
       <==> 0 !in addr
  {
    CStringIsWhole(addr);
  }

  const Wait := Result(Reaction(REQUEST_READ, None), None, None)

  /** `request_read` on one result of `recv`. */
  function Read(r: Request, recv: Recv, errnoAgain: bool, lookupStarted: bool): (Request, Result) {
    match recv
    case RecvFailed => (r, if errnoAgain then Wait else Result(Reaction(ERROR, Some(OP_WRITE)), None, None))
    case Eof => (r, Result(Reaction(ERROR, Some(OP_WRITE)), None, None))
    case Data(chunk) =>
      match Run(Step, r, chunk)
      case More(r') => (r', Wait)
      case Done(o, _) => (r, React(o, lookupStarted))
  }

  class RequestParser {
    const p: Parser
    var atyp: Byte
    var cmd: Byte
    var addrLen: Byte
    var addrRead: nat
    var portRead: nat
    const addr: array<Byte>
    var port: nat

    ghost predicate Valid()
      reads this, p, addr
    {
      && p.Valid() && p.def == RequestDef && p.state <= REQUEST_STATE_DSTPORT
      && addr.Length == ADDR_ROOM && addrRead < ADDR_ROOM
      && (p.state <= REQUEST_STATE_ATYP ==> addrRead == 0 && addrLen == 0)
      && (p.state == REQUEST_STATE_DSTADDR_IPV4 ==> addrRead < IPV4_LEN)
      && (p.state == REQUEST_STATE_DSTADDR_IPV6 ==> addrRead < IPV6_LEN)
      && (p.state == REQUEST_STATE_DSTADDR_DOMAINNAME ==> addrRead == 0 || addrRead < addrLen)
    }

    ghost function Model(): Request
      requires Valid()
      reads this, p, addr
    {
      Request(p.state, atyp, addrLen, addr[..addrRead], portRead, port)
    }

    constructor ()
      ensures Valid() && fresh(p) && fresh(addr)
      ensures Model() == Start
    {
      p := new Parser(RequestDef);
      atyp, cmd, addrLen, addrRead, portRead, port := 0, 0, 0, 0, 0, 0;
      addr := new Byte[ADDR_ROOM](_ => 0);
    }

    /** One byte of an address of `len` bytes; after the last one the port is next. An IPv6 address gets no terminator. */
    method PutAddr(len: nat, c: Byte)
      requires p.Valid() && p.def == RequestDef && addr.Length == ADDR_ROOM
      requires addrRead < len < ADDR_ROOM
      modifies this`addrRead, addr, p
      ensures p.Valid() && p.def == RequestDef
      ensures addrRead == old(addrRead) + 1 && addr[..addrRead] == old(addr[..addrRead]) + [c]
      ensures p.state == if addrRead == len then REQUEST_STATE_DSTPORT else old(p.state)
    {
      if addrRead < len {
        addr[addrRead] := c;
        addrRead := addrRead + 1;
      }
      if addrRead == len {
        ghost var read := addr[..addrRead];
        if p.state != REQUEST_STATE_DSTADDR_IPV6 {
          addr[addrRead] := 0;
        }
        assert addr[..addrRead] == read;
        p.SetState(REQUEST_STATE_DSTPORT);
      }
    }

    /** The second byte of the port ends the request; the parser is fed a byte of its own to report it. */
    method PutPort(c: Byte) returns (outcome: Option<Outcome>)
      requires p.Valid() && p.def == RequestDef && addrRead <= addr.Length && portRead != 0
      modifies this`port, this`portRead, p
      ensures p.Valid() && outcome == Some(Parsed(atyp, addr[..addrRead], old(port) + c))
    {
      // The low byte of the port is clear, so the bitwise or is an addition.
      port := port + c;
      portRead := 2;
      p.SetState(REQUEST_STATE_FIN);
      TableTransits(p.state, 0);
      var events := p.Feed(0);
      outcome := None;
      var end := events[0].typ;
      if end == REQUEST_STATE_FIN {
        outcome := Some(Parsed(atyp, addr[..addrRead], port));
      } else if end == REQUEST_STATE_ERROR {
        outcome := Some(Failed);
      }
    }

    /** The switch of `request_read` on the event of one byte. */
    method HandleEvent(ev: Event, c: Byte) returns (outcome: Option<Outcome>)
      requires p.Valid() && p.def == RequestDef && addr.Length == ADDR_ROOM
      requires addrRead < ADDR_ROOM
      requires ev.typ == REQUEST_STATE_ERROR || (ev.typ <= REQUEST_STATE_DSTPORT && ev.data == [c])
      requires ev.typ == REQUEST_STATE_DSTADDR_IPV4 ==> addrRead < IPV4_LEN && p.state == ev.typ
      requires ev.typ == REQUEST_STATE_DSTADDR_IPV6 ==> addrRead < IPV6_LEN && p.state == ev.typ
      requires ev.typ == REQUEST_STATE_DSTADDR_DOMAINNAME ==>
                 p.state == ev.typ && (if addrLen == 0 then addrRead == 0 else addrRead < addrLen)
      modifies this, p, addr
      ensures p.Valid() && addrRead <= addr.Length
      ensures var was := Request(old(p.state), old(atyp), old(addrLen), old(addr[..addrRead]), old(portRead), old(port));
              OnEvent(was, ev.typ, c)
              == match outcome
                 case Some(o) => Stop(o)
                 case None => Go(Request(p.state, atyp, addrLen, addr[..addrRead], portRead, port))
    {
      outcome := None;
      if ev.typ == REQUEST_STATE_CMD {
        cmd := ev.data[0];
        if cmd != CMD_CONNECT {
          outcome := Some(Reply(SOCKS_REPLY_CMD_NOT_SUPPORTED));
        }
      } else if ev.typ == REQUEST_STATE_ATYP {
        if ev.data[0] !in {SOCKS_ATYP_IPV4, SOCKS_ATYP_IPV6, SOCKS_ATYP_DOMAINNAME} {
          outcome := Some(Reply(SOCKS_REPLY_ATYP_NOT_SUPPORTED));
        } else {
          atyp := ev.data[0];
        }
      } else if ev.typ == REQUEST_STATE_DSTADDR_IPV4 {
        PutAddr(IPV4_LEN, ev.data[0]);
      } else if ev.typ == REQUEST_STATE_DSTADDR_IPV6 {
        PutAddr(IPV6_LEN, ev.data[0]);
      } else if ev.typ == REQUEST_STATE_DSTADDR_DOMAINNAME {
        if addrLen == 0 {
          addrLen := ev.data[0];
        } else {
          PutAddr(addrLen, ev.data[0]);
        }
      } else if ev.typ == REQUEST_STATE_DSTPORT {
        if portRead == 0 {
          port := ev.data[0] as nat * 256;
          portRead := 1;
        } else {
          outcome := PutPort(ev.data[0]);
        }
      } else if ev.typ == REQUEST_STATE_VER {
        if ev.data[0] != 5 {
          outcome := Some(Reply(SOCKS_REPLY_GENERAL_FAILURE));
        }
      } else if ev.typ != REQUEST_STATE_RSV {
        outcome := Some(Failed);
      }
    }

    /** One turn of the loop of `request_read`. */
    method FeedByte(c: Byte) returns (outcome: Option<Outcome>)
      requires Valid()
      modifies this, p, addr
      ensures outcome == None ==> Valid() && Step(old(Model()), c) == Go(Model())
      ensures outcome.Some? ==> Step(old(Model()), c) == Stop(outcome.value)
    {
      TableTransits(p.state, c);
      var events := p.Feed(c);
      outcome := HandleEvent(events[0], c);
    }

    method RequestRead(recv: Recv, errnoAgain: bool, lookupStarted: bool) returns (res: Result)
      requires Valid()
      modifies this, p, addr
      ensures var (r, res') := Read(old(Model()), recv, errnoAgain, lookupStarted);
              res == res' && (res == Wait ==> Valid() && Model() == r)
    {
      if recv.RecvFailed? {
        return if errnoAgain then Wait else Result(Reaction(ERROR, Some(OP_WRITE)), None, None);
      }
      if recv.Eof? {
        return Result(Reaction(ERROR, Some(OP_WRITE)), None, None);
      }
      ghost var start := Model();
      var chunk := recv.bytes;
      for i := 0 to |chunk|
        invariant Valid()
        invariant Run(Step, start, chunk) == Run(Step, Model(), chunk, i)
      {
        var outcome := FeedByte(chunk[i]);
        if outcome.Some? {
          return React(outcome.value, lookupStarted);
        }
      }
      res := Wait;
    }
  }
}
