/** src/server/hello.c: the greeting and the choice of an authentication method. */
module Hello {
  import opened Bytes
  import opened Feeding
  import opened States
  import opened ParserEngine
  import opened AuthUtils

  const HELLO_PROTOCOL_VERSION: Byte := 0x05
  const HELLO_AUTH_NO_METHOD_ACCEPTED: Byte := 0xFF
  const HELLO_MAX_METHODS: nat := 255

  const HELLO_STATE_VER: nat := 0
  const HELLO_STATE_NMETHODS: nat := 1
  const HELLO_STATE_METHODS: nat := 2
  const HELLO_STATE_FIN: nat := 3
  const HELLO_STATE_ERROR: nat := 4

  const HELLO_EVENT_VER: nat := 0
  const HELLO_EVENT_NMETHODS: nat := 1
  const HELLO_EVENT_METHOD: nat := 2
  const HELLO_EVENT_DONE: nat := 3
  const HELLO_EVENT_UNEXPECTED: nat := 4

  const HelloDef := Definition(
    [ [Transition(ANY, HELLO_STATE_NMETHODS, Action(HELLO_EVENT_VER, true), None)],
      [Transition(ANY, HELLO_STATE_METHODS, Action(HELLO_EVENT_NMETHODS, true), None)],
      [Transition(ANY, HELLO_STATE_METHODS, Action(HELLO_EVENT_METHOD, true), None)],
      [Transition(ANY, HELLO_STATE_FIN, Action(HELLO_EVENT_DONE, false), None)],
      [Transition(ANY, HELLO_STATE_ERROR, Action(HELLO_EVENT_DONE, false), None)] ],
    HELLO_STATE_VER)

  /** The fields of `hello_parser_t`, with the methods read so far. */
  datatype Hello = Hello(state: nat, nmethods: Byte, methods: seq<Byte>, methodSelected: Byte)

  /** How the greeting ends: with an error, or with the methods the client offers. */
  datatype Outcome = Refused | Offered(methods: seq<Byte>)

  const Start := Hello(HELLO_STATE_VER, 0, [], 0)

  /** The state a state leads to, and the event it reports. */
  function Dest(st: nat): nat {
    if st == HELLO_STATE_VER then HELLO_STATE_NMETHODS
    else if st <= HELLO_STATE_METHODS then HELLO_STATE_METHODS
    else if st == HELLO_STATE_FIN then HELLO_STATE_FIN
    else HELLO_STATE_ERROR
  }

  function EventOf(st: nat): nat {
    if st <= HELLO_STATE_METHODS then st else HELLO_EVENT_DONE
  }

  /** The engine takes these transitions of the table. */
  lemma {:induction false} TableTransits(st: nat, c: Byte)
    requires st < |HelloDef.states|
    ensures var t := FirstMatch(HelloDef.states[st], c);
            t.Some? && t.value.dest == Dest(st) && t.value.act2 == None
            && t.value.act1 == Action(EventOf(st), st <= HELLO_STATE_METHODS)
  {
  }

  /** What one byte of the greeting does. */
  function Step(h: Hello, c: Byte): Verdict<Hello, Outcome> {
    OnEvent(h.(state := Dest(h.state)), EventOf(h.state), c)
  }

  /** The handling of the event reported for byte `c`. */
  function OnEvent(h: Hello, event: nat, c: Byte): Verdict<Hello, Outcome> {
    if event == HELLO_EVENT_VER then
      if c != HELLO_PROTOCOL_VERSION then Stop(Refused) else Go(h)
    else if event == HELLO_EVENT_NMETHODS then
      if c == 0 then Stop(Refused) else Go(h.(nmethods := c, methods := []))
    else if event == HELLO_EVENT_METHOD then
      var methods := if |h.methods| < h.nmethods then h.methods + [c] else h.methods;
      if |methods| == h.nmethods then Stop(Offered(methods)) else Go(h.(methods := methods))
    else if event == HELLO_EVENT_DONE then Go(h)
    else Stop(Refused)
  }

  /** Section 3 of RFC 1928 on a whole prefix: version 5, a count of at least one, and that many methods. */
  function Rfc1928Greeting(b: seq<Byte>): Option<(Outcome, nat)> {
    if |b| >= 1 && b[0] != 5 then Some((Refused, 1))
    else if |b| < 2 then None
    else
      var n: nat := b[1];
      if n == 0 then Some((Refused, 2))
      else if |b| >= 2 + n then Some((Offered(b[2..2 + n]), 2 + n))
      else None
  }

  /** The methods: decided on the last one announced. */
  lemma {:induction false} MethodsRun(h: Hello, b: seq<Byte>, i: nat)
    requires h.state == HELLO_STATE_METHODS && |h.methods| < h.nmethods && i <= |b|
    ensures var j := i + h.nmethods - |h.methods|;
            Run(Step, h, b, i) == if |b| < j then More(h.(methods := h.methods + b[i..]))
                                  else Done(Offered(h.methods + b[i..j]), j)
    decreases |b| - i
  {
    var j := i + h.nmethods - |h.methods|;
    if i == |b| {
      assert h.(methods := h.methods + b[i..]) == h;
    } else {
      if j == i + 1 {
        assert b[i..j] == [b[i]];
      } else {
        var h' := h.(methods := h.methods + [b[i]]);
        MethodsRun(h', b, i + 1);
        assert |b| < j ==> h'.methods + b[i + 1..] == h.methods + b[i..];
        assert |b| >= j ==> h'.methods + b[i + 1..j] == h.methods + b[i..j];
      }
    }
  }

  /** Fed byte by byte, the greeting parser decides what the RFC says, on the byte that settles it. */
  lemma {:induction false} GreetingFollowsRfc1928(b: seq<Byte>)
    ensures Run(Step, Start, b).Decision() == Rfc1928Greeting(b)
  {
    var h1 := Start.(state := HELLO_STATE_NMETHODS);
    if |b| >= 2 && b[0] == 5 {
      if b[1] != 0 {
        MethodsRun(h1.(state := HELLO_STATE_METHODS, nmethods := b[1]), b, 2);
        assert forall m: seq<Byte> :: [] + m == m;
      }
    }
  }

  /** The choice among the offered methods: each accepted one replaces a smaller choice. */
  function Select(accepted: AcceptedList, offered: seq<Byte>): Byte {
    if offered == [] then HELLO_AUTH_NO_METHOD_ACCEPTED
    else
      var init, m := Select(accepted, offered[..|offered| - 1]), offered[|offered| - 1];
      if IsAccepted(accepted, m) && (init == HELLO_AUTH_NO_METHOD_ACCEPTED || init < m) then m else init
  }

  /** The choice is the largest method that is both offered and found accepted, and 0xFF exactly when there is none. */
  lemma {:induction false} SelectsLargestCommon(accepted: AcceptedList, offered: seq<Byte>)
    ensures var r := Select(accepted, offered);
            && (r != 0xFF <==> exists m :: m in offered && IsAccepted(accepted, m))
            && (r != 0xFF ==> r in offered && IsAccepted(accepted, r))
            && (forall m :: m in offered && IsAccepted(accepted, m) ==> m <= r)
  {
    if offered != [] {
      var n := |offered| - 1;
      SelectsLargestCommon(accepted, offered[..n]);
      assert offered == offered[..n] + [offered[n]];
      assert forall m :: m in offered <==> m in offered[..n] || m == offered[n];
    }
  }

  /** `hello_read` on one result of `recv`. */
  function Read(h: Hello, recv: Recv, errnoAgain: bool, accepted: AcceptedList): (Hello, Reaction)
    requires recv.Data? ==> |recv.bytes| == 1
  {
    if !recv.Data? then
      (h, if errnoAgain then Reaction(HELLO_READ, None) else Reaction(ERROR, Some(OP_WRITE)))
    else After(h, Step(h, recv.bytes[0]), accepted)
  }

  /** What `hello_read` makes of the verdict on a byte. */
  function After(h: Hello, v: Verdict<Hello, Outcome>, accepted: AcceptedList): (Hello, Reaction) {
    match v
    case Go(h') => (h', Reaction(HELLO_READ, None))
    case Stop(Refused) => (h, Reaction(ERROR, None))
    case Stop(Offered(methods)) =>
      (Hello(HELLO_STATE_VER, h.nmethods, methods, Select(accepted, methods)), Reaction(HELLO_WRITE, Some(OP_WRITE)))
  }

  /** `hello_write`: without an acceptable method the session still goes on to authentication. */
  function Write(h: Hello, sent: bool): Reaction {
    if !sent then Reaction(ERROR, None)
    else if h.methodSelected == HELLO_AUTH_NO_AUTH then Reaction(REQUEST_READ, Some(OP_READ))
    else Reaction(AUTH_READ, Some(OP_READ))
  }

  class HelloParser {
    const p: Parser
    var ver: Byte
    var nmethods: Byte
    const methods: array<Byte>
    var methodsRead: nat
    var methodSelected: Byte

    ghost predicate Valid()
      reads this, p, methods
    {
      && p.Valid() && p.def == HelloDef
      && methods.Length == HELLO_MAX_METHODS && methodsRead <= nmethods
    }

    ghost function Model(): Hello
      requires Valid()
      reads this, p, methods
    {
      Hello(p.state, nmethods, methods[..methodsRead], methodSelected)
    }

    constructor ()
      ensures Valid() && fresh(p) && fresh(methods)
      ensures Model() == Start
    {
      p := new Parser(HelloDef);
      ver, nmethods, methodsRead, methodSelected := 0, 0, 0, 0;
      methods := new Byte[HELLO_MAX_METHODS];
    }

    /** The last loop of `hello_read`. */
    method SelectMethod(am: AuthMethods, beyond: set<Byte>)
      requires Valid() && methodsRead == nmethods && am.Valid()
      modifies this`methodSelected
      ensures methodSelected == Select(AcceptedList(am.Accepted(), beyond), methods[..methodsRead])
    {
      var found := false;
      methodSelected := HELLO_AUTH_NO_METHOD_ACCEPTED;
      for i := 0 to nmethods
        invariant methodSelected == Select(AcceptedList(am.Accepted(), beyond), methods[..i])
        invariant !found ==> methodSelected == HELLO_AUTH_NO_METHOD_ACCEPTED
      {
        var scan := am.AcceptedMethod(Signed(methods[i]));
        var ok := scan == Yes || (scan == Outside && methods[i] in beyond);
        assert methods[..i + 1][..i] == methods[..i];
        if ok {
          if methodSelected == HELLO_AUTH_NO_METHOD_ACCEPTED || methodSelected < methods[i] {
            methodSelected := methods[i];
          }
          found := true;
        }
      }
      if !found {
        methodSelected := HELLO_AUTH_NO_METHOD_ACCEPTED;
      }
    }

    /** One method; the last one announced brings the choice. */
    method ReadMethod(c: Byte, am: AuthMethods, beyond: set<Byte>) returns (r: Reaction)
      requires Valid() && p.state == HELLO_STATE_METHODS && am.Valid()
      modifies this, p, methods
      ensures Valid()
      ensures (Model(), r) == After(old(Model()), OnEvent(old(Model()), HELLO_EVENT_METHOD, c), AcceptedList(old(am.Accepted()), beyond))
    {
      if methodsRead < nmethods {
        methods[methodsRead] := c;
        methodsRead := methodsRead + 1;
        assert methods[..methodsRead] == old(methods[..methodsRead]) + [c];
      }
      if methodsRead == nmethods {
        SelectMethod(am, beyond);
        p.Reset();
        return Reaction(HELLO_WRITE, Some(OP_WRITE));
      }
      r := Reaction(HELLO_READ, None);
    }

    method HandleEvent(ev: Event, c: Byte, am: AuthMethods, beyond: set<Byte>) returns (r: Reaction)
      requires Valid() && am.Valid()
      requires ev.data == if ev.typ < HELLO_EVENT_DONE then [c] else []
      requires ev.typ == HELLO_EVENT_METHOD ==> p.state == HELLO_STATE_METHODS
      modifies this, p, methods
      ensures Valid()
      ensures var (h, r') := After(old(Model()), OnEvent(old(Model()), ev.typ, c), AcceptedList(old(am.Accepted()), beyond));
              r == r' && (r.next != ERROR ==> Model() == h)
    {
      if ev.typ == HELLO_EVENT_VER {
        ver := ev.data[0];
        if ver != HELLO_PROTOCOL_VERSION {
          return Reaction(ERROR, None);
        }
      } else if ev.typ == HELLO_EVENT_NMETHODS {
        if ev.data[0] == 0 {
          return Reaction(ERROR, None);
        }
        nmethods := ev.data[0];
        methodsRead := 0;
      } else if ev.typ == HELLO_EVENT_METHOD {
        r := ReadMethod(ev.data[0], am, beyond);
        return;
      } else if ev.typ != HELLO_EVENT_DONE {
        return Reaction(ERROR, None);
      }
      r := Reaction(HELLO_READ, None);
    }

    method HelloRead(recv: Recv, errnoAgain: bool, am: AuthMethods, beyond: set<Byte>) returns (r: Reaction)
      requires Valid() && am.Valid()
      requires recv.Data? ==> |recv.bytes| == 1
      modifies this, p, methods
      ensures Valid()
      ensures var (h, r') := Read(old(Model()), recv, errnoAgain, AcceptedList(old(am.Accepted()), beyond));
              r == r' && (r.next != ERROR ==> Model() == h)
    {
      if !recv.Data? {
        if errnoAgain {
          return Reaction(HELLO_READ, None);
        }
        return Reaction(ERROR, Some(OP_WRITE));
      }
      TableTransits(p.state, recv.bytes[0]);
      var events := p.Feed(recv.bytes[0]);
      r := HandleEvent(events[0], recv.bytes[0], am, beyond);
    }
  }
}
