/** From the first byte of a client to the connection it asks for: the session over the three parsers. */
module Negotiation {
  import opened Bytes
  import opened Feeding
  import opened States
  import opened AuthUtils
  import opened Users
  import opened Relay
  import opened Session
  import Auth
  import Hello
  import Request

  /** A chunk that `recv` returns on the client's descriptor. */
  function Incoming(env: Env, chunk: seq<Byte>): Event {
    Event(ClientSide, true, env.(recv := Data(chunk)))
  }

  /** The session reads the chunk, or stays as it is when it does not wait for one. */
  function Arrives(s: Session, env: Env, chunk: seq<Byte>): Session {
    var e := Incoming(env, chunk);
    if Legal(s, e) && Step(s, e).Alive? then Step(s, e).after else s
  }

  /** The client's bytes, read one at a time. */
  function Deliver(s: Session, env: Env, b: seq<Byte>, i: nat := 0): Session
    decreases |b| - i
  {
    if i >= |b| then s else Deliver(Arrives(s, env, [b[i]]), env, b, i + 1)
  }

  /** The client's bytes in chunks, for as long as the session reads a request. */
  function DeliverChunks(s: Session, env: Env, chunks: seq<seq<Byte>>): Session
    decreases |chunks|
  {
    if chunks == [] || s.current != Some(REQUEST_READ) then s
    else DeliverChunks(Arrives(s, env, chunks[0]), env, chunks[1..])
  }

  /** The answer to the client is sent. */
  function Answered(s: Session, env: Env): Session {
    var e := Event(ClientSide, false, env.(replySent := true));
    if Legal(s, e) && Step(s, e).Alive? then Step(s, e).after else s
  }

  /** Once it has stopped reading a session keeps what it is, whatever else comes, and reading alone sends nothing. */
  lemma {:induction false} MoreIsIgnored(s: Session, env: Env, b: seq<Byte>, i: nat)
    requires s.freed || (s.current.Some? && !s.relay.clientInterest.read)
    ensures Deliver(s, env, b, i) == s
    decreases |b| - i
  {
    if i < |b| {
      MoreIsIgnored(s, env, b, i + 1);
    }
  }

  lemma {:induction false} ReadingSendsNothing(s: Session, e: Event)
    requires Legal(s, e) && e.read && Step(s, e).Alive?
    ensures Step(s, e).after.sent == s.sent
  {
  }

  lemma {:induction false} DeliverySendsNothing(s: Session, env: Env, b: seq<Byte>, i: nat)
    ensures Deliver(s, env, b, i).sent == s.sent
    decreases |b| - i
  {
    if i < |b| {
      var e := Incoming(env, [b[i]]);
      if Legal(s, e) && Step(s, e).Alive? {
        ReadingSendsNothing(s, e);
      }
      DeliverySendsNothing(Arrives(s, env, [b[i]]), env, b, i + 1);
    }
  }

  /** Where the bytes of a greeting take the session: on with it, to its end, or to the choice of a method. */
  ghost predicate GreetingReached(t: Session, env: Env, fed: Fed<Hello.Hello, Hello.Outcome>) {
    Inv(t) &&
    match fed
    case More(h) => t.current == Some(HELLO_READ) && t.slot.hello == h
    case Done(Refused, _) => t.current == Some(ERROR) && t.freed
    case Done(Offered(methods), _) =>
      t.current == Some(HELLO_WRITE) && t.slot.hello.methodSelected == Hello.Select(env.accepted, methods)
  }

  lemma {:induction false} GreetingByte(s: Session, env: Env, c: Byte)
    requires Inv(s) && s.current == Some(HELLO_READ)
    ensures var t, v := Arrives(s, env, [c]), Hello.Step(s.slot.hello, c);
            GreetingReached(t, env, if v.Go? then More(v.state) else Done(v.outcome, 0))
  {
    StepKeepsInv(s, Incoming(env, [c]));
  }

  /** From inside the greeting, its bytes lead where the parser does. */
  lemma {:induction false} GreetingDelivered(s: Session, env: Env, b: seq<Byte>, i: nat)
    requires Inv(s) && s.current == Some(HELLO_READ)
    ensures GreetingReached(Deliver(s, env, b, i), env, Run(Hello.Step, s.slot.hello, b, i))
    decreases |b| - i
  {
    if i < |b| {
      GreetingByte(s, env, b[i]);
      var t := Arrives(s, env, [b[i]]);
      if Hello.Step(s.slot.hello, b[i]).Go? {
        GreetingDelivered(t, env, b, i + 1);
      } else {
        MoreIsIgnored(t, env, b, i + 1);
      }
    }
  }

  /** Where the bytes of a login take the session: on with it, to its end, or to the decision, 0 for success and 1. */
  ghost predicate LoginReached(t: Session, users: seq<User>, fed: Fed<Auth.Auth, Auth.Outcome>) {
    Inv(t) &&
    match fed
    case More(a) => t.current == Some(AUTH_READ) && t.slot.auth == a
    case Done(Refused, _) => t.current == Some(ERROR) && t.freed
    case Done(Credentials(uname, passwd), _) =>
      && t.current == Some(AUTH_WRITE) && t.slot.auth.authDone
      && t.slot.auth.authStatus == if Apply(users, Login(uname, passwd)).1.status == USERS_OK then 0 else 1
  }

  lemma {:induction false} LoginByte(s: Session, env: Env, c: Byte)
    requires Inv(s) && s.current == Some(AUTH_READ)
    ensures var t, v := Arrives(s, env, [c]), Auth.Step(s.slot.auth, c);
            LoginReached(t, env.users, if v.Go? then More(v.state) else Done(v.outcome, 0))
  {
    StepKeepsInv(s, Incoming(env, [c]));
  }

  /** From inside the login, its bytes lead where the parser does. */
  lemma {:induction false} LoginDelivered(s: Session, env: Env, b: seq<Byte>, i: nat)
    requires Inv(s) && s.current == Some(AUTH_READ)
    ensures LoginReached(Deliver(s, env, b, i), env.users, Run(Auth.Step, s.slot.auth, b, i))
    decreases |b| - i
  {
    if i < |b| {
      LoginByte(s, env, b[i]);
      var t := Arrives(s, env, [b[i]]);
      if Auth.Step(s.slot.auth, b[i]).Go? {
        LoginDelivered(t, env, b, i + 1);
      } else {
        MoreIsIgnored(t, env, b, i + 1);
      }
    }
  }

  /** The session is where an outcome of the request takes it, with the address to connect to or the name to look up. */
  ghost predicate Reached(t: Session, o: Request.Outcome, lookupStarted: bool) {
    var r := Request.React(o, lookupStarted);
    && t.current == Some(r.reaction.next)
    && (r.reaction.next == DNS_LOOKUP ==> t.lookup == r.target)
    && (r.reaction.next == DEST_CONNECT ==> t.conn.destAddr == [AddrOf(r.target.value)] && t.conn.destFd == -1)
    && (r.reaction.next == REQUEST_WRITE ==> t.slot.RequestParser? && Some(t.slot.replyStatus) == r.status)
  }

  ghost predicate ChunksFit(chunks: seq<seq<Byte>>) {
    forall i :: 0 <= i < |chunks| ==> 1 <= |chunks[i]| <= 1024
  }

  /** What the handler makes of one chunk, before the move to the next state. */
  lemma {:induction false} ChunkHandled(s: Session, env: Env, chunk: seq<Byte>)
    requires Inv(s) && s.current == Some(REQUEST_READ) && 1 <= |chunk| <= 1024
    ensures var ((t, next), fed) := (RequestRead(s, ClientSide, Incoming(env, chunk).env), Run(Request.Step, s.slot.request, chunk));
            && t.current == s.current
            && (fed.More? ==> next == REQUEST_READ && t.slot == RequestParser(fed.state, 0))
            && (fed.Done? ==>
                  next == Request.React(fed.outcome, env.lookupStarted).reaction.next
                  && Reached(t.(current := Some(next)), fed.outcome, env.lookupStarted))
  {
  }

  lemma JumpReaches(t: Session, o: Request.Outcome, lookupStarted: bool)
    requires t.current == Some(REQUEST_READ)
    requires var next := Request.React(o, lookupStarted).reaction.next; Reached(t.(current := Some(next)), o, lookupStarted)
    ensures var next := Request.React(o, lookupStarted).reaction.next;
            JumpTo(t, next).Alive? && Reached(JumpTo(t, next).after, o, lookupStarted)
  {
  }

  /** A lookup is for the name and port of the request exactly when the name has no NUL. */
  ghost predicate LooksUpExactly(t: Session, d: Option<(Request.Outcome, nat)>) {
    t.current == Some(DNS_LOOKUP) ==>
      && d.Some? && d.value.0.Parsed?
      && (t.lookup == Some(Request.Target(3, d.value.0.addr, d.value.0.port)) <==> 0 !in d.value.0.addr)
  }

  /** One chunk of the request: more is needed, or its outcome takes the session on. */
  lemma {:induction false} ChunkArrives(s: Session, env: Env, chunk: seq<Byte>)
    requires Inv(s) && s.current == Some(REQUEST_READ) && 1 <= |chunk| <= 1024
    ensures var t, fed := Arrives(s, env, chunk), Run(Request.Step, s.slot.request, chunk);
            && Inv(t)
            && (fed.More? ==> t.current == Some(REQUEST_READ) && t.slot.request == fed.state)
            && (fed.Done? ==> Reached(t, fed.outcome, env.lookupStarted))
  {
    var e := Incoming(env, chunk);
    StepKeepsInv(s, e);
    ChunkHandled(s, env, chunk);
    var (t, next) := RequestRead(s, ClientSide, e.env);
    assert Step(s, e) == JumpTo(t, next);
    var fed := Run(Request.Step, s.slot.request, chunk);
    if fed.Done? {
      JumpReaches(t, fed.outcome, env.lookupStarted);
    }
  }

  /** The session is where a decision on the request takes it, or still reads the request while there is none. */
  ghost predicate ReachedBy(t: Session, d: Option<(Request.Outcome, nat)>, lookupStarted: bool) {
    match d
    case None => t.current == Some(REQUEST_READ)
    case Some((o, _)) => Reached(t, o, lookupStarted)
  }

  /** From inside the request, its chunks lead where their outcome does. */
  lemma {:induction false} RequestDelivered(s: Session, env: Env, chunks: seq<seq<Byte>>)
    requires Inv(s) && s.current == Some(REQUEST_READ) && ChunksFit(chunks)
    ensures ReachedBy(DeliverChunks(s, env, chunks), Request.ReadChunks(s.slot.request, chunks).Decision(), env.lookupStarted)
    decreases |chunks|
  {
    if chunks != [] {
      ChunkArrives(s, env, chunks[0]);
      if Run(Request.Step, s.slot.request, chunks[0]).More? {
        RequestDelivered(Arrives(s, env, chunks[0]), env, chunks[1..]);
      } else {
        LeavesRequest(Run(Request.Step, s.slot.request, chunks[0]).outcome, env.lookupStarted);
      }
    }
  }

  lemma {:induction false} ReachedLooksUp(t: Session, d: Option<(Request.Outcome, nat)>, lookupStarted: bool)
    requires ReachedBy(t, d, lookupStarted)
    ensures LooksUpExactly(t, d)
  {
    if d.Some? && d.value.0.Parsed? {
      Request.LookupIsOfTheName(d.value.0.addr, d.value.0.port);
    }
  }

  lemma LeavesRequest(o: Request.Outcome, lookupStarted: bool)
    ensures Request.React(o, lookupStarted).reaction.next != REQUEST_READ
  {
  }

  /** The greeting of section 3 of RFC 1928. */
  function Greeting(methods: seq<Byte>): seq<Byte>
    requires 1 <= |methods| <= 255
  {
    [5, |methods|] + methods
  }

  /** Any bytes from the start of a session: they are its greeting as far as section 3 of RFC 1928 goes. */
  lemma {:induction false} FirstBytesAreGreeting(env: Env, b: seq<Byte>)
    requires b != []
    ensures var t := Deliver(Start, env, b);
            && Inv(t) && t.sent == []
            && match Hello.Rfc1928Greeting(b)
               case None => t.current == Some(HELLO_READ)
               case Some((Refused, _)) => t.current == Some(ERROR) && t.freed
               case Some((Offered(methods), _)) =>
                 t.current == Some(HELLO_WRITE) && t.slot.hello.methodSelected == Hello.Select(env.accepted, methods)
  {
    var start := HandleFirst(Start);
    Hello.GreetingFollowsRfc1928(b);
    assert Arrives(Start, env, [b[0]]) == Arrives(start, env, [b[0]]);
    GreetingDelivered(start, env, b, 0);
    DeliverySendsNothing(start, env, b, 0);
  }

  /** The choice is answered with version 5 and its number, and leads to the request or the login. */
  lemma {:induction false} ChoiceIsAnswered(t: Session, env: Env)
    requires Inv(t) && t.current == Some(HELLO_WRITE)
    ensures var u := Answered(t, env);
            && Inv(u) && u.sent == t.sent + [5, t.slot.hello.methodSelected]
            && (if t.slot.hello.methodSelected == 0 then u.current == Some(REQUEST_READ) && u.slot.request == Request.Start
                else u.current == Some(AUTH_READ) && u.slot.auth == Auth.Start)
  {
    StepKeepsInv(t, Event(ClientSide, false, env.(replySent := true)));
  }

  /** After the greeting has been answered: the request without authentication, the login for any other choice. */
  lemma {:induction false} GreetingIsAnswered(env: Env, methods: seq<Byte>)
    requires 1 <= |methods| <= 255
    ensures var t := Answered(Deliver(Start, env, Greeting(methods)), env);
            && Inv(t) && t.sent == [5, Hello.Select(env.accepted, methods)]
            && (if Hello.Select(env.accepted, methods) == 0 then t.current == Some(REQUEST_READ) && t.slot.request == Request.Start
                else t.current == Some(AUTH_READ) && t.slot.auth == Auth.Start)
  {
    var b := Greeting(methods);
    FirstBytesAreGreeting(env, b);
    assert b[2..2 + |methods|] == methods;
    ChoiceIsAnswered(Deliver(Start, env, b), env);
  }

  /** The session after it has answered a greeting that offers only no authentication. */
  function AfterOffer(env: Env, list: seq<int>, beyond: set<Byte>): Session {
    var env' := env.(accepted := AcceptedList(list, beyond));
    Answered(Deliver(Start, env', Greeting([0])), env')
  }

  /**
   * Whatever lies outside the array of the list, a client that offers only no authentication gets to the request only
   * when that is among the first 128 accepted methods: true exactly of the lists whose scan for it stays inside. For any
   * other list there are bytes outside the array that let the client in without a login.
   */
  lemma {:induction false} ListGuardsExactlyInside(env: Env, list: seq<int>)
    ensures (forall beyond :: AfterOffer(env, list, beyond).current == Some(REQUEST_READ) ==> Scan(list, 0) == Yes)
       <==> Scan(list, 0) != Outside
  {
    forall beyond
      ensures AfterOffer(env, list, beyond).current == Some(REQUEST_READ) <==> IsAccepted(AcceptedList(list, beyond), 0)
    {
      var accepted := AcceptedList(list, beyond);
      GreetingIsAnswered(env.(accepted := accepted), [0]);
      Hello.SelectsLargestCommon(accepted, [0]);
    }
    assert IsAccepted(AcceptedList(list, {0}), 0) <==> Scan(list, 0) != No;
    assert AfterOffer(env, list, {0}).current == Some(REQUEST_READ) <==> Scan(list, 0) != No;
  }

  /** How the login goes: the request, the end of the session, or, with a name or password of 255 bytes, no decision. */
  ghost predicate AfterLogin(s: Session, t: Session, users: seq<User>, uname: seq<Byte>, passwd: seq<Byte>) {
    if |uname| == 255 || |passwd| == 255 then t.current == Some(AUTH_READ) && t.sent == s.sent
    else if Apply(users, Login(uname, passwd)).1.status == USERS_OK then
      t.current == Some(REQUEST_READ) && t.slot == RequestParser(Request.Start, 0) && t.sent == s.sent + [1, 0]
    else t.current == Some(ERROR) && t.freed && t.sent == s.sent + [1, 1]
  }

  /** The last answer of the login. */
  lemma {:induction false} DecisionIsAnswered(t: Session, env: Env)
    requires Inv(t) && t.current == Some(AUTH_WRITE)
    ensures var u := Answered(t, env);
            && Inv(u) && u.sent == t.sent + [1, t.slot.auth.authStatus]
            && (t.slot.auth.authStatus == 0 ==> u.current == Some(REQUEST_READ) && u.slot == RequestParser(Request.Start, 0))
            && (t.slot.auth.authStatus == 1 ==> u.current == Some(ERROR) && u.freed)
  {
    StepKeepsInv(t, Event(ClientSide, false, env.(replySent := true)));
  }

  /** While the login is read there is nothing to answer. */
  lemma {:induction false} NothingToAnswer(t: Session, env: Env)
    requires Inv(t) && t.current == Some(AUTH_READ)
    ensures Answered(t, env) == t
  {
  }

  /** The session once the login has been read, and answered if it has been decided. */
  lemma {:induction false} LoginIsAnswered(s: Session, env: Env, uname: seq<Byte>, passwd: seq<Byte>)
    requires Inv(s) && s.current == Some(AUTH_READ) && s.slot.auth == Auth.Start
    requires 1 <= |uname| <= 255 && 1 <= |passwd| <= 255 && 0 !in uname && 0 !in passwd
    ensures var t := Answered(Deliver(s, env, Auth.Message(uname, passwd)), env);
            Inv(t) && AfterLogin(s, t, env.users, uname, passwd)
  {
    var b := Auth.Message(uname, passwd);
    Auth.MessageIsUnderstood(uname, passwd);
    LoginDelivered(s, env, b, 0);
    DeliverySendsNothing(s, env, b, 0);
    if |uname| == 255 || |passwd| == 255 {
      NothingToAnswer(Deliver(s, env, b), env);
    } else {
      DecisionIsAnswered(Deliver(s, env, b), env);
    }
  }

  /** Another version of the login ends the session. */
  lemma {:induction false} OtherVersionEndsLogin(s: Session, env: Env, b: seq<Byte>)
    requires Inv(s) && s.current == Some(AUTH_READ) && s.slot.auth == Auth.Start && b != [] && b[0] != 1
    ensures var t := Deliver(s, env, b); t.current == Some(ERROR) && t.freed
  {
    Auth.LoginDecides(b);
    LoginDelivered(s, env, b, 0);
  }

  /** An answer that cannot be sent whole ends the session. */
  lemma {:induction false} UnsentAnswerEnds(s: Session, e: Event)
    requires Inv(s) && Legal(s, e) && s.current in {Some(HELLO_WRITE), Some(AUTH_WRITE), Some(REQUEST_WRITE)}
    requires !e.env.replySent
    ensures Step(s, e).Alive?
    ensures Step(s, e).after.current == Some(ERROR) && Step(s, e).after.freed && Step(s, e).after.sent == s.sent
  {
    StepKeepsInv(s, e);
  }

  /** A read that brings no bytes: the session waits when it is to be tried again, and ends otherwise. */
  lemma {:induction false} FailedReadWaitsOrEnds(s: Session, e: Event)
    requires Inv(s) && Legal(s, e) && s.current in {Some(HELLO_READ), Some(AUTH_READ), Some(REQUEST_READ)}
    requires !e.env.recv.Data?
    ensures Step(s, e).Alive?
    ensures var t := Step(s, e).after;
            if e.env.errnoAgain && !(s.current == Some(REQUEST_READ) && e.env.recv.Eof?) then t == s
            else t.current == Some(ERROR) && t.freed
  {
    StepKeepsInv(s, e);
    InterestsHaveHandlers(s, e);
  }

  /** Greeting, login if it is asked for, request. */
  function Negotiate(s: Session, env: Env, greeting: seq<Byte>, login: seq<Byte>, chunks: seq<seq<Byte>>): Session {
    var s1 := Answered(Deliver(s, env, greeting), env);
    var s2 := if s1.current == Some(AUTH_READ) then Answered(Deliver(s1, env, login), env) else s1;
    DeliverChunks(s2, env, chunks)
  }

  /**
   * The whole negotiation of a new session. It is let in exactly when no authentication is chosen, or the credentials
   * are in the table and neither has 255 bytes. Then the request, in whatever chunks it comes, leads to a connection to
   * exactly the address and port in it, a lookup, a refusal with the status for it, or an error. The reading of it is
   * that of section 4 of RFC 1928 exactly when it does not ask for an empty domain name, and the name looked up is the
   * one in it exactly when that has no NUL.
   */
  lemma {:induction false} NegotiationFollowsRfcs(env: Env, methods: seq<Byte>, uname: seq<Byte>,
                                                  passwd: seq<Byte>, chunks: seq<seq<Byte>>)
    requires 1 <= |methods| <= 255 && ChunksFit(chunks)
    requires 1 <= |uname| <= 255 && 1 <= |passwd| <= 255 && 0 !in uname && 0 !in passwd
    ensures var open := Hello.Select(env.accepted, methods) == 0;
            var fits := |uname| < 255 && |passwd| < 255;
            var known := Apply(env.users, Login(uname, passwd)).1.status == USERS_OK;
            var t := Negotiate(Start, env, Greeting(methods), Auth.Message(uname, passwd), chunks);
            if open || (fits && known) then
              ReachedBy(t, Request.ActualRequest(Request.Concat(chunks)), env.lookupStarted)
            else if fits then t.current == Some(ERROR) && t.freed
            else t.current == Some(AUTH_READ)
    ensures var b := Request.Concat(chunks);
            Request.ActualRequest(b) == Request.Rfc1928Request(b) <==> !Request.EmptyDomainRequest(b)
    ensures LooksUpExactly(Negotiate(Start, env, Greeting(methods), Auth.Message(uname, passwd), chunks),
                           Request.ActualRequest(Request.Concat(chunks)))
  {
    GreetingIsAnswered(env, methods);
    var s1 := Answered(Deliver(Start, env, Greeting(methods)), env);
    if s1.current == Some(AUTH_READ) {
      LoginIsAnswered(s1, env, uname, passwd);
    }
    Request.RequestFollowsRfc1928(Request.Concat(chunks));
    Request.RequestDecides(Request.Concat(chunks));
    Request.ChunksDoNotMatter(Request.Start, chunks);
    var s2 := if s1.current == Some(AUTH_READ) then Answered(Deliver(s1, env, Auth.Message(uname, passwd)), env) else s1;
    if s2.current == Some(REQUEST_READ) {
      RequestDelivered(s2, env, chunks);
      ReachedLooksUp(DeliverChunks(s2, env, chunks), Request.ActualRequest(Request.Concat(chunks)), env.lookupStarted);
    }
  }
}
