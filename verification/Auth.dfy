/** src/server/auth.c: the username/password sub-negotiation. */
module Auth {
  import opened Bytes
  import opened Feeding
  import opened States
  import opened ParserEngine
  import opened Users
  import opened CBuffers

  const AUTH_VERSION: Byte := 0x01
  const AUTH_SUCCESS: Byte := 0x00
  const AUTH_FAILURE: Byte := 0x01
  const MAX_BUFFER_SIZE: nat := 255

  const AUTH_STATE_VER: nat := 0
  const AUTH_STATE_ULEN: nat := 1
  const AUTH_STATE_UNAME: nat := 2
  const AUTH_STATE_PLEN: nat := 3
  const AUTH_STATE_PASSWD: nat := 4
  const AUTH_STATE_FIN: nat := 5

  const AUTH_EVENT_VER: nat := 0
  const AUTH_EVENT_ULEN: nat := 1
  const AUTH_EVENT_UNAME: nat := 2
  const AUTH_EVENT_PLEN: nat := 3
  const AUTH_EVENT_PASSWD: nat := 4
  const AUTH_EVENT_DONE: nat := 5

  const AuthDef := Definition(
    [ [Transition(ANY, AUTH_STATE_ULEN, Action(AUTH_EVENT_VER, true), None)],
      [Transition(ANY, AUTH_STATE_UNAME, Action(AUTH_EVENT_ULEN, true), None)],
      [Transition(ANY, AUTH_STATE_UNAME, Action(AUTH_EVENT_UNAME, true), None)],
      [Transition(ANY, AUTH_STATE_PASSWD, Action(AUTH_EVENT_PLEN, true), None)],
      [Transition(ANY, AUTH_STATE_PASSWD, Action(AUTH_EVENT_PASSWD, true), None)],
      [Transition(ANY, AUTH_STATE_FIN, Action(AUTH_EVENT_DONE, false), None)],
      [Transition(ANY, AUTH_STATE_FIN, Action(AUTH_EVENT_DONE, false), None)] ],
    AUTH_STATE_VER)

  /** The fields of `auth_parser_t`, with the size of its two arrays and the bytes of each string read so far. */
  datatype Auth = Auth(size: nat, state: nat, ulen: Byte, uname: seq<Byte>, plen: Byte, passwd: seq<Byte>,
                       authStatus: Byte, authDone: bool)

  /** How the message ends: refused, or with the two C strings the user store is asked about. */
  datatype Outcome = Refused | Credentials(uname: seq<Byte>, passwd: seq<Byte>)

  const Start := Auth(MAX_BUFFER_SIZE, AUTH_STATE_VER, 0, [], 0, [], 0, false)

  /** The state a state leads to. Each state up to the password reports the event of its own number. */
  function Dest(st: nat): nat {
    if st == AUTH_STATE_VER then AUTH_STATE_ULEN
    else if st <= AUTH_STATE_UNAME then AUTH_STATE_UNAME
    else if st <= AUTH_STATE_PASSWD then AUTH_STATE_PASSWD
    else AUTH_STATE_FIN
  }

  /** The engine takes these transitions of the table. */
  lemma {:induction false} TableTransits(st: nat, c: Byte)
    requires st < |AuthDef.states|
    ensures var t := FirstMatch(AuthDef.states[st], c);
            t.Some? && t.value.dest == Dest(st) && t.value.act2 == None
            && t.value.act1 == if st <= AUTH_STATE_PASSWD then Action(st, true) else Action(AUTH_EVENT_DONE, false)
  {
  }

  /** What one byte of the message does. */
  function Step(a: Auth, c: Byte): Verdict<Auth, Outcome> {
    OnEvent(a.(state := Dest(a.state)), if a.state <= AUTH_STATE_PASSWD then a.state else AUTH_EVENT_DONE, c)
  }

  /** The handling of the event reported for byte `c`. */
  function OnEvent(a: Auth, event: nat, c: Byte): Verdict<Auth, Outcome> {
    if event == AUTH_EVENT_VER then
      if c != AUTH_VERSION then Stop(Refused) else Go(a)
    else if event == AUTH_EVENT_ULEN then
      Go(a.(ulen := c, uname := []))
    else if event == AUTH_EVENT_UNAME then
      var uname := if |a.uname| < a.ulen then Stored(a.uname + [c], a.size) else a.uname;
      Go(a.(uname := uname, state := if |uname| == a.ulen then AUTH_STATE_PLEN else a.state))
    else if event == AUTH_EVENT_PLEN then
      Go(a.(plen := c, passwd := []))
    else if event == AUTH_EVENT_PASSWD then
      var passwd := if |a.passwd| < a.plen then Stored(a.passwd + [c], a.size) else a.passwd;
      if |passwd| == a.plen && !a.authDone then Stop(Credentials(CString(a.uname), CString(passwd)))
      else Go(a.(passwd := passwd))
    else Stop(Refused)
  }

  /** The bytes a field of declared length `n` takes up: a zero length still uses up one byte, which is dropped. */
  function Width(n: Byte): (w: nat)
    ensures w >= 1
  {
    if n == 0 then 1 else n
  }

  /** A length at position `i` and the bytes it announces, with the position after them once they are complete. */
  function Field(b: seq<Byte>, i: nat): (r: Option<(seq<Byte>, nat)>)
    ensures r.Some? ==> i < r.value.1 <= |b| && |r.value.0| == b[i]
  {
    if |b| <= i then None
    else
      var n: nat := b[i];
      if |b| < i + 1 + Width(b[i]) then None else Some((b[i + 1..i + 1 + n], i + 1 + Width(b[i])))
  }

  /** Two fields from position `i` on, as C strings. */
  function TwoFields(b: seq<Byte>, i: nat): Option<(Outcome, nat)> {
    match Field(b, i)
    case None => None
    case Some((uname, j)) =>
      match Field(b, j)
      case None => None
      case Some((passwd, k)) => Some((Credentials(CString(uname), CString(passwd)), k))
  }

  /** A field of RFC 1929: a length of at least one and that many bytes. */
  function RfcField(b: seq<Byte>, i: nat): (r: Option<(seq<Byte>, nat)>)
    ensures r.Some? ==> i < r.value.1 <= |b| && |r.value.0| == b[i]
  {
    if |b| <= i || b[i] == 0 || |b| < i + 1 + b[i] as nat then None
    else Some((b[i + 1..i + 1 + b[i] as nat], i + 1 + b[i] as nat))
  }

  /** Section 2 of RFC 1929 on a whole prefix: version 1, ULEN, UNAME, PLEN, PASSWD. */
  function Rfc1929(b: seq<Byte>): Option<(Outcome, nat)> {
    if |b| >= 1 && b[0] != 1 then Some((Refused, 1))
    else
      match RfcField(b, 1)
      case None => None
      case Some((uname, j)) =>
        match RfcField(b, j)
        case None => None
        case Some((passwd, k)) => Some((Credentials(CString(uname), CString(passwd)), k))
  }

  /** The state once `uname` has been read in its field. */
  function UnameRead(a: Auth, uname: seq<Byte>): Auth {
    a.(uname := uname, state := if |uname| == a.ulen then AUTH_STATE_PLEN else AUTH_STATE_UNAME)
  }

  /** Bytes of the username, up to its last one. */
  lemma {:induction false} UnameRun(a: Auth, b: seq<Byte>, i: nat)
    requires a.state == AUTH_STATE_UNAME && a.ulen < a.size && i < |b| <= i + a.ulen - |a.uname|
    ensures Run(Step, a, b, i) == More(UnameRead(a, a.uname + b[i..]))
    decreases |b| - i
  {
    if i + 1 == |b| {
      assert b[i..] == [b[i]];
    } else {
      var a' := a.(uname := a.uname + [b[i]]);
      UnameRun(a', b, i + 1);
      assert a'.uname + b[i + 1..] == a.uname + b[i..];
    }
  }

  /** One byte of the password. */
  lemma PasswdStep(a: Auth, c: Byte)
    requires a.state == AUTH_STATE_PASSWD && !a.authDone && |a.passwd| < a.plen < a.size
    ensures var passwd := a.passwd + [c];
            Step(a, c) == if |passwd| == a.plen then Stop(Credentials(CString(a.uname), CString(passwd)))
                          else Go(a.(passwd := passwd))
  {
  }

  /** The password: decided on its last byte. */
  lemma {:induction false} PasswdRun(a: Auth, b: seq<Byte>, i: nat)
    requires a.state == AUTH_STATE_PASSWD && !a.authDone && |a.passwd| < a.plen < a.size && i <= |b|
    ensures var j := i + a.plen - |a.passwd|;
            if |b| < j then Run(Step, a, b, i).More?
            else Run(Step, a, b, i) == Done(Credentials(CString(a.uname), CString(a.passwd + b[i..j])), j)
    decreases |b| - i
  {
    var j := i + a.plen - |a.passwd|;
    if i < |b| {
      PasswdStep(a, b[i]);
      if j == i + 1 {
        assert b[i..j] == [b[i]];
      } else {
        var a' := a.(passwd := a.passwd + [b[i]]);
        PasswdRun(a', b, i + 1);
        assert |b| >= j ==> a'.passwd + b[i + 1..j] == a.passwd + b[i..j];
      }
    }
  }

  /** From the length of the name on: the name, and then the state that waits for the length of the password. */
  lemma {:induction false} UnameFieldRun(a: Auth, b: seq<Byte>, i: nat)
    requires a.state == AUTH_STATE_ULEN && a.uname == [] && i <= |b| && (i < |b| ==> b[i] < a.size)
    ensures Field(b, i).None? ==> Run(Step, a, b, i).More?
    ensures Field(b, i).Some? ==>
              var (uname, j) := Field(b, i).value;
              Run(Step, a, b[..j], i) == More(UnameRead(a.(ulen := b[i]), uname))
  {
    if i < |b| {
      var j := i + 1 + Width(b[i]);
      if |b| < j {
        UnameBytesRun(a, b, i);
      } else {
        UnameBytesRun(a, b[..j], i);
        assert b[..j][i + 1..] == b[i + 1..j];
      }
    }
  }

  /** The length of the name and the bytes after it, when there are no more than the field takes up. */
  lemma {:induction false} UnameBytesRun(a: Auth, b: seq<Byte>, i: nat)
    requires a.state == AUTH_STATE_ULEN && a.uname == [] && i < |b| <= i + 1 + Width(b[i]) && b[i] < a.size
    ensures Run(Step, a, b, i).More?
    ensures |b| == i + 1 + Width(b[i]) ==>
              Run(Step, a, b, i).state == UnameRead(a.(ulen := b[i]), if b[i] == 0 then [] else b[i + 1..])
  {
    var a1 := a.(state := AUTH_STATE_UNAME, ulen := b[i]);
    assert Run(Step, a, b, i) == Run(Step, a1, b, i + 1);
    if b[i] == 0 {
      if i + 1 < |b| {
        assert Run(Step, a1, b, i + 1) == Run(Step, UnameRead(a1, []), b, i + 2);
      }
    } else if i + 1 < |b| {
      UnameRun(a1, b, i + 1);
      assert a1.uname + b[i + 1..] == b[i + 1..];
    }
  }

  /** From the length of the password on: decided on the last byte of the password. */
  lemma {:induction false} PasswdFieldRun(a: Auth, b: seq<Byte>, i: nat)
    requires a.state == AUTH_STATE_PLEN && a.passwd == [] && !a.authDone && i <= |b| && (i < |b| ==> b[i] < a.size)
    ensures match Field(b, i)
            case None => Run(Step, a, b, i).More?
            case Some((passwd, j)) => Run(Step, a, b, i) == Done(Credentials(CString(a.uname), CString(passwd)), j)
  {
    if i < |b| {
      var a1 := a.(state := AUTH_STATE_PASSWD, plen := b[i]);
      if b[i] > 0 {
        PasswdRun(a1, b, i + 1);
        var j := i + 1 + b[i] as nat;
        assert |b| >= j ==> a1.passwd + b[i + 1..j] == b[i + 1..j];
      }
    }
  }

  /** The two fields are complete, and one of them fills its array, which leaves no room for the terminator. */
  predicate Overruns(size: nat, b: seq<Byte>, i: nat) {
    TwoFields(b, i).Some? && (b[i] >= size || b[Field(b, i).value.1] >= size)
  }

  /** A name that fills its array is never complete. */
  lemma {:induction false} FullNameNeverEnds(a: Auth, b: seq<Byte>, i: nat)
    requires a.state == AUTH_STATE_UNAME && |a.uname| < a.size <= a.ulen
    ensures Run(Step, a, b, i).More?
    decreases |b| - i
  {
    if i < |b| {
      FullNameNeverEnds(a.(uname := Stored(a.uname + [b[i]], a.size)), b, i + 1);
    }
  }

  /** Nor is such a password. */
  lemma {:induction false} FullPasswdNeverEnds(a: Auth, b: seq<Byte>, i: nat)
    requires a.state == AUTH_STATE_PASSWD && |a.passwd| < a.size <= a.plen
    ensures Run(Step, a, b, i).More?
    decreases |b| - i
  {
    if i < |b| {
      FullPasswdNeverEnds(a.(passwd := Stored(a.passwd + [b[i]], a.size)), b, i + 1);
    }
  }

  /** From the first length on: the two fields, decided on the last byte of the second, unless one fills its array. */
  lemma {:induction false} FieldsRun(a: Auth, b: seq<Byte>, i: nat)
    requires a.state == AUTH_STATE_ULEN && a.uname == a.passwd == [] && !a.authDone && i <= |b| && a.size > 0
    ensures Run(Step, a, b, i).Decision() == if Overruns(a.size, b, i) then None else TwoFields(b, i)
  {
    if i < |b| && b[i] >= a.size {
      FullNameNeverEnds(a.(state := AUTH_STATE_UNAME, ulen := b[i]), b, i + 1);
    } else {
      UnameFieldRun(a, b, i);
      var field := Field(b, i);
      if field.Some? {
        var (uname, j) := field.value;
        var a1 := UnameRead(a.(ulen := b[i]), uname);
        RunPast(Step, a, b, i, j);
        if j < |b| && b[j] >= a.size {
          FullPasswdNeverEnds(a1.(state := AUTH_STATE_PASSWD, plen := b[j]), b, j + 1);
        } else {
          PasswdFieldRun(a1, b, j);
        }
      }
    }
  }

  /** The message as the parser reads it. */
  function ActualLogin(b: seq<Byte>): Option<(Outcome, nat)> {
    if |b| >= 1 && b[0] != 1 then Some((Refused, 1))
    else if Overruns(MAX_BUFFER_SIZE, b, 1) then None
    else TwoFields(b, 1)
  }

  lemma {:induction false} LoginDecides(b: seq<Byte>)
    ensures Run(Step, Start, b).Decision() == ActualLogin(b)
  {
    if b != [] && b[0] == 1 {
      FieldsRun(Start.(state := AUTH_STATE_ULEN), b, 1);
    }
  }

  /** The bytes are complete as the parser reads them, and one of the two lengths is `n`. */
  predicate HasLength(b: seq<Byte>, n: nat) {
    |b| >= 1 && b[0] == 1 && TwoFields(b, 1).Some? && (b[1] == n || b[Field(b, 1).value.1] == n)
  }

  /** A message of the RFC with a name or a password of 255 bytes. */
  predicate LongCredentials(b: seq<Byte>) {
    HasLength(b, 255) && !HasLength(b, 0)
  }

  /** No message of the RFC: with a name or a password of no bytes, and neither of 255. */
  predicate EmptyCredentials(b: seq<Byte>) {
    HasLength(b, 0) && !HasLength(b, 255)
  }

  /**
   * Fed byte by byte, the parser asks for exactly the credentials of the message, on its last byte, exactly when neither
   * of them has 255 bytes. With such a one it keeps reading. An empty one, which the RFC does not allow, is read as a
   * length that takes up one byte.
   */
  lemma {:induction false} AuthFollowsRfc1929(b: seq<Byte>)
    ensures Run(Step, Start, b).Decision() == Rfc1929(b) <==> !LongCredentials(b) && !EmptyCredentials(b)
    ensures LongCredentials(b) ==> Run(Step, Start, b).More?
  {
    LoginDecides(b);
    if |b| >= 1 && b[0] == 1 {
      FieldsAgree(b, 1);
      if Field(b, 1).Some? {
        FieldsAgree(b, Field(b, 1).value.1);
      }
    }
  }

  /** Both readings of a field are the same, but for a length of 0. */
  lemma {:induction false} FieldsAgree(b: seq<Byte>, i: nat)
    ensures RfcField(b, i) == if i < |b| && b[i] == 0 then None else Field(b, i)
  {
  }

  /** The message RFC 1929 prescribes for a name and a password. */
  function Message(uname: seq<Byte>, passwd: seq<Byte>): seq<Byte>
    requires 1 <= |uname| <= 255 && 1 <= |passwd| <= 255
  {
    [1, |uname|] + uname + [|passwd|] + passwd
  }

  /** A message with NUL-free strings asks for exactly those strings, once, on its last byte, exactly when both are below 255 bytes. */
  lemma {:induction false} MessageIsUnderstood(uname: seq<Byte>, passwd: seq<Byte>)
    requires 1 <= |uname| <= 255 && 1 <= |passwd| <= 255 && 0 !in uname && 0 !in passwd
    ensures var fed := Run(Step, Start, Message(uname, passwd));
            if |uname| < 255 && |passwd| < 255 then fed == Done(Credentials(uname, passwd), |Message(uname, passwd)|)
            else fed.More?
  {
    var b := Message(uname, passwd);
    LoginDecides(b);
    assert b[2..2 + |uname|] == uname;
    assert b[2 + |uname|] == |passwd|;
    assert b[3 + |uname|..3 + |uname| + |passwd|] == passwd;
    CStringOfNulFree(uname);
    CStringOfNulFree(passwd);
  }

  /** `auth_read` on one result of `recv`, against a user table. */
  function Read(a: Auth, recv: Recv, errnoAgain: bool, users: seq<User>): (Auth, Reaction)
    requires recv.Data? ==> |recv.bytes| == 1
  {
    if !recv.Data? then (a, Reaction(if errnoAgain then AUTH_READ else ERROR, None))
    else After(a, Step(a, recv.bytes[0]), users)
  }

  /** What `auth_read` makes of the verdict on a byte. */
  function After(a: Auth, v: Verdict<Auth, Outcome>, users: seq<User>): (Auth, Reaction) {
    match v
    case Go(a') => (a', Reaction(AUTH_READ, None))
    case Stop(Refused) => (a, Reaction(ERROR, None))
    case Stop(Credentials(uname, passwd)) =>
      var ok := Apply(users, Login(uname, passwd)).1.status == USERS_OK;
      (a.(authStatus := if ok then AUTH_SUCCESS else AUTH_FAILURE, authDone := true), Reaction(AUTH_WRITE, Some(OP_WRITE)))
  }

  /** `auth_write`. */
  function Write(a: Auth, sent: bool): Reaction {
    if !sent || a.authStatus == AUTH_FAILURE then Reaction(ERROR, Some(OP_NOOP))
    else if a.authStatus == AUTH_SUCCESS then Reaction(REQUEST_READ, Some(OP_READ))
    else Reaction(ERROR, None)
  }

  class AuthParser {
    const p: Parser
    var ulen: Byte
    const uname: CountedBuffer
    var plen: Byte
    const passwd: CountedBuffer
    var authStatus: Byte
    var authDone: bool

    /** A text shorter than its array has its terminator; the name is complete once the password has begun. */
    ghost predicate Valid()
      reads this, p, uname, uname.mem, passwd, passwd.mem
    {
      && p.Valid() && p.def == AuthDef && p.state <= AUTH_STATE_PASSWD
      && uname != passwd && uname.mem != passwd.mem && uname.Valid() && passwd.Valid()
      && uname.Count() <= ulen && passwd.Count() <= plen
      && (p.state <= AUTH_STATE_ULEN ==> uname.Count() == 0)
      && (p.state <= AUTH_STATE_PLEN ==> passwd.Count() == 0)
      && (p.state <= AUTH_STATE_ULEN || ulen < 255 ==> uname.Terminated())
      && (p.state <= AUTH_STATE_PLEN || plen < 255 ==> passwd.Terminated())
      && (p.state >= AUTH_STATE_PLEN ==> uname.Count() == ulen)
    }

    ghost function Model(): Auth
      requires uname.Valid() && passwd.Valid()
      reads this, p, uname, uname.mem, passwd, passwd.mem
    {
      Auth(MAX_BUFFER_SIZE, p.state, ulen, uname.Text(), plen, passwd.Text(), authStatus, authDone)
    }

    constructor ()
      ensures Valid() && fresh(p) && fresh(uname) && fresh(uname.mem) && fresh(passwd) && fresh(passwd.mem)
      ensures Model() == Start
    {
      p := new Parser(AuthDef);
      ulen, plen := 0, 0;
      uname := new CountedBuffer();
      passwd := new CountedBuffer();
      authStatus, authDone := 0, false;
    }

    /** Asks the user store about the two buffers. */
    method LogIn(store: UserStore) returns (r: Reaction)
      requires Valid() && store.Valid() && p.state == AUTH_STATE_PASSWD && passwd.Count() == plen
      modifies this`authStatus, this`authDone
      ensures Valid()
      ensures (Model(), r)
           == After(old(Model()), Stop(Credentials(CString(uname.Text()), CString(passwd.Text()))), store.Table())
    {
      var name := uname.AsString();
      var password := passwd.AsString();
      var status, _ := store.UserLogin(name, password);
      authStatus := if status == USERS_OK then AUTH_SUCCESS else AUTH_FAILURE;
      authDone := true;
      r := Reaction(AUTH_WRITE, Some(OP_WRITE));
    }

    /** One byte of the name; after the last one the length of the password is next. */
    method ReadUname(c: Byte)
      requires Valid() && p.state == AUTH_STATE_UNAME
      modifies p, uname, uname.mem
      ensures Valid()
      ensures OnEvent(old(Model()), AUTH_EVENT_UNAME, c) == Go(Model())
    {
      if uname.Count() < ulen {
        uname.Put(c);
      }
      if uname.Count() == ulen {
        p.SetState(AUTH_STATE_PLEN);
      }
    }

    /** One byte of the password; the last one brings the login. */
    method ReadPasswd(c: Byte, store: UserStore) returns (r: Reaction)
      requires Valid() && p.state == AUTH_STATE_PASSWD && store.Valid()
      modifies this, passwd, passwd.mem
      ensures Valid()
      ensures var (a, r') := After(old(Model()), OnEvent(old(Model()), AUTH_EVENT_PASSWD, c), store.Table());
              r == r' && (r.next == AUTH_READ ==> Model() == a)
              && (r.next == AUTH_WRITE ==> authStatus == a.authStatus && authDone)
    {
      if passwd.Count() < plen {
        passwd.Put(c);
      }
      r := Reaction(AUTH_READ, None);
      if passwd.Count() == plen && !authDone {
        r := LogIn(store);
      }
    }

    method HandleEvent(ev: Event, c: Byte, store: UserStore) returns (r: Reaction)
      requires Valid() && store.Valid()
      requires ev.typ <= AUTH_EVENT_PASSWD && ev.data == [c] && p.state == Dest(ev.typ)
      requires ev.typ == AUTH_EVENT_ULEN ==> uname.Count() == 0 && uname.Terminated()
      requires ev.typ == AUTH_EVENT_PLEN ==> passwd.Count() == 0 && passwd.Terminated()
      modifies this, p, uname, uname.mem, passwd, passwd.mem
      ensures Valid()
      ensures var (a, r') := After(old(Model()), OnEvent(old(Model()), ev.typ, c), store.Table());
              r == r' && (r.next == AUTH_READ ==> Model() == a)
              && (r.next == AUTH_WRITE ==> authStatus == a.authStatus && authDone)
    {
      r := Reaction(AUTH_READ, None);
      if ev.typ == AUTH_EVENT_VER {
        if ev.data[0] != AUTH_VERSION {
          return Reaction(ERROR, None);
        }
      } else if ev.typ == AUTH_EVENT_ULEN {
        ulen := ev.data[0];
        uname.Clear();
      } else if ev.typ == AUTH_EVENT_UNAME {
        ReadUname(ev.data[0]);
      } else if ev.typ == AUTH_EVENT_PLEN {
        plen := ev.data[0];
        passwd.Clear();
      } else if ev.typ == AUTH_EVENT_PASSWD {
        r := ReadPasswd(ev.data[0], store);
      }
    }

    method AuthRead(recv: Recv, errnoAgain: bool, store: UserStore) returns (r: Reaction)
      requires Valid() && store.Valid() && !authDone
      requires recv.Data? ==> |recv.bytes| == 1
      modifies this, p, uname, uname.mem, passwd, passwd.mem
      ensures Valid()
      ensures var (a, r') := Read(old(Model()), recv, errnoAgain, store.Table());
              r == r' && (r.next == AUTH_READ ==> Model() == a)
              && (r.next == AUTH_WRITE ==> authStatus == a.authStatus && authDone)
    {
      if !recv.Data? {
        if errnoAgain {
          return Reaction(AUTH_READ, None);
        }
        return Reaction(ERROR, None);
      }
      TableTransits(p.state, recv.bytes[0]);
      var events := p.Feed(recv.bytes[0]);
      r := HandleEvent(events[0], recv.bytes[0], store);
    }
  }
}
