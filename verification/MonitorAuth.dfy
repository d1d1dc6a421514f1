/** src/server/monitor/monitor_auth.c: the login of the management protocol. */
module MonitorAuth {
  import opened Bytes
  import opened Feeding
  import opened ParserEngine
  import opened Users
  import opened CBuffers
  import Auth

  const MONITOR_AUTH_STATE_ULEN: nat := 0
  const MONITOR_AUTH_STATE_UNAME: nat := 1
  const MONITOR_AUTH_STATE_PLEN: nat := 2
  const MONITOR_AUTH_STATE_PASSWD: nat := 3
  const MONITOR_AUTH_STATE_DONE: nat := 4
  const MONITOR_AUTH_STATE_ERROR: nat := 5

  // Events share the numbers of the states.
  const MONITOR_AUTH_EVENT_DONE: nat := 4

  const MonitorAuthDef := Definition(
    [ [Transition(ANY, MONITOR_AUTH_STATE_UNAME, Action(MONITOR_AUTH_STATE_ULEN, true), None)],
      [Transition(ANY, MONITOR_AUTH_STATE_UNAME, Action(MONITOR_AUTH_STATE_UNAME, true), None)],
      [Transition(ANY, MONITOR_AUTH_STATE_PASSWD, Action(MONITOR_AUTH_STATE_PLEN, true), None)],
      [Transition(ANY, MONITOR_AUTH_STATE_PASSWD, Action(MONITOR_AUTH_STATE_PASSWD, true), None)],
      [Transition(ANY, MONITOR_AUTH_STATE_DONE, Action(MONITOR_AUTH_EVENT_DONE, false), None)],
      [Transition(ANY, MONITOR_AUTH_STATE_ERROR, Action(MONITOR_AUTH_EVENT_DONE, false), None)] ],
    MONITOR_AUTH_STATE_ULEN)

  /** The states of a management session. */
  datatype MonitorState = MONITOR_AUTH | MONITOR_REQ | MONITOR_DONE | MONITOR_ERROR

  datatype MonitorAuth = MonitorAuth(state: nat, ulen: Byte, uname: seq<Byte>, plen: Byte, passwd: seq<Byte>)

  /** How the login ends: with two C strings to check, or let through without a check on an event of the final state. */
  datatype Outcome = Credentials(uname: seq<Byte>, passwd: seq<Byte>) | LetThrough | Refused

  const Start := MonitorAuth(MONITOR_AUTH_STATE_ULEN, 0, [], 0, [])

  function Dest(st: nat): nat {
    if st <= MONITOR_AUTH_STATE_UNAME then MONITOR_AUTH_STATE_UNAME
    else if st <= MONITOR_AUTH_STATE_PASSWD then MONITOR_AUTH_STATE_PASSWD
    else st
  }

  function EventOf(st: nat): nat {
    if st <= MONITOR_AUTH_STATE_PASSWD then st else MONITOR_AUTH_EVENT_DONE
  }

  /** The engine takes these transitions of the table. */
  lemma {:induction false} TableTransits(st: nat, c: Byte)
    requires st < |MonitorAuthDef.states|
    ensures var t := FirstMatch(MonitorAuthDef.states[st], c);
            t.Some? && t.value.dest == Dest(st) && t.value.act2 == None
            && t.value.act1 == Action(EventOf(st), st <= MONITOR_AUTH_STATE_PASSWD)
  {
  }

  /** What one byte of the login does. */
  function Step(m: MonitorAuth, c: Byte): Verdict<MonitorAuth, Outcome> {
    OnEvent(m.(state := Dest(m.state)), EventOf(m.state), c)
  }

  /** The handling of the event reported for byte `c`. */
  function OnEvent(m: MonitorAuth, event: nat, c: Byte): Verdict<MonitorAuth, Outcome> {
    if event == MONITOR_AUTH_STATE_ULEN then Go(m.(ulen := c, uname := []))
    else if event == MONITOR_AUTH_STATE_UNAME then
      var uname := if |m.uname| < m.ulen then m.uname + [c] else m.uname;
      Go(m.(uname := uname, state := if |uname| == m.ulen then MONITOR_AUTH_STATE_PLEN else m.state))
    else if event == MONITOR_AUTH_STATE_PLEN then Go(m.(plen := c, passwd := []))
    else if event == MONITOR_AUTH_STATE_PASSWD then
      var passwd := if |m.passwd| < m.plen then m.passwd + [c] else m.passwd;
      if |passwd| == m.plen then Stop(Credentials(CString(m.uname), CString(passwd))) else Go(m.(passwd := passwd))
    else if event == MONITOR_AUTH_EVENT_DONE then Stop(LetThrough)
    else Stop(Refused)
  }

  /** The room for a string: the array, for the password together with the byte of alignment that follows it in memory. */
  const ROOM: nat := 256

  /**
   * The parser of the sub-negotiation in the corresponding state, which has one state more for the version. Here every
   * length leaves room for the terminator.
   */
  function AsAuth(m: MonitorAuth): Auth.Auth {
    Auth.Auth(ROOM, m.state + 1, m.ulen, m.uname, m.plen, m.passwd, 0, false)
  }

  /** The strings read so far are those of the state, and no longer than their lengths. */
  ghost predicate Reading(m: MonitorAuth) {
    && m.state <= MONITOR_AUTH_STATE_PASSWD && |m.uname| <= m.ulen && |m.passwd| <= m.plen
    && (m.state == MONITOR_AUTH_STATE_ULEN ==> m.uname == []) && (m.state <= MONITOR_AUTH_STATE_PLEN ==> m.passwd == [])
  }

  lemma {:induction false} StepSimulates(m: MonitorAuth, c: Byte)
    requires Reading(m)
    ensures match Step(m, c)
            case Go(m') => Reading(m') && Auth.Step(AsAuth(m), c) == Go(AsAuth(m'))
            case Stop(o) => o.Credentials? && Auth.Step(AsAuth(m), c) == Stop(Auth.Credentials(o.uname, o.passwd))
  {
  }

  /** The login parser does, byte for byte, what the parser of the sub-negotiation does after the version. */
  lemma {:induction false} SimulatesAuth(m: MonitorAuth, b: seq<Byte>, i: nat)
    requires Reading(m)
    ensures var mine, theirs := Run(Step, m, b, i), Run(Auth.Step, AsAuth(m), b, i);
            && (mine.More? ==> theirs.More? && mine.state.state <= MONITOR_AUTH_STATE_PASSWD)
            && (mine.Done? ==> mine.outcome.Credentials?)
            && (mine.Done? ==> theirs == Done(Auth.Credentials(mine.outcome.uname, mine.outcome.passwd), mine.used))
    decreases |b| - i
  {
    if i < |b| {
      StepSimulates(m, b[i]);
      var v := Step(m, b[i]);
      if v.Go? {
        SimulatesAuth(v.state, b, i + 1);
      }
    }
  }

  /** A decision of the sub-negotiation as one of the login. */
  function AsLogin(d: Option<(Auth.Outcome, nat)>): Option<(Outcome, nat)> {
    match d
    case None => None
    case Some((Credentials(uname, passwd), k)) => Some((Credentials(uname, passwd), k))
    case Some((Refused, k)) => Some((Refused, k))
  }

  /** Fed byte by byte, the login asks for exactly the two strings, on the last byte, and never lets anyone through unasked. */
  lemma {:induction false} LoginReadsTwoFields(b: seq<Byte>)
    ensures Run(Step, Start, b).Decision() == AsLogin(Auth.TwoFields(b, 0))
  {
    SimulatesAuth(Start, b, 0);
    Auth.FieldsRun(AsAuth(Start), b, 0);
  }

  /** What `monitor_auth_read` does on a verdict: stay, or move on with the access level that was found. */
  function After(v: Verdict<MonitorAuth, Outcome>, users: seq<User>, level: int): (MonitorState, int) {
    match v
    case Go(_) => (MONITOR_AUTH, level)
    case Stop(Refused) => (MONITOR_ERROR, level)
    case Stop(LetThrough) => (MONITOR_REQ, level)
    case Stop(Credentials(uname, passwd)) =>
      var a := Apply(users, Login(uname, passwd)).1;
      if a.status != USERS_OK || a.level == None then (MONITOR_ERROR, level)
      else if a.level.value != ADMIN then (MONITOR_ERROR, a.level.value)
      else (MONITOR_REQ, a.level.value)
  }

  /** `monitor_auth_read` on one result of `recv`. */
  function Read(m: MonitorAuth, recv: Recv, errnoAgain: bool, users: seq<User>, level: int): (MonitorAuth, MonitorState, int)
    requires recv.Data? ==> |recv.bytes| == 1
  {
    if !recv.Data? then (m, if errnoAgain then MONITOR_AUTH else MONITOR_ERROR, level)
    else
      var v := Step(m, recv.bytes[0]);
      var (next, level) := After(v, users, level);
      (if v.Go? then v.state else m, next, level)
  }

  class MonitorAuthParser {
    const p: Parser
    var ulen: Byte
    const uname: CBuffer
    var plen: Byte
    const passwd: CBuffer

    ghost predicate Valid()
      reads this, p, uname, uname.buf, passwd, passwd.buf
    {
      && p.Valid() && p.def == MonitorAuthDef && p.state <= MONITOR_AUTH_STATE_PASSWD
      && uname != passwd && uname.buf != passwd.buf && uname.Valid() && passwd.Valid()
      && uname.buf.Length == passwd.buf.Length == ROOM
      && uname.count <= ulen && passwd.count <= plen
      && (p.state <= MONITOR_AUTH_STATE_ULEN ==> uname.count == 0)
      && (p.state <= MONITOR_AUTH_STATE_PLEN ==> passwd.count == 0)
    }

    ghost function Model(): MonitorAuth
      requires uname.count <= uname.buf.Length && passwd.count <= passwd.buf.Length
      reads this, p, uname, uname.buf, passwd, passwd.buf
    {
      MonitorAuth(p.state, ulen, uname.Text(), plen, passwd.Text())
    }

    constructor ()
      ensures Valid() && fresh(p) && fresh(uname) && fresh(uname.buf) && fresh(passwd) && fresh(passwd.buf)
      ensures Model() == Start
    {
      p := new Parser(MonitorAuthDef);
      ulen, plen := 0, 0;
      uname := new CBuffer(ROOM);
      passwd := new CBuffer(ROOM);
    }

    /** The login itself; only an administrator moves on. */
    method LogIn(store: UserStore, level: int) returns (next: MonitorState, newLevel: int)
      requires Valid() && store.Valid()
      ensures (next, newLevel) == After(Stop(Credentials(CString(uname.Text()), CString(passwd.Text()))), store.Table(), level)
    {
      var name := uname.AsString();
      var password := passwd.AsString();
      var status, found := store.UserLogin(name, password);
      if status != USERS_OK {
        return MONITOR_ERROR, level;
      }
      newLevel := found.value;
      if newLevel != ADMIN {
        return MONITOR_ERROR, newLevel;
      }
      next := MONITOR_REQ;
    }

    method HandleEvent(ev: Event, c: Byte, store: UserStore, level: int) returns (next: MonitorState, newLevel: int)
      requires Valid() && store.Valid()
      requires ev.typ <= MONITOR_AUTH_STATE_PASSWD && ev.data == [c] && p.state == Dest(ev.typ)
      requires ev.typ == MONITOR_AUTH_STATE_ULEN ==> uname.count == 0
      requires ev.typ == MONITOR_AUTH_STATE_PLEN ==> passwd.count == 0
      modifies this, p, uname, uname.buf, passwd, passwd.buf
      ensures Valid()
      ensures var v := OnEvent(old(Model()), ev.typ, c);
              (next, newLevel) == After(v, store.Table(), level) && (v.Go? ==> Model() == v.state)
    {
      next, newLevel := MONITOR_AUTH, level;
      if ev.typ == MONITOR_AUTH_STATE_ULEN {
        ulen := ev.data[0];
        uname.count := 0;
      } else if ev.typ == MONITOR_AUTH_STATE_UNAME {
        if uname.count < ulen {
          uname.Put(ev.data[0]);
        }
        if uname.count == ulen {
          p.SetState(MONITOR_AUTH_STATE_PLEN);
        }
      } else if ev.typ == MONITOR_AUTH_STATE_PLEN {
        plen := ev.data[0];
        passwd.count := 0;
      } else {
        if passwd.count < plen {
          passwd.Put(ev.data[0]);
        }
        if passwd.count == plen {
          next, newLevel := LogIn(store, level);
        }
      }
    }

    method MonitorAuthRead(recv: Recv, errnoAgain: bool, store: UserStore, level: int)
      returns (next: MonitorState, newLevel: int)
      requires Valid() && store.Valid()
      requires recv.Data? ==> |recv.bytes| == 1
      modifies this, p, uname, uname.buf, passwd, passwd.buf
      ensures Valid()
      ensures var (m, next', level') := Read(old(Model()), recv, errnoAgain, store.Table(), level);
              (next, newLevel) == (next', level') && (next == MONITOR_AUTH ==> Model() == m)
    {
      if !recv.Data? {
        return if errnoAgain then MONITOR_AUTH else MONITOR_ERROR, level;
      }
      TableTransits(p.state, recv.bytes[0]);
      var events := p.Feed(recv.bytes[0]);
      next, newLevel := HandleEvent(events[0], recv.bytes[0], store, level);
    }
  }
}
