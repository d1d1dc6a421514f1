/** src/client/monitor_utils.c: the encoders of the management client, and what the server makes of their output. */
module MonitorClient {
  import opened Bytes
  import opened Feeding
  import opened AuthUtils
  import opened Users
  import opened MonitorReqUtils
  import opened MonitorReq
  import MonitorAuth

  /** The strings of a `user_t` on the command line, either of which may be absent. */
  datatype UserArg = UserArg(username: Option<seq<Byte>>, password: Option<seq<Byte>>, level: Byte)

  /** A string whose length fits in one byte and is not zero. */
  predicate Encodable(s: Option<seq<Byte>>) {
    s.Some? && 1 <= |s.value| <= 255
  }

  /** One byte at a position. */
  method Put(buffer: array<Byte>, pos: nat, c: Byte) returns (next: nat)
    requires pos < buffer.Length
    modifies buffer
    ensures next == pos + 1 && buffer[..next] == old(buffer[..pos]) + [c]
    ensures forall i :: next <= i < buffer.Length ==> buffer[i] == old(buffer[i])
  {
    buffer[pos] := c;
    next := pos + 1;
  }

  /** The bytes of a string at a position. */
  method Memcpy(buffer: array<Byte>, pos: nat, s: seq<Byte>) returns (next: nat)
    requires pos + |s| <= buffer.Length
    modifies buffer
    ensures next == pos + |s| && buffer[..next] == old(buffer[..pos]) + s
    ensures forall i :: next <= i < buffer.Length ==> buffer[i] == old(buffer[i])
  {
    forall i | 0 <= i < |s| {
      buffer[pos + i] := s[i];
    }
    next := pos + |s|;
  }

  /** A length and the bytes of a string. */
  method PutString(buffer: array<Byte>, pos: nat, s: seq<Byte>) returns (next: nat)
    requires |s| <= 255 && pos + 1 + |s| <= buffer.Length
    modifies buffer
    ensures next == pos + 1 + |s| && buffer[..next] == old(buffer[..pos]) + [|s|] + s
    ensures forall i :: next <= i < buffer.Length ==> buffer[i] == old(buffer[i])
  {
    next := Put(buffer, pos, |s|);
    next := Memcpy(buffer, next, s);
  }

  /** The login: a name and a password, each with its length before it. */
  function LoginMessage(uname: seq<Byte>, passwd: seq<Byte>): seq<Byte>
    requires 1 <= |uname| <= 255 && 1 <= |passwd| <= 255
  {
    [|uname|] + uname + [|passwd|] + passwd
  }

  /** Writes the login, or nothing when a string is absent, empty or too long or the buffer too small. */
  method WriteMonitorAuthRequest(buffer: array<Byte>, user: UserArg) returns (n: nat)
    modifies buffer
    ensures n > 0 <==> Encodable(user.username) && Encodable(user.password)
                       && 2 + |user.username.value| + |user.password.value| <= buffer.Length
    ensures n <= buffer.Length && forall i :: n <= i < buffer.Length ==> buffer[i] == old(buffer[i])
    ensures n > 0 ==> buffer[..n] == LoginMessage(user.username.value, user.password.value)
  {
    n := 0;
    if !Encodable(user.username) || !Encodable(user.password) {
      return;
    }
    var uname, passwd := user.username.value, user.password.value;
    if 2 + |uname| + |passwd| > buffer.Length {
      return;
    }
    n := PutString(buffer, n, uname);
    n := PutString(buffer, n, passwd);
  }

  method WriteMonitorUserAddRequest(buffer: array<Byte>, user: UserArg) returns (n: nat)
    modifies buffer
    ensures n > 0 <==> Encodable(user.username) && Encodable(user.password)
                       && 6 + |user.username.value| + |user.password.value| <= buffer.Length
    ensures n <= buffer.Length && forall i :: n <= i < buffer.Length ==> buffer[i] == old(buffer[i])
    ensures n > 0 ==> buffer[..n] == Frame(ADD_USER, [user.username.value, user.password.value, [user.level]])
  {
    n := 0;
    if !Encodable(user.username) || !Encodable(user.password) {
      return;
    }
    var uname, passwd := user.username.value, user.password.value;
    if 6 + |uname| + |passwd| > buffer.Length {
      return;
    }
    n := Put(buffer, n, ADD_USER);
    assert buffer[..n] == [ADD_USER];
    n := PutString(buffer, n, uname);
    n := PutString(buffer, n, passwd);
    assert buffer[..n] == [ADD_USER] + [|uname|] + uname + [|passwd|] + passwd;
    n := PutString(buffer, n, [user.level]);
    n := Put(buffer, n, 0);
    FrameOfThree(ADD_USER, uname, passwd, [user.level]);
  }

  method WriteMonitorUserDeleteRequest(buffer: array<Byte>, user: UserArg) returns (n: nat)
    modifies buffer
    ensures n > 0 <==> Encodable(user.username) && 3 + |user.username.value| <= buffer.Length
    ensures n <= buffer.Length && forall i :: n <= i < buffer.Length ==> buffer[i] == old(buffer[i])
    ensures n > 0 ==> buffer[..n] == Frame(REMOVE_USER, [user.username.value])
  {
    n := 0;
    if !Encodable(user.username) {
      return;
    }
    var uname := user.username.value;
    if 3 + |uname| > buffer.Length {
      return;
    }
    n := Put(buffer, n, REMOVE_USER);
    n := PutString(buffer, n, uname);
    n := Put(buffer, n, 0);
    FrameOfOne(REMOVE_USER, uname);
  }

  /** Asks for one byte more of buffer than it writes. */
  method WriteMonitorChangePassRequest(buffer: array<Byte>, user: UserArg) returns (n: nat)
    modifies buffer
    ensures n > 0 <==> Encodable(user.username) && Encodable(user.password)
                       && 5 + |user.username.value| + |user.password.value| <= buffer.Length
    ensures n <= buffer.Length && forall i :: n <= i < buffer.Length ==> buffer[i] == old(buffer[i])
    ensures n > 0 ==> buffer[..n] == Frame(CHANGE_PASSWD, [user.username.value, user.password.value])
  {
    n := 0;
    if !Encodable(user.username) || !Encodable(user.password) {
      return;
    }
    var uname, passwd := user.username.value, user.password.value;
    if 5 + |uname| + |passwd| > buffer.Length {
      return;
    }
    n := Put(buffer, n, CHANGE_PASSWD);
    n := PutString(buffer, n, uname);
    n := PutString(buffer, n, passwd);
    n := Put(buffer, n, 0);
    FrameOfTwo(CHANGE_PASSWD, uname, passwd);
  }

  method WriteMonitorGetStatsRequest(buffer: array<Byte>) returns (n: nat)
    modifies buffer
    ensures n > 0 <==> buffer.Length >= 2
    ensures n <= buffer.Length && forall i :: n <= i < buffer.Length ==> buffer[i] == old(buffer[i])
    ensures n > 0 ==> buffer[..n] == Frame(STATISTICS, [])
  {
    if buffer.Length < 2 {
      return 0;
    }
    buffer[0] := STATISTICS;
    buffer[1] := 0;
    n := 2;
  }

  /** Each method as an argument of one byte. */
  function MethodArgs(methods: seq<int>): (args: seq<seq<Byte>>)
    requires forall i :: 0 <= i < |methods| ==> -128 <= methods[i] < 128
    ensures |args| == |methods| && forall i :: 0 <= i < |methods| ==> args[i] == [Unsigned(methods[i])]
  {
    seq(|methods|, i requires 0 <= i < |methods| => [Unsigned(methods[i])])
  }

  /** Writes the methods up to the sentinel -1; the room in the buffer is not checked beyond the first byte. */
  method WriteMonitorChangeAuthMethodsRequest(buffer: array<Byte>, authMethods: seq<int>) returns (n: nat)
    requires forall i :: 0 <= i < |authMethods| ==> -128 <= authMethods[i] < 128
    requires -1 in authMethods
    requires buffer.Length == 0 || 2 + 2 * |UpToSentinel(authMethods)| <= buffer.Length
    modifies buffer
    ensures n > 0 <==> buffer.Length > 0
    ensures n <= buffer.Length && forall i :: n <= i < buffer.Length ==> buffer[i] == old(buffer[i])
    ensures n > 0 ==> buffer[..n] == Frame(CHANGE_AUTH_METHODS, MethodArgs(UpToSentinel(authMethods)))
  {
    if buffer.Length < 1 {
      return 0;
    }
    var methods := UpToSentinel(authMethods);
    SentinelIsThere(authMethods);
    var args := MethodArgs(methods);
    n := Put(buffer, 0, CHANGE_AUTH_METHODS);
    assert args[0..] == args;
    var j := 0;
    while authMethods[j] != -1
      invariant 0 <= j <= |methods| && n == 1 + 2 * j
      invariant buffer[..n] + ArgsFrame(args[j..]) == Frame(CHANGE_AUTH_METHODS, args)
      invariant forall i :: n <= i < buffer.Length ==> buffer[i] == old(buffer[i])
      decreases |methods| - j
    {
      assert authMethods[j] == methods[j] && j < |methods|;
      ghost var before, written := n, buffer[..n];
      n := PutString(buffer, n, [Unsigned(authMethods[j])]);
      assert args[j..][0] == [Unsigned(authMethods[j])] && args[j..][1..] == args[j + 1..];
      ArgsFrameStep(written, args[j..]);
      j := j + 1;
    }
    n := Put(buffer, n, 0);
    assert args[j..] == [];
  }

  lemma {:induction false} SentinelIsThere(s: seq<int>)
    requires -1 in s
    ensures |UpToSentinel(s)| < |s|
  {
    if s[0] != -1 {
      SentinelIsThere(s[1..]);
    }
  }

  /** What is left of the arguments, with the next one written out. */
  lemma {:induction false} ArgsFrameStep(written: seq<Byte>, args: seq<seq<Byte>>)
    requires ArgsFit(args) && args != []
    ensures written + ArgsFrame(args) == (written + [|args[0]|] + args[0]) + ArgsFrame(args[1..])
  {
  }

  lemma FrameOfOne(typ: Byte, a: seq<Byte>)
    requires 1 <= |a| <= 255
    ensures Frame(typ, [a]) == [typ] + [|a|] + a + [0]
  {
    ArgsFrameStep([typ], [a]);
    assert [a][1..] == [];
    assert ArgsFrame([a][1..]) == [0];
  }

  lemma FrameOfTwo(typ: Byte, a: seq<Byte>, b: seq<Byte>)
    requires 1 <= |a| <= 255 && 1 <= |b| <= 255
    ensures Frame(typ, [a, b]) == [typ] + [|a|] + a + [|b|] + b + [0]
  {
    ArgsFrameStep([typ], [a, b]);
    assert [a, b][1..] == [b] && [b][1..] == [];
    ArgsFrameStep([typ] + [|a|] + a, [b]);
    assert ArgsFrame([b][1..]) == [0];
  }

  lemma FrameOfThree(typ: Byte, a: seq<Byte>, b: seq<Byte>, c: seq<Byte>)
    requires 1 <= |a| <= 255 && 1 <= |b| <= 255 && 1 <= |c| <= 255
    ensures Frame(typ, [a, b, c]) == [typ] + [|a|] + a + [|b|] + b + [|c|] + c + [0]
  {
    ArgsFrameStep([typ], [a, b, c]);
    assert [a, b, c][1..] == [b, c] && [b, c][1..] == [c] && [c][1..] == [];
    ArgsFrameStep([typ] + [|a|] + a, [b, c]);
    ArgsFrameStep([typ] + [|a|] + a + [|b|] + b, [c]);
    assert ArgsFrame([c][1..]) == [0];
  }

  /** What the server does with the bytes of a request: the stores after it, and whether it was carried out. */
  function Serve(b: seq<Byte>, s: Stores): (Stores, bool)
    requires |s.methods| >= 2
  {
    var r := Run(Step, Start, b);
    if r.Done? && r.outcome.Handle? && Accepts(r.outcome.typ, |r.outcome.args|) && |r.outcome.args| < |s.methods|
    then HandleRequest(r.outcome.typ, r.outcome.args, s)
    else (s, false)
  }

  /** A login the client writes makes the server check exactly that name and password, on its last byte. */
  lemma LoginIsUnderstood(uname: seq<Byte>, passwd: seq<Byte>)
    requires 1 <= |uname| <= 255 && 1 <= |passwd| <= 255 && 0 !in uname && 0 !in passwd
    ensures var b := LoginMessage(uname, passwd);
            Run(MonitorAuth.Step, MonitorAuth.Start, b) == Done(MonitorAuth.Credentials(uname, passwd), |b|)
  {
    var b := LoginMessage(uname, passwd);
    MonitorAuth.LoginReadsTwoFields(b);
    assert b[1..1 + |uname|] == uname;
    assert b[1 + |uname|] == |passwd|;
    assert b[2 + |uname|..2 + |uname| + |passwd|] == passwd;
    CStringOfNulFree(uname);
    CStringOfNulFree(passwd);
  }

  /** An add request the client writes creates that user on the server. */
  lemma AddRequestCreatesUser(uname: seq<Byte>, passwd: seq<Byte>, level: Byte, s: Stores)
    requires 1 <= |uname| <= 255 && 1 <= |passwd| <= 255 && 0 !in uname && 0 !in passwd
    requires |s.methods| == MAX_BUFFER_SIZE
    ensures var (users, a) := Apply(s.users, Create(User(uname, passwd, Signed(level))));
            Serve(Frame(0, [uname, passwd, [level]]), s) == (s.(users := users), a.status == USERS_OK)
  {
    FrameIsHandled(ADD_USER, [uname, passwd, [level]]);
    CStringOfNulFree(uname);
    CStringOfNulFree(passwd);
  }

  /** A delete request the client writes removes that user on the server. */
  lemma DeleteRequestRemovesUser(uname: seq<Byte>, s: Stores)
    requires 1 <= |uname| <= 255 && 0 !in uname && |s.methods| == MAX_BUFFER_SIZE
    ensures var (users, a) := Apply(s.users, Delete(uname));
            Serve(Frame(1, [uname]), s) == (s.(users := users), a.status == USERS_OK)
  {
    FrameIsHandled(REMOVE_USER, [uname]);
    CStringOfNulFree(uname);
  }

  /** A password request the client writes changes that password on the server. */
  lemma ChangeRequestChangesPassword(uname: seq<Byte>, passwd: seq<Byte>, s: Stores)
    requires 1 <= |uname| <= 255 && 1 <= |passwd| <= 255 && 0 !in uname && 0 !in passwd
    requires |s.methods| == MAX_BUFFER_SIZE
    ensures var (users, a) := Apply(s.users, ChangePassword(uname, passwd));
            Serve(Frame(2, [uname, passwd]), s) == (s.(users := users), a.status == USERS_OK)
  {
    FrameIsHandled(CHANGE_PASSWD, [uname, passwd]);
    CStringOfNulFree(uname);
    CStringOfNulFree(passwd);
  }

  /** A list of methods the client writes becomes the accepted list, or is refused when one of them is not supported. */
  lemma MethodsRequestChangesMethods(methods: seq<int>, s: Stores)
    requires forall i :: 0 <= i < |methods| ==> -128 <= methods[i] < 128
    requires |methods| < MAX_BUFFER_SIZE == |s.methods|
    ensures var (s', ok) := Serve(Frame(4, MethodArgs(methods)), s);
            && s'.users == s.users
            && (ok <==> forall i :: 0 <= i < |methods| ==> methods[i] == 0 || methods[i] == 2)
            && (ok ==> UpToSentinel(s'.methods) == methods)
  {
    var args := MethodArgs(methods);
    FrameIsHandled(CHANGE_AUTH_METHODS, args);
    ChangeIsAllOrFails(s.methods, args);
    assert forall i :: 0 <= i < |methods| ==> Method(args[i]) == methods[i];
    assert Methods(args) == methods;
  }

  /** A request for the statistics changes nothing and is answered. */
  lemma {:induction false} StatisticsRequestIsAnswered(s: Stores)
    requires |s.methods| == MAX_BUFFER_SIZE
    ensures Serve(Frame(3, []), s) == (s, true)
  {
    FrameIsHandled(STATISTICS, []);
  }
}
