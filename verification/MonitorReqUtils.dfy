/** src/server/monitor/monitor_req_utils.c: what each management request does to the stores. */
module MonitorReqUtils {
  import opened Bytes
  import opened AuthUtils
  import opened Users

  const ADD_USER: Byte := 0x00
  const REMOVE_USER: Byte := 0x01
  const CHANGE_PASSWD: Byte := 0x02
  const STATISTICS: Byte := 0x03
  const CHANGE_AUTH_METHODS: Byte := 0x04
  const REQ_AMOUNT: nat := 5

  /** `max_arguments`: how many arguments a request takes, by type. */
  const MaxArguments: seq<nat> := [3, 1, 2, 0, 0]

  /** The check of the number of arguments. A type beyond the table is refused by `handle_request` in any case. */
  predicate Accepts(typ: Byte, n: nat) {
    typ == CHANGE_AUTH_METHODS || (typ < REQ_AMOUNT && n == MaxArguments[typ])
  }

  /** The user table and the array of authentication methods. */
  datatype Stores = Stores(users: seq<User>, methods: seq<int>)

  /** The first character of an argument, as a `char`. */
  function FirstChar(arg: seq<Byte>): int {
    if arg == [] then 0 else Signed(arg[0])
  }

  /** What a request does, and whether it succeeds. */
  function HandleRequest(typ: Byte, args: seq<seq<Byte>>, s: Stores): (Stores, bool)
    requires Accepts(typ, |args|) && |args| < |s.methods| && |s.methods| >= 2
  {
    if typ == ADD_USER then
      var (users, a) := Apply(s.users, Create(User(CString(args[0]), CString(args[1]), FirstChar(args[2]))));
      (s.(users := users), a.status == USERS_OK)
    else if typ == REMOVE_USER then
      var (users, a) := Apply(s.users, Delete(CString(args[0])));
      (s.(users := users), a.status == USERS_OK)
    else if typ == CHANGE_PASSWD then
      var (users, a) := Apply(s.users, ChangePassword(CString(args[0]), CString(args[1])));
      (s.(users := users), a.status == USERS_OK)
    else if typ == STATISTICS then (s, true)
    else
      var (methods, ok) := Changed(s.methods, Some(args));
      (s.(methods := methods), ok)
  }

  /** The character at position `i` of a C string, the terminator included. */
  function CharOf(s: seq<Byte>, i: nat): int {
    if i < |s| then Signed(s[i]) else 0
  }

  /** `valid_user` walks the name up to a character below 32, which the terminator always is, and calls that an error. */
  method ValidUser(username: seq<Byte>, password: seq<Byte>) returns (status: Status)
    ensures status == USERS_UNKOWN_ERROR
  {
    var c := 0;
    while true
      invariant 0 <= c <= |username|
      decreases |username| - c
    {
      if CharOf(username, c) < 32 {
        return USERS_UNKOWN_ERROR;
      }
      c := c + 1;
    }
  }

  method HandleRequestOn(typ: Byte, args: seq<seq<Byte>>, store: UserStore, am: AuthMethods) returns (ok: bool)
    requires Accepts(typ, |args|) && |args| < MAX_BUFFER_SIZE && forall i :: 0 <= i < |args| ==> |args[i]| <= 255
    requires store.Valid() && am.Valid()
    modifies store, store.users, am.accepted
    ensures store.Valid() && am.Valid()
    ensures (Stores(store.Table(), am.accepted[..]), ok)
         == HandleRequest(typ, args, Stores(old(store.Table()), old(am.accepted[..])))
  {
    ok := true;
    if typ == ADD_USER {
      var uname, passwd, level := CString(args[0]), CString(args[1]), FirstChar(args[2]);
      var valid := ValidUser(uname, passwd);
      if valid != USERS_OK {
        var created := store.UserCreate(uname, passwd, level);
        ok := created == USERS_OK;
      }
    } else if typ == REMOVE_USER {
      var deleted := store.UserDelete(CString(args[0]));
      ok := deleted == USERS_OK;
    } else if typ == CHANGE_PASSWD {
      var changed := store.UserChangePassword(CString(args[0]), CString(args[1]));
      ok := changed == USERS_OK;
    } else if typ == CHANGE_AUTH_METHODS {
      ok := am.ChangeAuthMethods(Some(args));
    }
  }
}
