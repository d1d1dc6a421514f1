/** src/server/users.c: the user store, an array in insertion order. */
module Users {
  import opened Bytes

  const MAX_USERS_REGISTERED: nat := 50

  const ADMIN: int := 0
  const USER: int := 1

  datatype User = User(username: seq<Byte>, password: seq<Byte>, level: int)

  datatype Status =
    | USERS_OK | USERS_INVALID_ACCESS_LEVEL | USERS_INVALID_USERNAME | USERS_WRONG_PASSWORD
    | USERS_USER_ALREADY_EXISTS | USERS_USER_NOT_FOUND | USERS_MAX_USERS_REACHED
    | USERS_UNKOWN_ERROR

  /** A call on the store. */
  datatype Call =
    | Create(user: User)
    | Login(name: seq<Byte>, password: seq<Byte>)
    | ChangePassword(name: seq<Byte>, password: seq<Byte>)
    | Delete(name: seq<Byte>)

  /** What a call answers: its status and, for a successful login, the level of the user. */
  datatype Answer = Answer(status: Status, level: Option<int>)

  predicate ValidLevel(level: int) {
    level == ADMIN || level == USER
  }

  ghost predicate Distinct(t: seq<User>) {
    forall i, j :: 0 <= i < j < |t| ==> t[i].username != t[j].username
  }

  /** The first position of a name, or -1. */
  function IndexOf(t: seq<User>, name: seq<Byte>): (i: int)
    ensures -1 <= i < |t|
    ensures i >= 0 ==> t[i].username == name && forall j :: 0 <= j < i ==> t[j].username != name
    ensures i < 0 ==> forall j :: 0 <= j < |t| ==> t[j].username != name
  {
    if t == [] then -1
    else if t[0].username == name then 0
    else var i := IndexOf(t[1..], name); if i < 0 then -1 else i + 1
  }

  /** The size of each string field of `user_t`. */
  const FIELD: nat := 256

  /**
   * What the string functions read in an entry after the two strings and then the level have been put into it. A
   * password that fills its field is followed by the level, whose first byte is its value, and a name that fills its
   * field by the password.
   */
  function InEntry(u: User): User {
    var level: seq<Byte> := if u.level == USER then [1] else [];
    var password := if |u.password| < FIELD then u.password else u.password[..FIELD] + level;
    User(if |u.username| < FIELD then u.username else u.username[..FIELD] + password, password, u.level)
  }

  /** The strings are no longer than their fields, apart from what comes out the same. */
  predicate Fits(u: User) {
    && (|u.username| < FIELD || u.username[FIELD..] == u.password)
    && (|u.password| < FIELD || u.password[FIELD..] == if u.level == USER then [1] else [])
  }

  /** An entry holds a user exactly when the strings fit. */
  lemma {:induction false} EntryHolds(u: User)
    ensures InEntry(u) == u <==> Fits(u)
  {
    var e := InEntry(u);
    if |u.password| >= FIELD {
      assert u.password == u.password[..FIELD] + u.password[FIELD..];
      assert e.password[FIELD..] == if u.level == USER then [1] else [];
    }
    if |u.username| >= FIELD {
      assert u.username == u.username[..FIELD] + u.username[FIELD..];
      assert (u.username[..FIELD] + e.password)[FIELD..] == e.password;
    }
  }

  /** The table and the answer after a call. */
  function Apply(t: seq<User>, call: Call): (seq<User>, Answer) {
    match call
    case Create(u) =>
      if !ValidLevel(u.level) then (t, Answer(USERS_INVALID_ACCESS_LEVEL, None))
      else if |t| >= MAX_USERS_REGISTERED then (t, Answer(USERS_MAX_USERS_REACHED, None))
      else if IndexOf(t, u.username) >= 0 then (t, Answer(USERS_USER_ALREADY_EXISTS, None))
      else (t + [InEntry(u)], Answer(USERS_OK, None))
    case Login(name, password) =>
      var i := IndexOf(t, name);
      if i < 0 then (t, Answer(USERS_USER_NOT_FOUND, None))
      else if t[i].password == password then (t, Answer(USERS_OK, Some(t[i].level)))
      else (t, Answer(USERS_WRONG_PASSWORD, None))
    case ChangePassword(name, password) =>
      var i := IndexOf(t, name);
      if i < 0 then (t, Answer(USERS_USER_NOT_FOUND, None))
      else (t[i := InEntry(t[i].(password := password))], Answer(USERS_OK, None))
    case Delete(name) =>
      var i := IndexOf(t, name);
      if i < 0 then (t, Answer(USERS_INVALID_USERNAME, None))
      else (t[..i] + t[i + 1..], Answer(USERS_OK, None))
  }

  class UserStore {
    const users: array<User>
    var usersSize: nat

    ghost predicate Valid()
      reads this, users
    {
      && users.Length == MAX_USERS_REGISTERED
      && usersSize <= MAX_USERS_REGISTERED
    }

    /** The registered users, in insertion order. */
    ghost function Table(): seq<User>
      requires usersSize <= users.Length
      reads this, users
    {
      users[..usersSize]
    }

    constructor ()
      ensures Valid() && fresh(users) && Table() == []
    {
      users := new User[MAX_USERS_REGISTERED];
      usersSize := 0;
    }

    method GetUserIndex(name: seq<Byte>) returns (index: int)
      requires Valid()
      ensures index == IndexOf(Table(), name)
    {
      for i := 0 to usersSize
        invariant forall j :: 0 <= j < i ==> users[j].username != name
      {
        if users[i].username == name {
          assert Table()[i].username == name;
          return i;
        }
      }
      index := -1;
    }

    /** Strings may be longer than their fields, as long as all that is copied stays inside the array. */
    method UserCreate(name: seq<Byte>, password: seq<Byte>, level: int) returns (status: Status)
      requires Valid()
      modifies this, users
      ensures Valid()
      ensures (Table(), Answer(status, None)) == Apply(old(Table()), Create(User(name, password, level)))
    {
      if !ValidLevel(level) {
        return USERS_INVALID_ACCESS_LEVEL;
      }
      if usersSize >= MAX_USERS_REGISTERED {
        return USERS_MAX_USERS_REACHED;
      }
      var index := GetUserIndex(name);
      if index >= 0 {
        return USERS_USER_ALREADY_EXISTS;
      }
      users[usersSize] := InEntry(User(name, password, level));
      usersSize := usersSize + 1;
      assert Table() == old(Table()) + [InEntry(User(name, password, level))];
      status := USERS_OK;
    }

    method UserLogin(name: seq<Byte>, password: seq<Byte>) returns (status: Status, level: Option<int>)
      requires Valid()
      ensures (Table(), Answer(status, level)) == Apply(Table(), Login(name, password))
    {
      var i := GetUserIndex(name);
      if i < 0 {
        return USERS_USER_NOT_FOUND, None;
      }
      if users[i].password == password {
        return USERS_OK, Some(users[i].level);
      }
      return USERS_WRONG_PASSWORD, None;
    }

    /** A password that fills its field would overwrite the level and the next entry. */
    method UserChangePassword(name: seq<Byte>, password: seq<Byte>) returns (status: Status)
      requires Valid() && |password| < FIELD
      modifies users
      ensures Valid()
      ensures (Table(), Answer(status, None)) == Apply(old(Table()), ChangePassword(name, password))
    {
      var index := GetUserIndex(name);
      if index < 0 {
        return USERS_USER_NOT_FOUND;
      }
      users[index] := InEntry(users[index].(password := password));
      status := USERS_OK;
    }

    /** The `memmove` of `user_delete`: every user after `index` moves one place down. */
    method ShiftDown(index: nat)
      requires index < usersSize <= users.Length
      modifies users
      ensures users[..usersSize - 1] == old(Table()[..index] + Table()[index + 1..])
    {
      forall i | index <= i < usersSize - 1 {
        users[i] := users[i + 1];
      }
    }

    method UserDelete(name: seq<Byte>) returns (status: Status)
      requires Valid()
      modifies this, users
      ensures Valid()
      ensures (Table(), Answer(status, None)) == Apply(old(Table()), Delete(name))
    {
      var index := GetUserIndex(name);
      if index < 0 {
        return USERS_INVALID_USERNAME;
      }
      ghost var t := Table();
      if index < usersSize - 1 {
        ShiftDown(index);
      } else {
        assert users[..usersSize - 1] == t[..index] + t[index + 1..];
      }
      usersSize := usersSize - 1;
      status := USERS_OK;
    }
  }

  /** The reference: a finite map from names to passwords and levels. */
  type Registry = map<seq<Byte>, (seq<Byte>, int)>

  function ApplyToRegistry(m: Registry, call: Call): (Registry, Answer) {
    match call
    case Create(u) =>
      if !ValidLevel(u.level) then (m, Answer(USERS_INVALID_ACCESS_LEVEL, None))
      else if |m| >= MAX_USERS_REGISTERED then (m, Answer(USERS_MAX_USERS_REACHED, None))
      else if u.username in m then (m, Answer(USERS_USER_ALREADY_EXISTS, None))
      else (m[u.username := (u.password, u.level)], Answer(USERS_OK, None))
    case Login(name, password) =>
      if name !in m then (m, Answer(USERS_USER_NOT_FOUND, None))
      else if m[name].0 == password then (m, Answer(USERS_OK, Some(m[name].1)))
      else (m, Answer(USERS_WRONG_PASSWORD, None))
    case ChangePassword(name, password) =>
      if name !in m then (m, Answer(USERS_USER_NOT_FOUND, None))
      else (m[name := (password, m[name].1)], Answer(USERS_OK, None))
    case Delete(name) =>
      if name !in m then (m, Answer(USERS_INVALID_USERNAME, None))
      else (m - {name}, Answer(USERS_OK, None))
  }

  /** The table `t` stands for the map `m`. */
  ghost predicate Represents(t: seq<User>, m: Registry) {
    && Distinct(t) && |t| == |m|
    && forall name :: Agree(t, m, name)
  }

  /** The table and the map have the same entry, or none, under `name`. */
  ghost predicate Agree(t: seq<User>, m: Registry, name: seq<Byte>) {
    var i := IndexOf(t, name);
    if i < 0 then name !in m else name in m && m[name] == (t[i].password, t[i].level)
  }

  lemma DeleteKeepsDistinct(t: seq<User>, i: nat)
    requires Distinct(t) && i < |t|
    ensures Distinct(t[..i] + t[i + 1..])
  {
    var t' := t[..i] + t[i + 1..];
    assert forall j :: 0 <= j < |t'| ==> t'[j] == t[if j < i then j else j + 1];
  }

  /** A name is where it is found when it is not found earlier. */
  lemma {:induction false} IndexIs(t: seq<User>, i: nat)
    requires Distinct(t) && i < |t|
    ensures IndexOf(t, t[i].username) == i
  {
  }

  lemma {:induction false} IndexAfterDelete(t: seq<User>, i: nat, name: seq<Byte>)
    requires Distinct(t) && i < |t|
    ensures var k := IndexOf(t, name);
            IndexOf(t[..i] + t[i + 1..], name) == if k == i then -1 else if k < i then k else k - 1
  {
    var t' := t[..i] + t[i + 1..];
    DeleteKeepsDistinct(t, i);
    var k := IndexOf(t, name);
    if 0 <= k && k != i {
      IndexIs(t', if k < i then k else k - 1);
    } else {
      forall j | 0 <= j < |t'|
        ensures t'[j].username != name
      {
        var x := if j < i then j else j + 1;
        assert t'[j] == t[x] && x != i;
      }
    }
  }

  /** A call on the array answers like the same call on the map and leaves the array standing for the map. */
  ghost predicate Refines(t: seq<User>, m: Registry, call: Call) {
    var ((t', a), (m', a')) := (Apply(t, call), ApplyToRegistry(m, call));
    a == a' && Represents(t', m') && |t'| <= MAX_USERS_REGISTERED
  }

  /** The call puts into the table what it is given: the strings of a new user fit, and so do those of a changed one. */
  predicate Keeps(t: seq<User>, call: Call) {
    match call
    case Create(u) => Apply(t, call).1.status == USERS_OK ==> Fits(u)
    case ChangePassword(name, password) => IndexOf(t, name) >= 0 ==> Fits(t[IndexOf(t, name)].(password := password))
    case _ => true
  }

  lemma CreateRefines(t: seq<User>, m: Registry, u: User)
    requires Represents(t, m) && |t| <= MAX_USERS_REGISTERED
    ensures Refines(t, m, Create(u)) <==> Keeps(t, Create(u))
  {
    assert Agree(t, m, u.username);
    EntryHolds(u);
    if ApplyToRegistry(m, Create(u)).1.status == USERS_OK {
      var t', m' := t + [InEntry(u)], m[u.username := (u.password, u.level)];
      if Fits(u) {
        AppendAgrees(t, m, u);
      } else {
        assert forall k :: 0 <= k < |t| ==> t'[k].username != u.username;
        assert !Agree(t', m', u.username);
      }
    }
  }

  lemma {:induction false} AppendAgrees(t: seq<User>, m: Registry, u: User)
    requires Represents(t, m) && IndexOf(t, u.username) < 0
    ensures Represents(t + [u], m[u.username := (u.password, u.level)])
  {
    assert Agree(t, m, u.username);
    var t', m' := t + [u], m[u.username := (u.password, u.level)];
    forall name
      ensures Agree(t', m', name)
    {
      assert Agree(t, m, name);
      assert t'[|t|] == u;
      assert IndexOf(t, name) >= 0 ==> t'[IndexOf(t, name)] == t[IndexOf(t, name)];
    }
  }

  lemma DeleteAgrees(t: seq<User>, m: Registry, i: nat, name: seq<Byte>)
    requires Distinct(t) && i < |t| && Agree(t, m, name)
    ensures Agree(t[..i] + t[i + 1..], m - {t[i].username}, name)
  {
    IndexAfterDelete(t, i, name);
    IndexIs(t, i);
  }

  lemma DeleteRefines(t: seq<User>, m: Registry, name: seq<Byte>)
    requires Represents(t, m) && |t| <= MAX_USERS_REGISTERED
    ensures Refines(t, m, Delete(name))
  {
    assert Agree(t, m, name);
    var i := IndexOf(t, name);
    if i >= 0 {
      DeleteKeepsDistinct(t, i);
      var t', m' := t[..i] + t[i + 1..], m - {name};
      forall k
        ensures Agree(t', m', k)
      {
        assert Agree(t, m, k);
        DeleteAgrees(t, m, i, k);
      }
    }
  }

  lemma {:induction false} ChangeAgrees(t: seq<User>, m: Registry, i: nat, password: seq<Byte>)
    requires Represents(t, m) && i < |t|
    ensures Represents(t[i := t[i].(password := password)], m[t[i].username := (password, t[i].level)])
  {
    var name := t[i].username;
    IndexIs(t, i);
    assert Agree(t, m, name);
    var t', m' := t[i := t[i].(password := password)], m[name := (password, t[i].level)];
    assert forall j :: 0 <= j < |t| ==> t'[j].username == t[j].username;
    forall k
      ensures Agree(t', m', k)
    {
      assert Agree(t, m, k);
      SameNamesSameIndex(t, t', k);
    }
  }

  lemma {:induction false} ChangePasswordRefines(t: seq<User>, m: Registry, name: seq<Byte>, password: seq<Byte>)
    requires Represents(t, m) && |t| <= MAX_USERS_REGISTERED && |password| < FIELD
    ensures Refines(t, m, ChangePassword(name, password)) <==> Keeps(t, ChangePassword(name, password))
  {
    assert Agree(t, m, name);
    var i := IndexOf(t, name);
    if i >= 0 {
      var e := t[i].(password := password);
      EntryHolds(e);
      if Fits(e) {
        ChangeAgrees(t, m, i, password);
      } else {
        var t', m' := t[i := InEntry(e)], m[name := (password, t[i].level)];
        assert forall j :: 0 <= j < |t| && j != i ==> t'[j].username != name;
        assert t'[i].username != name;
        assert !Agree(t', m', name);
      }
    }
  }

  lemma {:induction false} SameNamesSameIndex(t: seq<User>, t': seq<User>, name: seq<Byte>)
    requires |t| == |t'| && forall j :: 0 <= j < |t| ==> t'[j].username == t[j].username
    ensures IndexOf(t', name) == IndexOf(t, name)
  {
  }

  /** The new password of a change is shorter than its field, as those of its callers are. */
  predicate ChangesAreShort(call: Call) {
    call.ChangePassword? ==> |call.password| < FIELD
  }

  /** One call on the array does what the same call does on the map exactly when the strings it puts in fit. */
  lemma {:induction false} ApplyRefinesRegistry(t: seq<User>, m: Registry, call: Call)
    requires Represents(t, m) && |t| <= MAX_USERS_REGISTERED && ChangesAreShort(call)
    ensures Refines(t, m, call) <==> Keeps(t, call)
  {
    match call
    case Create(u) => CreateRefines(t, m, u);
    case Login(name, _) => assert Agree(t, m, name);
    case ChangePassword(name, password) => ChangePasswordRefines(t, m, name, password);
    case Delete(name) => DeleteRefines(t, m, name);
  }

  function Calls(t: seq<User>, calls: seq<Call>): (seq<User>, seq<Answer>)
    decreases |calls|
  {
    if calls == [] then (t, [])
    else
      var (t', a) := Apply(t, calls[0]);
      var (t'', rest) := Calls(t', calls[1..]);
      (t'', [a] + rest)
  }

  function CallsOnRegistry(m: Registry, calls: seq<Call>): (Registry, seq<Answer>)
    decreases |calls|
  {
    if calls == [] then (m, [])
    else
      var (m', a) := ApplyToRegistry(m, calls[0]);
      var (m'', rest) := CallsOnRegistry(m', calls[1..]);
      (m'', [a] + rest)
  }

  /** At every point of the history the array gives the answer of the map and stands for it. */
  ghost predicate Simulates(t: seq<User>, m: Registry, calls: seq<Call>)
    decreases |calls|
  {
    && Represents(t, m) && |t| <= MAX_USERS_REGISTERED
    && (calls == [] ||
        (Apply(t, calls[0]).1 == ApplyToRegistry(m, calls[0]).1
         && Simulates(Apply(t, calls[0]).0, ApplyToRegistry(m, calls[0]).0, calls[1..])))
  }

  /** Every call of the history puts in what it is given. */
  predicate AllKeep(t: seq<User>, calls: seq<Call>)
    decreases |calls|
  {
    calls == [] || (Keeps(t, calls[0]) && AllKeep(Apply(t, calls[0]).0, calls[1..]))
  }

  lemma {:induction false} CallsRefineRegistry(t: seq<User>, m: Registry, calls: seq<Call>)
    requires Represents(t, m) && |t| <= MAX_USERS_REGISTERED && forall c :: c in calls ==> ChangesAreShort(c)
    ensures Simulates(t, m, calls) <==> AllKeep(t, calls)
    decreases |calls|
  {
    if calls != [] {
      assert calls[0] in calls;
      ApplyRefinesRegistry(t, m, calls[0]);
      if Keeps(t, calls[0]) {
        CallsRefineRegistry(Apply(t, calls[0]).0, ApplyToRegistry(m, calls[0]).0, calls[1..]);
      } else {
        SizeIsKept(t, calls[0]);
        assert calls[1..] == [] || |calls[1..]| > 0;
      }
    }
  }

  lemma SizeIsKept(t: seq<User>, call: Call)
    requires |t| <= MAX_USERS_REGISTERED
    ensures |Apply(t, call).0| <= MAX_USERS_REGISTERED
  {
  }

  lemma {:induction false} SimulationAnswers(t: seq<User>, m: Registry, calls: seq<Call>)
    requires Simulates(t, m, calls)
    ensures var ((t', answers), (m', answers')) := (Calls(t, calls), CallsOnRegistry(m, calls));
            answers == answers' && Represents(t', m') && |t'| <= MAX_USERS_REGISTERED
    decreases |calls|
  {
    if calls != [] {
      SimulationAnswers(Apply(t, calls[0]).0, ApplyToRegistry(m, calls[0]).0, calls[1..]);
    }
  }

  /** Calls whose strings are all shorter than the fields. */
  predicate IsShort(call: Call) {
    match call
    case Create(u) => |u.username| < FIELD && |u.password| < FIELD
    case ChangePassword(_, password) => |password| < FIELD
    case _ => true
  }

  predicate NamesAreShort(t: seq<User>) {
    forall i :: 0 <= i < |t| ==> |t[i].username| < FIELD
  }

  lemma {:induction false} ShortCallsKeep(t: seq<User>, calls: seq<Call>)
    requires NamesAreShort(t) && forall c :: c in calls ==> IsShort(c)
    ensures AllKeep(t, calls)
    decreases |calls|
  {
    if calls != [] {
      assert calls[0] in calls;
      ShortCallsKeep(Apply(t, calls[0]).0, calls[1..]);
    }
  }

  /**
   * The store as it starts, through any history: at every point the array answers as the map does and stands for it,
   * exactly when every user that is created fits its entry, and so for all strings of at most 255 bytes.
   */
  lemma {:induction false} StoreRefinesRegistry(calls: seq<Call>)
    requires forall c :: c in calls ==> ChangesAreShort(c)
    ensures Simulates([], map[], calls) <==> AllKeep([], calls)
    ensures (forall c :: c in calls ==> IsShort(c)) ==> Simulates([], map[], calls)
    ensures AllKeep([], calls) ==>
              var ((t, answers), (m, answers')) := (Calls([], calls), CallsOnRegistry(map[], calls));
              answers == answers' && Represents(t, m) && |t| <= MAX_USERS_REGISTERED
  {
    CallsRefineRegistry([], map[], calls);
    if AllKeep([], calls) {
      SimulationAnswers([], map[], calls);
    }
    if forall c :: c in calls ==> IsShort(c) {
      ShortCallsKeep([], calls);
    }
  }

  /** A name of 256 bytes or more is not found again, and is taken twice. */
  lemma {:induction false} LongNameIsTakenTwice(name: seq<Byte>, p: seq<Byte>, q: seq<Byte>)
    requires |name| == FIELD && p != []
    ensures var calls := [Create(User(name, p, USER)), Create(User(name, q, USER))];
            Calls([], calls).1 == [Answer(USERS_OK, None), Answer(USERS_OK, None)]
  {
    var t := [InEntry(User(name, p, USER))];
    var second := [Create(User(name, q, USER))];
    assert |t[0].username| > FIELD;
    assert [] + t == t;
    assert Calls(t, second).1 == [Answer(USERS_OK, None)] + [];
    assert [Create(User(name, p, USER)), Create(User(name, q, USER))][1..] == second;
  }

  /** No call that puts in what it is given changes the relative order of the users that stay, and a new user comes last. */
  lemma {:induction false} OrderIsKept(t: seq<User>, call: Call, i: nat, j: nat)
    requires Distinct(t) && i < j < |Apply(t, call).0|
    ensures Keeps(t, call) ==>
              var t' := Apply(t, call).0;
              var a, b := IndexOf(t, t'[i].username), IndexOf(t, t'[j].username);
              0 <= a && (a < b || (b < 0 && call.Create? && j == |t| && t'[j] == call.user))
  {
    var t' := Apply(t, call).0;
    if Keeps(t, call) {
      KeepsNames(t, call);
      var removed := if call.Delete? then IndexOf(t, call.name) else -1;
      IndexIs(t, if 0 <= removed <= i then i + 1 else i);
      if j < |t| && (removed < 0 || j + 1 < |t| || j < removed) {
        IndexIs(t, if 0 <= removed <= j then j + 1 else j);
      }
    }
  }

  /** Such a call leaves the names of the users that stay, one place further down after a removed one. */
  lemma {:induction false} KeepsNames(t: seq<User>, call: Call)
    requires Keeps(t, call)
    ensures var t' := Apply(t, call).0;
            var removed := if call.Delete? then IndexOf(t, call.name) else -1;
            && |t'| <= |t| + 1 && (removed >= 0 ==> |t'| == |t| - 1)
            && (forall k :: 0 <= k < |t'| && k < |t| ==>
                  (0 <= removed <= k ==> k + 1 < |t| && t'[k].username == t[k + 1].username)
                  && (!(0 <= removed <= k) ==> t'[k].username == t[k].username))
            && (|t'| == |t| + 1 ==> call.Create? && t'[|t|] == call.user && IndexOf(t, call.user.username) < 0)
  {
    if call.Create? {
      EntryHolds(call.user);
    }
    if call.ChangePassword? && IndexOf(t, call.name) >= 0 {
      EntryHolds(t[IndexOf(t, call.name)].(password := call.password));
    }
  }

  /** Which users can be created: of the two levels, under a new name, while there are fewer than 50. */
  lemma {:induction false} CreateAnswers(t: seq<User>, u: User)
    ensures var status := Apply(t, Create(u)).1.status;
            && (status == USERS_OK <==> (u.level == 0 || u.level == 1) && |t| < 50 && forall k :: 0 <= k < |t| ==> t[k].username != u.username)
            && (status == USERS_INVALID_ACCESS_LEVEL <==> u.level != 0 && u.level != 1)
            && (status == USERS_MAX_USERS_REACHED <==> (u.level == 0 || u.level == 1) && |t| >= 50)
            && (status != USERS_OK ==> Apply(t, Create(u)).0 == t)
  {
  }
}
