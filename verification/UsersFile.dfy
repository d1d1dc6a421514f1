/** src/server/users.c: the users file, printed at shutdown and parsed at start. */
module UsersFile {
  import opened Bytes
  import opened Users
  import opened CBuffers

  const AT: int := '@' as int
  const HASH: int := '#' as int
  const COLON: int := ':' as int
  const NEWLINE: int := '\n' as int

  const MAX_USERNAME_LEN: nat := 255
  const MAX_PASSWORD_LEN: nat := 255

  // Where the fields of `user_t` are in its memory: the name, the password, the low byte of the level.
  const PASSWORD_AT: nat := 256
  const LEVEL_AT: nat := 512

  /** The `char` that `fgetc` leaves: the end of the file and every byte from 128 on are negative. */
  function CharAt(f: seq<Byte>, i: nat): int {
    if i < |f| then Signed(f[i]) else -1
  }

  function Next(f: seq<Byte>, i: nat): nat {
    if i < |f| then i + 1 else i
  }

  predicate IsSpace(c: int) {
    c == 32 || 9 <= c <= 13
  }

  /** The first character that is not white space, and the position after it. */
  function SkipWhiteSpaces(f: seq<Byte>, i: nat): (r: (int, nat))
    ensures i <= |f| ==> i <= r.1 <= |f| && (r.0 >= 0 ==> i < r.1)
    decreases |f| - i
  {
    if IsSpace(CharAt(f, i)) then SkipWhiteSpaces(f, i + 1) else (CharAt(f, i), Next(f, i))
  }

  /** The end of the line, or what stands for the end of the file. */
  function SkipLine(f: seq<Byte>, i: nat): (r: (int, nat))
    ensures i <= |f| ==> i <= r.1 <= |f|
    ensures r.0 == NEWLINE || r.0 < 0
    decreases |f| - i
  {
    var c := CharAt(f, i);
    if c >= 0 && c != NEWLINE then SkipLine(f, i + 1) else (c, Next(f, i))
  }

  /** A string that has been read, or the status of a line that is given up. */
  datatype Field = Text(text: seq<Byte>, next: nat) | Invalid(status: int, next: nat)

  /** The username from position `i` on, with `s` read so far. */
  function ReadName(f: seq<Byte>, i: nat, s: seq<Byte>): (r: Field)
    ensures i <= |f| ==> i <= r.next <= |f|
    ensures r.Invalid? ==> r.status != 0
    decreases |f| - i
  {
    var c := CharAt(f, i);
    if c < 0 || c == COLON then Text(s, Next(f, i))
    else if c < 32 || |s| > MAX_USERNAME_LEN then
      if c != NEWLINE then var (status, j) := SkipLine(f, i + 1); Invalid(status, j) else Invalid(1, i + 1)
    else ReadName(f, i + 1, s + [f[i]])
  }

  /** The password from position `i` on, with `s` read so far. */
  function ReadPassword(f: seq<Byte>, i: nat, s: seq<Byte>): (r: Field)
    ensures i <= |f| ==> i <= r.next <= |f|
    ensures r.Invalid? ==> r.status != 0
    decreases |f| - i
  {
    var c := CharAt(f, i);
    if c < 0 || c == NEWLINE then Text(s, Next(f, i))
    else if c < 32 || |s| > MAX_PASSWORD_LEN then var (status, j) := SkipLine(f, i + 1); Invalid(status, j)
    else ReadPassword(f, i + 1, s + [f[i]])
  }

  /**
   * The user that the fields of `user_t` hold after a name and a password have been put into them. The terminator of a
   * name of 256 characters falls on the password, which is then a part of the name; that of a password of 256
   * characters clears the level.
   */
  function InFields(level: int, name: seq<Byte>, password: seq<Byte>): User {
    User(if |name| > MAX_USERNAME_LEN then name + password else name, password,
         if |password| > MAX_PASSWORD_LEN then ADMIN else level)
  }

  /** What one call of `parse_user` does: its status, the user when that is 0, and the position it leaves. */
  datatype Parsed = Parsed(status: int, user: User, next: nat)

  const NoUser := User([], [], USER)

  /** Every call that is not the last one consumes a byte. */
  function ParseUser(f: seq<Byte>, i: nat): (r: Parsed)
    ensures i <= |f| ==> i <= r.next <= |f| && (r.status >= 0 ==> i < r.next)
  {
    var (c, j) := SkipWhiteSpaces(f, i);
    if c < 0 then Parsed(-1, NoUser, j)
    else if c != AT && c != HASH then Parsed(1, NoUser, j)
    else
      match ReadName(f, j, [])
      case Invalid(status, k) => Parsed(status, NoUser, k)
      case Text(name, k) =>
        match ReadPassword(f, k, [])
        case Invalid(status, l) => Parsed(status, NoUser, l)
        case Text(password, l) => Parsed(0, InFields(if c == AT then ADMIN else USER, name, password), l)
  }

  /** Parsing to the end, creating each user in turn. */
  function Load(f: seq<Byte>, i: nat, t: seq<User>): seq<User>
    requires i <= |f|
    decreases |f| - i
  {
    var p := ParseUser(f, i);
    if p.status < 0 then t
    else Load(f, p.next, if p.status == 0 then Apply(t, Create(p.user)).0 else t)
  }

  /** The line `fprintf` writes for a user. */
  function Line(u: User): seq<Byte> {
    [if u.level == ADMIN then AT else HASH] + u.username + [COLON] + u.password + [NEWLINE]
  }

  function Save(t: seq<User>): seq<Byte> {
    if t == [] then [] else Line(t[0]) + Save(t[1..])
  }

  class File {
    const data: seq<Byte>
    var pos: nat

    constructor (data: seq<Byte>)
      ensures this.data == data && pos == 0
    {
      this.data, pos := data, 0;
    }

    method Fgetc() returns (c: int)
      modifies this
      ensures c == CharAt(data, old(pos)) && pos == Next(data, old(pos))
    {
      if pos < |data| {
        c := Signed(data[pos]);
        pos := pos + 1;
      } else {
        c := -1;
      }
    }

    method SkipLineOf() returns (c: int)
      modifies this
      ensures (c, pos) == SkipLine(data, old(pos))
    {
      c := Fgetc();
      while c >= 0 && c != NEWLINE
        invariant if c >= 0 && c != NEWLINE then SkipLine(data, old(pos)) == SkipLine(data, pos)
                  else SkipLine(data, old(pos)) == (c, pos)
        invariant c >= 0 ==> pos <= |data|
        decreases |data| - pos, if c >= 0 then 1 else 0
      {
        c := Fgetc();
      }
    }

    method SkipWhite() returns (c: int)
      modifies this
      ensures (c, pos) == SkipWhiteSpaces(data, old(pos))
    {
      c := Fgetc();
      while IsSpace(c)
        invariant if IsSpace(c) then SkipWhiteSpaces(data, old(pos)) == SkipWhiteSpaces(data, pos)
                  else SkipWhiteSpaces(data, old(pos)) == (c, pos)
        invariant c >= 0 ==> pos <= |data|
        decreases |data| - pos, if c >= 0 then 1 else 0
      {
        c := Fgetc();
      }
    }

    /** The loop of `parse_user` that reads the name, with the status of a line that is given up. */
    method ReadNameOf(parsed: array<Byte>) returns (n: nat, failed: Option<int>)
      requires parsed.Length == LEVEL_AT + 1
      modifies this, parsed
      ensures forall i :: PASSWORD_AT < i <= LEVEL_AT ==> parsed[i] == old(parsed[i])
      ensures match ReadName(data, old(pos), [])
              case Text(name, next) =>
                failed == None && pos == next && n == |name| <= PASSWORD_AT && parsed[..n] == name && parsed[n] == 0
              case Invalid(status, next) => failed == Some(status) && pos == next
    {
      n := 0;
      var c := Fgetc();
      while c >= 0 && c != COLON
        invariant n <= PASSWORD_AT
        invariant forall i :: PASSWORD_AT < i <= LEVEL_AT ==> parsed[i] == old(parsed[i])
        invariant c >= 0 ==> 0 < pos <= |data| && c == Signed(data[pos - 1])
                             && ReadName(data, old(pos), []) == ReadName(data, pos - 1, parsed[..n])
        invariant c < 0 ==> ReadName(data, old(pos), []) == Text(parsed[..n], pos)
        decreases |data| - pos, if c >= 0 then 1 else 0
      {
        if c < 32 || n > MAX_USERNAME_LEN {
          if c != NEWLINE {
            var status := SkipLineOf();
            return n, Some(status);
          }
          return n, Some(1);
        }
        parsed[n] := data[pos - 1];
        assert parsed[..n + 1] == parsed[..n] + [data[pos - 1]];
        n := n + 1;
        c := Fgetc();
      }
      ghost var name := parsed[..n];
      parsed[n] := 0;
      assert parsed[..n] == name;
      failed := None;
    }

    /** The loop of `parse_user` that reads the password. */
    method ReadPasswordOf(parsed: array<Byte>) returns (n: nat, failed: Option<int>)
      requires parsed.Length == LEVEL_AT + 1
      modifies this, parsed
      ensures parsed[..PASSWORD_AT] == old(parsed[..PASSWORD_AT])
      ensures n < PASSWORD_AT ==> parsed[LEVEL_AT] == old(parsed[LEVEL_AT])
      ensures match ReadPassword(data, old(pos), [])
              case Text(password, next) =>
                && failed == None && pos == next && n == |password| <= PASSWORD_AT
                && parsed[PASSWORD_AT..PASSWORD_AT + n] == password && parsed[PASSWORD_AT + n] == 0
              case Invalid(status, next) => failed == Some(status) && pos == next
    {
      n := 0;
      var c := Fgetc();
      while c >= 0 && c != NEWLINE
        invariant n <= PASSWORD_AT
        invariant parsed[..PASSWORD_AT] == old(parsed[..PASSWORD_AT]) && parsed[LEVEL_AT] == old(parsed[LEVEL_AT])
        invariant c >= 0 ==> 0 < pos <= |data| && c == Signed(data[pos - 1])
                             && ReadPassword(data, old(pos), [])
                             == ReadPassword(data, pos - 1, parsed[PASSWORD_AT..PASSWORD_AT + n])
        invariant c < 0 ==> ReadPassword(data, old(pos), []) == Text(parsed[PASSWORD_AT..PASSWORD_AT + n], pos)
        decreases |data| - pos, if c >= 0 then 1 else 0
      {
        if c < 32 || n > MAX_PASSWORD_LEN {
          var status := SkipLineOf();
          return n, Some(status);
        }
        ghost var read := parsed[PASSWORD_AT..PASSWORD_AT + n];
        parsed[PASSWORD_AT + n] := data[pos - 1];
        assert parsed[PASSWORD_AT..PASSWORD_AT + n + 1] == read + [data[pos - 1]];
        n := n + 1;
        c := Fgetc();
      }
      ghost var password := parsed[PASSWORD_AT..PASSWORD_AT + n];
      parsed[PASSWORD_AT + n] := 0;
      assert parsed[PASSWORD_AT..PASSWORD_AT + n] == password;
      failed := None;
    }

    /** `parse_user` on the memory of a `user_t`, whatever that holds before. */
    method ParseUserOf(parsed: array<Byte>) returns (status: int)
      requires parsed.Length == LEVEL_AT + 1
      modifies this, parsed
      ensures var p := ParseUser(data, old(pos));
              status == p.status && pos == p.next && (status == 0 ==> UserIn(parsed[..]) == p.user)
    {
      var c := SkipWhite();
      if c < 0 {
        return -1;
      }
      if c == AT {
        parsed[LEVEL_AT] := ADMIN;
      } else if c == HASH {
        parsed[LEVEL_AT] := USER;
      } else {
        return 1;
      }
      ghost var level := parsed[LEVEL_AT];
      ghost var j := pos;
      var n, failed := ReadNameOf(parsed);
      if failed.Some? {
        return failed.value;
      }
      ghost var k, name := pos, parsed[..n];
      assert n < PASSWORD_AT ==> parsed[..PASSWORD_AT][..n] == name && parsed[..PASSWORD_AT][n] == 0;
      var m;
      m, failed := ReadPasswordOf(parsed);
      if failed.Some? {
        return failed.value;
      }
      NameIsClean(data, j, []);
      PasswordIsClean(data, k, []);
      assert parsed[..n] == parsed[..PASSWORD_AT][..n];
      FieldsHold(parsed[..], level, name, parsed[PASSWORD_AT..PASSWORD_AT + m]);
      status := 0;
    }
  }

  /** What the string functions see in the memory of a `user_t`. */
  function UserIn(m: seq<Byte>): User
    requires |m| == LEVEL_AT + 1
  {
    User(CString(m), CString(m[PASSWORD_AT..]), m[LEVEL_AT])
  }

  /** A name and a password put into that memory, each with a terminator after it. */
  lemma FieldsHold(m: seq<Byte>, level: Byte, name: seq<Byte>, password: seq<Byte>)
    requires |m| == LEVEL_AT + 1 && |name| <= PASSWORD_AT && |password| <= PASSWORD_AT
    requires CleanName(name) && m[..|name|] == name && (|name| < PASSWORD_AT ==> m[|name|] == 0)
    requires CleanPassword(password) && m[PASSWORD_AT..PASSWORD_AT + |password|] == password
    requires m[PASSWORD_AT + |password|] == 0 && (|password| < PASSWORD_AT ==> m[LEVEL_AT] == level)
    ensures UserIn(m) == InFields(level, name, password)
  {
    var n := if |name| < PASSWORD_AT then |name| else PASSWORD_AT + |password|;
    assert |name| == PASSWORD_AT ==> m[..n] == name + password;
    TerminatedString(m, n);
    CStringOfNulFree(m[..n]);
    var q := m[PASSWORD_AT..];
    assert q[..|password|] == password && q[|password|] == 0;
    TerminatedString(q, |password|);
    CStringOfNulFree(password);
  }

  method LoadUsers(file: File, store: UserStore)
    requires store.Valid() && file.pos <= |file.data|
    modifies file, store, store.users
    ensures store.Valid()
    ensures store.Table() == Load(file.data, old(file.pos), old(store.Table()))
  {
    var parsed := new Byte[LEVEL_AT + 1];
    var result := 0;
    while result >= 0
      invariant store.Valid() && file.pos <= |file.data|
      invariant if result >= 0
                then Load(file.data, old(file.pos), old(store.Table())) == Load(file.data, file.pos, store.Table())
                else Load(file.data, old(file.pos), old(store.Table())) == store.Table()
      decreases |file.data| - file.pos, if result >= 0 then 1 else 0
    {
      result := file.ParseUserOf(parsed);
      if result == 0 {
        var status := store.UserCreate(CString(parsed[..]), CString(parsed[PASSWORD_AT..]), parsed[LEVEL_AT]);
        assert parsed[PASSWORD_AT..] == parsed[..][PASSWORD_AT..];
      }
    }
  }

  /** With no users left nothing is written, and the old file stays. */
  method SaveUsers(store: UserStore) returns (written: Option<seq<Byte>>)
    requires store.Valid()
    ensures written == if store.Table() == [] then None else Some(Save(store.Table()))
  {
    if store.usersSize == 0 {
      return None;
    }
    var left, i := store.usersSize, 0;
    var file := [];
    while left > 0
      invariant 0 <= left && i + left == store.usersSize
      invariant file + Save(store.Table()[i..]) == Save(store.Table())
    {
      var u := store.users[i];
      assert store.Table()[i..][0] == u && store.Table()[i..][1..] == store.Table()[i + 1..];
      assert (file + Line(u)) + Save(store.Table()[i + 1..]) == file + (Line(u) + Save(store.Table()[i + 1..]));
      file := file + Line(u);
      i := i + 1;
      left := left - 1;
    }
    assert file + [] == file;
    written := Some(file);
  }

  /** A character that survives the file. */
  predicate Plain(c: Byte) {
    32 <= c < 128
  }

  predicate CleanName(s: seq<Byte>) {
    forall i :: 0 <= i < |s| ==> Plain(s[i]) && s[i] != COLON
  }

  predicate CleanPassword(s: seq<Byte>) {
    forall i :: 0 <= i < |s| ==> Plain(s[i])
  }

  /** A user whose name and password consist of such characters, the name without the delimiter. */
  predicate Clean(u: User) {
    CleanName(u.username) && CleanPassword(u.password)
  }

  /** What fits in `user_t`. */
  predicate HasRoom(u: User) {
    |u.username| <= MAX_USERNAME_LEN && |u.password| <= MAX_PASSWORD_LEN && ValidLevel(u.level)
  }

  ghost predicate AllClean(t: seq<User>) {
    forall i :: 0 <= i < |t| ==> Clean(t[i])
  }

  lemma {:induction false} NameIsClean(f: seq<Byte>, i: nat, s: seq<Byte>)
    requires CleanName(s)
    ensures var r := ReadName(f, i, s); r.Text? ==> CleanName(r.text)
    decreases |f| - i
  {
    var c := CharAt(f, i);
    if c >= 0 && c != COLON && c >= 32 && |s| <= MAX_USERNAME_LEN {
      NameIsClean(f, i + 1, s + [f[i]]);
    }
  }

  lemma {:induction false} PasswordIsClean(f: seq<Byte>, i: nat, s: seq<Byte>)
    requires CleanPassword(s)
    ensures var r := ReadPassword(f, i, s); r.Text? ==> CleanPassword(r.text)
    decreases |f| - i
  {
    var c := CharAt(f, i);
    if c >= 0 && c != NEWLINE && c >= 32 && |s| <= MAX_PASSWORD_LEN {
      PasswordIsClean(f, i + 1, s + [f[i]]);
    }
  }

  /** The users a file can give: of plain characters, with a name of more than 255 running on into the password. */
  predicate Loadable(u: User) {
    && ValidLevel(u.level) && |u.password| <= PASSWORD_AT && (|u.password| == PASSWORD_AT ==> u.level == ADMIN)
    && CleanPassword(u.password)
    && if |u.username| < PASSWORD_AT then CleanName(u.username)
       else CleanName(u.username[..PASSWORD_AT]) && u.username[PASSWORD_AT..] == u.password
  }

  lemma {:induction false} NameHasRoom(f: seq<Byte>, i: nat, s: seq<Byte>)
    requires |s| <= PASSWORD_AT
    ensures var r := ReadName(f, i, s); r.Text? ==> |r.text| <= PASSWORD_AT
    decreases |f| - i
  {
    var c := CharAt(f, i);
    if c >= 0 && c != COLON && c >= 32 && |s| <= MAX_USERNAME_LEN {
      NameHasRoom(f, i + 1, s + [f[i]]);
    }
  }

  lemma {:induction false} PasswordHasRoom(f: seq<Byte>, i: nat, s: seq<Byte>)
    requires |s| <= PASSWORD_AT
    ensures var r := ReadPassword(f, i, s); r.Text? ==> |r.text| <= PASSWORD_AT
    decreases |f| - i
  {
    var c := CharAt(f, i);
    if c >= 0 && c != NEWLINE && c >= 32 && |s| <= MAX_PASSWORD_LEN {
      PasswordHasRoom(f, i + 1, s + [f[i]]);
    }
  }

  lemma {:induction false} FieldsAreLoadable(level: int, name: seq<Byte>, password: seq<Byte>)
    requires ValidLevel(level) && CleanName(name) && CleanPassword(password)
    requires |name| <= PASSWORD_AT && |password| <= PASSWORD_AT
    ensures Loadable(InFields(level, name, password))
  {
    if |name| == PASSWORD_AT {
      assert (name + password)[..PASSWORD_AT] == name && (name + password)[PASSWORD_AT..] == password;
    }
  }

  lemma ParsedUserIsLoadable(f: seq<Byte>, i: nat)
    ensures ParseUser(f, i).status == 0 ==> Loadable(ParseUser(f, i).user)
  {
    var (c, j) := SkipWhiteSpaces(f, i);
    NameIsClean(f, j, []);
    NameHasRoom(f, j, []);
    var name := ReadName(f, j, []);
    if name.Text? {
      PasswordIsClean(f, name.next, []);
      PasswordHasRoom(f, name.next, []);
      var password := ReadPassword(f, name.next, []);
      if password.Text? {
        FieldsAreLoadable(if c == AT then ADMIN else USER, name.text, password.text);
      }
    }
  }

  /**
   * A user that is read has only admissible characters, none of them a colon in the name, exactly when the name has
   * at most 255 characters or the password, which a longer name runs on into, has no colon.
   */
  lemma {:induction false} ParsedUserIsClean(f: seq<Byte>, i: nat)
    requires ParseUser(f, i).status == 0
    ensures var u := ParseUser(f, i).user; Clean(u) <==> |u.username| <= MAX_USERNAME_LEN || COLON !in u.password
  {
    ParsedUserIsLoadable(f, i);
    var u := ParseUser(f, i).user;
    if |u.username| > MAX_USERNAME_LEN {
      assert u.username == u.username[..PASSWORD_AT] + u.username[PASSWORD_AT..];
      if COLON in u.password {
        var k :| 0 <= k < |u.password| && u.password[k] == COLON;
        assert u.username[PASSWORD_AT + k] == COLON;
      }
    }
  }

  lemma {:induction false} CreateKeepsTable(t: seq<User>, u: User)
    requires Distinct(t) && |t| <= MAX_USERS_REGISTERED && Loadable(u)
    ensures var t' := Apply(t, Create(u)).0;
            (t' == t || t' == t + [u]) && Distinct(t') && |t'| <= MAX_USERS_REGISTERED
  {
    EntryHolds(u);
  }

  /** Whatever the file holds, the store stays a table of at most 50 distinct names, and gains only loadable users. */
  lemma {:induction false} LoadKeepsTable(f: seq<Byte>, i: nat, t: seq<User>)
    requires i <= |f| && Distinct(t) && |t| <= MAX_USERS_REGISTERED
    ensures var t' := Load(f, i, t);
            && t <= t' && Distinct(t') && |t'| <= MAX_USERS_REGISTERED
            && forall k :: |t| <= k < |t'| ==> Loadable(t'[k])
    decreases |f| - i
  {
    var p := ParseUser(f, i);
    if p.status >= 0 {
      ParsedUserIsLoadable(f, i);
      if p.status == 0 {
        CreateKeepsTable(t, p.user);
      }
      LoadKeepsTable(f, p.next, if p.status == 0 then Apply(t, Create(p.user)).0 else t);
    }
  }

  /** The bytes `x` stand at position `i` of the file. */
  ghost predicate At(f: seq<Byte>, i: nat, x: seq<Byte>) {
    i + |x| <= |f| && forall k :: 0 <= k < |x| ==> x[k] == f[i + k]
  }

  lemma AtSplit(f: seq<Byte>, i: nat, x: seq<Byte>, y: seq<Byte>)
    requires At(f, i, x + y)
    ensures At(f, i, x) && At(f, i + |x|, y)
  {
    assert forall k :: 0 <= k < |x| ==> x[k] == (x + y)[k];
    assert forall k :: 0 <= k < |y| ==> y[k] == (x + y)[|x| + k];
  }

  lemma {:induction false} ReadsName(f: seq<Byte>, i: nat, s: seq<Byte>, name: seq<Byte>)
    requires At(f, i, name + [COLON]) && CleanName(name) && |s| + |name| <= PASSWORD_AT
    ensures ReadName(f, i, s) == Text(s + name, i + |name| + 1)
    decreases |name|
  {
    assert (name + [COLON])[0] == f[i];
    if name == [] {
      assert s + name == s;
    } else {
      assert name + [COLON] == [name[0]] + (name[1..] + [COLON]);
      AtSplit(f, i, [name[0]], name[1..] + [COLON]);
      ReadsName(f, i + 1, s + [name[0]], name[1..]);
      assert s + [name[0]] + name[1..] == s + name;
    }
  }

  lemma {:induction false} ReadsPassword(f: seq<Byte>, i: nat, s: seq<Byte>, password: seq<Byte>)
    requires At(f, i, password + [NEWLINE]) && CleanPassword(password) && |s| + |password| <= PASSWORD_AT
    ensures ReadPassword(f, i, s) == Text(s + password, i + |password| + 1)
    decreases |password|
  {
    assert (password + [NEWLINE])[0] == f[i];
    if password == [] {
      assert s + password == s;
    } else {
      assert password + [NEWLINE] == [password[0]] + (password[1..] + [NEWLINE]);
      AtSplit(f, i, [password[0]], password[1..] + [NEWLINE]);
      ReadsPassword(f, i + 1, s + [password[0]], password[1..]);
      assert s + [password[0]] + password[1..] == s + password;
    }
  }

  /** After the mark of the level: the name and the password, of at most 256 characters each. */
  lemma ParsesFields(f: seq<Byte>, i: nat, level: int, name: seq<Byte>, password: seq<Byte>)
    requires CleanName(name) && CleanPassword(password) && |name| <= PASSWORD_AT && |password| <= PASSWORD_AT
    requires ValidLevel(level) && i < |f| && f[i] == if level == ADMIN then AT else HASH
    requires At(f, i + 1, name + [COLON]) && At(f, i + 2 + |name|, password + [NEWLINE])
    ensures ParseUser(f, i) == Parsed(0, InFields(level, name, password), i + 3 + |name| + |password|)
  {
    var k := i + 2 + |name|;
    assert ReadName(f, i + 1, []) == Text(name, k) by {
      ReadsName(f, i + 1, [], name);
      assert [] + name == name;
    }
    assert ReadPassword(f, k, []) == Text(password, k + |password| + 1) by {
      ReadsPassword(f, k, [], password);
      assert [] + password == password;
    }
    assert SkipWhiteSpaces(f, i) == (CharAt(f, i), i + 1);
  }

  /** The line of a user whose strings have up to 256 characters gives that user back exactly when they do not overrun. */
  lemma LineComesBack(f: seq<Byte>, i: nat, u: User)
    requires Clean(u) && ValidLevel(u.level) && |u.username| <= PASSWORD_AT && |u.password| <= PASSWORD_AT
    requires At(f, i, Line(u))
    ensures ParseUser(f, i) == Parsed(0, InFields(u.level, u.username, u.password), i + |Line(u)|)
    ensures ParseUser(f, i).user == u <==>
            (|u.username| <= MAX_USERNAME_LEN || u.password == []) && (|u.password| <= MAX_PASSWORD_LEN || u.level == ADMIN)
  {
    var mark: seq<Byte> := [if u.level == ADMIN then AT else HASH];
    var name, password := u.username + [COLON], u.password + [NEWLINE];
    assert Line(u) == mark + (name + password);
    AtSplit(f, i, mark, name + password);
    AtSplit(f, i + 1, name, password);
    assert mark[0] == f[i];
    ParsesFields(f, i, u.level, u.username, u.password);
    assert |u.username + u.password| == |u.username| + |u.password|;
    assert u.password == [] ==> u.username + u.password == u.username;
  }

  /** A line for an ordinary user with a password of 256 characters loads an administrator. */
  lemma LongPasswordMakesAdmin(u: User)
    requires Clean(u) && u.level == USER && |u.username| <= MAX_USERNAME_LEN && |u.password| == 256
    ensures Load(Line(u), 0, []) == [u.(level := ADMIN)]
  {
    var f := Line(u);
    LineComesBack(f, 0, u);
    assert ParseUser(f, |f|).status < 0;
    EntryHolds(u.(level := ADMIN));
    assert Apply([], Create(u.(level := ADMIN))).0 == [u.(level := ADMIN)];
  }

  lemma AppendsNext(done: seq<User>, rest: seq<User>)
    requires rest != [] && Distinct(done + rest) && |done + rest| <= MAX_USERS_REGISTERED && HasRoom(rest[0])
    ensures Apply(done, Create(rest[0])).0 == done + [rest[0]]
  {
    EntryHolds(rest[0]);
    var all := done + rest;
    forall k | 0 <= k < |done|
      ensures done[k].username != rest[0].username
    {
      assert all[k] == done[k] && all[|done|] == rest[0];
    }
  }

  /** Loading what is left of a saved table adds what is left of the table. */
  lemma {:induction false} LoadsSaved(f: seq<Byte>, i: nat, done: seq<User>, rest: seq<User>)
    requires At(f, i, Save(rest)) && i + |Save(rest)| == |f|
    requires Distinct(done + rest) && |done + rest| <= MAX_USERS_REGISTERED
    requires AllClean(rest) && forall k :: 0 <= k < |rest| ==> HasRoom(rest[k])
    ensures Load(f, i, done) == done + rest
    decreases |rest|
  {
    if rest == [] {
      assert done + rest == done;
    } else {
      var u := rest[0];
      AtSplit(f, i, Line(u), Save(rest[1..]));
      LineComesBack(f, i, u);
      AppendsNext(done, rest);
      assert (done + [u]) + rest[1..] == done + rest;
      LoadsSaved(f, i + |Line(u)|, done + [u], rest[1..]);
    }
  }

  /** A saved table is loaded back, the same users in the same order, exactly when all of them are clean. */
  lemma {:induction false} SavedUsersComeBack(t: seq<User>)
    requires Distinct(t) && 0 < |t| <= MAX_USERS_REGISTERED && forall i :: 0 <= i < |t| ==> HasRoom(t[i])
    ensures Load(Save(t), 0, []) == t <==> AllClean(t)
  {
    if AllClean(t) {
      assert [] + t == t;
      LoadsSaved(Save(t), 0, [], t);
    }
    LoadKeepsTable(Save(t), 0, []);
  }
}
