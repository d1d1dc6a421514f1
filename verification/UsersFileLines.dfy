/** src/server/users.c: loading a users file in which good lines stand between malformed ones. */
module UsersFileLines {
  import opened Bytes
  import opened Users
  import opened UsersFile

  /** A character that stands neither for the end of a line nor, being negative, for the end of the file. */
  predicate InLine(c: Byte) {
    c < 128 && c != NEWLINE
  }

  predicate AllInLine(s: seq<Byte>) {
    forall i :: 0 <= i < |s| ==> InLine(s[i])
  }

  predicate IsMark(c: Byte) {
    c == AT || c == HASH
  }

  predicate IsControl(c: Byte) {
    c < 32 && c != NEWLINE
  }

  /** A part of a users file, and what it is. */
  datatype Piece = Piece(text: seq<Byte>, kind: Kind)

  datatype Kind =
    | Good(user: User)
    | Odd(mark: Byte, name: seq<Byte>, delimiter: Byte, password: seq<Byte>, end: Byte)
    | Junk
    | CutName(mark: Byte, name: seq<Byte>)
    | SpoiledName(mark: Byte, name: seq<Byte>, c: Byte, rest: seq<Byte>)
    | SpoiledPassword(mark: Byte, name: seq<Byte>, password: seq<Byte>, c: Byte, rest: seq<Byte>)

  /** The colon after a name or the end of a line, for which any byte from 128 on is taken too. */
  predicate Ends(c: Byte, usual: int) {
    c == usual || c >= 128
  }

  /**
   * A good line; one that has other bytes for its colon or its end, or strings of 256 characters; any characters without
   * the mark of a user; a line that ends in its name; a line spoiled, in its name or
   * in its password, by a control character or by one character more than there may be.
   */
  predicate IsPiece(p: Piece) {
    match p.kind
    case Good(u) => p.text == Line(u) && Clean(u) && HasRoom(u)
    case Odd(mark, name, delimiter, password, end) =>
      && p.text == [mark] + (name + ([delimiter] + (password + [end])))
      && IsMark(mark) && CleanName(name) && |name| <= PASSWORD_AT && CleanPassword(password) && |password| <= PASSWORD_AT
      && Ends(delimiter, COLON) && Ends(end, NEWLINE)
    case Junk => forall i :: 0 <= i < |p.text| ==> p.text[i] < 128 && !IsMark(p.text[i])
    case CutName(mark, name) =>
      p.text == [mark] + (name + [NEWLINE]) && IsMark(mark) && CleanName(name) && |name| <= PASSWORD_AT
    case SpoiledName(mark, name, c, rest) =>
      && p.text == [mark] + (name + ([c] + (rest + [NEWLINE])))
      && IsMark(mark) && CleanName(name) && |name| <= PASSWORD_AT && AllInLine(rest)
      && (IsControl(c) || (|name| == PASSWORD_AT && CleanName([c])))
    case SpoiledPassword(mark, name, password, c, rest) =>
      && p.text == [mark] + (name + ([COLON] + (password + ([c] + (rest + [NEWLINE])))))
      && IsMark(mark) && CleanName(name) && |name| <= PASSWORD_AT && CleanPassword(password) && |password| <= PASSWORD_AT
      && AllInLine(rest) && (IsControl(c) || (|password| == PASSWORD_AT && CleanPassword([c])))
  }

  predicate ArePieces(pieces: seq<Piece>) {
    pieces == [] || (IsPiece(pieces[0]) && ArePieces(pieces[1..]))
  }

  /** The bytes of a file. */
  function Texts(pieces: seq<Piece>): seq<Byte> {
    if pieces == [] then [] else pieces[0].text + Texts(pieces[1..])
  }

  /** The table after the good lines have been created, each as far as it can be. */
  function Created(t: seq<User>, pieces: seq<Piece>): seq<User>
    decreases |pieces|
  {
    if pieces == [] then t else Created(AfterPiece(t, pieces[0]), pieces[1..])
  }

  function AfterPiece(t: seq<User>, p: Piece): seq<User> {
    match p.kind
    case Good(u) => Apply(t, Create(u)).0
    case Odd(mark, name, _, password, _) => Apply(t, Create(InFields(LevelOf(mark), name, password))).0
    case _ => t
  }

  function LevelOf(mark: Byte): int {
    if mark == AT then 0 else 1
  }

  /** What a file ends with: nothing, a byte from 128 on where a line should begin, or a line that is not ended. */
  datatype Tail =
    | Nothing
    | HighByte(c: Byte, rest: seq<Byte>)
    | LastName(mark: Byte, name: seq<Byte>)
    | LastLine(mark: Byte, name: seq<Byte>, delimiter: Byte, password: seq<Byte>)

  predicate IsTail(tail: Tail) {
    match tail
    case Nothing => true
    case HighByte(c, _) => c >= 128
    case LastName(mark, name) => IsMark(mark) && CleanName(name) && |name| <= PASSWORD_AT
    case LastLine(mark, name, delimiter, password) =>
      && IsMark(mark) && CleanName(name) && |name| <= PASSWORD_AT && Ends(delimiter, COLON)
      && CleanPassword(password) && |password| <= PASSWORD_AT
  }

  function TailText(tail: Tail): seq<Byte> {
    match tail
    case Nothing => []
    case HighByte(c, rest) => [c] + rest
    case LastName(mark, name) => [mark] + name
    case LastLine(mark, name, delimiter, password) => [mark] + (name + ([delimiter] + password))
  }

  /** The high byte ends the loading; a name alone is a user without a password. */
  function AfterTail(t: seq<User>, tail: Tail): seq<User> {
    match tail
    case Nothing => t
    case HighByte(_, _) => t
    case LastName(mark, name) => Apply(t, Create(InFields(LevelOf(mark), name, []))).0
    case LastLine(mark, name, _, password) => Apply(t, Create(InFields(LevelOf(mark), name, password))).0
  }

  lemma {:induction false} SkipsRest(f: seq<Byte>, i: nat, rest: seq<Byte>)
    requires AllInLine(rest) && At(f, i, rest + [NEWLINE])
    ensures SkipLine(f, i) == (NEWLINE, i + |rest| + 1)
    decreases |rest|
  {
    assert (rest + [NEWLINE])[0] == f[i];
    if rest != [] {
      assert rest + [NEWLINE] == [rest[0]] + (rest[1..] + [NEWLINE]);
      AtSplit(f, i, [rest[0]], rest[1..] + [NEWLINE]);
      SkipsRest(f, i + 1, rest[1..]);
    }
  }

  /** A name is read up to the character after it. */
  lemma {:induction false} NameUpTo(f: seq<Byte>, i: nat, s: seq<Byte>, name: seq<Byte>)
    requires At(f, i, name) && CleanName(name) && |s| + |name| <= PASSWORD_AT
    ensures ReadName(f, i, s) == ReadName(f, i + |name|, s + name)
    decreases |name|
  {
    if name == [] {
      assert s + name == s;
    } else {
      assert name[0] == f[i] && name == [name[0]] + name[1..];
      AtSplit(f, i, [name[0]], name[1..]);
      NameUpTo(f, i + 1, s + [name[0]], name[1..]);
      assert s + [name[0]] + name[1..] == s + name;
    }
  }

  lemma {:induction false} PasswordUpTo(f: seq<Byte>, i: nat, s: seq<Byte>, password: seq<Byte>)
    requires At(f, i, password) && CleanPassword(password) && |s| + |password| <= PASSWORD_AT
    ensures ReadPassword(f, i, s) == ReadPassword(f, i + |password|, s + password)
    decreases |password|
  {
    if password == [] {
      assert s + password == s;
    } else {
      assert password[0] == f[i] && password == [password[0]] + password[1..];
      AtSplit(f, i, [password[0]], password[1..]);
      PasswordUpTo(f, i + 1, s + [password[0]], password[1..]);
      assert s + [password[0]] + password[1..] == s + password;
    }
  }

  /** A spoiled name gives up the line, and goes on after it. */
  lemma {:induction false} NameIsGivenUp(f: seq<Byte>, i: nat, name: seq<Byte>, c: Byte, rest: seq<Byte>)
    requires CleanName(name) && |name| <= PASSWORD_AT && AllInLine(rest)
    requires IsControl(c) || (|name| == PASSWORD_AT && CleanName([c]))
    requires At(f, i, name + ([c] + (rest + [NEWLINE])))
    ensures ReadName(f, i, []) == Invalid(NEWLINE, i + |name| + |rest| + 2)
  {
    AtSplit(f, i, name, [c] + (rest + [NEWLINE]));
    AtSplit(f, i + |name|, [c], rest + [NEWLINE]);
    NameUpTo(f, i, [], name);
    assert [] + name == name && [c][0] == c && f[i + |name|] == c;
    SkipsRest(f, i + |name| + 1, rest);
  }

  lemma {:induction false} CutNameIsGivenUp(f: seq<Byte>, i: nat, name: seq<Byte>)
    requires CleanName(name) && |name| <= PASSWORD_AT && At(f, i, name + [NEWLINE])
    ensures ReadName(f, i, []) == Invalid(1, i + |name| + 1)
  {
    AtSplit(f, i, name, [NEWLINE]);
    NameUpTo(f, i, [], name);
    assert [] + name == name && [NEWLINE][0] == NEWLINE && f[i + |name|] == NEWLINE;
  }

  lemma {:induction false} PasswordIsGivenUp(f: seq<Byte>, i: nat, password: seq<Byte>, c: Byte, rest: seq<Byte>)
    requires CleanPassword(password) && |password| <= PASSWORD_AT && AllInLine(rest)
    requires IsControl(c) || (|password| == PASSWORD_AT && CleanPassword([c]))
    requires At(f, i, password + ([c] + (rest + [NEWLINE])))
    ensures ReadPassword(f, i, []) == Invalid(NEWLINE, i + |password| + |rest| + 2)
  {
    AtSplit(f, i, password, [c] + (rest + [NEWLINE]));
    AtSplit(f, i + |password|, [c], rest + [NEWLINE]);
    PasswordUpTo(f, i, [], password);
    assert [] + password == password && [c][0] == c && f[i + |password|] == c;
    SkipsRest(f, i + |password| + 1, rest);
  }

  /** The mark of a user, and then what is left of the line. */
  lemma {:induction false} MarkIsRead(f: seq<Byte>, i: nat, mark: Byte, tail: seq<Byte>)
    requires IsMark(mark) && At(f, i, [mark] + tail)
    ensures SkipWhiteSpaces(f, i) == (mark, i + 1) && At(f, i + 1, tail)
  {
    AtSplit(f, i, [mark], tail);
    assert [mark][0] == f[i];
  }

  lemma {:induction false} NameEndsAtColon(f: seq<Byte>, i: nat, name: seq<Byte>, colon: Byte, tail: seq<Byte>)
    requires CleanName(name) && |name| <= PASSWORD_AT && At(f, i, name + ([colon] + tail)) && Ends(colon, COLON)
    ensures ReadName(f, i, []) == Text(name, i + |name| + 1) && At(f, i + |name| + 1, tail)
  {
    AtSplit(f, i, name, [colon] + tail);
    AtSplit(f, i + |name|, [colon], tail);
    NameUpTo(f, i, [], name);
    assert [] + name == name && [colon][0] == colon && f[i + |name|] == colon;
  }

  lemma {:induction false} PasswordEndsAt(f: seq<Byte>, i: nat, password: seq<Byte>, end: Byte)
    requires CleanPassword(password) && |password| <= PASSWORD_AT && At(f, i, password + [end]) && Ends(end, NEWLINE)
    ensures ReadPassword(f, i, []) == Text(password, i + |password| + 1)
  {
    AtSplit(f, i, password, [end]);
    PasswordUpTo(f, i, [], password);
    assert [] + password == password && [end][0] == end && f[i + |password|] == end;
  }

  lemma {:induction false} OddLineIsParsed(f: seq<Byte>, i: nat, p: Piece)
    requires p.kind.Odd? && IsPiece(p) && At(f, i, p.text)
    ensures ParseUser(f, i) == Parsed(0, InFields(LevelOf(p.kind.mark), p.kind.name, p.kind.password), i + |p.text|)
  {
    var rest := p.kind.password + [p.kind.end];
    MarkIsRead(f, i, p.kind.mark, p.kind.name + ([p.kind.delimiter] + rest));
    NameEndsAtColon(f, i + 1, p.kind.name, p.kind.delimiter, rest);
    PasswordEndsAt(f, i + 2 + |p.kind.name|, p.kind.password, p.kind.end);
  }

  lemma {:induction false} SpoiledPasswordIsGivenUp(f: seq<Byte>, i: nat, p: Piece)
    requires p.kind.SpoiledPassword? && IsPiece(p) && At(f, i, p.text)
    ensures ParseUser(f, i) == Parsed(NEWLINE, NoUser, i + |p.text|)
  {
    var end := [p.kind.c] + (p.kind.rest + [NEWLINE]);
    MarkIsRead(f, i, p.kind.mark, p.kind.name + ([COLON] + (p.kind.password + end)));
    NameEndsAtColon(f, i + 1, p.kind.name, COLON, p.kind.password + end);
    PasswordIsGivenUp(f, i + 2 + |p.kind.name|, p.kind.password, p.kind.c, p.kind.rest);
  }

  lemma {:induction false} SpoiledNameIsGivenUp(f: seq<Byte>, i: nat, p: Piece)
    requires p.kind.SpoiledName? && IsPiece(p) && At(f, i, p.text)
    ensures ParseUser(f, i) == Parsed(NEWLINE, NoUser, i + |p.text|)
  {
    MarkIsRead(f, i, p.kind.mark, p.kind.name + ([p.kind.c] + (p.kind.rest + [NEWLINE])));
    NameIsGivenUp(f, i + 1, p.kind.name, p.kind.c, p.kind.rest);
  }

  lemma {:induction false} CutLineIsGivenUp(f: seq<Byte>, i: nat, p: Piece)
    requires p.kind.CutName? && IsPiece(p) && At(f, i, p.text)
    ensures ParseUser(f, i) == Parsed(1, NoUser, i + |p.text|)
  {
    MarkIsRead(f, i, p.kind.mark, p.kind.name + [NEWLINE]);
    CutNameIsGivenUp(f, i + 1, p.kind.name);
  }

  /** Junk is left behind character by character, or as white space before what comes next. */
  lemma {:induction false} JunkIsSkipped(f: seq<Byte>, i: nat, text: seq<Byte>, t: seq<User>)
    requires At(f, i, text) && forall k :: 0 <= k < |text| ==> text[k] < 128 && !IsMark(text[k])
    ensures Load(f, i, t) == Load(f, i + |text|, t)
    decreases |text|
  {
    if text != [] {
      assert text[0] == f[i] && text == [text[0]] + text[1..];
      AtSplit(f, i, [text[0]], text[1..]);
      JunkIsSkipped(f, i + 1, text[1..], t);
      if IsSpace(f[i]) {
        assert ParseUser(f, i) == ParseUser(f, i + 1);
      } else {
        assert ParseUser(f, i) == Parsed(1, NoUser, i + 1);
      }
    }
  }

  lemma {:induction false} BadLineIsSkipped(f: seq<Byte>, i: nat, p: Piece, t: seq<User>)
    requires IsPiece(p) && !p.kind.Good? && !p.kind.Odd? && !p.kind.Junk? && At(f, i, p.text)
    ensures Load(f, i, t) == Load(f, i + |p.text|, t)
  {
    if p.kind.CutName? {
      CutLineIsGivenUp(f, i, p);
    } else if p.kind.SpoiledName? {
      SpoiledNameIsGivenUp(f, i, p);
    } else {
      SpoiledPasswordIsGivenUp(f, i, p);
    }
  }

  lemma {:induction false} GoodLineIsLoaded(f: seq<Byte>, i: nat, u: User, t: seq<User>)
    requires Clean(u) && HasRoom(u) && At(f, i, Line(u))
    ensures Load(f, i, t) == Load(f, i + |Line(u)|, Apply(t, Create(u)).0)
  {
    LineComesBack(f, i, u);
  }

  lemma {:induction false} PieceIsLoaded(f: seq<Byte>, i: nat, p: Piece, t: seq<User>)
    requires IsPiece(p) && At(f, i, p.text)
    ensures Load(f, i, t) == Load(f, i + |p.text|, AfterPiece(t, p))
  {
    if p.kind.Good? {
      GoodLineIsLoaded(f, i, p.kind.user, t);
    } else if p.kind.Odd? {
      OddLineIsParsed(f, i, p);
    } else if p.kind.Junk? {
      JunkIsSkipped(f, i, p.text, t);
    } else {
      BadLineIsSkipped(f, i, p, t);
    }
  }

  lemma {:induction false} LastNameIsParsed(f: seq<Byte>, i: nat, mark: Byte, name: seq<Byte>)
    requires IsMark(mark) && CleanName(name) && |name| <= PASSWORD_AT && At(f, i, [mark] + name) && i + 1 + |name| == |f|
    ensures ParseUser(f, i) == Parsed(0, InFields(LevelOf(mark), name, []), |f|)
  {
    MarkIsRead(f, i, mark, name);
    NameUpTo(f, i + 1, [], name);
    assert [] + name == name;
  }

  lemma {:induction false} PasswordAtEnd(f: seq<Byte>, i: nat, password: seq<Byte>)
    requires CleanPassword(password) && |password| <= PASSWORD_AT && At(f, i, password) && i + |password| == |f|
    ensures ReadPassword(f, i, []) == Text(password, |f|)
  {
    PasswordUpTo(f, i, [], password);
    assert [] + password == password;
  }

  lemma {:induction false} LastLineIsParsed(f: seq<Byte>, i: nat, mark: Byte, name: seq<Byte>, delimiter: Byte, password: seq<Byte>)
    requires IsMark(mark) && CleanName(name) && |name| <= PASSWORD_AT && Ends(delimiter, COLON)
    requires CleanPassword(password) && |password| <= PASSWORD_AT
    requires At(f, i, [mark] + (name + ([delimiter] + password))) && i + 2 + |name| + |password| == |f|
    ensures ParseUser(f, i) == Parsed(0, InFields(LevelOf(mark), name, password), |f|)
  {
    var j := i + 2 + |name|;
    assert SkipWhiteSpaces(f, i) == (mark, i + 1) && ReadName(f, i + 1, []) == Text(name, j) && At(f, j, password) by {
      MarkIsRead(f, i, mark, name + ([delimiter] + password));
      NameEndsAtColon(f, i + 1, name, delimiter, password);
    }
    PasswordAtEnd(f, j, password);
  }

  /** The tail of a file. */
  lemma {:induction false} TailIsLoaded(f: seq<Byte>, i: nat, tail: Tail, t: seq<User>)
    requires IsTail(tail) && At(f, i, TailText(tail)) && i + |TailText(tail)| == |f|
    ensures Load(f, i, t) == AfterTail(t, tail)
  {
    assert ParseUser(f, |f|).status < 0;
    match tail
    case Nothing =>
    case HighByte(c, rest) =>
      AtSplit(f, i, [c], rest);
      assert [c][0] == f[i];
    case LastName(mark, name) =>
      LastNameIsParsed(f, i, mark, name);
    case LastLine(mark, name, delimiter, password) =>
      LastLineIsParsed(f, i, mark, name, delimiter, password);
  }

  /** The file goes on with these pieces and this tail, up to its end. */
  ghost predicate EndsWith(f: seq<Byte>, i: nat, pieces: seq<Piece>, tail: Tail) {
    ArePieces(pieces) && IsTail(tail) && At(f, i, Texts(pieces) + TailText(tail)) && i + |Texts(pieces)| + |TailText(tail)| == |f|
  }

  lemma {:induction false} NextPiece(f: seq<Byte>, i: nat, pieces: seq<Piece>, tail: Tail)
    requires pieces != [] && EndsWith(f, i, pieces, tail)
    ensures IsPiece(pieces[0]) && At(f, i, pieces[0].text) && EndsWith(f, i + |pieces[0].text|, pieces[1..], tail)
  {
    assert Texts(pieces) + TailText(tail) == pieces[0].text + (Texts(pieces[1..]) + TailText(tail));
    AtSplit(f, i, pieces[0].text, Texts(pieces[1..]) + TailText(tail));
  }

  lemma {:induction false} NoMorePieces(f: seq<Byte>, i: nat, tail: Tail, t: seq<User>)
    requires EndsWith(f, i, [], tail)
    ensures Load(f, i, t) == AfterTail(t, tail)
  {
    assert [] + TailText(tail) == TailText(tail);
    TailIsLoaded(f, i, tail, t);
  }

  /**
   * Loading goes through the whole file: whatever malformed parts stand before, between and after the good lines, it
   * creates the user of each good line in turn, and goes on after one that cannot be created.
   */
  lemma {:induction false} GoodLinesAreLoaded(f: seq<Byte>, i: nat, pieces: seq<Piece>, tail: Tail, t: seq<User>)
    requires EndsWith(f, i, pieces, tail)
    ensures Load(f, i, t) == AfterTail(Created(t, pieces), tail)
    decreases |pieces|
  {
    if pieces != [] {
      NextPiece(f, i, pieces, tail);
      PieceIsLoaded(f, i, pieces[0], t);
      GoodLinesAreLoaded(f, i + |pieces[0].text|, pieces[1..], tail, AfterPiece(t, pieces[0]));
    } else {
      NoMorePieces(f, i, tail, t);
    }
  }

  /** Every good line of a file, among any malformed parts, is loaded into an empty store. */
  lemma {:induction false} MalformedPartsAreSkipped(pieces: seq<Piece>, tail: Tail)
    requires ArePieces(pieces) && IsTail(tail)
    ensures Load(Texts(pieces) + TailText(tail), 0, []) == AfterTail(Created([], pieces), tail)
  {
    GoodLinesAreLoaded(Texts(pieces) + TailText(tail), 0, pieces, tail, []);
  }

  /** In particular a table comes back from behind a malformed first line. */
  lemma {:induction false} TableComesBackAfterJunk(junk: seq<Byte>, t: seq<User>)
    requires forall k :: 0 <= k < |junk| ==> junk[k] < 128 && !IsMark(junk[k])
    requires Distinct(t) && |t| <= MAX_USERS_REGISTERED && AllClean(t) && forall i :: 0 <= i < |t| ==> HasRoom(t[i])
    ensures Load(junk + [NEWLINE] + Save(t), 0, []) == t
  {
    var f := junk + [NEWLINE] + Save(t);
    JunkIsSkipped(f, 0, junk + [NEWLINE], []);
    assert [] + t == t;
    LoadsSaved(f, |junk| + 1, [], t);
  }
}
