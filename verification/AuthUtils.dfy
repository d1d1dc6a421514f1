/** src/server/auth_utils.c: the list of authentication methods the proxy accepts. */
module AuthUtils {
  import opened Bytes

  const MAX_BUFFER_SIZE: nat := 255
  const HELLO_AUTH_NO_AUTH: Byte := 0x00
  const HELLO_AUTH_USER_PASS: Byte := 0x02

  /** The list ends before its first -1. */
  function UpToSentinel(s: seq<int>): (r: seq<int>)
    ensures |r| <= |s| && r == s[..|r|] && -1 !in r
    ensures |r| < |s| ==> s[|r|] == -1
  {
    if s == [] || s[0] == -1 then [] else [s[0]] + UpToSentinel(s[1..])
  }

  lemma {:induction false} SentinelAfter(s: seq<int>, n: nat)
    requires n < |s| && s[n] == -1 && -1 !in s[..n]
    ensures UpToSentinel(s) == s[..n]
  {
    if n > 0 {
      assert s[0] in s[..n];
      assert s[1..][..n - 1] == s[..n][1..];
      SentinelAfter(s[1..], n - 1);
    }
  }

  /** How the search of the list for a method ends; the last way reads outside the array. */
  datatype Found = Yes | No | Outside

  const INDEX_LIMIT: nat := 128

  /** The scan from position `i` of the list on. */
  function ScanFrom(list: seq<int>, m: int, i: nat): Found
    decreases INDEX_LIMIT - i
  {
    if i >= INDEX_LIMIT then Outside
    else if i >= |list| then No
    else if list[i] == m then Yes
    else ScanFrom(list, m, i + 1)
  }

  function Scan(list: seq<int>, m: int): Found {
    if m < 0 then No else ScanFrom(list, m, 0)
  }

  lemma {:induction false} ScanFromFinds(list: seq<int>, m: int, i: nat)
    requires i <= INDEX_LIMIT && i <= |list|
    ensures ScanFrom(list, m, i) == Yes <==> exists k :: i <= k < |list| && k < INDEX_LIMIT && list[k] == m
    ensures ScanFrom(list, m, i) == Outside <==>
            |list| >= INDEX_LIMIT && forall k :: i <= k < INDEX_LIMIT ==> list[k] != m
    decreases INDEX_LIMIT - i
  {
    if i < INDEX_LIMIT && i < |list| && list[i] != m {
      ScanFromFinds(list, m, i + 1);
    }
  }

  /**
   * A method is found exactly when it is among the first 128 of the list. The scan leaves the array exactly when it is
   * not among them and the list has no fewer, so the answer is that of the whole list exactly for shorter ones.
   */
  lemma {:induction false} ScanFinds(list: seq<int>, m: int)
    ensures Scan(list, m) == Yes <==> 0 <= m && exists k :: 0 <= k < |list| && k < INDEX_LIMIT && list[k] == m
    ensures Scan(list, m) == Outside <==>
            0 <= m && |list| >= INDEX_LIMIT && forall k :: 0 <= k < INDEX_LIMIT ==> list[k] != m
    ensures |list| < INDEX_LIMIT ==> Scan(list, m) == if 0 <= m && m in list then Yes else No
  {
    ScanFromFinds(list, m, 0);
  }

  /** The accepted list, with the methods that a scan outside its array would find there. */
  datatype AcceptedList = AcceptedList(list: seq<int>, beyond: set<Byte>)

  /** What the caller of the scan is told. */
  predicate IsAccepted(accepted: AcceptedList, m: Byte) {
    match Scan(accepted.list, Signed(m))
    case Yes => true
    case No => false
    case Outside => m in accepted.beyond
  }

  predicate SupportedMethod(m: int) {
    m == HELLO_AUTH_NO_AUTH || m == HELLO_AUTH_USER_PASS
  }

  /** The method a request argument stands for: its first byte as an `int8_t`, or its terminator when it is empty. */
  function Method(arg: seq<Byte>): int {
    if arg == [] then 0 else Signed(arg[0])
  }

  function Methods(args: seq<seq<Byte>>): (r: seq<int>)
    ensures |r| == |args| && forall i :: 0 <= i < |args| ==> r[i] == Method(args[i])
  {
    seq(|args|, i requires 0 <= i < |args| => Method(args[i]))
  }

  /** The number of leading arguments that name a supported method. */
  function SupportedPrefix(args: seq<seq<Byte>>): (n: nat)
    ensures n <= |args|
    ensures forall i :: 0 <= i < n ==> SupportedMethod(Method(args[i]))
    ensures n < |args| ==> !SupportedMethod(Method(args[n]))
  {
    if args == [] || !SupportedMethod(Method(args[0])) then 0 else 1 + SupportedPrefix(args[1..])
  }

  /** The array of methods and the result after a change, which is asked for the default or for a list of arguments. */
  function Changed(list: seq<int>, newMethods: Option<seq<seq<Byte>>>): (seq<int>, bool)
    requires |list| >= 2 && (newMethods.Some? ==> |newMethods.value| < |list|)
  {
    match newMethods
    case None => ([HELLO_AUTH_USER_PASS, -1] + list[2..], true)
    case Some(args) =>
      var n := SupportedPrefix(args);
      if n < |args| then (Methods(args)[..n] + list[n..], false)
      else (Methods(args) + [-1] + list[n + 1..], true)
  }

  class AuthMethods {
    const accepted: array<int>

    ghost predicate Valid()
      reads this, accepted
    {
      && accepted.Length == MAX_BUFFER_SIZE
      && forall i :: 0 <= i < accepted.Length ==> accepted[i] == -1 || SupportedMethod(accepted[i])
    }

    /** The accepted methods, in list order. */
    ghost function Accepted(): seq<int>
      reads this, accepted
    {
      UpToSentinel(accepted[..])
    }

    constructor ()
      ensures Valid() && fresh(accepted) && Accepted() == [HELLO_AUTH_USER_PASS]
    {
      var a := new int[MAX_BUFFER_SIZE](_ => 0);
      accepted := a;
      new;
      var ok := ChangeAuthMethods(None);
      SentinelAfter(accepted[..], 1);
    }

    /** Replaces the list. An unsupported method stops the copy half-way and leaves the old entries after it. */
    method ChangeAuthMethods(newMethods: Option<seq<seq<Byte>>>) returns (ok: bool)
      requires Valid()
      requires newMethods.Some? ==> |newMethods.value| < MAX_BUFFER_SIZE
      modifies accepted
      ensures Valid()
      ensures (accepted[..], ok) == Changed(old(accepted[..]), newMethods)
    {
      if newMethods == None {
        accepted[0] := HELLO_AUTH_USER_PASS;
        accepted[1] := -1;
        assert accepted[..] == [HELLO_AUTH_USER_PASS, -1] + old(accepted[..])[2..];
        return true;
      }
      var args := newMethods.value;
      var i := 0;
      while i < |args|
        invariant 0 <= i <= |args|
        invariant forall k :: 0 <= k < i ==> SupportedMethod(Method(args[k])) && accepted[k] == Method(args[k])
        invariant forall k :: i <= k < accepted.Length ==> accepted[k] == old(accepted[k])
      {
        var current := args[i];
        if !SupportedMethod(Method(current)) {
          PrefixEndsAt(args, i);
          assert accepted[..] == Methods(args)[..i] + old(accepted[..])[i..];
          return false;
        }
        accepted[i] := Method(current);
        i := i + 1;
      }
      accepted[i] := -1;
      PrefixEndsAt(args, i);
      assert accepted[..] == Methods(args) + [-1] + old(accepted[..])[i + 1..];
      ok := true;
    }

    /** Scans the list with an `int8_t` index, which after 127 is negative and outside the array. */
    method AcceptedMethod(m: int) returns (r: Found)
      requires Valid()
      ensures r == Scan(Accepted(), m)
    {
      if m < 0 {
        return No;
      }
      var i := 0;
      var found := false;
      var current := accepted[i];
      i := i + 1;
      while current != -1 && !found
        invariant 1 <= i <= INDEX_LIMIT && i <= |Accepted()| + 1 && current == accepted[i - 1]
        invariant Scan(Accepted(), m) == if found then Yes else ScanFrom(Accepted(), m, i - 1)
        decreases INDEX_LIMIT - i, if found then 0 else 1
      {
        if m == current {
          found := true;
        }
        if i == INDEX_LIMIT {
          return if found then Yes else Outside;
        }
        current := accepted[i];
        i := i + 1;
      }
      r := if found then Yes else No;
    }
  }

  lemma {:induction false} PrefixEndsAt(args: seq<seq<Byte>>, n: nat)
    requires n <= |args| && (n < |args| ==> !SupportedMethod(Method(args[n])))
    requires forall k :: 0 <= k < n ==> SupportedMethod(Method(args[k]))
    ensures SupportedPrefix(args) == n
  {
    if n > 0 {
      PrefixEndsAt(args[1..], n - 1);
    }
  }

  /** A change succeeds exactly when every argument names a supported method, and then the list is those methods. */
  lemma ChangeIsAllOrFails(list: seq<int>, args: seq<seq<Byte>>)
    requires |args| < |list| && |list| >= 2
    ensures var (list', ok) := Changed(list, Some(args));
            && (ok <==> forall i :: 0 <= i < |args| ==> SupportedMethod(Method(args[i])))
            && (ok ==> UpToSentinel(list') == Methods(args))
  {
    var (list', ok) := Changed(list, Some(args));
    if ok {
      assert list'[..|args|] == Methods(args);
      SentinelAfter(list', |args|);
    }
  }

  /** Without a list the default is username and password alone, method 2; the methods there can be are 0 and 2. */
  lemma {:induction false} DefaultIsUserPass(list: seq<int>, m: int)
    requires |list| >= 2
    ensures var (list', ok) := Changed(list, None); ok && UpToSentinel(list') == [2]
    ensures SupportedMethod(m) <==> m == 0 || m == 2
  {
    SentinelAfter(Changed(list, None).0, 1);
  }

  /** A failed change leaves the methods before the unsupported one, and the old entries from there on. */
  lemma {:induction false} FailedChangeLeavesBoth(list: seq<int>, args: seq<seq<Byte>>, n: nat)
    requires |args| < |list| && |list| >= 2 && n < |args| && !SupportedMethod(Method(args[n]))
    requires forall k :: 0 <= k < n ==> SupportedMethod(Method(args[k]))
    ensures var (list', ok) := Changed(list, Some(args));
            && !ok && |list'| == |list|
            && (forall k :: 0 <= k < n ==> list'[k] == Method(args[k]))
            && (forall k :: n <= k < |list| ==> list'[k] == list[k])
  {
    PrefixEndsAt(args, n);
  }
}
