/** src/server/request.c: connecting to the resolved addresses, one after another. */
module Connect {
  import opened Bytes

  const FD_SETSIZE: int := 1024

  datatype AddrInfo = AddrInfo(family: int, sockaddr: seq<Byte>)

  /** What `socket` and `connect` did for one address. */
  datatype Attempt = NoSocket | Refused(fd: int) | Connected(fd: int) | InProgress(fd: int)

  /** What `getsockopt(SO_ERROR)` said of the connection under way. */
  datatype SoError = QueryFailed | NoError | StillPending | ConnectFailed

  /** How a call of `try_connect` ends. */
  datatype Progress = Succeeded | Pending | Exhausted | QueryError

  /** `destination_fd`, the list from `dest_addr` on, the descriptors in use in the selector, the addresses tried so far. */
  datatype Conn = Conn(destFd: int, destAddr: seq<AddrInfo>, registered: set<int>, tried: seq<AddrInfo>)

  function Start(base: seq<AddrInfo>): Conn {
    Conn(-1, base, {}, [])
  }

  /** `selector_register` takes a descriptor that is valid and not in use. */
  predicate Registers(registered: set<int>, fd: int) {
    0 <= fd < FD_SETSIZE && fd !in registered
  }

  /** The attempt on the `i`-th address of the loop. */
  function AttemptOn(attempts: seq<Attempt>, i: nat): Attempt {
    if i < |attempts| then attempts[i] else NoSocket
  }

  /** The attempt gets a connection going on a descriptor the selector takes. */
  predicate Takes(registered: set<int>, a: Attempt) {
    (a.Connected? || a.InProgress?) && Registers(registered, a.fd)
  }

  /** The loop over the addresses from position `i` of `addrs` on. */
  function Loop(c: Conn, addrs: seq<AddrInfo>, attempts: seq<Attempt>, i: nat): (Conn, Progress)
    decreases |addrs| - i
  {
    if i >= |addrs| then (c, Exhausted)
    else
      var a := AttemptOn(attempts, i);
      var c := c.(tried := c.tried + [addrs[i]]);
      if a.NoSocket? || a.Refused? then Loop(c, addrs, attempts, i + 1)
      else if Registers(c.registered, a.fd) then
        (c.(destFd := a.fd, destAddr := addrs[i..], registered := c.registered + {a.fd}),
         if a.Connected? then Succeeded else Pending)
      else Loop(c.(destFd := -1, destAddr := addrs[i..]), addrs, attempts, i + 1)
  }

  /** `try_connect`. A failed descriptor is closed but stays registered in the selector. */
  function TryConnect(c: Conn, so: SoError, attempts: seq<Attempt>): (Conn, Progress) {
    if c.destFd == -1 then Loop(c, c.destAddr, attempts, 0)
    else
      match so
      case QueryFailed => (c, QueryError)
      case NoError => (c, Succeeded)
      case StillPending => (c, Pending)
      case ConnectFailed =>
        var rest := if c.destAddr != [] then c.destAddr[1..] else [];
        Loop(c.(destFd := -1, destAddr := rest), rest, attempts, 0)
  }

  class Connector {
    var destinationFd: int
    var destAddr: seq<AddrInfo>
    var registered: set<int>
    ghost var tried: seq<AddrInfo>

    ghost function Model(): Conn
      reads this
    {
      Conn(destinationFd, destAddr, registered, tried)
    }

    constructor (base: seq<AddrInfo>, registered: set<int>)
      ensures Model() == Start(base).(registered := registered)
    {
      destinationFd, destAddr, this.registered, tried := -1, base, registered, [];
    }

    method Try(so: SoError, attempts: seq<Attempt>) returns (p: Progress)
      modifies this
      ensures (Model(), p) == TryConnect(old(Model()), so, attempts)
    {
      var addr := destAddr;
      if destinationFd != -1 {
        if so.QueryFailed? {
          return QueryError;
        }
        if so.NoError? {
          return Succeeded;
        }
        if so.StillPending? {
          return Pending;
        }
        destinationFd := -1;
        if addr != [] {
          addr := addr[1..];
          destAddr := addr;
        }
      }
      ghost var start := Model();
      var i := 0;
      while i < |addr|
        invariant 0 <= i <= |addr|
        invariant Loop(start, addr, attempts, 0) == Loop(Model(), addr, attempts, i)
      {
        var a := AttemptOn(attempts, i);
        tried := tried + [addr[i]];
        if a.Connected? || a.InProgress? {
          destinationFd := a.fd;
          destAddr := addr[i..];
          if Registers(registered, a.fd) {
            registered := registered + {a.fd};
            return if a.Connected? then Succeeded else Pending;
          }
          destinationFd := -1;
        }
        i := i + 1;
      }
      p := Exhausted;
    }
  }

  /** The addresses tried are the first ones of the list, and the one under way is the last of them. */
  ghost predicate InOrder(base: seq<AddrInfo>, c: Conn) {
    if c.destFd == -1 then c.tried + c.destAddr == base
    else c.destAddr != [] && c.tried != [] && c.tried[|c.tried| - 1] == c.destAddr[0] && c.tried + c.destAddr[1..] == base
  }

  /** The loop tries the addresses from `i` on in order and stops at the first that works. */
  lemma {:induction false} LoopInOrder(base: seq<AddrInfo>, c: Conn, addrs: seq<AddrInfo>, attempts: seq<Attempt>, i: nat)
    requires i <= |addrs| && c.tried + addrs[i..] == base
    ensures var (c', p) := Loop(c, addrs, attempts, i);
            && c.tried <= c'.tried <= base
            && (p == Exhausted ==> c'.tried == base)
            && (p != Exhausted ==> c'.destFd != -1 && InOrder(base, c') && |c'.tried| > |c.tried|)
            && p != QueryError
    decreases |addrs| - i
  {
    if i < |addrs| {
      var a := AttemptOn(attempts, i);
      assert addrs[i..] == [addrs[i]] + addrs[i + 1..];
      var c1 := c.(tried := c.tried + [addrs[i]]);
      assert c1.tried + addrs[i + 1..] == base;
      if a.NoSocket? || a.Refused? {
        LoopInOrder(base, c1, addrs, attempts, i + 1);
      } else if !Registers(c.registered, a.fd) {
        LoopInOrder(base, c1.(destFd := -1, destAddr := addrs[i..]), addrs, attempts, i + 1);
      } else {
        assert addrs[i..][1..] == addrs[i + 1..];
      }
    }
  }

  /** The loop gives up exactly when no attempt takes. */
  lemma {:induction false} LoopExhaustsWhenNothingTakes(c: Conn, addrs: seq<AddrInfo>, attempts: seq<Attempt>, i: nat)
    requires i <= |addrs|
    ensures Loop(c, addrs, attempts, i).1 == Exhausted
       <==> forall j :: i <= j < |addrs| ==> !Takes(c.registered, AttemptOn(attempts, j))
    decreases |addrs| - i
  {
    if i < |addrs| {
      var a := AttemptOn(attempts, i);
      var c1 := c.(tried := c.tried + [addrs[i]]);
      LoopExhaustsWhenNothingTakes(if a.NoSocket? || a.Refused? then c1 else c1.(destFd := -1, destAddr := addrs[i..]),
                                   addrs, attempts, i + 1);
    }
  }

  /**
   * One call: what `getsockopt` says, what the kernel does for each address, and the descriptors in use in the selector,
   * which other sessions may have changed since the last one.
   */
  datatype Call = Call(so: SoError, attempts: seq<Attempt>, registered: set<int>)

  function CallOn(c: Conn, call: Call): (Conn, Progress) {
    TryConnect(c.(registered := call.registered), call.so, call.attempts)
  }

  /** Calls of `try_connect` while the state stays DEST_CONNECT. */
  function Calls(c: Conn, calls: seq<Call>): (Conn, Progress)
    decreases |calls|
  {
    if calls == [] then (c, Pending)
    else
      var (c', p) := CallOn(c, calls[0]);
      if p == Pending then Calls(c', calls[1..]) else (c', p)
  }

  lemma CallInOrder(base: seq<AddrInfo>, c: Conn, call: Call)
    requires InOrder(base, c)
    ensures var (c', p) := CallOn(c, call);
            && c.tried <= c'.tried <= base
            && (p == Exhausted ==> c'.tried == base)
            && (p != Exhausted ==> c'.destFd != -1 && InOrder(base, c'))
            && (p == Pending ==> c' == c.(registered := call.registered) || |c'.tried| > |c.tried|)
  {
    var c := c.(registered := call.registered);
    if c.destFd == -1 {
      LoopInOrder(base, c, c.destAddr, call.attempts, 0);
    } else if call.so == ConnectFailed {
      var rest := c.destAddr[1..];
      LoopInOrder(base, c.(destFd := -1, destAddr := rest), rest, call.attempts, 0);
    }
  }

  /** Over any sequence of calls the addresses are tried in list order, none twice, and the error comes only after all. */
  lemma {:induction false} CallsInOrder(base: seq<AddrInfo>, c: Conn, calls: seq<Call>)
    requires InOrder(base, c)
    ensures var (c', p) := Calls(c, calls);
            && c.tried <= c'.tried <= base
            && (p == Exhausted ==> c'.tried == base)
            && (p == Succeeded ==> c'.destFd != -1 && InOrder(base, c'))
    decreases |calls|
  {
    if calls != [] {
      CallInOrder(base, c, calls[0]);
      var (c', p) := CallOn(c, calls[0]);
      if p == Pending {
        CallsInOrder(base, c', calls[1..]);
      }
    }
  }

  /** From the start, whatever the kernel and the other sessions do. */
  lemma {:induction false} AddressesAreTriedInOrder(base: seq<AddrInfo>, calls: seq<Call>)
    ensures var (c, p) := Calls(Start(base), calls);
            && c.tried <= base
            && (p == Exhausted ==> c.tried == base)
            && (p == Succeeded ==> c.tried != [] && c.destAddr != [] && c.tried[|c.tried| - 1] == c.destAddr[0])
  {
    assert [] + base == base;
    CallsInOrder(base, Start(base), calls);
  }

  /** After a failed connection the next address is reached exactly when some attempt comes on a new descriptor number. */
  lemma FallbackNeedsNewDescriptor(c: Conn, attempts: seq<Attempt>)
    requires c.destFd != -1 && c.destAddr != []
    ensures TryConnect(c, ConnectFailed, attempts).1 != Exhausted
       <==> exists j :: 0 <= j < |c.destAddr| - 1 && Takes(c.registered, AttemptOn(attempts, j))
  {
    var rest := c.destAddr[1..];
    LoopExhaustsWhenNothingTakes(c.(destFd := -1, destAddr := rest), rest, attempts, 0);
  }

  /**
   * The descriptor just closed is still registered. When the kernel hands its number out again, every
   * remaining address is tried and rejected, even if all of them accept the connection.
   */
  lemma ReusedDescriptorBlocksFallback(base: seq<AddrInfo>, c: Conn, attempts: seq<Attempt>)
    requires InOrder(base, c) && c.destFd in c.registered && c.destFd != -1
    requires forall j :: 0 <= j < |attempts| ==> attempts[j] == Connected(c.destFd)
    ensures TryConnect(c, ConnectFailed, attempts).1 == Exhausted
    ensures TryConnect(c, ConnectFailed, attempts).0.tried == base
  {
    FallbackNeedsNewDescriptor(c, attempts);
    CallInOrder(base, c, Call(ConnectFailed, attempts, c.registered));
  }

  /** A loop that does not give up ends on a new descriptor, which it has registered. */
  lemma {:induction false} LoopRegisters(c: Conn, addrs: seq<AddrInfo>, attempts: seq<Attempt>, i: nat)
    ensures var (c', p) := Loop(c, addrs, attempts, i);
            p == Exhausted || (p != QueryError && c'.destFd >= 0 && c'.registered != c.registered)
    decreases |addrs| - i
  {
    if i < |addrs| {
      var a := AttemptOn(attempts, i);
      var c1 := c.(tried := c.tried + [addrs[i]]);
      if a.NoSocket? || a.Refused? {
        LoopRegisters(c1, addrs, attempts, i + 1);
      } else if !Registers(c.registered, a.fd) {
        LoopRegisters(c1.(destFd := -1, destAddr := addrs[i..]), addrs, attempts, i + 1);
      } else {
        assert a.fd in c.registered + {a.fd};
      }
    }
  }

  /** While connecting, or once connected, there is a descriptor: a newly registered one, or the one there was. */
  lemma TryConnectHasDescriptor(c: Conn, so: SoError, attempts: seq<Attempt>)
    ensures var (c', p) := TryConnect(c, so, attempts);
            p in {Pending, Succeeded} ==> c'.destFd != -1 && (c'.registered != c.registered || c' == c)
  {
    if c.destFd == -1 {
      LoopRegisters(c, c.destAddr, attempts, 0);
    } else {
      var rest := if c.destAddr != [] then c.destAddr[1..] else [];
      LoopRegisters(c.(destFd := -1, destAddr := rest), rest, attempts, 0);
    }
  }

  /** A connection under way is left alone: it is made, still pending, or its state cannot be had. */
  lemma {:induction false} UnderWayIsReported(c: Conn, so: SoError, attempts: seq<Attempt>)
    requires c.destFd != -1
    ensures so.NoError? ==> TryConnect(c, so, attempts) == (c, Succeeded)
    ensures so.StillPending? ==> TryConnect(c, so, attempts) == (c, Pending)
    ensures so.QueryFailed? ==> TryConnect(c, so, attempts) == (c, QueryError)
  {
  }

  /** The `k`-th address is the first from `i` on whose attempt takes. */
  ghost predicate FirstTaken(registered: set<int>, n: nat, attempts: seq<Attempt>, i: nat, k: nat) {
    && i <= k < n && Takes(registered, AttemptOn(attempts, k))
    && forall j :: i <= j < k ==> !Takes(registered, AttemptOn(attempts, j))
  }

  /** The first attempt that takes ends the loop: with success when it connected at once, and pending when it did not. */
  lemma {:induction false} FirstTakenWins(c: Conn, addrs: seq<AddrInfo>, attempts: seq<Attempt>, i: nat, k: nat)
    requires FirstTaken(c.registered, |addrs|, attempts, i, k)
    ensures var a := AttemptOn(attempts, k);
            Loop(c, addrs, attempts, i)
            == (Conn(a.fd, addrs[k..], c.registered + {a.fd}, c.tried + addrs[i..k + 1]), if a.Connected? then Succeeded else Pending)
    decreases k - i
  {
    var a, c1 := AttemptOn(attempts, i), c.(tried := c.tried + [addrs[i]]);
    assert addrs[i..k + 1] == [addrs[i]] + addrs[i + 1..k + 1];
    assert c.tried + addrs[i..k + 1] == c1.tried + addrs[i + 1..k + 1];
    if i < k {
      assert !Takes(c.registered, a);
      FirstTakenWins(if a.NoSocket? || a.Refused? then c1 else c1.(destFd := -1, destAddr := addrs[i..]), addrs, attempts, i + 1, k);
    } else {
      assert addrs[i..k + 1] == [addrs[i]];
    }
  }

  /** The addresses a call may try, unless it finds a connection under way that has not failed. */
  function ToTry(c: Conn, so: SoError): seq<AddrInfo> {
    if c.destFd == -1 then c.destAddr
    else if so.ConnectFailed? && c.destAddr != [] then c.destAddr[1..]
    else []
  }

  /** The call comes to an attempt that takes, the first one in the list, and that is `a`. */
  ghost predicate Reaches(c: Conn, so: SoError, attempts: seq<Attempt>, a: Attempt) {
    exists k :: FirstTaken(c.registered, |ToTry(c, so)|, attempts, 0, k) && AttemptOn(attempts, k) == a
  }

  lemma {:induction false} SomeFirst(registered: set<int>, n: nat, attempts: seq<Attempt>, i: nat) returns (k: nat)
    requires exists j :: i <= j < n && Takes(registered, AttemptOn(attempts, j))
    ensures FirstTaken(registered, n, attempts, i, k)
    decreases n - i
  {
    k := i;
    if !Takes(registered, AttemptOn(attempts, i)) {
      k := SomeFirst(registered, n, attempts, i + 1);
    }
  }

  /** A call whose list holds an attempt that takes ends with the first of them, on its descriptor. */
  lemma {:induction false} CallTakesFirst(c: Conn, so: SoError, attempts: seq<Attempt>, a: Attempt)
    requires Reaches(c, so, attempts, a)
    ensures var (c', p) := TryConnect(c, so, attempts);
            c'.destFd == a.fd && p == (if a.Connected? then Succeeded else Pending) && c'.registered == c.registered + {a.fd}
  {
    var k :| FirstTaken(c.registered, |ToTry(c, so)|, attempts, 0, k) && AttemptOn(attempts, k) == a;
    FirstTakenWins(if c.destFd == -1 then c else c.(destFd := -1, destAddr := ToTry(c, so)), ToTry(c, so), attempts, 0, k);
  }

  /** A call that tries addresses and comes to no attempt that takes is exhausted. */
  lemma {:induction false} CallIsExhausted(c: Conn, so: SoError, attempts: seq<Attempt>)
    requires c.destFd == -1 || so.ConnectFailed?
    requires forall k :: 0 <= k < |ToTry(c, so)| ==> !Takes(c.registered, AttemptOn(attempts, k))
    ensures TryConnect(c, so, attempts).1 == Exhausted
  {
    var c1 := if c.destFd == -1 then c else c.(destFd := -1, destAddr := ToTry(c, so));
    LoopExhaustsWhenNothingTakes(c1, ToTry(c, so), attempts, 0);
  }

  /** Exactly when a call ends in each way. */
  lemma {:induction false} CallEndsExactly(c: Conn, so: SoError, attempts: seq<Attempt>)
    ensures var (c', p) := TryConnect(c, so, attempts);
            && (p == Succeeded <==> (c.destFd != -1 && so.NoError?)
                                    || exists a :: Reaches(c, so, attempts, a) && a.Connected?)
            && (p == Pending <==> (c.destFd != -1 && so.StillPending?)
                                  || exists a :: Reaches(c, so, attempts, a) && a.InProgress?)
            && (p == QueryError <==> c.destFd != -1 && so.QueryFailed?)
  {
    if c.destFd == -1 || so.ConnectFailed? {
      if k :| 0 <= k < |ToTry(c, so)| && Takes(c.registered, AttemptOn(attempts, k)) {
        var first := SomeFirst(c.registered, |ToTry(c, so)|, attempts, 0);
        var a := AttemptOn(attempts, first);
        assert Reaches(c, so, attempts, a);
        CallTakesFirst(c, so, attempts, a);
        ReachesOne(c, so, attempts, a);
      } else {
        CallIsExhausted(c, so, attempts);
      }
    } else {
      UnderWayIsReported(c, so, attempts);
    }
  }

  lemma {:induction false} ReachesOne(c: Conn, so: SoError, attempts: seq<Attempt>, a: Attempt)
    requires Reaches(c, so, attempts, a)
    ensures forall x :: Reaches(c, so, attempts, x) ==> x == a
  {
  }

  /** Calls end in success only with a call, the last, that found the connection made or made one at once. */
  lemma {:induction false} SuccessIsReported(c: Conn, calls: seq<Call>) returns (k: nat)
    requires Calls(c, calls).1 == Succeeded
    ensures k < |calls| && Calls(c, calls[..k]).1 == Pending
    ensures var before := Calls(c, calls[..k]).0.(registered := calls[k].registered);
            && TryConnect(before, calls[k].so, calls[k].attempts) == Calls(c, calls)
            && ((before.destFd != -1 && calls[k].so.NoError? && Calls(c, calls).0 == before)
                || exists a :: Reaches(before, calls[k].so, calls[k].attempts, a) && a.Connected? && Calls(c, calls).0.destFd == a.fd)
    decreases |calls|
  {
    var (c1, p) := CallOn(c, calls[0]);
    if p == Pending {
      k := SuccessIsReported(c1, calls[1..]);
      k := k + 1;
      assert calls[..k][0] == calls[0] && calls[..k][1..] == calls[1..][..k - 1];
    } else {
      k := 0;
      var before := c.(registered := calls[0].registered);
      CallEndsExactly(before, calls[0].so, calls[0].attempts);
      if !(before.destFd != -1 && calls[0].so.NoError?) {
        var a :| Reaches(before, calls[0].so, calls[0].attempts, a) && a.Connected?;
        CallTakesFirst(before, calls[0].so, calls[0].attempts, a);
      } else {
        UnderWayIsReported(before, calls[0].so, calls[0].attempts);
      }
    }
  }

  /** And in a failed query only when one of them finds that. */
  lemma {:induction false} QueryErrorIsReported(c: Conn, calls: seq<Call>)
    requires Calls(c, calls).1 == QueryError
    ensures exists k :: 0 <= k < |calls| && calls[k].so.QueryFailed?
    decreases |calls|
  {
    var (c1, p) := CallOn(c, calls[0]);
    CallEndsExactly(c.(registered := calls[0].registered), calls[0].so, calls[0].attempts);
    if p == Pending {
      QueryErrorIsReported(c1, calls[1..]);
      var k :| 0 <= k < |calls[1..]| && calls[1..][k].so.QueryFailed?;
      assert calls[k + 1].so.QueryFailed?;
    } else {
      assert calls[0].so.QueryFailed?;
    }
  }
}
