/** src/lib/selector/selector.c: the table of descriptors, the two sets for select, and the dispatch of events. */
module Selector {
  import opened States

  const FD_UNUSED: int := -1

  /** FD_SETSIZE, the largest number of descriptors select can handle. */
  const ITEMS_MAX_SIZE: nat := 1024

  datatype Status = SELECTOR_SUCCESS | SELECTOR_MAXFD | SELECTOR_IARGS | SELECTOR_FDINUSE

  function Pow2(k: nat): (p: nat)
    ensures p >= 1
  {
    if k == 0 then 1 else 2 * Pow2(k - 1)
  }

  /** The number of binary digits of `n`. */
  function Bits(n: nat): nat {
    if n == 0 then 0 else 1 + Bits(n / 2)
  }

  /** One more than the least power of two above `n`, or than the limit of the platform. */
  function CapacityFor(n: nat): nat {
    var p := Pow2(Bits(n));
    (if p > ITEMS_MAX_SIZE then ITEMS_MAX_SIZE else p) + 1
  }

  lemma {:induction false} BitsBound(n: nat)
    ensures n < Pow2(Bits(n)) && (n > 0 ==> Pow2(Bits(n)) <= 2 * n)
  {
    if n > 0 {
      BitsBound(n / 2);
    }
  }

  /** The loop counts the digits of `n` by halving. */
  method NextCapacity(n: nat) returns (r: nat)
    ensures r == CapacityFor(n)
  {
    var bits: nat, tmp: nat := 0, n;
    while tmp != 0
      invariant bits + Bits(tmp) == Bits(n)
      decreases tmp
    {
      tmp := tmp / 2;
      bits := bits + 1;
    }
    tmp := Pow2(bits);
    if tmp > ITEMS_MAX_SIZE {
      tmp := ITEMS_MAX_SIZE;
    }
    r := tmp + 1;
  }

  /** A capacity holds its index, stays within the platform limit and at most about doubles. */
  lemma CapacityIsEnough(n: nat)
    requires n <= ITEMS_MAX_SIZE
    ensures n < CapacityFor(n) <= ITEMS_MAX_SIZE + 1
    ensures n >= 1 ==> CapacityFor(n) <= 2 * n + 1
  {
    BitsBound(n);
  }

  lemma {:induction false} BitsMonotone(m: nat, n: nat)
    requires m <= n
    ensures Pow2(Bits(m)) <= Pow2(Bits(n))
  {
    if m > 0 {
      BitsMonotone(m / 2, n / 2);
    }
  }

  /** The size of the table when `selector_register` touches it: it grows only for a descriptor above the size. */
  function GrownSize(size: nat, fd: nat): nat {
    if fd > size then CapacityFor(fd) else size
  }

  /** The slot is inside the table except for the one descriptor equal to its size. */
  lemma RegisterInBounds(size: nat, fd: nat)
    requires fd < ITEMS_MAX_SIZE
    ensures fd < GrownSize(size, fd) <==> fd != size
  {
    CapacityIsEnough(fd);
  }

  lemma {:induction false} BitsBetween(n: nat, k: nat)
    requires Pow2(k) <= n < Pow2(k + 1)
    ensures Bits(n) == k + 1
  {
    if k > 0 {
      BitsBetween(n / 2, k - 1);
    }
  }

  lemma BitsAround512()
    ensures Pow2(Bits(512)) == 1024 && Pow2(Bits(511)) == 512
  {
    assert Pow2(5) == 32 && Pow2(8) == 8 * Pow2(5);
    BitsBetween(511, 8);
    BitsBetween(512, 9);
  }

  /** A new selector is safe for every valid descriptor exactly when it is created for at least 512. */
  lemma InitialSizeForSafety(initial: nat)
    requires initial <= ITEMS_MAX_SIZE
    ensures (forall fd :: 0 <= fd < ITEMS_MAX_SIZE ==> fd < GrownSize(CapacityFor(initial), fd)) <==> initial >= 512
  {
    var size := CapacityFor(initial);
    BitsAround512();
    if initial >= 512 {
      BitsMonotone(512, initial);
      forall fd | 0 <= fd < ITEMS_MAX_SIZE
        ensures fd < GrownSize(size, fd)
      {
        RegisterInBounds(size, fd);
      }
    } else {
      BitsMonotone(initial, 511);
      RegisterInBounds(size, size);
    }
  }

  /** What is registered under a descriptor. A handler of 0 stands for the null pointer. */
  datatype Entry = Entry(handler: nat, interest: Interest, data: int)

  type Table = map<int, Entry>

  predicate InvalidFd(fd: int) {
    fd < 0 || fd >= ITEMS_MAX_SIZE
  }

  /** A call on the selector. */
  datatype Op =
    | Register(fd: int, handler: nat, interest: Interest, data: int)
    | Unregister(fd: int)
    | SetInterest(fd: int, interest: Interest)

  /** The selector as a finite map. */
  function Apply(t: Table, op: Op): (Table, Status) {
    match op
    case Register(fd, handler, interest, data) =>
      if InvalidFd(fd) || handler == 0 then (t, SELECTOR_IARGS)
      else if fd in t then (t, SELECTOR_FDINUSE)
      else (t[fd := Entry(handler, interest, data)], SELECTOR_SUCCESS)
    case Unregister(fd) =>
      if InvalidFd(fd) || fd !in t then (t, SELECTOR_IARGS) else (t - {fd}, SELECTOR_SUCCESS)
    case SetInterest(fd, interest) =>
      if InvalidFd(fd) || fd !in t then (t, SELECTOR_IARGS)
      else (t[fd := t[fd].(interest := interest)], SELECTOR_SUCCESS)
  }

  function ApplyAll(t: Table, ops: seq<Op>): Table
    decreases |ops|
  {
    if ops == [] then t else ApplyAll(Apply(t, ops[0]).0, ops[1..])
  }

  datatype Item = Item(fd: int, interest: Interest, handler: nat, data: int)

  const Blank := Item(FD_UNUSED, OP_NOOP, 0, 0)

  /** What the slots register. */
  ghost function TableOf(slots: seq<Item>): Table {
    map fd | 0 <= fd < |slots| && slots[fd].fd != FD_UNUSED :: Entry(slots[fd].handler, slots[fd].interest, slots[fd].data)
  }

  /** Slot `i` is unused or holds descriptor `i`. */
  ghost predicate SlotsInPlace(slots: seq<Item>) {
    forall i :: 0 <= i < |slots| ==> slots[i].fd == FD_UNUSED || slots[i].fd == i
  }

  /** The sets hold exactly the registered descriptors with that interest. */
  ghost predicate SetsAgree(t: Table, r: set<int>, w: set<int>) {
    && (forall fd :: fd in r <==> fd in t && t[fd].interest.read)
    && (forall fd :: fd in w <==> fd in t && t[fd].interest.write)
  }

  /** The largest registered descriptor, or 0. */
  ghost predicate IsMaxFd(t: Table, m: int) {
    (forall fd :: fd in t ==> fd <= m) && (m == 0 || m in t)
  }

  /** Changing one slot changes one entry. */
  lemma SlotUpdate(slots: seq<Item>, i: nat, item: Item)
    requires i < |slots| && SlotsInPlace(slots) && (item.fd == FD_UNUSED || item.fd == i)
    ensures SlotsInPlace(slots[i := item])
    ensures TableOf(slots[i := item])
         == if item.fd == FD_UNUSED then TableOf(slots) - {i}
            else TableOf(slots)[i := Entry(item.handler, item.interest, item.data)]
  {
  }

  /** New slots without a descriptor change nothing. */
  lemma SlotsGrow(slots: seq<Item>, more: seq<Item>)
    requires SlotsInPlace(slots) && forall i :: 0 <= i < |more| ==> more[i].fd == FD_UNUSED
    ensures SlotsInPlace(slots + more) && TableOf(slots + more) == TableOf(slots)
  {
  }

  class FdSelector {
    var fds: array<Item>
    var maxFd: int
    var masterR: set<int>
    var masterW: set<int>

    ghost predicate Valid()
      reads this, fds
    {
      && 1 <= fds.Length <= ITEMS_MAX_SIZE + 1
      && SlotsInPlace(fds[..])
      && SetsAgree(Registered(), masterR, masterW)
      && 0 <= maxFd < fds.Length && IsMaxFd(Registered(), maxFd)
    }

    /** The registered descriptors and what they are registered with. */
    ghost function Registered(): Table
      reads this, fds
    {
      TableOf(fds[..])
    }

    constructor (initial: nat)
      requires initial <= ITEMS_MAX_SIZE
      ensures Valid() && fresh(fds)
      ensures fds.Length == CapacityFor(initial) && Registered() == map[]
    {
      fds := new Item[0];
      maxFd, masterR, masterW := 0, {}, {};
      new;
      var _ := EnsureCapacity(initial);
    }

    /** Marks the slots from `last` on as unused. */
    method ItemsInit(last: nat)
      requires last <= fds.Length
      modifies fds
      ensures fds[..last] == old(fds[..last])
      ensures forall i :: last <= i < fds.Length ==> fds[i].fd == FD_UNUSED
    {
      for i := last to fds.Length
        invariant fds[..last] == old(fds[..last])
        invariant forall k :: last <= k < i ==> fds[k].fd == FD_UNUSED
      {
        fds[i] := fds[i].(fd := FD_UNUSED);
      }
    }

    /** Makes room for slot `n`, or refuses it. The table never shrinks, old slots keep their contents, new ones are unused. */
    method EnsureCapacity(n: nat) returns (status: Status)
      modifies this`fds
      ensures status == if n < old(fds.Length) || n <= ITEMS_MAX_SIZE then SELECTOR_SUCCESS else SELECTOR_MAXFD
      ensures if n < old(fds.Length) || n > ITEMS_MAX_SIZE then fds == old(fds)
              else fresh(fds) && n < fds.Length == CapacityFor(n) && fds.Length >= old(fds.Length)
      ensures fds[..old(fds.Length)] == old(fds[..])
      ensures forall i :: old(fds.Length) <= i < fds.Length ==> fds[i].fd == FD_UNUSED
    {
      if n < fds.Length {
        return SELECTOR_SUCCESS;
      }
      if n > ITEMS_MAX_SIZE {
        return SELECTOR_MAXFD;
      }
      var newSize := NextCapacity(n);
      CapacityIsEnough(n);
      var oldSize := fds.Length;
      var tmp := new Item[newSize];
      forall i | 0 <= i < oldSize {
        tmp[i] := fds[i];
      }
      fds := tmp;
      ItemsInit(oldSize);
      status := SELECTOR_SUCCESS;
    }

    /** The largest descriptor in use, looked for up to the old maximum. */
    method ItemsMaxFd() returns (max: int)
      requires 0 <= maxFd < fds.Length && SlotsInPlace(fds[..])
      requires forall fd :: fd in Registered() ==> fd <= maxFd
      ensures 0 <= max < fds.Length && IsMaxFd(Registered(), max)
    {
      max := 0;
      for i := 0 to maxFd + 1
        invariant 0 <= max < fds.Length && (max == 0 || max in Registered())
        invariant forall fd :: fd in Registered() && fd < i ==> fd <= max
      {
        if fds[i].fd != FD_UNUSED {
          assert fds[..][i].fd == i;
          if fds[i].fd > max {
            max := fds[i].fd;
          }
        }
      }
    }

    /** Brings both sets in line with one item. */
    method ItemsUpdateFdset(item: Item)
      modifies this`masterR, this`masterW
      ensures masterR == old(masterR) - {item.fd} + if item.fd != FD_UNUSED && item.interest.read then {item.fd} else {}
      ensures masterW == old(masterW) - {item.fd} + if item.fd != FD_UNUSED && item.interest.write then {item.fd} else {}
    {
      masterR := masterR - {item.fd};
      masterW := masterW - {item.fd};
      if item.fd != FD_UNUSED {
        if item.interest.read {
          masterR := masterR + {item.fd};
        }
        if item.interest.write {
          masterW := masterW + {item.fd};
        }
      }
    }

    /** A descriptor equal to the size of the table is the one the growth check misses. */
    method SelectorRegister(fd: int, handler: nat, interest: Interest, data: int) returns (status: Status)
      requires Valid() && (InvalidFd(fd) || fd != fds.Length)
      modifies this, fds
      ensures Valid() && fds.Length >= old(fds.Length) && (fds == old(fds) || fresh(fds))
      ensures fd < old(fds.Length) || InvalidFd(fd) ==> fds == old(fds)
      ensures (Registered(), status) == Apply(old(Registered()), Register(fd, handler, interest, data))
    {
      if InvalidFd(fd) || handler == 0 {
        return SELECTOR_IARGS;
      }
      if fd > fds.Length {
        ghost var before := fds[..];
        var grown := EnsureCapacity(fd);
        SlotsGrow(before, fds[|before|..]);
        assert fds[..] == before + fds[|before|..];
      }
      if fds[fd].fd != FD_UNUSED {
        return SELECTOR_FDINUSE;
      }
      Occupy(Item(fd, interest, handler, data));
      status := SELECTOR_SUCCESS;
    }

    /** The second half of `selector_register`: the item goes into its slot. */
    method Occupy(item: Item)
      requires Valid() && 0 <= item.fd < fds.Length && fds[item.fd].fd == FD_UNUSED
      modifies this, fds
      ensures Valid() && fds == old(fds)
      ensures Registered() == old(Registered())[item.fd := Entry(item.handler, item.interest, item.data)]
    {
      SlotUpdate(fds[..], item.fd, item);
      fds[item.fd] := item;
      if item.fd > maxFd {
        maxFd := item.fd;
      }
      ItemsUpdateFdset(fds[item.fd]);
    }

    method SelectorUnregisterFd(fd: int) returns (status: Status)
      requires Valid() && (InvalidFd(fd) || fd < fds.Length)
      modifies this, fds
      ensures Valid() && fds == old(fds)
      ensures (Registered(), status) == Apply(old(Registered()), Unregister(fd))
    {
      if InvalidFd(fd) {
        return SELECTOR_IARGS;
      }
      if fds[fd].fd == FD_UNUSED {
        return SELECTOR_IARGS;
      }
      assert fds[..][fd].fd == fd;
      ghost var before := fds[..];
      SlotUpdate(before, fd, Blank);
      fds[fd] := fds[fd].(interest := OP_NOOP);
      ItemsUpdateFdset(fds[fd]);
      fds[fd] := Blank;
      assert fds[..] == before[fd := Blank];
      maxFd := ItemsMaxFd();
      status := SELECTOR_SUCCESS;
    }

    method SelectorSetInterest(fd: int, interest: Interest) returns (status: Status)
      requires Valid() && (InvalidFd(fd) || fd < fds.Length)
      modifies this, fds
      ensures Valid() && fds == old(fds)
      ensures (Registered(), status) == Apply(old(Registered()), SetInterest(fd, interest))
    {
      if InvalidFd(fd) {
        return SELECTOR_IARGS;
      }
      if fds[fd].fd == FD_UNUSED {
        return SELECTOR_IARGS;
      }
      assert fds[..][fd].fd == fd;
      SlotUpdate(fds[..], fd, fds[fd].(interest := interest));
      fds[fd] := fds[fd].(interest := interest);
      ItemsUpdateFdset(fds[fd]);
      status := SELECTOR_SUCCESS;
    }

    /** The calls a handler makes on the selector. */
    method Perform(ops: seq<Op>)
      requires Valid() && fds.Length > ITEMS_MAX_SIZE
      modifies this, fds
      ensures Valid() && fds == old(fds) && Registered() == ApplyAll(old(Registered()), ops)
    {
      ghost var before := Registered();
      assert ops[0..] == ops;
      for i := 0 to |ops|
        invariant Valid() && fds == old(fds)
        invariant ApplyAll(before, ops) == ApplyAll(Registered(), ops[i..])
      {
        assert ops[i..][0] == ops[i] && ops[i..][1..] == ops[i + 1..];
        ghost var t := Registered();
        var status;
        match ops[i] {
          case Register(fd, handler, interest, data) => status := SelectorRegister(fd, handler, interest, data);
          case Unregister(fd) => status := SelectorUnregisterFd(fd);
          case SetInterest(fd, interest) => status := SelectorSetInterest(fd, interest);
        }
        assert Registered() == Apply(t, ops[i]).0;
      }
    }

    /** One item of an iteration: its descriptor and data are taken before the read handler runs. */
    method HandleItem(i: nat, slaveR: set<int>, slaveW: set<int>, script: (int, bool) -> seq<Op>) returns (log: seq<Dispatch>)
      requires Valid() && fds.Length > ITEMS_MAX_SIZE && i < fds.Length
      modifies this, fds
      ensures Valid() && fds == old(fds)
      ensures (Registered(), log) == IterateItem(old(Registered()), i, slaveR, slaveW, script)
    {
      log := [];
      assert i in Registered() <==> fds[..][i].fd != FD_UNUSED;
      if fds[i].fd != FD_UNUSED {
        assert fds[..][i].fd == i;
        var fd, data := fds[i].fd, fds[i].data;
        if fd in slaveR && fds[i].interest.read {
          log := [Dispatch(fd, true, data)];
          Perform(script(fd, true));
        }
        assert i in Registered() <==> fds[..][i].fd != FD_UNUSED;
        // An item that has been unregistered has no interests left.
        if i in slaveW && fds[i].fd != FD_UNUSED && fds[i].interest.write {
          log := log + [Dispatch(fd, false, data)];
          Perform(script(fd, false));
        }
      }
    }

    /** Dispatches the ready descriptors up to the maximum at the start, in ascending order. */
    method HandleIteration(slaveR: set<int>, slaveW: set<int>, script: (int, bool) -> seq<Op>) returns (log: seq<Dispatch>)
      requires Valid() && fds.Length > ITEMS_MAX_SIZE
      modifies this, fds
      ensures Valid() && fds == old(fds)
      ensures (Registered(), log) == Iterate(old(Registered()), 0, old(maxFd), slaveR, slaveW, script)
    {
      var n := maxFd;
      log := [];
      ghost var before := Registered();
      assert [] + Iterate(before, 0, n, slaveR, slaveW, script).1 == Iterate(before, 0, n, slaveR, slaveW, script).1;
      for i := 0 to n + 1
        invariant Valid() && fds == old(fds) && n < fds.Length
        invariant var (t, rest) := Iterate(Registered(), i, n, slaveR, slaveW, script);
                  Iterate(before, 0, n, slaveR, slaveW, script) == (t, log + rest)
      {
        var l := HandleItem(i, slaveR, slaveW, script);
        ghost var rest := Iterate(Registered(), i + 1, n, slaveR, slaveW, script).1;
        assert log + (l + rest) == (log + l) + rest;
        log := log + l;
      }
      assert log + [] == log;
    }
  }

  /** `selector_new`, which gives no selector for more descriptors than the platform can handle. */
  method SelectorNew(initial: nat) returns (s: FdSelector?)
    ensures s == null <==> initial > ITEMS_MAX_SIZE
    ensures s != null ==> fresh(s) && s.Valid() && s.Registered() == map[] && s.fds.Length == CapacityFor(initial)
  {
    if initial > ITEMS_MAX_SIZE {
      return null;
    }
    s := new FdSelector(initial);
  }

  /** A handler call: the descriptor, reading or writing, and the attachment it is given. */
  datatype Dispatch = Dispatch(fd: int, read: bool, data: int)

  /** One item: the read handler when ready and wanted, then the write handler when ready and still wanted. */
  function IterateItem(t: Table, i: int, r: set<int>, w: set<int>, script: (int, bool) -> seq<Op>): (Table, seq<Dispatch>) {
    if i !in t then (t, [])
    else
      var doRead := i in r && t[i].interest.read;
      var t1 := if doRead then ApplyAll(t, script(i, true)) else t;
      var l1 := if doRead then [Dispatch(i, true, t[i].data)] else [];
      if i in w && i in t1 && t1[i].interest.write
      then (ApplyAll(t1, script(i, false)), l1 + [Dispatch(i, false, t[i].data)])
      else (t1, l1)
  }

  /** The items from `i` to `n`. */
  function Iterate(t: Table, i: int, n: int, r: set<int>, w: set<int>, script: (int, bool) -> seq<Op>): (Table, seq<Dispatch>)
    decreases n + 1 - i
  {
    if i > n then (t, [])
    else
      var (t1, l1) := IterateItem(t, i, r, w, script);
      var (t2, l2) := Iterate(t1, i + 1, n, r, w, script);
      (t2, l1 + l2)
  }

  /** Only ready descriptors from `i` to `n`, each at most once for reading and once for writing, ascending, reading first. */
  ghost predicate InOrder(log: seq<Dispatch>, i: int, n: int, r: set<int>, w: set<int>) {
    && (forall a :: 0 <= a < |log| ==> i <= log[a].fd <= n && log[a].fd in (if log[a].read then r else w))
    && (forall a, b :: 0 <= a < b < |log| ==>
          log[a].fd < log[b].fd || (log[a].fd == log[b].fd && log[a].read && !log[b].read))
  }

  /** One item's dispatches, then those of later items. */
  lemma InOrderAppend(l1: seq<Dispatch>, l2: seq<Dispatch>, i: int, n: int, r: set<int>, w: set<int>)
    requires i <= n && InOrder(l1, i, i, r, w) && InOrder(l2, i + 1, n, r, w)
    ensures InOrder(l1 + l2, i, n, r, w)
  {
    var l := l1 + l2;
    forall a, b | 0 <= a < b < |l|
      ensures l[a].fd < l[b].fd || (l[a].fd == l[b].fd && l[a].read && !l[b].read)
    {
      if a >= |l1| {
        assert l[a] == l2[a - |l1|] && l[b] == l2[b - |l1|];
      }
    }
  }

  /** Whatever the handlers do to the selector, an iteration dispatches in order. */
  lemma {:induction false} IterationIsOrdered(t: Table, i: int, n: int, r: set<int>, w: set<int>,
                                              script: (int, bool) -> seq<Op>)
    ensures InOrder(Iterate(t, i, n, r, w, script).1, i, n, r, w)
    decreases n + 1 - i
  {
    if i <= n {
      var (t1, l1) := IterateItem(t, i, r, w, script);
      IterationIsOrdered(t1, i + 1, n, r, w, script);
      InOrderAppend(l1, Iterate(t1, i + 1, n, r, w, script).1, i, n, r, w);
    }
  }

  /** A descriptor whose read handler takes away its interests is not written to in the same iteration. */
  lemma {:induction false} ReadHandlerSilencesWrite(t: Table, i: int, r: set<int>, w: set<int>, script: (int, bool) -> seq<Op>)
    requires i in t && i in r && t[i].interest.read
    requires var t1 := ApplyAll(t, script(i, true)); i in t1 ==> !t1[i].interest.write
    ensures IterateItem(t, i, r, w, script).1 == [Dispatch(i, true, t[i].data)]
  {
  }

  /** When registering succeeds, and what it changes. */
  lemma {:induction false} RegisterChangesOne(t: Table, fd: int, handler: nat, interest: Interest, data: int)
    ensures var (t', status) := Apply(t, Register(fd, handler, interest, data));
            && (status == SELECTOR_SUCCESS <==> 0 <= fd < 1024 && handler != 0 && fd !in t)
            && (status == SELECTOR_FDINUSE <==> 0 <= fd < 1024 && handler != 0 && fd in t)
            && (status == SELECTOR_SUCCESS || status == SELECTOR_FDINUSE || status == SELECTOR_IARGS)
            && (status != SELECTOR_SUCCESS ==> t' == t)
            && (status == SELECTOR_SUCCESS ==>
                  t'.Keys == t.Keys + {fd} && t'[fd] == Entry(handler, interest, data) && forall x :: x in t ==> t'[x] == t[x])
  {
  }

  /** Unregistering takes back a registration, and a changed interest changes nothing else. */
  lemma {:induction false} UnregisterUndoes(t: Table, fd: int, handler: nat, interest: Interest, data: int)
    requires 0 <= fd < 1024 && handler != 0 && fd !in t
    ensures var t' := Apply(t, Register(fd, handler, interest, data)).0;
            && Apply(t', Unregister(fd)) == (t, SELECTOR_SUCCESS)
            && Apply(t, Unregister(fd)) == (t, SELECTOR_IARGS)
            && forall i: Interest ::
                 && Apply(t', SetInterest(fd, i)) == (Apply(t, Register(fd, handler, i, data)).0, SELECTOR_SUCCESS)
                 && Apply(t, SetInterest(fd, i)) == (t, SELECTOR_IARGS)
  {
    var t' := t[fd := Entry(handler, interest, data)];
    assert t' - {fd} == t;
    assert forall i: Interest :: t'[fd := t'[fd].(interest := i)] == t[fd := Entry(handler, i, data)];
  }

  /** Which handlers of an item are called: reading when ready and wanted, writing when ready and wanted after that. */
  lemma {:induction false} ItemDispatches(t: Table, i: int, r: set<int>, w: set<int>, script: (int, bool) -> seq<Op>)
    requires i in t
    ensures var (t', log) := IterateItem(t, i, r, w, script);
            var read := i in r && t[i].interest.read;
            var t1 := if read then ApplyAll(t, script(i, true)) else t;
            var write := i in w && i in t1 && t1[i].interest.write;
            && (Dispatch(i, true, t[i].data) in log <==> read) && (Dispatch(i, false, t[i].data) in log <==> write)
            && |log| == (if read then 1 else 0) + (if write then 1 else 0)
            && (read && write ==> log == [Dispatch(i, true, t[i].data), Dispatch(i, false, t[i].data)])
            && (!read && !write ==> t' == t)
            && (write ==> t' == ApplyAll(t1, script(i, false)))
  {
  }
}
