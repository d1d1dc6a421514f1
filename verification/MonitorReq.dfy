/** src/server/monitor/monitor_req.c: the incremental parser of management requests. */
module MonitorReq {
  import opened Bytes
  import opened Feeding
  import opened ParserEngine
  import opened AuthUtils
  import opened Users
  import opened MonitorReqUtils

  const MONITOR_REQ_STATE_TYPE: nat := 0
  const MONITOR_REQ_STATE_ARGUMENT_LENGTH: nat := 1
  const MONITOR_REQ_STATE_ARGUMENT: nat := 2
  const MONITOR_REQ_STATE_DONE: nat := 3
  const MONITOR_REQ_STATE_ERROR: nat := 4

  // Events share the numbers of the states.

  const MonitorReqDef := Definition(
    [ [Transition(ANY, MONITOR_REQ_STATE_ARGUMENT_LENGTH, Action(MONITOR_REQ_STATE_TYPE, true), None)],
      [Transition(ANY, MONITOR_REQ_STATE_ARGUMENT, Action(MONITOR_REQ_STATE_ARGUMENT_LENGTH, true), None)],
      [Transition(ANY, MONITOR_REQ_STATE_ARGUMENT, Action(MONITOR_REQ_STATE_ARGUMENT, true), None)],
      [Transition(ANY, MONITOR_REQ_STATE_DONE, Action(MONITOR_REQ_STATE_DONE, false), None)],
      [Transition(ANY, MONITOR_REQ_STATE_ERROR, Action(MONITOR_REQ_STATE_ERROR, false), None)] ],
    MONITOR_REQ_STATE_TYPE)

  /** The type, the arguments read so far, and the declared length of the last of them. */
  datatype MonitorReq = MonitorReq(state: nat, typ: Byte, args: seq<seq<Byte>>, argLen: Byte)

  /**
   * How a request ends: handed to `handle_request`, refused, or with the null pointer after an argument outside the
   * array, from where on the code is not modelled.
   */
  datatype Outcome = Handle(typ: Byte, args: seq<seq<Byte>>) | Refused | Overrun

  const Start := MonitorReq(MONITOR_REQ_STATE_TYPE, 0, [], 0)

  function Dest(st: nat): nat {
    if st == MONITOR_REQ_STATE_TYPE then MONITOR_REQ_STATE_ARGUMENT_LENGTH
    else if st <= MONITOR_REQ_STATE_ARGUMENT then MONITOR_REQ_STATE_ARGUMENT
    else st
  }

  /** The engine takes these transitions of the table; each state reports the event of its own number. */
  lemma {:induction false} TableTransits(st: nat, c: Byte)
    requires st < |MonitorReqDef.states|
    ensures var t := FirstMatch(MonitorReqDef.states[st], c);
            t.Some? && t.value.dest == Dest(st) && t.value.act2 == None
            && t.value.act1 == Action(st, st <= MONITOR_REQ_STATE_ARGUMENT)
  {
  }

  /** What one byte of the request does. */
  function Step(m: MonitorReq, c: Byte): Verdict<MonitorReq, Outcome> {
    OnEvent(m.(state := Dest(m.state)), m.state, c)
  }

  /** The handling of the event reported for byte `c`. */
  function OnEvent(m: MonitorReq, event: nat, c: Byte): Verdict<MonitorReq, Outcome> {
    if event == MONITOR_REQ_STATE_TYPE then Go(m.(typ := c))
    else if event == MONITOR_REQ_STATE_ARGUMENT_LENGTH then
      if c == 0 then (if Accepts(m.typ, |m.args|) then Stop(Handle(m.typ, m.args)) else Stop(Refused))
      else if |m.args| + 1 >= MAX_BUFFER_SIZE then Stop(Overrun)
      else Go(m.(argLen := c, args := m.args + [[]]))
    else if event == MONITOR_REQ_STATE_ARGUMENT then
      if m.args == [] then Stop(Refused)
      else
        var n := |m.args| - 1;
        var arg := if |m.args[n]| < m.argLen then m.args[n] + [c] else m.args[n];
        Go(m.(args := m.args[n := arg],
              state := if |arg| == m.argLen then MONITOR_REQ_STATE_ARGUMENT_LENGTH else m.state))
    else Stop(Refused)
  }

  /** Every argument has a length that fits in one byte and is not the terminator. */
  predicate ArgsFit(args: seq<seq<Byte>>) {
    forall i :: 0 <= i < |args| ==> 1 <= |args[i]| <= 255
  }

  /** The arguments, each with its length before it, and a zero. */
  function ArgsFrame(args: seq<seq<Byte>>): seq<Byte>
    requires ArgsFit(args)
  {
    if args == [] then [0] else [|args[0]|] + args[0] + ArgsFrame(args[1..])
  }

  /** The bytes of a request. */
  function Frame(typ: Byte, args: seq<seq<Byte>>): seq<Byte>
    requires ArgsFit(args)
  {
    [typ] + ArgsFrame(args)
  }

  /** The arguments from position `i` on, with the position after the terminator once it has come. */
  function Args(b: seq<Byte>, i: nat): Option<(seq<seq<Byte>>, nat)>
    decreases |b| - i
  {
    if i >= |b| then None
    else
      var j := i + 1 + b[i] as nat;
      if b[i] == 0 then Some(([], i + 1))
      else if |b| < j then None
      else
        var rest := Args(b, j);
        if rest.None? then None else Some(([b[i + 1..j]] + rest.value.0, rest.value.1))
  }

  /** The state once `bytes` have been added to the last argument. */
  function ArgRead(m: MonitorReq, bytes: seq<Byte>): MonitorReq
    requires m.args != []
  {
    var n := |m.args| - 1;
    var arg := m.args[n] + bytes;
    m.(args := m.args[n := arg],
       state := if |arg| == m.argLen then MONITOR_REQ_STATE_ARGUMENT_LENGTH else MONITOR_REQ_STATE_ARGUMENT)
  }

  /** Bytes of an argument, up to its last one. */
  lemma {:induction false} ArgRun(m: MonitorReq, b: seq<Byte>, i: nat)
    requires m.state == MONITOR_REQ_STATE_ARGUMENT && m.args != []
    requires i < |b| <= i + m.argLen - |m.args[|m.args| - 1]|
    ensures Run(Step, m, b, i) == More(ArgRead(m, b[i..]))
    decreases |b| - i
  {
    var n := |m.args| - 1;
    var m' := ArgRead(m, [b[i]]);
    assert Step(m, b[i]) == Go(m');
    if i + 1 == |b| {
      assert b[i..] == [b[i]];
    } else {
      ArgRun(m', b, i + 1);
      assert m.args[n] + [b[i]] + b[i + 1..] == m.args[n] + b[i..];
      assert ArgRead(m', b[i + 1..]).args == ArgRead(m, b[i..]).args;
    }
  }

  /** The next argument: complete, or not yet. */
  lemma {:induction false} ArgFieldRun(m: MonitorReq, b: seq<Byte>, i: nat)
    requires m.state == MONITOR_REQ_STATE_ARGUMENT_LENGTH && |m.args| + 1 < MAX_BUFFER_SIZE && i < |b| && b[i] != 0
    ensures var j := i + 1 + b[i] as nat;
            if |b| < j then Run(Step, m, b, i).More?
            else Run(Step, m, b[..j], i) == More(m.(argLen := b[i], args := m.args + [b[i + 1..j]]))
  {
    var j := i + 1 + b[i] as nat;
    var m1 := m.(state := MONITOR_REQ_STATE_ARGUMENT, argLen := b[i], args := m.args + [[]]);
    var field := if |b| < j then b else b[..j];
    assert Step(m, field[i]) == Go(m1);
    if i + 1 < |field| {
      ArgRun(m1, field, i + 1);
      assert [] + field[i + 1..] == field[i + 1..];
      if |b| >= j {
        assert field[i + 1..] == b[i + 1..j];
        assert m1.args[|m.args| := b[i + 1..j]] == m.args + [b[i + 1..j]];
      }
    }
  }

  /** What the parser makes of complete arguments. */
  function Decided(typ: Byte, args: seq<seq<Byte>>): Outcome {
    if Accepts(typ, |args|) then Handle(typ, args) else Refused
  }

  /**
   * From a length on, the parser reads the arguments and decides on the terminator, or runs over its array before, which
   * it does with the 255th argument.
   */
  lemma {:induction false} ArgsRun(m: MonitorReq, b: seq<Byte>, i: nat)
    requires m.state == MONITOR_REQ_STATE_ARGUMENT_LENGTH && |m.args| < MAX_BUFFER_SIZE && i <= |b|
    ensures var run := Run(Step, m, b, i);
            match Args(b, i)
            case None => run.More? || run.outcome == Overrun
            case Some((args, k)) =>
              if |m.args + args| < MAX_BUFFER_SIZE then run == Done(Decided(m.typ, m.args + args), k)
              else run.Done? && run.outcome == Overrun
    decreases |b| - i
  {
    if i < |b| {
      var j := i + 1 + b[i] as nat;
      if b[i] == 0 {
        assert m.args + [] == m.args;
      } else if |m.args| + 1 < MAX_BUFFER_SIZE {
        ArgFieldRun(m, b, i);
        if |b| >= j {
          var m' := m.(argLen := b[i], args := m.args + [b[i + 1..j]]);
          RunPast(Step, m, b, i, j);
          ArgsRun(m', b, j);
          if Args(b, j).Some? {
            assert m'.args + Args(b, j).value.0 == m.args + ([b[i + 1..j]] + Args(b, j).value.0);
          }
        }
      }
    }
  }

  lemma SliceOfSlice(b: seq<Byte>, i: nat, k: nat, x: nat, y: nat)
    requires i <= k <= |b| && x <= y <= k - i
    ensures b[i..k][x..y] == b[i + x..i + y]
  {
    forall t | 0 <= t < y - x
      ensures b[i..k][x..y][t] == b[i + x..i + y][t]
    {
      assert b[i..k][x + t] == b[i + x + t];
    }
  }

  /** The first argument of a frame, and the frame of the others. */
  lemma {:induction false} FirstArg(b: seq<Byte>, i: nat, args: seq<seq<Byte>>, k: nat)
    requires i <= k <= |b| && ArgsFit(args) && args != [] && b[i..k] == ArgsFrame(args)
    ensures var j := i + 1 + |args[0]|;
            b[i] == |args[0]| && j <= k && b[i + 1..j] == args[0] && b[j..k] == ArgsFrame(args[1..])
  {
    var n, rest := |args[0]|, ArgsFrame(args[1..]);
    assert b[i] == b[i..k][0] && b[i..k] == [n] + args[0] + rest;
    SliceOfSlice(b, i, k, 1, 1 + n);
    SliceOfSlice(b, i, k, 1 + n, k - i);
    assert b[i..k][1..1 + n] == args[0] && b[i..k][1 + n..k - i] == rest;
  }

  /** Reading the arguments is the inverse of framing them. */
  lemma {:induction false} ArgsOfFrame(b: seq<Byte>, i: nat, args: seq<seq<Byte>>, k: nat)
    requires i <= k <= |b| && ArgsFit(args) && b[i..k] == ArgsFrame(args)
    ensures Args(b, i) == Some((args, k))
    decreases |args|
  {
    if args == [] {
      assert b[i] == b[i..k][0];
    } else {
      FirstArg(b, i, args, k);
      ArgsOfFrame(b, i + 1 + |args[0]|, args[1..], k);
      assert [args[0]] + args[1..] == args;
    }
  }

  lemma {:induction false} FrameOfArgs(b: seq<Byte>, i: nat)
    requires Args(b, i).Some?
    ensures var (args, k) := Args(b, i).value; i <= k <= |b| && ArgsFit(args) && b[i..k] == ArgsFrame(args)
    decreases |b| - i
  {
    if b[i] != 0 {
      var j := i + 1 + b[i] as nat;
      FrameOfArgs(b, j);
      var (rest, k) := Args(b, j).value;
      var args := [b[i + 1..j]] + rest;
      assert args[1..] == rest;
      assert b[i..k] == [b[i]] + b[i + 1..j] + b[j..k];
    }
  }

  /** From the type on: nothing yet, the arguments have been read and counted, or there are too many of them. */
  lemma {:induction false} RequestRun(b: seq<Byte>)
    requires b != []
    ensures var run := Run(Step, Start, b);
            match Args(b, 1)
            case None => run.More? || run.outcome == Overrun
            case Some((args, k)) =>
              if |args| < MAX_BUFFER_SIZE then run == Done(Decided(b[0], args), k) else run.Done? && run.outcome == Overrun
  {
    var m := Start.(state := MONITOR_REQ_STATE_ARGUMENT_LENGTH, typ := b[0]);
    assert Step(Start, b[0]) == Go(m);
    ArgsRun(m, b, 1);
    if Args(b, 1).Some? {
      assert m.args + Args(b, 1).value.0 == Args(b, 1).value.0;
    }
  }

  /**
   * A frame is decided, once, on its last byte, with its type and arguments, exactly when it has fewer than 255 of them.
   * With more the parser writes outside its array.
   */
  lemma {:induction false} FrameIsHandled(typ: Byte, args: seq<seq<Byte>>)
    requires ArgsFit(args)
    ensures var run := Run(Step, Start, Frame(typ, args));
            if |args| < MAX_BUFFER_SIZE then run == Done(Decided(typ, args), |Frame(typ, args)|)
            else run.Done? && run.outcome == Overrun
  {
    var b := Frame(typ, args);
    assert b[1..|b|] == ArgsFrame(args);
    ArgsOfFrame(b, 1, args, |b|);
    RequestRun(b);
  }

  lemma {:induction false} HandledIsFramed(b: seq<Byte>, typ: Byte, args: seq<seq<Byte>>)
    requires Run(Step, Start, b) == Done(Handle(typ, args), |b|)
    ensures ArgsFit(args) && Accepts(typ, |args|) && |args| < MAX_BUFFER_SIZE && b == Frame(typ, args)
  {
    RequestRun(b);
    FrameOfArgs(b, 1);
    assert Args(b, 1).value == (args, |b|);
    assert b[0] == typ && b[1..|b|] == ArgsFrame(args);
    assert b == [b[0]] + b[1..|b|];
  }

  /**
   * A request is handed to `handle_request` on its last byte exactly when the bytes are the frame of an
   * acceptable request of fewer than 255 arguments, and then with exactly its type and arguments.
   */
  lemma {:induction false} HandledExactlyWhenFramed(b: seq<Byte>, typ: Byte, args: seq<seq<Byte>>)
    ensures Run(Step, Start, b) == Done(Handle(typ, args), |b|)
       <==> ArgsFit(args) && Accepts(typ, |args|) && |args| < MAX_BUFFER_SIZE && b == Frame(typ, args)
  {
    if ArgsFit(args) && Accepts(typ, |args|) && |args| < MAX_BUFFER_SIZE && b == Frame(typ, args) {
      FrameIsHandled(typ, args);
    }
    if Run(Step, Start, b) == Done(Handle(typ, args), |b|) {
      HandledIsFramed(b, typ, args);
    }
  }

  /** What `monitor_req_read` makes of a verdict: whether the session goes on, and with what interest. */
  datatype Result = Result(goesOn: bool, answer: bool)

  /** The stores and the result after the verdict on a byte. */
  function After(v: Verdict<MonitorReq, Outcome>, s: Stores): (Stores, Result)
    requires v != Stop(Overrun)
    requires v.Stop? && v.outcome.Handle? ==> |v.outcome.args| < |s.methods| && |s.methods| >= 2
    requires v.Stop? && v.outcome.Handle? ==> Accepts(v.outcome.typ, |v.outcome.args|)
  {
    match v
    case Go(_) => (s, Result(true, false))
    case Stop(Refused) => (s, Result(false, false))
    case Stop(Handle(typ, args)) => var (s', ok) := HandleRequest(typ, args, s); (s', Result(ok, ok))
  }

  class MonitorReqParser {
    const p: Parser
    var typ: Byte
    var arguments: seq<seq<Byte>>
    var currentArgumentLength: Byte
    var currentArgumentRead: nat

    /** The array of arguments has room for the null pointer after the last one. */
    ghost predicate Valid()
      reads this, p
    {
      && p.Valid() && p.def == MonitorReqDef && p.state <= MONITOR_REQ_STATE_ARGUMENT
      && |arguments| < MAX_BUFFER_SIZE && (forall i :: 0 <= i < |arguments| ==> |arguments[i]| <= 255)
      && (p.state == MONITOR_REQ_STATE_ARGUMENT ==>
            arguments != [] && currentArgumentRead == |arguments[|arguments| - 1]| < currentArgumentLength)
    }

    ghost function Model(): MonitorReq
      reads this, p
    {
      MonitorReq(p.state, typ, arguments, currentArgumentLength)
    }

    constructor ()
      ensures Valid() && fresh(p)
      ensures Model() == Start
    {
      p := new Parser(MonitorReqDef);
      typ, arguments, currentArgumentLength, currentArgumentRead := 0, [], 0, 0;
    }

    /** One byte of the last argument; after its last byte the next length comes. */
    method ReadArgument(c: Byte)
      requires Valid() && p.state == MONITOR_REQ_STATE_ARGUMENT
      modifies this, p
      ensures Valid()
      ensures OnEvent(old(Model()), MONITOR_REQ_STATE_ARGUMENT, c) == Go(Model())
    {
      var n := |arguments| - 1;
      if currentArgumentRead < currentArgumentLength {
        arguments := arguments[n := arguments[n] + [c]];
        currentArgumentRead := currentArgumentRead + 1;
      }
      if currentArgumentRead == currentArgumentLength {
        p.SetState(MONITOR_REQ_STATE_ARGUMENT_LENGTH);
      }
    }

    method MonitorReqRead(recv: Recv, errnoAgain: bool, store: UserStore, am: AuthMethods) returns (r: Result)
      requires Valid() && store.Valid() && am.Valid()
      requires recv.Data? ==> |recv.bytes| == 1
      requires recv.Data? ==> Step(Model(), recv.bytes[0]) != Stop(Overrun)
      modifies this, p, store, store.users, am.accepted
      ensures store.Valid() && am.Valid()
      ensures !recv.Data? ==>
                r == Result(errnoAgain, false) && store.Table() == old(store.Table()) && am.accepted[..] == old(am.accepted[..])
      ensures recv.Data? ==>
                var v := Step(old(Model()), recv.bytes[0]);
                && (Stores(store.Table(), am.accepted[..]), r) == After(v, Stores(old(store.Table()), old(am.accepted[..])))
                && (v.Go? ==> Valid() && Model() == v.state)
    {
      if !recv.Data? {
        return Result(errnoAgain, false);
      }
      TableTransits(p.state, recv.bytes[0]);
      var events := p.Feed(recv.bytes[0]);
      var ev := events[0];
      r := Result(true, false);
      if ev.typ == MONITOR_REQ_STATE_TYPE {
        typ := ev.data[0];
      } else if ev.typ == MONITOR_REQ_STATE_ARGUMENT_LENGTH {
        if ev.data[0] == 0 {
          if !Accepts(typ, |arguments|) {
            return Result(false, false);
          }
          var ok := HandleRequestOn(typ, arguments, store, am);
          return Result(ok, ok);
        }
        currentArgumentLength := ev.data[0];
        currentArgumentRead := 0;
        arguments := arguments + [[]];
      } else {
        ReadArgument(ev.data[0]);
      }
    }
  }
}
