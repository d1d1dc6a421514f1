/** src/lib/stm/stm.c: the engine that runs a table of states on the events of the selector. */
module Stm {
  import opened Bytes

  /** One row: the state it is for, and which of its callbacks are set. */
  datatype Row = Row(state: nat, onArrival: bool, onDeparture: bool, onReadReady: bool, onWriteReady: bool)

  datatype Machine = Machine(states: seq<Row>, initial: nat, maxState: nat) {
    /** What `stm_init` checks. */
    ghost predicate Valid() {
      && |states| == maxState + 1 && initial < maxState
      && forall i :: 0 <= i <= maxState ==> states[i].state == i
    }
  }

  /** A callback that was made. */
  datatype Callback = Arrival(state: nat) | Departure(state: nat) | ReadReady(state: nat) | WriteReady(state: nat)

  /** The state the first event finds the machine in. */
  function First(m: Machine, current: Option<nat>): nat {
    if current == None then m.initial else current.value
  }

  /** The callbacks before the first event of a machine. */
  function FirstCallbacks(m: Machine, current: Option<nat>): seq<Callback>
    requires m.Valid()
  {
    if current == None && m.states[m.initial].onArrival then [Arrival(m.initial)] else []
  }

  /** The callbacks of a move from `st` to `next`. */
  function JumpCallbacks(m: Machine, st: nat, next: nat): seq<Callback>
    requires m.Valid() && st <= m.maxState && next <= m.maxState
  {
    if st == next then []
    else
      var departure := if m.states[st].onDeparture then [Departure(st)] else [];
      departure + if m.states[next].onArrival then [Arrival(next)] else []
  }

  /** The row has a handler for the event. */
  predicate Handles(m: Machine, st: nat, read: bool)
    requires st < |m.states|
  {
    if read then m.states[st].onReadReady else m.states[st].onWriteReady
  }

  /** The callbacks of one event whose handler returns `ret`: first arrival, the handler, the move. */
  function EventCallbacks(m: Machine, current: Option<nat>, read: bool, ret: nat): seq<Callback>
    requires m.Valid() && First(m, current) <= m.maxState && ret <= m.maxState
  {
    var st := First(m, current);
    FirstCallbacks(m, current) + [if read then ReadReady(st) else WriteReady(st)] + JumpCallbacks(m, st, ret)
  }

  class StateMachine {
    const m: Machine
    var current: Option<nat>
    ghost var log: seq<Callback>

    ghost predicate Valid()
      reads this
    {
      m.Valid() && (current.Some? ==> current.value <= m.maxState)
    }

    constructor (m: Machine)
      ensures this.m == m && current == None && log == []
    {
      this.m, current, log := m, None, [];
    }

    /** Checks the table; an unfit one aborts the program. */
    method Init() returns (aborted: bool)
      requires |m.states| == m.maxState + 1
      modifies this
      ensures aborted <==> !m.Valid()
      ensures !aborted ==> Valid() && current == None
      ensures log == old(log)
    {
      for i := 0 to m.maxState + 1
        invariant forall k :: 0 <= k < i ==> m.states[k].state == k
        invariant log == old(log)
      {
        if i != m.states[i].state {
          return true;
        }
      }
      if m.initial < m.maxState {
        current := None;
        aborted := false;
      } else {
        aborted := true;
      }
    }

    method HandleFirst()
      requires Valid()
      modifies this
      ensures Valid() && current == Some(First(m, old(current)))
      ensures log == old(log) + FirstCallbacks(m, old(current))
    {
      if current == None {
        current := Some(m.initial);
        if m.states[m.initial].onArrival {
          log := log + [Arrival(m.initial)];
        }
      }
    }

    /** Moves to the next state; one beyond the table aborts the program. */
    method Jump(next: nat) returns (aborted: bool)
      requires Valid() && current.Some?
      modifies this
      ensures aborted <==> next > m.maxState
      ensures !aborted ==> Valid() && current == Some(next)
                           && log == old(log) + JumpCallbacks(m, old(current).value, next)
    {
      if next > m.maxState {
        return true;
      }
      ghost var was := log;
      if current.value != next {
        if m.states[current.value].onDeparture {
          log := log + [Departure(current.value)];
        }
        current := Some(next);
        if m.states[next].onArrival {
          log := log + [Arrival(next)];
        }
      }
      aborted := false;
    }

    /** `stm_handler_read` and `stm_handler_write`: `ret` is the state the handler of the row returns. */
    method Handler(read: bool, ret: nat) returns (aborted: bool)
      requires Valid()
      modifies this
      ensures var st := First(m, old(current));
              aborted <==> !Handles(m, st, read) || ret > m.maxState
      ensures !aborted ==> Valid() && current == Some(ret) && log == old(log) + EventCallbacks(m, old(current), read, ret)
    {
      HandleFirst();
      var row := m.states[current.value];
      if (read && !row.onReadReady) || (!read && !row.onWriteReady) {
        return true;
      }
      log := log + [if read then ReadReady(current.value) else WriteReady(current.value)];
      aborted := Jump(ret);
    }

    /** `stm_handler_close`: the current state is left for good. */
    method HandlerClose()
      requires Valid()
      modifies this
      ensures Valid() && current == old(current)
      ensures log == old(log) + if current.Some? && m.states[current.value].onDeparture then [Departure(current.value)] else []
    {
      if current.Some? && m.states[current.value].onDeparture {
        log := log + [Departure(current.value)];
      }
    }
  }
}
