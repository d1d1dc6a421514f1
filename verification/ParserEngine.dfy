/** src/lib/parser: the table-driven automaton engine. */
module ParserEngine {
  import opened Bytes

  /** The `when` of a transition that every byte satisfies. */
  const ANY: nat := 512

  /** An action writes the type of the event, and either records the byte in it or leaves it without data. */
  datatype Action = Action(typ: nat, takesByte: bool)

  /** An event: its type and the first `n` bytes of its data. */
  datatype Event = Event(typ: nat, data: seq<Byte>)

  datatype Transition = Transition(when: nat, dest: nat, act1: Action, act2: Option<Action>)

  datatype Definition = Definition(states: seq<seq<Transition>>, startState: nat) {
    /** Every state the engine can be left in has a row. */
    ghost predicate Valid() {
      && startState < |states|
      && forall i, j :: 0 <= i < |states| && 0 <= j < |states[i]| ==> states[i][j].dest < |states|
    }
  }

  function Act(a: Action, c: Byte): Event {
    Event(a.typ, if a.takesByte then [c] else [])
  }

  /** Without character classes a `when` above 0xFF other than ANY matches nothing. */
  predicate Matches(t: Transition, c: Byte) {
    c == t.when || t.when == ANY
  }

  /** The transition the engine takes: the first one of the row that matches. */
  function FirstMatch(row: seq<Transition>, c: Byte): (r: Option<Transition>)
    ensures r.Some? ==> r.value in row && Matches(r.value, c)
    ensures r.None? ==> forall t :: t in row ==> !Matches(t, c)
  {
    if row == [] then None
    else if Matches(row[0], c) then Some(row[0])
    else FirstMatch(row[1..], c)
  }

  /** The list of events a transition reports. */
  function Events(t: Transition, c: Byte): seq<Event> {
    [Act(t.act1, c)] + if t.act2.Some? then [Act(t.act2.value, c)] else []
  }

  /** The state a parser of `def` is in after reading `t`. */
  function StateAfter(def: Definition, t: seq<Byte>): (st: nat)
    requires def.Valid()
    ensures st < |def.states|
  {
    if t == [] then def.startState
    else
      var st := StateAfter(def, t[..|t| - 1]);
      match FirstMatch(def.states[st], t[|t| - 1])
      case Some(tr) => tr.dest
      case None => st
  }

  /** The transition taken on the last byte of `t`. */
  function LastTransition(def: Definition, t: seq<Byte>): Option<Transition>
    requires def.Valid() && t != []
  {
    FirstMatch(def.states[StateAfter(def, t[..|t| - 1])], t[|t| - 1])
  }

  lemma {:induction false} FirstMatchSkips(row: seq<Transition>, c: Byte, i: nat)
    requires i <= |row|
    requires forall j :: 0 <= j < i ==> !Matches(row[j], c)
    ensures FirstMatch(row, c) == FirstMatch(row[i..], c)
  {
    if i > 0 {
      assert row[1..][i - 1..] == row[i..];
      FirstMatchSkips(row[1..], c, i - 1);
    }
  }

  class Parser {
    const def: Definition
    var state: nat
    var e1: Event
    var e2: Event

    ghost predicate Valid()
      reads this
    {
      def.Valid() && state < |def.states|
    }

    constructor (def: Definition)
      requires def.Valid()
      ensures Valid() && this.def == def && state == def.startState
    {
      this.def := def;
      state := def.startState;
      e1, e2 := Event(0, []), Event(0, []);
    }

    method Reset()
      requires Valid()
      modifies this
      ensures Valid() && state == def.startState
    {
      state := def.startState;
    }

    method SetState(s: nat)
      requires Valid() && s < |def.states|
      modifies this
      ensures Valid() && state == s
    {
      state := s;
    }

    /** A byte no transition matches reports the previous event again and leaves the state alone. */
    method Feed(c: Byte) returns (events: seq<Event>)
      requires Valid()
      modifies this
      ensures Valid()
      ensures match FirstMatch(def.states[old(state)], c)
              case Some(t) => state == t.dest && events == Events(t, c)
              case None => state == old(state) && events == [old(e1)]
    {
      var row := def.states[state];
      var next := false;
      var i := 0;
      while i < |row|
        invariant 0 <= i <= |row| && !next
        invariant state == old(state) && e1 == old(e1)
        invariant forall j :: 0 <= j < i ==> !Matches(row[j], c)
      {
        var matched;
        if row[i].when <= 0xFF {
          matched := c == row[i].when;
        } else if row[i].when == ANY {
          matched := true;
        } else {
          matched := false;
        }
        if matched {
          FirstMatchSkips(row, c, i);
          e1 := Act(row[i].act1, c);
          if row[i].act2.Some? {
            next := true;
            e2 := Act(row[i].act2.value, c);
          }
          state := row[i].dest;
          break;
        }
        i := i + 1;
      }
      if i == |row| {
        FirstMatchSkips(row, c, i);
      }
      events := if next then [e1, e2] else [e1];
    }
  }

  /** A byte matches a transition for that byte or for any; both actions are reported, in their order. */
  lemma {:induction false} TransitionReports(t: Transition, c: Byte)
    ensures Matches(t, c) <==> t.when == 512 || (t.when <= 0xFF && t.when == c as nat)
    ensures var es := Events(t, c);
            && |es| == (if t.act2.Some? then 2 else 1)
            && es[0].typ == t.act1.typ && es[0].data == (if t.act1.takesByte then [c] else [])
            && (t.act2.Some? ==> es[1].typ == t.act2.value.typ && es[1].data == if t.act2.value.takesByte then [c] else [])
  {
  }
}
