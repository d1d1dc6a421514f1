/** src/lib/parser/parser_utils.c: the automaton that compares its input with a string ignoring case. */
module Strcmpi {
  import opened Bytes
  import opened ParserEngine

  const STRING_CMP_MAYEQ: nat := 0
  const STRING_CMP_EQ: nat := 1
  const STRING_CMP_NEQ: nat := 2

  const MayEq := Action(STRING_CMP_MAYEQ, true)
  const Eq := Action(STRING_CMP_EQ, true)
  const Neq := Action(STRING_CMP_NEQ, true)

  /** A C string of ASCII characters. */
  predicate Ascii(s: seq<Byte>) {
    forall i :: 0 <= i < |s| ==> 1 <= s[i] < 128
  }

  function ToLower(c: Byte): Byte {
    if 'A' as int <= c <= 'Z' as int then c + 32 else c
  }

  function ToUpper(c: Byte): Byte {
    if 'a' as int <= c <= 'z' as int then c - 32 else c
  }

  predicate EqualIgnoringCase(t: seq<Byte>, s: seq<Byte>) {
    |t| == |s| && forall i :: 0 <= i < |t| ==> ToLower(t[i]) == ToLower(s[i])
  }

  predicate PrefixIgnoringCase(t: seq<Byte>, s: seq<Byte>) {
    |t| <= |s| && EqualIgnoringCase(t, s[..|t|])
  }

  /** The row of state `i`: a character of `s` in either case, the full match at |s|, the sink at |s| + 1. */
  function Row(s: seq<Byte>, i: nat): seq<Transition> {
    var sink := Transition(ANY, |s| + 1, Neq, None);
    if i < |s| then
      var hit := if i + 1 == |s| then Eq else MayEq;
      [Transition(ToLower(s[i]), i + 1, hit, None), Transition(ToUpper(s[i]), i + 1, hit, None), sink]
    else
      [sink]
  }

  function Automaton(s: seq<Byte>): (def: Definition)
    ensures def.Valid()
  {
    Definition(seq(|s| + 2, i requires 0 <= i => Row(s, i)), 0)
  }

  /** The rows an engine sees through the start and the length of each row in a flat table. */
  function Slices(flat: seq<Transition>, starts: seq<nat>, counts: seq<nat>): seq<seq<Transition>>
    requires |starts| == |counts|
    requires forall k :: 0 <= k < |starts| ==> starts[k] + counts[k] <= |flat|
  {
    seq(|starts|, k requires 0 <= k < |starts| => flat[starts[k]..starts[k] + counts[k]])
  }

  /** Fills the row of one character of `s`. */
  method WriteCharRow(s: seq<Byte>, i: nat, transitions: array<Transition>, states: array<nat>, nstates: array<nat>)
    requires i < |s| && transitions.Length == 3 * (|s| + 2) && states.Length == nstates.Length == |s| + 2
    requires states != nstates
    modifies transitions, states, nstates
    ensures transitions[..] == old(transitions[..3 * i]) + Row(s, i) + old(transitions[3 * i + 3..])
    ensures states[..] == old(states[..])[i := 3 * i] && nstates[..] == old(nstates[..])[i := 3]
  {
    var dest := if i + 1 == |s| then |s| else i + 1;
    var hit := if i + 1 == |s| then Eq else MayEq;
    transitions[i * 3 + 0] := Transition(ToLower(s[i]), dest, hit, None);
    transitions[i * 3 + 1] := Transition(ToUpper(s[i]), dest, hit, None);
    transitions[i * 3 + 2] := Transition(ANY, |s| + 1, Neq, None);
    states[i] := i * 3 + 0;
    nstates[i] := 3;
  }

  /** Fills the row of one of the last two states, which send every byte to the sink. */
  method WriteSinkRow(s: seq<Byte>, i: nat, transitions: array<Transition>, states: array<nat>, nstates: array<nat>)
    requires |s| <= i < |s| + 2
    requires transitions.Length == 3 * (|s| + 2) && states.Length == nstates.Length == |s| + 2
    requires states != nstates
    modifies transitions, states, nstates
    ensures transitions[..] == old(transitions[..])[3 * i := Row(s, i)[0]]
    ensures states[..] == old(states[..])[i := 3 * i] && nstates[..] == old(nstates[..])[i := 1]
  {
    transitions[i * 3] := Transition(ANY, |s| + 1, Neq, None);
    states[i] := i * 3 + 0;
    nstates[i] := 1;
  }

  /** Builds the automaton in three flat arrays: transitions, and the start and length of the row of each state. */
  method ParserUtilsStrcmpi(s: seq<Byte>) returns (def: Definition)
    requires Ascii(s)
    ensures def == Automaton(s)
  {
    var n := |s|;
    var transitions := new Transition[3 * (n + 2)];
    var states := new nat[n + 2];
    var nstates := new nat[n + 2];

    for i := 0 to n
      invariant forall k :: 0 <= k < i ==> states[..][k] == 3 * k && nstates[..][k] == 3
      invariant forall k :: 0 <= k < i ==> RowAt(s, transitions[..], k)
    {
      ghost var before := transitions[..];
      WriteCharRow(s, i, transitions, states, nstates);
      RowsKept(s, before, transitions[..], i);
    }
    ghost var before := transitions[..];
    WriteSinkRow(s, n, transitions, states, nstates);
    WriteSinkRow(s, n + 1, transitions, states, nstates);

    RowsKept(s, before, transitions[..], n);
    SlicesAreRows(s, transitions[..], states[..], nstates[..]);
    def := Definition(Slices(transitions[..], states[..], nstates[..]), 0);
  }

  /** The three cells of row `k` in the flat table. */
  ghost predicate RowAt(s: seq<Byte>, flat: seq<Transition>, k: nat)
    requires k < |s| && |flat| == 3 * (|s| + 2)
  {
    flat[3 * k..3 * k + 3] == Row(s, k)
  }

  lemma RowsKept(s: seq<Byte>, before: seq<Transition>, after: seq<Transition>, n: nat)
    requires n <= |s| && |before| == |after| == 3 * (|s| + 2)
    requires before[..3 * n] == after[..3 * n]
    requires forall k :: 0 <= k < n ==> RowAt(s, before, k)
    ensures forall k :: 0 <= k < n ==> RowAt(s, after, k)
  {
    forall k | 0 <= k < n
      ensures RowAt(s, after, k)
    {
      assert RowAt(s, before, k);
      forall j | 3 * k <= j < 3 * k + 3
        ensures before[j] == after[j]
      {
        assert before[..3 * n][j] == after[..3 * n][j];
      }
    }
  }

  lemma SlicesAreRows(s: seq<Byte>, flat: seq<Transition>, starts: seq<nat>, counts: seq<nat>)
    requires |starts| == |counts| == |s| + 2 && |flat| == 3 * (|s| + 2)
    requires forall k :: 0 <= k < |s| + 2 ==> starts[k] == 3 * k && counts[k] == if k < |s| then 3 else 1
    requires forall k :: 0 <= k < |s| ==> RowAt(s, flat, k)
    requires flat[3 * |s|] == flat[3 * (|s| + 1)] == Row(s, |s|)[0]
    ensures Slices(flat, starts, counts) == Automaton(s).states
  {
    forall k | 0 <= k < |s| + 2
      ensures flat[starts[k]..starts[k] + counts[k]] == Row(s, k)
    {
      assert k < |s| ==> RowAt(s, flat, k);
    }
  }

  /** The transition of a row: the character of `s` in either case moves on, anything else goes to the sink. */
  lemma {:induction false} RowStep(s: seq<Byte>, st: nat, c: Byte)
    requires Ascii(s) && st < |s| + 2
    ensures FirstMatch(Row(s, st), c).Some?
    ensures var tr := FirstMatch(Row(s, st), c).value;
            if st < |s| && ToLower(c) == ToLower(s[st])
            then tr.dest == st + 1 && tr.act1 == (if st + 1 == |s| then Eq else MayEq)
            else tr.dest == |s| + 1 && tr.act1 == Neq
  {
    var row := Row(s, st);
    if st < |s| {
      assert row[1..] == [row[1], row[2]];
      assert row[1..][1..] == [row[2]];
      assert ToLower(c) == ToLower(s[st]) <==> c == ToLower(s[st]) || c == ToUpper(s[st]);
      assert FirstMatch([row[2]], c) == Some(row[2]);
      assert FirstMatch(row[1..], c) == if Matches(row[1], c) then Some(row[1]) else Some(row[2]);
    }
  }

  lemma PrefixExtends(s: seq<Byte>, t: seq<Byte>)
    requires t != []
    ensures var n := |t| - 1;
            PrefixIgnoringCase(t, s)
            <==> PrefixIgnoringCase(t[..n], s) && n < |s| && ToLower(t[n]) == ToLower(s[n])
  {
    var n := |t| - 1;
    if PrefixIgnoringCase(t, s) {
      assert s[..|t|][..n] == s[..n];
      forall i | 0 <= i < n
        ensures ToLower(t[..n][i]) == ToLower(s[..n][i])
      {
        assert ToLower(t[i]) == ToLower(s[..|t|][i]);
      }
      assert ToLower(t[n]) == ToLower(s[..|t|][n]);
    }
    if PrefixIgnoringCase(t[..n], s) && n < |s| && ToLower(t[n]) == ToLower(s[n]) {
      forall i | 0 <= i < |t|
        ensures ToLower(t[i]) == ToLower(s[..|t|][i])
      {
        if i < n {
          assert ToLower(t[..n][i]) == ToLower(s[..n][i]);
        }
      }
    }
  }

  lemma {:induction false} StateTellsPrefix(s: seq<Byte>, t: seq<Byte>)
    requires Ascii(s)
    ensures StateAfter(Automaton(s), t) == if PrefixIgnoringCase(t, s) then |t| else |s| + 1
  {
    if t != [] {
      var init := t[..|t| - 1];
      StateTellsPrefix(s, init);
      PrefixExtends(s, t);
      RowStep(s, StateAfter(Automaton(s), init), t[|t| - 1]);
    }
  }

  /** The last event tells whether the input equals `s`, may still become equal to it, or can no longer. */
  lemma StrcmpiDecides(s: seq<Byte>, t: seq<Byte>)
    requires Ascii(s) && t != []
    ensures var last := LastTransition(Automaton(s), t);
            && last.Some?
            && (last.value.act1 == Eq <==> EqualIgnoringCase(t, s))
            && (last.value.act1 == MayEq <==> PrefixIgnoringCase(t, s) && |t| < |s|)
            && (last.value.act1 == Neq <==> !PrefixIgnoringCase(t, s))
  {
    var init := t[..|t| - 1];
    StateTellsPrefix(s, init);
    PrefixExtends(s, t);
    RowStep(s, StateAfter(Automaton(s), init), t[|t| - 1]);
    assert |t| == |s| ==> s[..|t|] == s;
  }

  /** Once the input differs, every further byte keeps reporting a difference. */
  lemma NeqAbsorbs(s: seq<Byte>, t: seq<Byte>, u: seq<Byte>)
    requires Ascii(s) && t != []
    requires var last := LastTransition(Automaton(s), t); last.Some? && last.value.act1 == Neq
    ensures var last := LastTransition(Automaton(s), t + u); last.Some? && last.value.act1 == Neq
  {
    StrcmpiDecides(s, t);
    StrcmpiDecides(s, t + u);
    PrefixOfPrefix(s, t, u);
  }

  lemma PrefixOfPrefix(s: seq<Byte>, t: seq<Byte>, u: seq<Byte>)
    ensures PrefixIgnoringCase(t + u, s) ==> PrefixIgnoringCase(t, s)
  {
    if PrefixIgnoringCase(t + u, s) {
      assert forall i :: 0 <= i < |t| ==> ToLower(t[i]) == ToLower((t + u)[i]) == ToLower(s[..|t + u|][i]);
    }
  }
}
