/** Runs of an incremental parser: a step function fed one byte after another until it decides. */
module Feeding {
  import opened Bytes

  /** What one byte does to a parser: it keeps reading in a new state, or it decides. */
  datatype Verdict<+S, +O> = Go(state: S) | Stop(outcome: O)

  /** What a run did: still reading, or an outcome together with the position after the byte that settled it. */
  datatype Fed<+S, +O> = More(state: S) | Done(outcome: O, used: nat) {
    /** The same result when `n` more bytes were read before the run began. */
    function After(n: nat): Fed<S, O> {
      match this
      case More(s) => More(s)
      case Done(o, used) => Done(o, used + n)
    }

    /** What was decided and on which byte, if anything was. */
    function Decision(): Option<(O, nat)> {
      match this
      case More(_) => None
      case Done(o, used) => Some((o, used))
    }
  }

  /** Feeds `b` from position `i` on, up to the byte that decides. */
  function Run<S, O>(step: (S, Byte) -> Verdict<S, O>, s: S, b: seq<Byte>, i: nat := 0): Fed<S, O>
    decreases |b| - i
  {
    if i >= |b| then More(s)
    else
      match step(s, b[i])
      case Stop(o) => Done(o, i + 1)
      case Go(s') => Run(step, s', b, i + 1)
  }

  /** A run over a concatenation begins with the run over its first part. */
  lemma {:induction false} RunFirstPart<S, O>(step: (S, Byte) -> Verdict<S, O>, s: S, a: seq<Byte>, b: seq<Byte>, i: nat)
    requires i <= |a|
    ensures var first := Run(step, s, a, i);
            Run(step, s, a + b, i) == if first.Done? then first else Run(step, first.state, a + b, |a|)
    decreases |a| - i
  {
    if i < |a| {
      assert (a + b)[i] == a[i];
      if step(s, a[i]).Go? {
        RunFirstPart(step, step(s, a[i]).state, a, b, i + 1);
      }
    }
  }

  /** A run that is still reading at position `j` goes on from there. */
  lemma {:induction false} RunPast<S, O>(step: (S, Byte) -> Verdict<S, O>, s: S, b: seq<Byte>, i: nat, j: nat)
    requires i <= j <= |b|
    ensures var first := Run(step, s, b[..j], i);
            Run(step, s, b, i) == if first.Done? then first else Run(step, first.state, b, j)
  {
    RunFirstPart(step, s, b[..j], b[j..], i);
    assert b[..j] + b[j..] == b;
  }

  /** And goes on like a run over the second. */
  lemma {:induction false} RunSecondPart<S, O>(step: (S, Byte) -> Verdict<S, O>, s: S, a: seq<Byte>, b: seq<Byte>, i: nat)
    requires i <= |b|
    ensures Run(step, s, a + b, |a| + i) == Run(step, s, b, i).After(|a|)
    decreases |b| - i
  {
    if i < |b| {
      assert (a + b)[|a| + i] == b[i];
      if step(s, b[i]).Go? {
        RunSecondPart(step, step(s, b[i]).state, a, b, i + 1);
      }
    }
  }

  /** A run over a concatenation is the run over its second part from where the first part left off. */
  lemma {:induction false} RunConcat<S, O>(step: (S, Byte) -> Verdict<S, O>, s: S, a: seq<Byte>, b: seq<Byte>)
    ensures var first := Run(step, s, a);
            Run(step, s, a + b) == if first.Done? then first else Run(step, first.state, b).After(|a|)
  {
    RunFirstPart(step, s, a, b, 0);
    var first := Run(step, s, a);
    if first.More? {
      RunSecondPart(step, first.state, a, b, 0);
    }
  }
}
