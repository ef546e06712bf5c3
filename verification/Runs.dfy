/** Runs of a state machine, and the induction principle behind every "on every run" theorem here. */
module Runs {

  /** The state after the operations `ops`, one after the other, from s. */
  function Run<S, Op>(step: (S, Op) -> S, s: S, ops: seq<Op>): S
    decreases ops
  {
    if ops == [] then s else Run(step, step(s, ops[0]), ops[1..])
  }

  /** Every operation is allowed in the state it meets. */
  predicate Admitted<S, Op>(step: (S, Op) -> S, allowed: (S, Op) -> bool, s: S, ops: seq<Op>)
    decreases ops
  {
    ops != [] ==> allowed(s, ops[0]) && Admitted(step, allowed, step(s, ops[0]), ops[1..])
  }

  /** What holds initially and survives every allowed operation holds after every admitted run. */
  lemma {:induction false} Invariant<S(!new), Op(!new)>(
      step: (S, Op) -> S, allowed: (S, Op) -> bool, inv: S -> bool, s: S, ops: seq<Op>)
    requires inv(s) && Admitted(step, allowed, s, ops)
    requires forall t, op :: inv(t) && allowed(t, op) ==> inv(step(t, op))
    ensures inv(Run(step, s, ops))
    decreases ops
  {
    if ops != [] { Invariant(step, allowed, inv, step(s, ops[0]), ops[1..]); }
  }

  /** The same when every operation is allowed. */
  lemma {:induction false} AlwaysInvariant<S(!new), Op(!new)>(
      step: (S, Op) -> S, inv: S -> bool, s: S, ops: seq<Op>)
    requires inv(s)
    requires forall t, op :: inv(t) ==> inv(step(t, op))
    ensures inv(Run(step, s, ops))
    decreases ops
  {
    if ops != [] { AlwaysInvariant(step, inv, step(s, ops[0]), ops[1..]); }
  }

  /** One run after another. */
  lemma {:induction false} RunsJoin<S, Op>(
      step: (S, Op) -> S, allowed: (S, Op) -> bool, s: S, first: seq<Op>, second: seq<Op>)
    requires Admitted(step, allowed, s, first) && Admitted(step, allowed, Run(step, s, first), second)
    ensures Admitted(step, allowed, s, first + second)
    ensures Run(step, s, first + second) == Run(step, Run(step, s, first), second)
    decreases first
  {
    if first == [] {
      assert first + second == second;
    } else {
      RunsJoin(step, allowed, step(s, first[0]), first[1..], second);
      assert (first + second)[1..] == first[1..] + second;
    }
  }

  /** A run with one more operation at its start. */
  lemma RunCons<S, Op>(step: (S, Op) -> S, allowed: (S, Op) -> bool, s: S, op: Op, rest: seq<Op>)
    ensures Run(step, s, [op] + rest) == Run(step, step(s, op), rest)
    ensures allowed(s, op) && Admitted(step, allowed, step(s, op), rest) ==> Admitted(step, allowed, s, [op] + rest)
  {
    assert ([op] + rest)[1..] == rest;
  }

  /** Operations chosen one by one lead from stage m to stage n. */
  lemma {:induction false} Stages<S(!new), Op(!new)>(
      step: (S, Op) -> S, allowed: (S, Op) -> bool, stage: (S, nat) -> bool, choose: (S, nat) -> Op,
      s: S, m: nat, n: nat) returns (ops: seq<Op>)
    requires stage(s, m) && m <= n
    requires forall t, i: nat :: i < n && stage(t, i) ==>
               allowed(t, choose(t, i)) && stage(step(t, choose(t, i)), i + 1)
    ensures Admitted(step, allowed, s, ops) && stage(Run(step, s, ops), n)
    decreases n - m
  {
    if m < n {
      var op := choose(s, m);
      var rest := Stages(step, allowed, stage, choose, step(s, op), m + 1, n);
      ops := [op] + rest;
      RunCons(step, allowed, s, op, rest);
    } else {
      ops := [];
    }
  }

  /** What is allowed under a stricter rule is allowed under a looser one. */
  lemma {:induction false} Loosen<S(!new), Op(!new)>(
      step: (S, Op) -> S, strict: (S, Op) -> bool, loose: (S, Op) -> bool, s: S, ops: seq<Op>)
    requires Admitted(step, strict, s, ops) && forall t, op :: strict(t, op) ==> loose(t, op)
    ensures Admitted(step, loose, s, ops)
    decreases ops
  {
    if ops != [] { Loosen(step, strict, loose, step(s, ops[0]), ops[1..]); }
  }

  /** A run spelled out. */
  lemma RunOfThree<S, Op>(step: (S, Op) -> S, s: S, a: Op, b: Op, c: Op)
    ensures Run(step, s, [a, b, c]) == step(step(step(s, a), b), c)
  {
    assert [a, b, c][1..] == [b, c] && [b, c][1..] == [c];
    assert Run(step, step(step(s, a), b), [c]) == step(step(step(s, a), b), c);
  }

  /** The same with what has to be allowed. */
  lemma RunOfFour<S, Op>(step: (S, Op) -> S, allowed: (S, Op) -> bool, s: S, a: Op, b: Op, c: Op, d: Op)
    requires allowed(s, a) && allowed(step(s, a), b) && allowed(step(step(s, a), b), c)
    requires allowed(step(step(step(s, a), b), c), d)
    ensures Admitted(step, allowed, s, [a, b, c, d])
    ensures Run(step, s, [a, b, c, d]) == step(step(step(step(s, a), b), c), d)
  {
    var t := step(s, a);
    assert [a, b, c, d][1..] == [b, c, d] && [b, c, d][1..] == [c, d] && [c, d][1..] == [d];
    RunOfThree(step, t, b, c, d);
    assert Admitted(step, allowed, step(step(t, b), c), [d]);
    assert Admitted(step, allowed, step(t, b), [c, d]);
    assert Admitted(step, allowed, t, [b, c, d]);
  }

  // ---- The largest value of a counter over a run ----------------------------------------------

  /** A state, and the largest value that a counter has had in the run so far. */
  datatype Observed<S> = Observed(s: S, largest: nat)

  /** The account after a step to state t, in which the counter has this value. */
  function Observe<S>(o: Observed<S>, t: S, value: nat): Observed<S> {
    Observed(t, if value > o.largest then value else o.largest)
  }
}
