/** Shared vocabulary of the sequential behaviour-tree nodes: optional delegates,
    the outcome of a node, and the two short-circuit folds (Selector and
    Sequencer) that both node libraries implement. */
module Slots {

  /** A delegate parameter: `None` is a null argument, `Some(b)` a unit whose
      awaited result is `b`. */
  datatype Option<T> = None | Some(value: T)

  /** The n-ary nodes take the eight delegate parameters f1..f8; slot k is f(k+1). */
  const Arity: nat := 8

  /** What a sequential node produces: its boolean result and the slots whose
      units it invoked, in invocation order. */
  datatype Run = Run(result: bool, invoked: seq<nat>)

  /** Slot indices strictly increase along an invocation trace: every slot is
      invoked at most once, and left to right. */
  predicate Increasing(s: seq<nat>)
  {
    forall a, b :: 0 <= a < b < |s| ==> s[a] < s[b]
  }

  /** Putting a smaller slot in front keeps a trace increasing. */
  lemma PrependIncreasing(i: nat, rest: seq<nat>)
    requires Increasing(rest)
    requires forall j :: j in rest ==> i < j
    ensures Increasing([i] + rest)
  {
    var s := [i] + rest;
    forall a, b | 0 <= a < b < |s|
      ensures s[a] < s[b]
    {
      if a == 0 {
        assert s[b] == rest[b - 1];
        assert rest[b - 1] in rest;
      } else {
        assert s[a] == rest[a - 1] && s[b] == rest[b - 1];
      }
    }
  }

  /** No slot in [lo, hi) holds a unit that succeeds. */
  predicate NoSuccessIn(units: seq<Option<bool>>, lo: nat, hi: nat)
    requires lo <= hi <= |units|
  {
    forall k :: lo <= k < hi ==> units[k] != Some(true)
  }

  /** Every slot in [lo, hi) holds a unit that succeeds. */
  predicate AllSuccessIn(units: seq<Option<bool>>, lo: nat, hi: nat)
    requires lo <= hi <= |units|
  {
    forall k :: lo <= k < hi ==> units[k] == Some(true)
  }

  /** Selector from slot i on: absent slots are skipped as failures, the first
      unit that succeeds ends the fold with `true`. */
  function Select(units: seq<Option<bool>>, i: nat): Run
    requires i <= |units|
    decreases |units| - i
  {
    if i == |units| then Run(false, [])
    else match units[i]
      case None => Select(units, i + 1)
      case Some(b) =>
        if b then Run(true, [i])
        else var rest := Select(units, i + 1); Run(rest.result, [i] + rest.invoked)
  }

  /** Sequencer from slot i on: the first absent slot or failing unit ends the
      fold with `false`. */
  function Sequence(units: seq<Option<bool>>, i: nat): Run
    requires i <= |units|
    decreases |units| - i
  {
    if i == |units| then Run(true, [])
    else match units[i]
      case None => Run(false, [])
      case Some(b) =>
        if !b then Run(false, [i])
        else var rest := Sequence(units, i + 1); Run(rest.result, [i] + rest.invoked)
  }

  /** Selector succeeds exactly when some slot from i on holds a succeeding unit. */
  lemma {:induction false} SelectResult(units: seq<Option<bool>>, i: nat)
    requires i <= |units|
    ensures Select(units, i).result <==> exists j :: i <= j < |units| && units[j] == Some(true)
    decreases |units| - i
  {
    if i < |units| {
      SelectResult(units, i + 1);
    }
  }

  /** Selector invokes, in order and once each, exactly the present slots from i
      that are not preceded by a success; so nothing after the first success. */
  lemma {:induction false} SelectInvoked(units: seq<Option<bool>>, i: nat)
    requires i <= |units|
    ensures Increasing(Select(units, i).invoked)
    ensures forall j :: j in Select(units, i).invoked <==>
      i <= j < |units| && units[j].Some? && NoSuccessIn(units, i, j)
    decreases |units| - i
  {
    if i < |units| {
      SelectInvoked(units, i + 1);
      var rest := Select(units, i + 1).invoked;
      assert forall j :: j in rest ==> i < j;
      forall j | i < j <= |units|
        ensures NoSuccessIn(units, i, j) <==> units[i] != Some(true) && NoSuccessIn(units, i + 1, j)
      {
      }
      if units[i] == Some(false) {
        PrependIncreasing(i, rest);
      }
    }
  }

  /** Sequencer succeeds exactly when every slot from i on holds a succeeding
      unit; an absent slot makes it fail. */
  lemma {:induction false} SequenceResult(units: seq<Option<bool>>, i: nat)
    requires i <= |units|
    ensures Sequence(units, i).result <==> AllSuccessIn(units, i, |units|)
    decreases |units| - i
  {
    if i < |units| {
      SequenceResult(units, i + 1);
    }
  }

  /** Sequencer invokes, in order and once each, exactly the present slots from i
      all of whose predecessors succeeded; so nothing after the first absent
      slot or failure. */
  lemma {:induction false} SequenceInvoked(units: seq<Option<bool>>, i: nat)
    requires i <= |units|
    ensures Increasing(Sequence(units, i).invoked)
    ensures forall j :: j in Sequence(units, i).invoked <==>
      i <= j < |units| && units[j].Some? && AllSuccessIn(units, i, j)
    decreases |units| - i
  {
    if i < |units| {
      SequenceInvoked(units, i + 1);
      var rest := Sequence(units, i + 1).invoked;
      assert forall j :: j in rest ==> i < j;
      forall j | i < j <= |units|
        ensures AllSuccessIn(units, i, j) <==> units[i] == Some(true) && AllSuccessIn(units, i + 1, j)
      {
      }
      if units[i] == Some(true) {
        PrependIncreasing(i, rest);
      }
    }
  }

  /** The slots a step `f is not null && await f(board)` at slot k invokes. */
  function Touched(u: Option<bool>, k: nat): seq<nat>
  {
    if u.Some? then [k] else []
  }

  /** A node that has already invoked `prefix` and continues with `rest`. */
  function After(prefix: seq<nat>, rest: Run): Run
  {
    Run(rest.result, prefix + rest.invoked)
  }

  /** One Selector step at slot k: a success decides the node, otherwise the fold
      continues at k + 1 with k recorded if it was invoked. */
  lemma SelectAdvance(units: seq<Option<bool>>, k: nat, invoked: seq<nat>, s: bool, invoked': seq<nat>)
    requires k < |units|
    requires Select(units, 0) == After(invoked, Select(units, k))
    requires s == (units[k] == Some(true))
    requires invoked' == invoked + Touched(units[k], k)
    ensures s ==> Select(units, 0) == Run(true, invoked')
    ensures !s ==> Select(units, 0) == After(invoked', Select(units, k + 1))
  {
  }

  /** One Sequencer step at slot k: an absent slot or a failure decides the node,
      otherwise the fold continues at k + 1 with k recorded. */
  lemma SequenceAdvance(units: seq<Option<bool>>, k: nat, invoked: seq<nat>, s: bool, invoked': seq<nat>)
    requires k < |units|
    requires Sequence(units, 0) == After(invoked, Sequence(units, k))
    requires s == (units[k] == Some(true))
    requires invoked' == invoked + Touched(units[k], k)
    ensures !s ==> Sequence(units, 0) == Run(false, invoked')
    ensures s ==> Sequence(units, 0) == After(invoked', Sequence(units, k + 1))
  {
  }

  /** One unrolled step `s = f is not null && await f(board)`: an absent unit is
      a failure and is not invoked. */
  method Attempt(units: seq<Option<bool>>, i: nat, invoked: seq<nat>) returns (s: bool, invoked': seq<nat>)
    requires i < |units|
    ensures s == (units[i] == Some(true))
    ensures invoked' == invoked + Touched(units[i], i)
  {
    match units[i]
    case None =>
      s, invoked' := false, invoked;
    case Some(b) =>
      s, invoked' := b, invoked + [i];
  }
}
