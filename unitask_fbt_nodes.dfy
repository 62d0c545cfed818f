/** The behaviour-tree nodes of `Baltin.UnitaskFBT.UnitaskFbtNodes`. A unit is
    modelled by its awaited result; conditions by their value on the board.
    These nodes test the optional delegates against null before invoking them;
    the ones a node invokes unconditionally (Inverter's and If's `func`) must be
    present when they are reached. */
module UnitaskFbtNodes {
  import opened Slots

  /** Inverter: `!await func(board)`; the unit is always invoked. */
  function Inverter(func: Option<bool>): (r: Run)
    requires func.Some?
    ensures r.result == !func.value
    ensures r.invoked == [0]
  {
    Run(!func.value, [0])
  }

  /** If: `condition && await func(board)`; the unit runs only when the
      condition holds. */
  function If(condition: bool, func: Option<bool>): (r: Run)
    requires condition ==> func.Some?
    ensures r.result <==> condition && func == Some(true)
    ensures !condition ==> r.invoked == []
    ensures condition ==> r.invoked == [0]
  {
    if condition then Run(func.value, [0]) else Run(false, [])
  }

  /** Selector over f1..f8: each slot in turn is `f is not null && await f(board)`,
      and the first success returns `true`. */
  method Selector(units: seq<Option<bool>>) returns (s: bool, invoked: seq<nat>)
    requires |units| == Arity
    ensures Run(s, invoked) == Select(units, 0)
    ensures s <==> exists j :: 0 <= j < Arity && units[j] == Some(true)
    ensures Increasing(invoked)
    ensures forall j :: j in invoked <==> 0 <= j < Arity && units[j].Some? && NoSuccessIn(units, 0, j)
  {
    invoked := [];
    assert Select(units, 0) == After(invoked, Select(units, 0));
    var i := 0;
    while i < Arity
      invariant 0 <= i <= Arity
      invariant Select(units, 0) == After(invoked, Select(units, i))
    {
      ghost var before := invoked;
      s, invoked := Attempt(units, i, invoked);
      SelectAdvance(units, i, before, s, invoked);
      if s {
        SelectResult(units, 0);
        SelectInvoked(units, 0);
        return;
      }
      i := i + 1;
    }
    s := false;
    SelectResult(units, 0);
    SelectInvoked(units, 0);
  }

  /** Sequencer over f1..f8: each slot in turn is `f is not null && await f(board)`,
      and the first `false` returns `false`; an absent slot is such a `false`. */
  method Sequencer(units: seq<Option<bool>>) returns (s: bool, invoked: seq<nat>)
    requires |units| == Arity
    ensures Run(s, invoked) == Sequence(units, 0)
    ensures s <==> AllSuccessIn(units, 0, Arity)
    ensures Increasing(invoked)
    ensures forall j :: j in invoked <==> 0 <= j < Arity && units[j].Some? && AllSuccessIn(units, 0, j)
  {
    invoked := [];
    assert Sequence(units, 0) == After(invoked, Sequence(units, 0));
    var i := 0;
    while i < Arity
      invariant 0 <= i <= Arity
      invariant Sequence(units, 0) == After(invoked, Sequence(units, i))
    {
      ghost var before := invoked;
      s, invoked := Attempt(units, i, invoked);
      SequenceAdvance(units, i, before, s, invoked);
      if !s {
        SequenceResult(units, 0);
        SequenceInvoked(units, 0);
        return;
      }
      i := i + 1;
    }
    s := true;
    SequenceResult(units, 0);
    SequenceInvoked(units, 0);
  }

  /** ConditionalInverter: with the condition, the inverted `func` (slot 0);
      without it, the inverted `elseFunc` (slot 1) when there is one, else
      `false` with nothing invoked. */
  function ConditionalInverter(condition: bool, func: Option<bool>, elseFunc: Option<bool>): (r: Run)
    requires condition ==> func.Some?
    ensures condition ==> r.result == !func.value && r.invoked == [0]
    ensures !condition && elseFunc.Some? ==> r.result == !elseFunc.value && r.invoked == [1]
    ensures !condition && elseFunc.None? ==> !r.result && r.invoked == []
  {
    if condition then Inverter(func)
    else if elseFunc.Some? then var e := Inverter(elseFunc); Run(e.result, [1])
    else Run(false, [])
  }

  /** ConditionalSelector: `condition && await Selector(f1, .., f6)`, so f7 and f8
      are absent in the delegated Selector. */
  function ConditionalSelector(condition: bool, units: seq<Option<bool>>): (r: Run)
    requires |units| == 6
    ensures r.result <==> condition && exists j :: 0 <= j < 6 && units[j] == Some(true)
    ensures Increasing(r.invoked)
    ensures forall j :: j in r.invoked <==> condition && 0 <= j < 6 && units[j].Some? && NoSuccessIn(units, 0, j)
  {
    if condition then
      var forwarded := units + [None, None];
      SelectResult(forwarded, 0);
      SelectInvoked(forwarded, 0);
      assert forall j :: 0 <= j < 6 ==> forwarded[j] == units[j];
      Select(forwarded, 0)
    else
      Run(false, [])
  }

  /** IfSequencer: `condition && await Sequencer(f1, .., f6)`. The delegated
      Sequencer sees f7 absent, so the node never succeeds. */
  function IfSequencer(condition: bool, units: seq<Option<bool>>): (r: Run)
    requires |units| == 6
    ensures !r.result
    ensures Increasing(r.invoked)
    ensures forall j :: j in r.invoked <==> condition && 0 <= j < 6 && units[j].Some? && AllSuccessIn(units, 0, j)
  {
    if condition then
      var forwarded := units + [None, None];
      SequenceResult(forwarded, 0);
      SequenceInvoked(forwarded, 0);
      assert forwarded[6] == None;
      assert forall j :: 0 <= j < 6 ==> forwarded[j] == units[j];
      Sequence(forwarded, 0)
    else
      Run(false, [])
  }
}
