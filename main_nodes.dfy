/** The behaviour-tree nodes of the older `Baltin.UFBT.MainNodes`. Unlike
    UnitaskFbtNodes, Selector and Sequencer invoke f1 and f2 without testing
    them against null; a unit that is reached must therefore be present, which
    the preconditions say. f3..f8 are tested as in UnitaskFbtNodes. */
module MainNodes {
  import opened Slots
  import UnitaskFbtNodes

  /** Selector and Sequencer reach f1 always, and f2 unless f1 already decided
      the node: these two must then be present. */
  predicate SelectorCallable(units: seq<Option<bool>>)
    requires |units| >= 2
  {
    units[0].Some? && (!units[0].value ==> units[1].Some?)
  }

  predicate SequencerCallable(units: seq<Option<bool>>)
    requires |units| >= 2
  {
    units[0].Some? && (units[0].value ==> units[1].Some?)
  }

  /** If: `condition(board) && await func(board)`. */
  function If(condition: bool, func: Option<bool>): (r: Run)
    requires condition ==> func.Some?
    ensures r.result <==> condition && func == Some(true)
    ensures r.invoked == if condition then [0] else []
  {
    if condition then Run(func.value, [0]) else Run(false, [])
  }

  /** Selector as eight unrolled steps with early returns; it has the result
      and invocation trace of the null-checking Selector of UnitaskFbtNodes. */
  method Selector(units: seq<Option<bool>>) returns (s: bool, invoked: seq<nat>)
    requires |units| == Arity
    requires SelectorCallable(units)
    ensures Run(s, invoked) == Select(units, 0)
  {
    ghost var before: seq<nat> := [];
    assert Select(units, 0) == After(before, Select(units, 0));
    s := units[0].value; invoked := [0];
    SelectAdvance(units, 0, before, s, invoked);
    if s { return; }
    before := invoked;
    s := units[1].value; invoked := invoked + [1];
    SelectAdvance(units, 1, before, s, invoked);
    if s { return; }
    before := invoked;
    s, invoked := Attempt(units, 2, invoked);
    SelectAdvance(units, 2, before, s, invoked);
    if s { return; }
    before := invoked;
    s, invoked := Attempt(units, 3, invoked);
    SelectAdvance(units, 3, before, s, invoked);
    if s { return; }
    before := invoked;
    s, invoked := Attempt(units, 4, invoked);
    SelectAdvance(units, 4, before, s, invoked);
    if s { return; }
    before := invoked;
    s, invoked := Attempt(units, 5, invoked);
    SelectAdvance(units, 5, before, s, invoked);
    if s { return; }
    before := invoked;
    s, invoked := Attempt(units, 6, invoked);
    SelectAdvance(units, 6, before, s, invoked);
    if s { return; }
    before := invoked;
    s, invoked := Attempt(units, 7, invoked);
    SelectAdvance(units, 7, before, s, invoked);
    if s { return; }
    assert Select(units, Arity) == Run(false, []) && invoked + [] == invoked;
    s := false;
  }

  /** Sequencer as eight unrolled steps with early returns; it has the result
      and invocation trace of the null-checking Sequencer of UnitaskFbtNodes. */
  method Sequencer(units: seq<Option<bool>>) returns (s: bool, invoked: seq<nat>)
    requires |units| == Arity
    requires SequencerCallable(units)
    ensures Run(s, invoked) == Sequence(units, 0)
  {
    ghost var before: seq<nat> := [];
    assert Sequence(units, 0) == After(before, Sequence(units, 0));
    s := units[0].value; invoked := [0];
    SequenceAdvance(units, 0, before, s, invoked);
    if !s { return; }
    before := invoked;
    s := units[1].value; invoked := invoked + [1];
    SequenceAdvance(units, 1, before, s, invoked);
    if !s { return; }
    before := invoked;
    s, invoked := Attempt(units, 2, invoked);
    SequenceAdvance(units, 2, before, s, invoked);
    if !s { return; }
    before := invoked;
    s, invoked := Attempt(units, 3, invoked);
    SequenceAdvance(units, 3, before, s, invoked);
    if !s { return; }
    before := invoked;
    s, invoked := Attempt(units, 4, invoked);
    SequenceAdvance(units, 4, before, s, invoked);
    if !s { return; }
    before := invoked;
    s, invoked := Attempt(units, 5, invoked);
    SequenceAdvance(units, 5, before, s, invoked);
    if !s { return; }
    before := invoked;
    s, invoked := Attempt(units, 6, invoked);
    SequenceAdvance(units, 6, before, s, invoked);
    if !s { return; }
    before := invoked;
    s, invoked := Attempt(units, 7, invoked);
    SequenceAdvance(units, 7, before, s, invoked);
    if !s { return; }
    s := true;
  }

  /** IfSelector: `condition(board) && await Selector(f1, .., f6)`; f7 and f8
      are absent in the delegated Selector. */
  function IfSelector(condition: bool, units: seq<Option<bool>>): (r: Run)
    requires |units| == 6
    requires condition ==> SelectorCallable(units)
    ensures r.result <==> condition && exists j :: 0 <= j < 6 && units[j] == Some(true)
    ensures Increasing(r.invoked)
    ensures forall j :: j in r.invoked <==> condition && 0 <= j < 6 && units[j].Some? && NoSuccessIn(units, 0, j)
  {
    if condition then
      var forwarded := units + [None, None];
      SelectResult(forwarded, 0);
      SelectInvoked(forwarded, 0);
      assert forall j :: 0 <= j < 6 ==> forwarded[j] == units[j];
      Select(forwarded, 0)
    else
      Run(false, [])
  }

  /** IfSequencer: `condition(board) && await Sequencer(f1, .., f6)`. f7 and f8
      are never forwarded, so the delegated Sequencer fails at f7 at the latest
      and the node never succeeds. */
  function IfSequencer(condition: bool, units: seq<Option<bool>>): (r: Run)
    requires |units| == 6
    requires condition ==> SequencerCallable(units)
    ensures !r.result
    ensures Increasing(r.invoked)
    ensures forall j :: j in r.invoked <==> condition && 0 <= j < 6 && units[j].Some? && AllSuccessIn(units, 0, j)
  {
    if condition then
      var forwarded := units + [None, None];
      SequenceResult(forwarded, 0);
      SequenceInvoked(forwarded, 0);
      assert forwarded[6] == None;
      assert forall j :: 0 <= j < 6 ==> forwarded[j] == units[j];
      Sequence(forwarded, 0)
    else
      Run(false, [])
  }

  /** Where the mandatory delegates are present, the expression nodes of this
      library behave exactly as those of UnitaskFbtNodes. (Selector and
      Sequencer are both proved against the same folds `Select` and `Sequence`.) */
  lemma AgreesWithUnitaskFbt(condition: bool, func: Option<bool>, units: seq<Option<bool>>)
    requires |units| == 6
    requires condition ==> func.Some?
    ensures If(condition, func) == UnitaskFbtNodes.If(condition, func)
    ensures (condition ==> SelectorCallable(units)) ==>
      IfSelector(condition, units) == UnitaskFbtNodes.ConditionalSelector(condition, units)
    ensures (condition ==> SequencerCallable(units)) ==>
      IfSequencer(condition, units) == UnitaskFbtNodes.IfSequencer(condition, units)
  {
  }
}
