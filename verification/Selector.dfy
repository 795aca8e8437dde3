/** The bus-ownership selector of hw/fsm_selector.v: a two-stage synchroniser, a state register and a
    registered output, all on the fast clock. */
module Selector {

  datatype Regs = Regs(fast1: bool, fast2: bool, slow1: bool, slow2: bool, state: bv2, q: bool)

  /** The two ownership lines sampled at one edge. */
  datatype Input = Input(fast: bool, slow: bool)

  const S0: bv2 := 0
  const S1: bv2 := 1
  const S2: bv2 := 2
  const S3: bv2 := 3

  const AFTER_RESET := Regs(false, false, false, false, S0, true)

  /** The combinational next-state table. */
  function NextState(fast: bool, slow: bool): bv2
  {
    if !fast && !slow then S0
    else if !fast then S2
    else if !slow then S1
    else S3
  }

  /** The output table: low, the Child owns the bus, in S2 only. */
  function OutputOf(state: bv2): bool
  {
    match state case 2 => false case _ => true
  }

  function Tick(r: Regs, i: Input): Regs
  {
    Regs(i.fast, r.fast1, i.slow, r.slow1, NextState(r.fast2, r.slow2), OutputOf(r.state))
  }

  function Run(r: Regs, inputs: seq<Input>): Regs
  {
    if inputs == [] then r else Tick(Run(r, inputs[..|inputs| - 1]), inputs[|inputs| - 1])
  }

  /** Does the Child own the bus for these lines? */
  predicate ChildOwns(i: Input) { !i.fast && i.slow }

  lemma TableIsOwnership(fast: bool, slow: bool)
    ensures OutputOf(NextState(fast, slow)) <==> !ChildOwns(Input(fast, slow))
  {
  }

  /** Selector over all runs: after reset Q is high until four edges have passed, and from then on it
      is the ownership table applied to the lines sampled exactly three edges before the last one. */
  lemma {:induction false} OutputIsDelayedOwnership(inputs: seq<Input>)
    ensures var r, n := Run(AFTER_RESET, inputs), |inputs|;
            && (n >= 1 ==> r.fast1 == inputs[n - 1].fast && r.slow1 == inputs[n - 1].slow)
            && (n >= 2 ==> r.fast2 == inputs[n - 2].fast && r.slow2 == inputs[n - 2].slow)
            && (n <= 1 ==> !r.fast2 && !r.slow2)
            && OutputOf(r.state) == !(n >= 3 && ChildOwns(inputs[n - 3]))
            && r.q == !(n >= 4 && ChildOwns(inputs[n - 4]))
  {
    if inputs != [] {
      var n := |inputs|;
      var before := inputs[..n - 1];
      OutputIsDelayedOwnership(before);
      var r := Run(AFTER_RESET, before);
      TableIsOwnership(r.fast2, r.slow2);
      assert n >= 3 ==> before[n - 3] == inputs[n - 3];
      assert n >= 4 ==> before[n - 4] == inputs[n - 4];
    }
  }

  lemma OutputOfRun(inputs: seq<Input>)
    ensures Run(AFTER_RESET, inputs).q == !(|inputs| >= 4 && ChildOwns(inputs[|inputs| - 4]))
  {
    OutputIsDelayedOwnership(inputs);
  }

  /** The selector as its clocked registers. */
  class SelectorModule {
    var fast1: bool
    var fast2: bool
    var slow1: bool
    var slow2: bool
    var state: bv2
    var q: bool

    function View(): Regs
      reads this
    {
      Regs(fast1, fast2, slow1, slow2, state, q)
    }

    constructor (powerUp: Regs)
      ensures View() == powerUp
    {
      fast1, fast2, slow1, slow2 := powerUp.fast1, powerUp.fast2, powerUp.slow1, powerUp.slow2;
      state, q := powerUp.state, powerUp.q;
    }

    method AssertReset()
      modifies this
      ensures View() == AFTER_RESET
    {
      fast1, fast2, slow1, slow2 := false, false, false, false;
      state := S0;
      q := true;
    }

    method Clock(i: Input)
      modifies this
      ensures View() == Tick(old(View()), i)
    {
      var next := NextState(fast2, slow2);
      var q' := true;
      if state == S2 {
        q' := false;
      }
      fast1, fast2, slow1, slow2, state, q := i.fast, fast1, i.slow, slow1, next, q';
    }
  }
}
