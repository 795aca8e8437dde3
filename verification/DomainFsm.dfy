/** The per-domain state machine of hw/fsm_fast.v and hw/fsm_slow.v. Non-blocking assignment: every
    right-hand side reads the registers as they were before the clock edge. */
module DomainFsm {

  // MXFS_STATUS_*
  const INIT: int := 1
  const READY_0: int := 2
  const READY_1: int := 3
  const VALID: int := 4

  /** Counter threshold and the number of values of the counter register. */
  datatype Kind = Kind(threshold: nat, range: nat)

  const FAST := Kind(100, 0x100)
  const SLOW := Kind(200, 0x1_0000)

  predicate KindOk(kind: Kind)
  {
    0 < kind.threshold && kind.threshold + 1 < kind.range
  }

  datatype Regs = Regs(
    status: int, next: int, counter: nat, inReg: bool, swReg: bool, out0: bool, out1: bool)

  /** One clock's inputs: in_ctrl and bit 0 of debug_status_ingress. */
  datatype Input = Input(inCtrl: bool, sw: bool)

  /** The part of the registers an asserted upl_arst_n clears; the outputs have no reset. */
  function Reset(r: Regs): Regs
  {
    r.(status := INIT, next := INIT, counter := 0, inReg := false, swReg := false)
  }

  function NextOut1(r: Regs): bool
  {
    if r.next == INIT || r.next == READY_0 then false
    else if r.next == READY_1 then true
    else if r.next == VALID then r.inReg
    else r.out1
  }

  /** A clock edge with reset released. */
  function Tick(kind: Kind, r: Regs, i: Input): Regs
    requires KindOk(kind)
  {
    var full := r.counter >= kind.threshold;
    var (next, counter) :=
      if INIT <= r.next <= READY_1 then
        if full then (r.next + 1, 0) else (r.next, (r.counter + 1) % kind.range)
      else if r.next == VALID then (r.next, 0)
      else (r.next, r.counter);
    Regs(r.next, next, counter, i.inCtrl, i.sw, r.swReg, NextOut1(r))
  }

  /** A clock edge while reset is asserted: only the outputs move. */
  function TickInReset(r: Regs): Regs
  {
    Reset(r).(out0 := Reset(r).swReg, out1 := NextOut1(Reset(r)))
  }

  function Run(kind: Kind, r: Regs, inputs: seq<Input>): Regs
    requires KindOk(kind)
  {
    if inputs == [] then r
    else Tick(kind, Run(kind, r, inputs[..|inputs| - 1]), inputs[|inputs| - 1])
  }

  // ----- closed form

  /** __internal_status_next after k clocks: threshold + 1 clocks per stage. */
  function NextAt(kind: Kind, k: nat): int
  {
    var stage := kind.threshold + 1;
    if k < stage then INIT
    else if k < 2 * stage then READY_0
    else if k < 3 * stage then READY_1
    else VALID
  }

  function CounterAt(kind: Kind, k: nat): nat
  {
    var stage := kind.threshold + 1;
    if k < stage then k
    else if k < 2 * stage then k - stage
    else if k < 3 * stage then k - 2 * stage
    else 0
  }

  /** out_ctrl1 after the clocks of `inputs`: low, then high in READY_1, then in_ctrl of the clock before. */
  function Out1At(kind: Kind, inputs: seq<Input>): bool
    requires inputs != []
  {
    var k := |inputs|;
    match NextAt(kind, k - 1)
    case 3 => true
    case 4 => k >= 2 && inputs[k - 2].inCtrl
    case _ => false
  }

  lemma NoWrap(x: nat, range: nat)
    requires x < range
    ensures x % range == x
  {
  }

  /** One clock inside a warm-up stage counts, the last one moves on. */
  lemma WarmUpTick(kind: Kind, r: Regs, i: Input)
    requires KindOk(kind) && INIT <= r.next <= READY_1 && r.counter <= kind.threshold
    ensures Tick(kind, r, i).next == if r.counter == kind.threshold then r.next + 1 else r.next
    ensures Tick(kind, r, i).counter == if r.counter == kind.threshold then 0 else r.counter + 1
  {
    NoWrap(r.counter + 1, kind.range);
  }

  lemma CounterInStage(kind: Kind, k: nat)
    ensures CounterAt(kind, k) <= kind.threshold
    ensures NextAt(kind, k) == VALID || INIT <= NextAt(kind, k) <= READY_1
  {
  }

  /** The closed forms take the same step. */
  lemma ClosedFormStep(kind: Kind, k: nat)
    ensures var next, counter := NextAt(kind, k), CounterAt(kind, k);
            if next == VALID then NextAt(kind, k + 1) == VALID && CounterAt(kind, k + 1) == 0
            else if counter == kind.threshold then NextAt(kind, k + 1) == next + 1 && CounterAt(kind, k + 1) == 0
            else NextAt(kind, k + 1) == next && CounterAt(kind, k + 1) == counter + 1
  {
  }

  /** One clock moves the state and the counter from their values at k to those at k + 1. */
  lemma StageStep(kind: Kind, r: Regs, i: Input, k: nat)
    requires KindOk(kind) && r.next == NextAt(kind, k) && r.counter == CounterAt(kind, k)
    ensures Tick(kind, r, i).next == NextAt(kind, k + 1)
    ensures Tick(kind, r, i).counter == CounterAt(kind, k + 1)
    ensures CounterAt(kind, k) <= kind.threshold
  {
    CounterInStage(kind, k);
    ClosedFormStep(kind, k);
    if r.next != VALID {
      WarmUpTick(kind, r, i);
    }
  }

  /** Closed form of the state: after k clocks out of reset it is a function of k alone, the counter
      never passes its threshold (so it never wraps), and VALID is never left. */
  lemma {:induction false} StateClosedForm(kind: Kind, r: Regs, inputs: seq<Input>)
    requires KindOk(kind)
    ensures var now, k := Run(kind, Reset(r), inputs), |inputs|;
            && now.next == NextAt(kind, k)
            && now.counter == CounterAt(kind, k) <= kind.threshold
            && now.status == (if k == 0 then INIT else NextAt(kind, k - 1))
  {
    if inputs != [] {
      var before := inputs[..|inputs| - 1];
      StateClosedForm(kind, r, before);
      StageStep(kind, Run(kind, Reset(r), before), inputs[|inputs| - 1], |before|);
    }
  }

  /** Closed form of the registers behind the inputs and of both outputs. */
  lemma {:induction false} OutputsClosedForm(kind: Kind, r: Regs, inputs: seq<Input>)
    requires KindOk(kind)
    ensures var now, k := Run(kind, Reset(r), inputs), |inputs|;
            && now.inReg == (k > 0 && inputs[k - 1].inCtrl)
            && now.swReg == (k > 0 && inputs[k - 1].sw)
            && (k > 0 ==> now.out1 == Out1At(kind, inputs))
            && (k > 0 ==> now.out0 == (k >= 2 && inputs[k - 2].sw))
  {
    if inputs != [] {
      var before := inputs[..|inputs| - 1];
      OutputsClosedForm(kind, r, before);
      StateClosedForm(kind, r, before);
    }
  }

  /** Reset leaves both outputs as they are until the first edge. */
  lemma ResetKeepsOutputs(kind: Kind, r: Regs)
    requires KindOk(kind)
    ensures Run(kind, Reset(r), []).out0 == r.out0 && Run(kind, Reset(r), []).out1 == r.out1
    ensures !TickInReset(r).out0 && !TickInReset(r).out1
  {
  }

  /** One domain as the registers its always blocks update. */
  class Domain {
    const kind: Kind
    var status: int
    var next: int
    var counter: nat
    var inReg: bool
    var swReg: bool
    var out0: bool
    var out1: bool

    function View(): Regs
      reads this
    {
      Regs(status, next, counter, inReg, swReg, out0, out1)
    }

    constructor (kind: Kind, powerUp: Regs)
      requires KindOk(kind)
      ensures this.kind == kind && View() == powerUp
    {
      this.kind := kind;
      status, next, counter := powerUp.status, powerUp.next, powerUp.counter;
      inReg, swReg, out0, out1 := powerUp.inReg, powerUp.swReg, powerUp.out0, powerUp.out1;
    }

    method AssertReset()
      modifies this
      ensures View() == Reset(old(View()))
    {
      status, next, counter := INIT, INIT, 0;
      inReg := false;
      swReg := false;
    }

    /** All always blocks at one positive edge. */
    method Clock(i: Input)
      requires KindOk(kind)
      modifies this
      ensures View() == Tick(kind, old(View()), i)
    {
      var next', counter' := next, counter;
      if next == INIT {
        if counter >= kind.threshold {
          next', counter' := READY_0, 0;
        } else {
          counter' := (counter + 1) % kind.range;
        }
      } else if next == READY_0 {
        if counter >= kind.threshold {
          next', counter' := READY_1, 0;
        } else {
          counter' := (counter + 1) % kind.range;
        }
      } else if next == READY_1 {
        if counter >= kind.threshold {
          next', counter' := VALID, 0;
        } else {
          counter' := (counter + 1) % kind.range;
        }
      } else if next == VALID {
        counter' := 0;
      }
      var out1' := out1;
      if next == INIT {
        out1' := false;
      } else if next == READY_0 {
        out1' := false;
      } else if next == READY_1 {
        out1' := true;
      } else if next == VALID {
        out1' := inReg;
      }
      status, next, counter, inReg, swReg, out0, out1 := next, next', counter', i.inCtrl, i.sw, swReg, out1';
    }
  }
}
