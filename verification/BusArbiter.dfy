/** The composed arbiter (wiring of hw/fsm_tb.v:409-439): two domains in their own clocks, each fed the
    other's out_ctrl0, and the selector in the fast clock. Edges interleave arbitrarily. */
module BusArbiter {
  import D = DomainFsm
  import S = Selector

  datatype System = System(fast: D.Regs, slow: D.Regs, sel: S.Regs)

  /** One instant with a clock edge; `Both` when the clocks rise together. */
  datatype Edge = Fast | Slow | Both

  /** An edge and the software bits of the two domains at that moment. */
  datatype Stimulus = Stimulus(edge: Edge, swFast: bool, swSlow: bool)

  function Step(sys: System, st: Stimulus): System
  {
    var fast := if st.edge.Slow? then sys.fast
                else D.Tick(D.FAST, sys.fast, D.Input(sys.slow.out0, st.swFast));
    var slow := if st.edge.Fast? then sys.slow
                else D.Tick(D.SLOW, sys.slow, D.Input(sys.fast.out0, st.swSlow));
    var sel := if st.edge.Slow? then sys.sel
               else S.Tick(sys.sel, S.Input(sys.fast.out1, sys.slow.out1));
    System(fast, slow, sel)
  }

  function Run(sys: System, sts: seq<Stimulus>): System
  {
    if sts == [] then sys else Step(Run(sys, sts[..|sts| - 1]), sts[|sts| - 1])
  }

  function FastTicks(sts: seq<Stimulus>): nat
  {
    if sts == [] then 0 else FastTicks(sts[..|sts| - 1]) + if sts[|sts| - 1].edge.Slow? then 0 else 1
  }

  function SlowTicks(sts: seq<Stimulus>): nat
  {
    if sts == [] then 0 else SlowTicks(sts[..|sts| - 1]) + if sts[|sts| - 1].edge.Fast? then 0 else 1
  }

  /** Joint reset; the domain outputs keep whatever they had. */
  function Reset(sys: System): System
  {
    System(D.Reset(sys.fast), D.Reset(sys.slow), S.AFTER_RESET)
  }

  lemma {:induction false} RunConcat(sys: System, a: seq<Stimulus>, b: seq<Stimulus>)
    ensures Run(sys, a + b) == Run(Run(sys, a), b)
    decreases |b|
  {
    if b == [] {
      assert a + b == a;
    } else {
      RunConcat(sys, a, b[..|b| - 1]);
      assert (a + b)[..|a + b| - 1] == a + b[..|b| - 1];
    }
  }

  // ----- no grant before the slow domain is ready

  // Slow clocks until out_ctrl1_slow can first be high: two stages of 201 and the edge that shows it.
  const SLOW_READY: int := 403

  /** The slow line and its synchroniser are low and the output is high. */
  predicate Quiet(sys: System, k: nat)
  {
    && sys.slow.next == D.NextAt(D.SLOW, k)
    && sys.slow.counter == D.CounterAt(D.SLOW, k)
    && !sys.slow.out1
    && !sys.sel.slow1 && !sys.sel.slow2 && sys.sel.state != S.S2 && sys.sel.q
  }

  lemma {:induction false} QuietWhileWarmingUp(sys: System, sts: seq<Stimulus>)
    requires !sys.slow.out1 && SlowTicks(sts) < SLOW_READY
    ensures Quiet(Run(Reset(sys), sts), SlowTicks(sts))
  {
    if sts != [] {
      QuietWhileWarmingUp(sys, sts[..|sts| - 1]);
    }
  }

  /** Out of reset with a high slow line, five fast edges alone hand the bus to the Child. */
  lemma HighSlowLineGrants(sys: System)
    requires sys.slow.out1
    ensures var e := Stimulus(Fast, false, false);
            SlowTicks([e, e, e, e, e]) == 0 && !Run(Reset(sys), [e, e, e, e, e]).sel.q
  {
    var e := Stimulus(Fast, false, false);
    var s0 := Reset(sys);
    var s1 := Step(s0, e);
    var s2 := Step(s1, e);
    var s3 := Step(s2, e);
    var s4 := Step(s3, e);
    RunOfOne(s0, e);
    RunOfOne(s1, e);
    RunOfOne(s2, e);
    RunOfOne(s3, e);
    RunOfOne(s4, e);
    RunConcat(s0, [e], [e]);
    RunConcat(s0, [e] + [e], [e]);
    RunConcat(s0, [e] + [e] + [e], [e]);
    RunConcat(s0, [e] + [e] + [e] + [e], [e]);
    assert [e, e, e, e, e] == [e] + [e] + [e] + [e] + [e];
    NoSlowTicks([e, e, e, e, e]);
    assert s4.sel.state == S.S2;
  }

  lemma RunOfOne(sys: System, st: Stimulus)
    ensures Run(sys, [st]) == Step(sys, st)
  {
    assert [st][..0] == [];
  }

  lemma {:induction false} NoSlowTicks(sts: seq<Stimulus>)
    requires forall i | 0 <= i < |sts| :: sts[i].edge == Fast
    ensures SlowTicks(sts) == 0
  {
    if sts != [] {
      NoSlowTicks(sts[..|sts| - 1]);
    }
  }

  /** Whatever the interleaving and the software bits, Q grants the Child nothing before the slow
      domain has ticked 403 times, exactly when the slow line is low as reset is released. */
  lemma NoEarlyGrantIff(sys: System)
    ensures (forall sts | SlowTicks(sts) < SLOW_READY :: Run(Reset(sys), sts).sel.q) <==> !sys.slow.out1
  {
    if sys.slow.out1 {
      HighSlowLineGrants(sys);
    } else {
      forall sts | SlowTicks(sts) < SLOW_READY ensures Run(Reset(sys), sts).sel.q {
        QuietWhileWarmingUp(sys, sts);
      }
    }
  }

  /** One edge during reset is enough to have both outputs of a domain low. */
  lemma EdgeInResetLowersLine(r: D.Regs)
    ensures !D.TickInReset(r).out0 && !D.TickInReset(r).out1 && D.Reset(D.TickInReset(r)) == D.TickInReset(r)
  {
  }

  // ----- settling once both domains are VALID

  predicate BothValid(sys: System) { sys.fast.next == D.VALID && sys.slow.next == D.VALID }

  predicate Held(sts: seq<Stimulus>, swFast: bool, swSlow: bool)
  {
    forall i | 0 <= i < |sts| :: sts[i].swFast == swFast && sts[i].swSlow == swSlow
  }

  /** Stage 1: each domain shows its software bit on out_ctrl0 after two of its own edges. */
  predicate BitsShown(sys: System, fastTicks: nat, slowTicks: nat, swFast: bool, swSlow: bool)
  {
    && BothValid(sys)
    && (fastTicks >= 1 ==> sys.fast.swReg == swFast) && (fastTicks >= 2 ==> sys.fast.out0 == swFast)
    && (slowTicks >= 1 ==> sys.slow.swReg == swSlow) && (slowTicks >= 2 ==> sys.slow.out0 == swSlow)
  }

  lemma {:induction false} BitsSettle(sys: System, sts: seq<Stimulus>, swFast: bool, swSlow: bool)
    requires BothValid(sys) && Held(sts, swFast, swSlow)
    ensures BitsShown(Run(sys, sts), FastTicks(sts), SlowTicks(sts), swFast, swSlow)
  {
    if sts != [] {
      BitsSettle(sys, sts[..|sts| - 1], swFast, swSlow);
    }
  }

  /** Stage 2: each domain shows the other's bit on out_ctrl1 after two more of its own edges. */
  predicate LinesShown(sys: System, fastTicks: nat, slowTicks: nat, swFast: bool, swSlow: bool)
  {
    && BitsShown(sys, 2, 2, swFast, swSlow)
    && (fastTicks >= 1 ==> sys.fast.inReg == swSlow) && (fastTicks >= 2 ==> sys.fast.out1 == swSlow)
    && (slowTicks >= 1 ==> sys.slow.inReg == swFast) && (slowTicks >= 2 ==> sys.slow.out1 == swFast)
  }

  lemma {:induction false} LinesSettle(sys: System, sts: seq<Stimulus>, swFast: bool, swSlow: bool)
    requires BitsShown(sys, 2, 2, swFast, swSlow) && Held(sts, swFast, swSlow)
    ensures LinesShown(Run(sys, sts), FastTicks(sts), SlowTicks(sts), swFast, swSlow)
  {
    if sts != [] {
      LinesSettle(sys, sts[..|sts| - 1], swFast, swSlow);
    }
  }

  /** Stage 3: synchroniser, state register and output, one fast edge each. */
  predicate OwnerShown(sys: System, fastTicks: nat, swFast: bool, swSlow: bool)
  {
    && LinesShown(sys, 2, 2, swFast, swSlow)
    && (fastTicks >= 1 ==> sys.sel.fast1 == swSlow && sys.sel.slow1 == swFast)
    && (fastTicks >= 2 ==> sys.sel.fast2 == swSlow && sys.sel.slow2 == swFast)
    && (fastTicks >= 3 ==> sys.sel.state == S.NextState(swSlow, swFast))
    && (fastTicks >= 4 ==> (sys.sel.q <==> !(swFast && !swSlow)))
  }

  lemma {:induction false} OwnerSettles(sys: System, sts: seq<Stimulus>, swFast: bool, swSlow: bool)
    requires LinesShown(sys, 2, 2, swFast, swSlow) && Held(sts, swFast, swSlow)
    ensures OwnerShown(Run(sys, sts), FastTicks(sts), swFast, swSlow)
  {
    if sts != [] {
      OwnerSettles(sys, sts[..|sts| - 1], swFast, swSlow);
    }
  }

  /** Arbitration: with both domains VALID and the software bits held, after at least two edges of
      each clock, two more of each and then four fast edges, in any interleaving, the Child owns the
      bus iff the fast bit is 1 and the slow bit is 0. */
  lemma ArbitrationSettles(sys: System, a: seq<Stimulus>, b: seq<Stimulus>, c: seq<Stimulus>, swFast: bool, swSlow: bool)
    requires BothValid(sys) && Held(a, swFast, swSlow) && Held(b, swFast, swSlow) && Held(c, swFast, swSlow)
    requires FastTicks(a) >= 2 && SlowTicks(a) >= 2
    requires FastTicks(b) >= 2 && SlowTicks(b) >= 2
    requires FastTicks(c) >= 4
    ensures BothValid(Run(sys, a + b + c))
    ensures !Run(sys, a + b + c).sel.q <==> swFast && !swSlow
  {
    BitsSettle(sys, a, swFast, swSlow);
    LinesSettle(Run(sys, a), b, swFast, swSlow);
    RunConcat(sys, a, b);
    OwnerSettles(Run(sys, a + b), c, swFast, swSlow);
    RunConcat(sys, a + b, c);
  }

  /** The stages of both domains depend on their own edges alone. */
  lemma {:induction false} StagesOfRun(sys: System, sts: seq<Stimulus>)
    ensures var now := Run(Reset(sys), sts);
            && now.fast.next == D.NextAt(D.FAST, FastTicks(sts))
            && now.fast.counter == D.CounterAt(D.FAST, FastTicks(sts))
            && now.slow.next == D.NextAt(D.SLOW, SlowTicks(sts))
            && now.slow.counter == D.CounterAt(D.SLOW, SlowTicks(sts))
  {
    if sts != [] {
      var before, st := sts[..|sts| - 1], sts[|sts| - 1];
      var s := Run(Reset(sys), before);
      StagesOfRun(sys, before);
      D.StageStep(D.FAST, s.fast, D.Input(s.slow.out0, st.swFast), FastTicks(before));
      D.StageStep(D.SLOW, s.slow, D.Input(s.fast.out0, st.swSlow), SlowTicks(before));
    }
  }

  /** From reset: after 303 fast and 603 slow edges under any software bits, the arbitration above
      settles. */
  lemma ArbitrationFromReset(sys: System, warmUp: seq<Stimulus>, a: seq<Stimulus>, b: seq<Stimulus>, c: seq<Stimulus>,
                             swFast: bool, swSlow: bool)
    requires FastTicks(warmUp) >= 303 && SlowTicks(warmUp) >= 603
    requires Held(a, swFast, swSlow) && Held(b, swFast, swSlow) && Held(c, swFast, swSlow)
    requires FastTicks(a) >= 2 && SlowTicks(a) >= 2
    requires FastTicks(b) >= 2 && SlowTicks(b) >= 2
    requires FastTicks(c) >= 4
    ensures !Run(Reset(sys), warmUp + (a + b + c)).sel.q <==> swFast && !swSlow
  {
    StagesOfRun(sys, warmUp);
    ArbitrationSettles(Run(Reset(sys), warmUp), a, b, c, swFast, swSlow);
    RunConcat(Reset(sys), warmUp, a + b + c);
  }

  // ----- who owned the lines the output shows

  /** The ownership lines as the fast edges of a run sample them. */
  function Sampled(sys: System, sts: seq<Stimulus>): seq<S.Input>
  {
    if sts == [] then []
    else
      var before := sts[..|sts| - 1];
      var now := Run(Reset(sys), before);
      Sampled(sys, before) + if sts[|sts| - 1].edge.Slow? then [] else [S.Input(now.fast.out1, now.slow.out1)]
  }

  /** In the composed system the selector is the selector alone, run on these samples. */
  lemma {:induction false} SelectorOfRun(sys: System, sts: seq<Stimulus>)
    ensures |Sampled(sys, sts)| == FastTicks(sts)
    ensures Run(Reset(sys), sts).sel == S.Run(S.AFTER_RESET, Sampled(sys, sts))
  {
    if sts != [] {
      var before := sts[..|sts| - 1];
      SelectorOfRun(sys, before);
      var inputs, now := Sampled(sys, before), Run(Reset(sys), before);
      var sample := S.Input(now.fast.out1, now.slow.out1);
      assert (inputs + [sample])[..|inputs|] == inputs;
      assert inputs + [] == inputs;
    }
  }

  /** The run up to the k-th last fast edge. */
  function BeforeFast(sts: seq<Stimulus>, k: nat): (before: seq<Stimulus>)
    requires 1 <= k <= FastTicks(sts)
    ensures |before| < |sts| && before == sts[..|before|]
  {
    var init := sts[..|sts| - 1];
    if sts[|sts| - 1].edge.Slow? then BeforeFast(init, k)
    else if k == 1 then init
    else BeforeFast(init, k - 1)
  }

  lemma {:induction false} SampleOfRun(sys: System, sts: seq<Stimulus>, k: nat)
    requires 1 <= k <= FastTicks(sts)
    ensures |Sampled(sys, sts)| == FastTicks(sts)
    ensures var past := Run(Reset(sys), BeforeFast(sts, k));
            Sampled(sys, sts)[FastTicks(sts) - k] == S.Input(past.fast.out1, past.slow.out1)
  {
    var before := sts[..|sts| - 1];
    SelectorOfRun(sys, before);
    if sts[|sts| - 1].edge.Slow? {
      SampleOfRun(sys, before, k);
    } else if k > 1 {
      SampleOfRun(sys, before, k - 1);
    }
  }

  // Fast edges from a sample of the lines to the output: two for the synchroniser, the state, Q.
  const DELAY: int := 4

  /** For every interleaving: Q is low iff four fast edges have passed and the Child owned the lines as
      the fourth last of them sampled them. */
  lemma OwnershipOfRun(sys: System, sts: seq<Stimulus>, k: nat)
    requires k == DELAY
    ensures !Run(Reset(sys), sts).sel.q
            <==> FastTicks(sts) >= k
                 && var past := Run(Reset(sys), BeforeFast(sts, k));
                 !past.fast.out1 && past.slow.out1
  {
    SelectorOfRun(sys, sts);
    S.OutputOfRun(Sampled(sys, sts));
    if FastTicks(sts) >= k {
      SampleOfRun(sys, sts, k);
    }
  }

  // ----- the wiring between the domains, in terms of the stimuli alone

  /** The software bits a domain sees at its own edges. */
  function FastBits(sts: seq<Stimulus>): seq<bool>
  {
    if sts == [] then []
    else
      var last := sts[|sts| - 1];
      FastBits(sts[..|sts| - 1]) + if last.edge.Slow? then [] else [last.swFast]
  }

  function SlowBits(sts: seq<Stimulus>): seq<bool>
  {
    if sts == [] then []
    else
      var last := sts[|sts| - 1];
      SlowBits(sts[..|sts| - 1]) + if last.edge.Fast? then [] else [last.swSlow]
  }

  /** out_ctrl0 of a domain after edges with these bits: the bit of the edge before the last. */
  function Shown(powerUp: bool, bits: seq<bool>): bool
  {
    if bits == [] then powerUp else |bits| >= 2 && bits[|bits| - 2]
  }

  /** What the fast domain's edges sample: the slow domain's out_ctrl0 as it stood before the edge. */
  function FastInputs(sys: System, sts: seq<Stimulus>): seq<D.Input>
  {
    if sts == [] then []
    else
      var before, last := sts[..|sts| - 1], sts[|sts| - 1];
      FastInputs(sys, before)
      + if last.edge.Slow? then [] else [D.Input(Shown(sys.slow.out0, SlowBits(before)), last.swFast)]
  }

  function SlowInputs(sys: System, sts: seq<Stimulus>): seq<D.Input>
  {
    if sts == [] then []
    else
      var before, last := sts[..|sts| - 1], sts[|sts| - 1];
      SlowInputs(sys, before)
      + if last.edge.Fast? then [] else [D.Input(Shown(sys.fast.out0, FastBits(before)), last.swSlow)]
  }

  predicate CarriesBits(inputs: seq<D.Input>, bits: seq<bool>)
  {
    |inputs| == |bits| && forall i | 0 <= i < |bits| :: inputs[i].sw == bits[i]
  }

  lemma {:induction false} InputsCarryBits(sys: System, sts: seq<Stimulus>)
    ensures CarriesBits(FastInputs(sys, sts), FastBits(sts)) && |FastBits(sts)| == FastTicks(sts)
    ensures CarriesBits(SlowInputs(sys, sts), SlowBits(sts)) && |SlowBits(sts)| == SlowTicks(sts)
  {
    if sts != [] {
      InputsCarryBits(sys, sts[..|sts| - 1]);
    }
  }

  /** out_ctrl0 of a domain after any edges out of reset. */
  lemma Out0OfInputs(kind: D.Kind, r: D.Regs, inputs: seq<D.Input>, bits: seq<bool>)
    requires D.KindOk(kind) && CarriesBits(inputs, bits)
    ensures D.Run(kind, D.Reset(r), inputs).out0 == Shown(r.out0, bits)
  {
    D.OutputsClosedForm(kind, r, inputs);
  }

  lemma RunMoreInput(kind: D.Kind, r: D.Regs, inputs: seq<D.Input>, i: D.Input)
    requires D.KindOk(kind)
    ensures D.Run(kind, r, inputs + [i]) == D.Tick(kind, D.Run(kind, r, inputs), i)
    ensures D.Run(kind, r, inputs + []) == D.Run(kind, r, inputs)
  {
    assert (inputs + [i])[..|inputs|] == inputs;
    assert inputs + [] == inputs;
  }

  /** Each domain of the composed system is the domain alone, fed its own software bits and the other
      domain's out_ctrl0 of the moment before each edge, for every interleaving and changing bits. */
  lemma {:induction false} DomainsOfRun(sys: System, sts: seq<Stimulus>)
    ensures Run(Reset(sys), sts).fast == D.Run(D.FAST, D.Reset(sys.fast), FastInputs(sys, sts))
    ensures Run(Reset(sys), sts).slow == D.Run(D.SLOW, D.Reset(sys.slow), SlowInputs(sys, sts))
  {
    if sts != [] {
      var before, last := sts[..|sts| - 1], sts[|sts| - 1];
      DomainsOfRun(sys, before);
      InputsCarryBits(sys, before);
      Out0OfInputs(D.FAST, sys.fast, FastInputs(sys, before), FastBits(before));
      Out0OfInputs(D.SLOW, sys.slow, SlowInputs(sys, before), SlowBits(before));
      RunMoreInput(D.FAST, D.Reset(sys.fast), FastInputs(sys, before),
                   D.Input(Shown(sys.slow.out0, SlowBits(before)), last.swFast));
      RunMoreInput(D.SLOW, D.Reset(sys.slow), SlowInputs(sys, before),
                   D.Input(Shown(sys.fast.out0, FastBits(before)), last.swSlow));
    }
  }

  /** An ownership line: low in the first two stages of its domain, high in READY_1, then the other
      domain's bit as its edge before the last sampled it. */
  function LineAt(kind: D.Kind, powerUp: bool, inputs: seq<D.Input>): bool
  {
    if inputs == [] then powerUp else D.Out1At(kind, inputs)
  }

  /** Both lines of any run, from the stimuli. */
  lemma LinesOfRun(sys: System, sts: seq<Stimulus>)
    ensures Run(Reset(sys), sts).fast.out1 == LineAt(D.FAST, sys.fast.out1, FastInputs(sys, sts))
    ensures Run(Reset(sys), sts).slow.out1 == LineAt(D.SLOW, sys.slow.out1, SlowInputs(sys, sts))
  {
    DomainsOfRun(sys, sts);
    D.OutputsClosedForm(D.FAST, sys.fast, FastInputs(sys, sts));
    D.OutputsClosedForm(D.SLOW, sys.slow, SlowInputs(sys, sts));
  }

  /** The whole arbiter as a function of its stimuli, for every interleaving and any software bits. */
  lemma OwnershipOfStimuli(sys: System, sts: seq<Stimulus>, k: nat)
    requires k == DELAY
    ensures !Run(Reset(sys), sts).sel.q
            <==> FastTicks(sts) >= k
                 && var p := BeforeFast(sts, k);
                 !LineAt(D.FAST, sys.fast.out1, FastInputs(sys, p)) && LineAt(D.SLOW, sys.slow.out1, SlowInputs(sys, p))
  {
    OwnershipOfRun(sys, sts, k);
    if FastTicks(sts) >= k {
      LinesOfRun(sys, BeforeFast(sts, k));
    }
  }

  // ----- grants without the software bits

  /** The outputs without reset are low, as one edge of each clock during reset leaves them. */
  predicate OutputsLow(sys: System)
  {
    !sys.fast.out0 && !sys.fast.out1 && !sys.slow.out0 && !sys.slow.out1
  }

  predicate FastBitOff(sts: seq<Stimulus>) { forall i | 0 <= i < |sts| :: !sts[i].swFast }

  predicate SlowBitOff(sts: seq<Stimulus>) { forall i | 0 <= i < |sts| :: !sts[i].swSlow }

  /** Clocks of a domain after which its out_ctrl1 is high by itself. */
  predicate Ready1Shown(kind: D.Kind, k: nat)
  {
    2 * (kind.threshold + 1) < k <= 3 * (kind.threshold + 1)
  }

  /** One edge of a domain whose in_ctrl has been 0 so far. */
  lemma IdleTick(kind: D.Kind, r: D.Regs, i: D.Input, k: nat)
    requires D.KindOk(kind) && r.next == D.NextAt(kind, k) && !r.inReg
    ensures D.Tick(kind, r, i).out1 <==> Ready1Shown(kind, k + 1)
  {
  }

  /** The slow line while the fast software bit is off. */
  predicate SlowIdle(now: System, k: nat)
  {
    && !now.fast.swReg && !now.fast.out0 && !now.slow.inReg
    && (now.slow.out1 <==> Ready1Shown(D.SLOW, k))
  }

  lemma {:induction false} SlowLineIdle(sys: System, sts: seq<Stimulus>)
    requires OutputsLow(sys) && FastBitOff(sts)
    ensures SlowIdle(Run(Reset(sys), sts), SlowTicks(sts))
  {
    if sts != [] {
      var before, st := sts[..|sts| - 1], sts[|sts| - 1];
      var now := Run(Reset(sys), before);
      SlowLineIdle(sys, before);
      StagesOfRun(sys, before);
      IdleTick(D.SLOW, now.slow, D.Input(now.fast.out0, st.swSlow), SlowTicks(before));
    }
  }

  /** The fast line while the slow software bit is off. */
  predicate FastIdle(now: System, k: nat)
  {
    && !now.slow.swReg && !now.slow.out0 && !now.fast.inReg
    && (now.fast.out1 <==> Ready1Shown(D.FAST, k))
  }

  lemma {:induction false} FastLineIdle(sys: System, sts: seq<Stimulus>)
    requires OutputsLow(sys) && SlowBitOff(sts)
    ensures FastIdle(Run(Reset(sys), sts), FastTicks(sts))
  {
    if sts != [] {
      var before, st := sts[..|sts| - 1], sts[|sts| - 1];
      var now := Run(Reset(sys), before);
      FastLineIdle(sys, before);
      StagesOfRun(sys, before);
      IdleTick(D.FAST, now.fast, D.Input(now.slow.out0, st.swFast), FastTicks(before));
    }
  }

  /** With the fast software bit held at 0 the Child owns the bus exactly four fast edges after a moment
      between 403 and 603 slow clocks at which the fast line was low: READY_1 of the slow domain alone
      grants, and nothing else does. */
  lemma GrantWithoutFastBitIff(sys: System, sts: seq<Stimulus>, k: nat)
    requires OutputsLow(sys) && FastBitOff(sts) && k == DELAY
    ensures !Run(Reset(sys), sts).sel.q
            <==> FastTicks(sts) >= k
                 && var p := BeforeFast(sts, k);
                 403 <= SlowTicks(p) <= 603 && !Run(Reset(sys), p).fast.out1
  {
    OwnershipOfRun(sys, sts, k);
    if FastTicks(sts) >= k {
      SlowLineIdle(sys, BeforeFast(sts, k));
    }
  }

  /** With both bits at 0 the clock counts alone decide. */
  lemma GrantWithoutBitsIff(sys: System, sts: seq<Stimulus>, k: nat)
    requires OutputsLow(sys) && FastBitOff(sts) && SlowBitOff(sts) && k == DELAY
    ensures !Run(Reset(sys), sts).sel.q
            <==> FastTicks(sts) >= k
                 && var p := BeforeFast(sts, k);
                 403 <= SlowTicks(p) <= 603 && !(203 <= FastTicks(p) <= 303)
  {
    GrantWithoutFastBitIff(sys, sts, k);
    if FastTicks(sts) >= k {
      FastLineIdle(sys, BeforeFast(sts, k));
    }
  }

  function Edges(edge: Edge, n: nat): (sts: seq<Stimulus>)
    ensures FastBitOff(sts) && SlowBitOff(sts)
    ensures edge == Slow ==> SlowTicks(sts) == n && FastTicks(sts) == 0
  {
    if n == 0 then []
    else
      var st, before := Stimulus(edge, false, false), Edges(edge, n - 1);
      assert (before + [st])[..|before|] == before;
      before + [st]
  }

  lemma OneMoreEdge(sts: seq<Stimulus>, st: Stimulus, k: nat)
    ensures FastTicks(sts + [st]) == FastTicks(sts) + if st.edge.Slow? then 0 else 1
    ensures SlowTicks(sts + [st]) == SlowTicks(sts) + if st.edge.Fast? then 0 else 1
    ensures st.edge.Fast? && 1 <= k <= FastTicks(sts + [st]) ==>
              BeforeFast(sts + [st], k) == if k == 1 then sts else BeforeFast(sts, k - 1)
  {
    assert (sts + [st])[..|sts|] == sts;
  }

  predicate FastBehind(sts: seq<Stimulus>, more: seq<Stimulus>, n: nat)
  {
    FastTicks(more) == FastTicks(sts) + n && SlowTicks(more) == SlowTicks(sts) && (n > 0 ==> BeforeFast(more, n) == sts)
  }

  lemma FastBehindStep(sts: seq<Stimulus>, more: seq<Stimulus>, n: nat)
    requires FastBehind(sts, more, n) && (n == 0 ==> more == sts)
    ensures FastBehind(sts, more + [Stimulus(Fast, false, false)], n + 1)
  {
    OneMoreEdge(more, Stimulus(Fast, false, false), n + 1);
  }

  lemma FastEdgesBehind(sts: seq<Stimulus>, n: nat)
    ensures FastBehind(sts, sts + Edges(Fast, n), n)
  {
    EmptyBehind(sts);
    for k := 0 to n
      invariant FastBehind(sts, sts + Edges(Fast, k), k)
    {
      EdgesGrow(sts, k);
      FastBehindStep(sts, sts + Edges(Fast, k), k);
    }
  }

  lemma EdgesGrow(sts: seq<Stimulus>, k: nat)
    ensures sts + Edges(Fast, k + 1) == sts + Edges(Fast, k) + [Stimulus(Fast, false, false)]
    ensures k == 0 ==> sts + Edges(Fast, k) == sts
  {
    Associate(sts, Edges(Fast, k), [Stimulus(Fast, false, false)]);
  }

  lemma Associate(a: seq<Stimulus>, b: seq<Stimulus>, c: seq<Stimulus>)
    ensures (a + b) + c == a + (b + c)
  {
  }

  lemma EmptyBehind(sts: seq<Stimulus>)
    ensures sts + Edges(Fast, 0) == sts
  {
  }

  /** 403 slow clocks and four fast ones from reset, no software bit ever set, and the Child owns the bus:
      the bound of 403 cannot be raised. */
  lemma GrantAt403(sys: System, n: nat, k: nat)
    requires OutputsLow(sys) && n == SLOW_READY && k == DELAY
    ensures var sts := Edges(Slow, n) + Edges(Fast, k);
            SlowTicks(sts) == n && FastBitOff(sts) && SlowBitOff(sts) && !Run(Reset(sys), sts).sel.q
  {
    FastEdgesBehind(Edges(Slow, n), k);
    GrantWithoutBitsIff(sys, Edges(Slow, n) + Edges(Fast, k), k);
  }
}
