/** Whole runs of the child: appends, flushes, explicit erases, and power cuts between driver
    calls followed by a remount. */
module Runs {
  import opened Layout
  import L = LogFs

  /** `PowerCut(n)`: power is lost once `n` driver calls of the pending flush took effect
      (0: outside a flush), then the chip is mounted again. */
  datatype Event =
    | Append(layer: nat, time: U64, payload: seq<Byte>, drv: L.Driver)
    | Flush(drv: L.Driver)
    | UserErase(block: nat, ok: bool)
    | PowerCut(calls: nat)

  predicate EventOk(e: Event)
  {
    e.UserErase? ==> e.block < BLOCK_COUNT
  }

  predicate EventsOk(es: seq<Event>)
  {
    forall i | 0 <= i < |es| :: EventOk(es[i])
  }

  /** The driver calls an event performs. */
  function EventOps(s: L.State, e: Event): (ops: seq<L.Op>)
    requires L.WellFormed(s) && EventOk(e)
    ensures L.OpsOk(ops)
  {
    match e
    case Append(layer, _, payload, drv) => L.AppendOps(s, layer, |payload|, drv)
    case Flush(drv) => L.FlushOps(s, drv)
    case UserErase(b, ok) => if ok then [L.Erase(b)] else []
    case PowerCut(calls) => var ops := L.FlushOps(s, L.HEALTHY); ops[..Min(calls, |ops|)]
  }

  function Step(cap: nat, s: L.State, e: Event): (r: L.State)
    requires L.WellFormed(s) && EventOk(e)
    ensures L.WellFormed(r)
    ensures r.disk == L.ApplyAll(s.disk, EventOps(s, e))
  {
    match e
    case Append(layer, time, payload, drv) =>
      L.AppendWellFormed(cap, s, layer, time, payload, drv);
      L.Append(cap, s, layer, time, payload, drv).0
    case Flush(drv) =>
      L.FlushWellFormed(s, drv);
      L.Flush(s, drv).0
    case UserErase(_, _) =>
      s.(disk := L.ApplyAll(s.disk, EventOps(s, e)))
    case PowerCut(_) =>
      var d := L.ApplyAll(s.disk, EventOps(s, e));
      L.Mount(d)
  }

  lemma ApplyOne(d: L.Disk, op: L.Op)
    requires L.DiskShape(d) && L.OpOk(op)
    ensures L.ApplyAll(d, [op]) == L.Apply(d, op)
  {
    assert [op][..0] == [];
    assert L.ApplyAll(d, []) == d;
  }

  lemma ApplyTwo(d: L.Disk, a: L.Op, b: L.Op)
    requires L.DiskShape(d) && L.OpOk(a) && L.OpOk(b)
    ensures L.ApplyAll(d, [a, b]) == L.Apply(L.Apply(d, a), b)
  {
    assert [a, b][..1] == [a];
    ApplyOne(d, a);
  }

  function Run(cap: nat, s: L.State, es: seq<Event>): (r: L.State)
    requires L.WellFormed(s) && EventsOk(es)
    ensures L.WellFormed(r)
  {
    if es == [] then s else Step(cap, Run(cap, s, es[..|es| - 1]), es[|es| - 1])
  }

  /** All driver calls of a run, in order. */
  function RunOps(cap: nat, s: L.State, es: seq<Event>): (ops: seq<L.Op>)
    requires L.WellFormed(s) && EventsOk(es)
    ensures L.OpsOk(ops)
  {
    if es == [] then []
    else
      var before := es[..|es| - 1];
      RunOps(cap, s, before) + EventOps(Run(cap, s, before), es[|es| - 1])
  }

  lemma {:induction false} ApplyConcat(d: L.Disk, a: seq<L.Op>, b: seq<L.Op>)
    requires L.DiskShape(d) && L.OpsOk(a) && L.OpsOk(b)
    ensures L.OpsOk(a + b) && L.ApplyAll(d, a + b) == L.ApplyAll(L.ApplyAll(d, a), b)
    decreases |b|
  {
    if b == [] {
      assert a + b == a;
    } else {
      ApplyConcat(d, a, b[..|b| - 1]);
      assert (a + b)[..|a + b| - 1] == a + b[..|b| - 1];
    }
  }

  /** The flash after a run is what its driver calls made of it. */
  lemma {:induction false} DiskOfRun(cap: nat, s: L.State, es: seq<Event>)
    requires L.WellFormed(s) && EventsOk(es)
    ensures Run(cap, s, es).disk == L.ApplyAll(s.disk, RunOps(cap, s, es))
  {
    if es != [] {
      var before := es[..|es| - 1];
      DiskOfRun(cap, s, before);
      ApplyConcat(s.disk, RunOps(cap, s, before), EventOps(Run(cap, s, before), es[|es| - 1]));
    }
  }

  lemma RunOneMore(cap: nat, s: L.State, es: seq<Event>, e: Event)
    requires L.WellFormed(s) && EventsOk(es) && EventOk(e)
    ensures EventsOk(es + [e])
    ensures Run(cap, s, es + [e]) == Step(cap, Run(cap, s, es), e)
    ensures RunOps(cap, s, es + [e]) == RunOps(cap, s, es) + EventOps(Run(cap, s, es), e)
  {
    assert (es + [e])[..|es|] == es;
  }
}
