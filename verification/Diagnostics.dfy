/**
 * What a diagnostic of the executor means for the threads: each code names a cause that
 * some thread of the CTA comes to when it runs alone.
 */
module Diagnostics {
  import opened Options
  import opened Kernel
  import opened Warp
  import opened WarpInvariant
  import opened Simulation
  import opened CtaRun

  /** The unit refuses the micro-op for some lane state. */
  ghost predicate Refusable(u: Uop) {
    match u
    case Exec(f) => exists s: LaneState :: f(s).None?
    case Bra(target) => target.None?
    case Ret => false
    case Broken => true
  }

  ghost predicate TwoTargets(uops: seq<Uop>) {
    exists i, j :: 0 <= i < j < |uops| && uops[i].Bra? && uops[j].Bra? && uops[i].target != uops[j].target
  }

  /** The cause of a diagnostic, in a thread that is at `pc`. */
  ghost predicate CauseAt(k: Program, pc: int, d: Diag) {
    match d
    case ReconvInvalid => pc == |k|
    case PcOutOfBounds => pc < 0 || pc >= |k|
    case DescMiss => 0 <= pc < |k| && k[pc].None?
    case PredOutOfBounds => 0 <= pc < |k| && k[pc].Some? && !PredInRange(k[pc].value)
    case ReconvMiss => false
    case NextPcConflict => 0 <= pc < |k| && k[pc].Some? && TwoTargets(k[pc].value.uops)
    case UnitDiag => 0 <= pc < |k| && k[pc].Some? && exists u :: u in k[pc].value.uops && Refusable(u)
  }

  ghost predicate Cause(k: Program, t: Thread, d: Diag) {
    t.Running? && CauseAt(k, t.pc, d)
  }

  // ---- One instruction ----

  /** The candidate for the next pc, if any, comes from a branch among the first `i` micro-ops. */
  ghost predicate FromBranch(uops: seq<Uop>, i: nat, next: Option<int>)
    requires i <= |uops|
  {
    next.Some? ==> exists j :: 0 <= j < i && uops[j] == Bra(next)
  }

  lemma {:induction false} UopsFailure(table: seq<Option<int>>, uops: seq<Uop>, i: nat, g: set<nat>, o: Outcome)
    requires i <= |uops| && o.Going? && InWidth(o.w) && FromBranch(uops, i, o.next)
    ensures var r := WarpUops(table, uops[i..], g, o);
      r.Failed? ==>
        match r.diag
        case UnitDiag => exists u :: u in uops && Refusable(u)
        case NextPcConflict => TwoTargets(uops)
        case ReconvMiss => true
        case _ => false
    decreases |uops| - i
  {
    if i < |uops| {
      var u := uops[i];
      assert uops[i..][0] == u && uops[i..][1..] == uops[i + 1..];
      var o1 := WarpUop(table, u, g, o);
      if o1.Failed? {
        FailedStays(table, uops[i + 1..], g, o1.diag);
        UopFailure(table, u, g, o);
        assert u in uops;
      } else {
        if o1.next.Some? && o1.next != o.next { assert uops[i] == Bra(o1.next); }
        UopsFailure(table, uops, i + 1, g, o1);
      }
    }
  }

  lemma UopFailure(table: seq<Option<int>>, u: Uop, g: set<nat>, o: Outcome)
    requires o.Going? && InWidth(o.w) && WarpUop(table, u, g, o).Failed?
    ensures match WarpUop(table, u, g, o).diag
            case UnitDiag => Refusable(u)
            case NextPcConflict => u.Bra? && o.next.Some? && o.next != u.target
            case ReconvMiss => true
            case _ => false
  {
  }

  lemma ExecuteFailure(k: Program, table: seq<Option<int>>, w: Warp)
    requires InWidth(w) && Execute(k, table, w).Aborted?
    ensures Execute(k, table, w).diag == ReconvMiss || CauseAt(k, w.pc, Execute(k, table, w).diag)
  {
    if 0 <= w.pc < |k| && k[w.pc].Some? && PredInRange(k[w.pc].value) {
      var inst := k[w.pc].value;
      assert inst.uops[0..] == inst.uops;
      UopsFailure(table, inst.uops, 0, Guard(inst, w), Going(w, None, None));
    }
  }

  // ---- One turn ----

  /** When a turn ends in a diagnostic some thread of the warp is at its cause. */
  lemma StepFailure(k: Program, table: seq<Option<int>>, w: Warp, init: set<nat>) returns (l: nat)
    requires Inv(w, init, |k|) && InWidth(w) && ReconvTable(k, table) && Step(k, table, w).Aborted?
    ensures l in init && l < |w.lanes| && Cause(k, ThreadOf(w, l), Step(k, table, w).diag)
  {
    NormalizeStutters(w, init, |k|);
    match Normalize(w)
    case Stuck(_) =>
      l :| l in init && RanOff(w, |k|, l);
    case Ready(v) =>
      NeverMissesReconv(k, table, w, init);
      ActiveThreads(v, init, |k|);
      ExecuteFailure(k, table, v);
      l :| l in v.active;
  }

  // ---- A CTA under any schedule ----

  /** Some thread comes to the cause of the diagnostic when it runs alone. */
  ghost predicate Blames(k: Program, ws: seq<Warp>, inits: seq<set<nat>>, d: Diag)
    requires CtaInv(k, ws, inits)
  {
    exists i: nat, l: nat, t: Thread ::
      LaneOf(inits, i, l) && ThreadReached(k, ThreadOf(ws[i], l), t) && Cause(k, t, d)
  }

  lemma TurnFailure(k: Program, table: seq<Option<int>>, o: CtaOutcome, inits: seq<set<nat>>, i: nat)
    requires o.Alive? && CtaInv(k, o.ws, inits) && i < |o.ws| && ReconvTable(k, table)
    requires Turn(k, table, o, i).Died?
    ensures Blames(k, o.ws, inits, Turn(k, table, o, i).diag)
  {
    var l := StepFailure(k, table, o.ws[i], inits[i]);
    ReachedSelf(k, ThreadOf(o.ws[i], l));
    assert LaneOf(inits, i, l);
  }

  lemma BlamesLater(k: Program, a: seq<Warp>, b: seq<Warp>, inits: seq<set<nat>>, d: Diag)
    requires CtaInv(k, a, inits) && CtaInv(k, b, inits) && Reached(k, a, b, inits) && Blames(k, b, inits, d)
    ensures Blames(k, a, inits, d)
  {
    var i: nat, l: nat, t: Thread :|
      LaneOf(inits, i, l) && ThreadReached(k, ThreadOf(b[i], l), t) && Cause(k, t, d);
    ReachedTransitive(k, ThreadOf(a[i], l), ThreadOf(b[i], l), t);
  }

  /** A run that ends in a diagnostic, under any schedule, has a thread that comes to its cause on its own. */
  lemma {:induction false} RunFailure(k: Program, table: seq<Option<int>>, ws: seq<Warp>, inits: seq<set<nat>>,
                                      picks: seq<nat>)
    requires CtaInv(k, ws, inits) && ReconvTable(k, table) && Schedule(picks, |ws|)
    requires Run(k, table, ws, inits, picks).Died?
    ensures Blames(k, ws, inits, Run(k, table, ws, inits, picks).diag)
  {
    var rest := picks[..|picks| - 1];
    var o := Run(k, table, ws, inits, rest);
    if o.Died? {
      RunFailure(k, table, ws, inits, rest);
    } else {
      RunIsSound(k, table, ws, inits, rest);
      TurnFailure(k, table, o, inits, picks[|picks| - 1]);
      BlamesLater(k, ws, o.ws, inits, Run(k, table, ws, inits, picks).diag);
    }
  }
}
