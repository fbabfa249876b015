/** Whole runs of a CTA under any schedule: soundness against the scalar machine. */
module CtaRun {
  import opened Options
  import opened Kernel
  import opened Warp
  import opened WarpInvariant
  import opened Simulation

  datatype CtaOutcome = Alive(ws: seq<Warp>, steps: nat) | Died(diag: Diag)

  /** One iteration of the CTA loop: only an executed instruction counts as a step. */
  function Turn(k: Program, table: seq<Option<int>>, o: CtaOutcome, i: nat): CtaOutcome
    requires o.Alive? ==> i < |o.ws| && InWidth(o.ws[i])
  {
    if o.Died? || o.ws[i].done then o
    else match Step(k, table, o.ws[i])
      case Aborted(d) => Died(d)
      case Drained(w) => Alive(o.ws[i := w], o.steps)
      case Advanced(w) => Alive(o.ws[i := w], o.steps + 1)
  }

  /** The masks the warps of a CTA start with, and the invariant of each of them. */
  ghost predicate CtaInv(k: Program, ws: seq<Warp>, inits: seq<set<nat>>) {
    && |inits| == |ws|
    && (forall i :: 0 <= i < |ws| ==> Inv(ws[i], inits[i], |k|) && InWidth(ws[i]))
    && (forall i :: 0 <= i < |ws| && ws[i].done ==> ws[i].exited == inits[i])
  }

  ghost predicate OutcomeInv(k: Program, o: CtaOutcome, inits: seq<set<nat>>) {
    o.Alive? ==> CtaInv(k, o.ws, inits)
  }

  /** A lane of some warp of the CTA. */
  predicate LaneOf(inits: seq<set<nat>>, i: nat, l: nat) {
    i < |inits| && l in inits[i]
  }

  /** Every thread of `b` has made some scalar steps since `a`, without a fault. */
  ghost predicate Reached(k: Program, a: seq<Warp>, b: seq<Warp>, inits: seq<set<nat>>)
    requires CtaInv(k, a, inits) && CtaInv(k, b, inits)
  {
    forall i: nat, l: nat :: LaneOf(inits, i, l) ==> ThreadReached(k, ThreadOf(a[i], l), ThreadOf(b[i], l))
  }

  ghost predicate ThreadReached(k: Program, a: Thread, b: Thread) {
    exists m: nat :: ScalarRun(k, a, m) == b
  }

  ghost predicate CtaFaults(k: Program, ws: seq<Warp>, inits: seq<set<nat>>)
    requires CtaInv(k, ws, inits)
  {
    exists i: nat, l: nat :: LaneOf(inits, i, l) && ThreadReached(k, ThreadOf(ws[i], l), Faulted)
  }

  // ---- One turn ----

  lemma StepReaches(k: Program, w: Warp, w': Warp, init: set<nat>, moved: set<nat>, l: nat)
    requires forall x :: x in init ==> x < |w.lanes| && x < |w'.lanes|
    requires Advances(k, w, w', init, moved) && l in init
    ensures ThreadReached(k, ThreadOf(w, l), ThreadOf(w', l))
  {
    assert ScalarRun(k, ThreadOf(w, l), 0) == ThreadOf(w, l);
    assert ScalarRun(k, ThreadOf(w, l), 1) == ScalarRun(k, ScalarStep(k, ThreadOf(w, l)), 0);
  }

  lemma ReachedSelf(k: Program, t: Thread)
    ensures ThreadReached(k, t, t)
  {
    assert ScalarRun(k, t, 0) == t;
  }

  lemma ReachedTransitive(k: Program, a: Thread, b: Thread, c: Thread)
    requires ThreadReached(k, a, b) && ThreadReached(k, b, c)
    ensures ThreadReached(k, a, c)
  {
    var m: nat :| ScalarRun(k, a, m) == b;
    var n: nat :| ScalarRun(k, b, n) == c;
    ScalarRunAdd(k, a, m, n);
  }

  lemma TurnKeeps(k: Program, table: seq<Option<int>>, o: CtaOutcome, inits: seq<set<nat>>, i: nat)
    requires o.Alive? && CtaInv(k, o.ws, inits) && i < |o.ws| && ReconvTable(k, table)
    ensures var r := Turn(k, table, o, i);
      OutcomeInv(k, r, inits) && (r.Died? ==> CtaFaults(k, o.ws, inits))
  {
    if !o.ws[i].done {
      StepSimulates(k, table, o.ws[i], inits[i]);
      match Step(k, table, o.ws[i])
      case Aborted(_) =>
        var l :| l in inits[i] && ThreadOf(o.ws[i], l).Running? && ScalarStep(k, ThreadOf(o.ws[i], l)).Faulted?;
        assert ScalarRun(k, ThreadOf(o.ws[i], l), 1) == ScalarRun(k, Faulted, 0) == Faulted;
        assert LaneOf(inits, i, l);
      case Drained(w) =>
        InvBound(w, inits[i], |k|);
      case Advanced(w) =>
        InvBound(w, inits[i], |k|);
    }
  }

  lemma TurnReachesLane(k: Program, table: seq<Option<int>>, o: CtaOutcome, inits: seq<set<nat>>, i: nat, j: nat,
                        l: nat)
    requires o.Alive? && CtaInv(k, o.ws, inits) && i < |o.ws| && ReconvTable(k, table) && LaneOf(inits, j, l)
    ensures var r := Turn(k, table, o, i);
      r.Alive? ==>
        |r.ws| == |o.ws| && l < |r.ws[j].lanes| && ThreadReached(k, ThreadOf(o.ws[j], l), ThreadOf(r.ws[j], l))
  {
    ReachedSelf(k, ThreadOf(o.ws[j], l));
    if j == i && !o.ws[i].done {
      var w, r := o.ws[i], Step(k, table, o.ws[i]);
      StepSimulates(k, table, w, inits[i]);
      if !r.Aborted? {
        StepReaches(k, w, r.w, inits[i], if r.Drained? then {} else Normalize(w).w.active, l);
      }
    }
  }

  lemma TurnReaches(k: Program, table: seq<Option<int>>, o: CtaOutcome, inits: seq<set<nat>>, i: nat)
    requires o.Alive? && CtaInv(k, o.ws, inits) && i < |o.ws| && ReconvTable(k, table)
    ensures var r := Turn(k, table, o, i);
      && OutcomeInv(k, r, inits)
      && (r.Died? ==> CtaFaults(k, o.ws, inits))
      && (r.Alive? ==> Reached(k, o.ws, r.ws, inits))
  {
    TurnKeeps(k, table, o, inits, i);
    var r := Turn(k, table, o, i);
    if r.Alive? {
      forall j: nat, l: nat | LaneOf(inits, j, l) ensures ThreadReached(k, ThreadOf(o.ws[j], l), ThreadOf(r.ws[j], l)) {
        TurnReachesLane(k, table, o, inits, i, j, l);
      }
    }
  }

  // ---- Any schedule ----

  /** A schedule picks warps in any order; the scheduler classes produce some of them. */
  predicate Schedule(picks: seq<nat>, warps: nat) {
    forall j :: 0 <= j < |picks| ==> picks[j] < warps
  }

  ghost function Run(k: Program, table: seq<Option<int>>, ws: seq<Warp>, inits: seq<set<nat>>, picks: seq<nat>)
    : (r: CtaOutcome)
    requires CtaInv(k, ws, inits) && ReconvTable(k, table) && Schedule(picks, |ws|)
    ensures OutcomeInv(k, r, inits)
    ensures r.Alive? ==> |r.ws| == |ws|
  {
    if picks == [] then Alive(ws, 0)
    else
      var o := Run(k, table, ws, inits, picks[..|picks| - 1]);
      if o.Died? then o
      else
        TurnReaches(k, table, o, inits, picks[|picks| - 1]);
        Turn(k, table, o, picks[|picks| - 1])
  }

  lemma ReachedThen(k: Program, a: seq<Warp>, b: seq<Warp>, c: seq<Warp>, inits: seq<set<nat>>)
    requires CtaInv(k, a, inits) && CtaInv(k, b, inits) && CtaInv(k, c, inits)
    requires Reached(k, a, b, inits) && Reached(k, b, c, inits)
    ensures Reached(k, a, c, inits)
  {
    forall i: nat, l: nat | LaneOf(inits, i, l) ensures ThreadReached(k, ThreadOf(a[i], l), ThreadOf(c[i], l)) {
      ReachedTransitive(k, ThreadOf(a[i], l), ThreadOf(b[i], l), ThreadOf(c[i], l));
    }
  }

  lemma FaultsLater(k: Program, a: seq<Warp>, b: seq<Warp>, inits: seq<set<nat>>)
    requires CtaInv(k, a, inits) && CtaInv(k, b, inits)
    requires Reached(k, a, b, inits) && CtaFaults(k, b, inits)
    ensures CtaFaults(k, a, inits)
  {
    var i: nat, l: nat :| LaneOf(inits, i, l) && ThreadReached(k, ThreadOf(b[i], l), Faulted);
    ReachedTransitive(k, ThreadOf(a[i], l), ThreadOf(b[i], l), Faulted);
  }

  lemma ReachedStart(k: Program, a: seq<Warp>, inits: seq<set<nat>>)
    requires CtaInv(k, a, inits)
    ensures Reached(k, a, a, inits)
  {
    forall i: nat, l: nat | LaneOf(inits, i, l) ensures ThreadReached(k, ThreadOf(a[i], l), ThreadOf(a[i], l)) {
      ReachedSelf(k, ThreadOf(a[i], l));
    }
  }

  /**
   * Soundness. Whatever the schedule, every thread is where some number of scalar steps
   * takes it, and a diagnostic means that some thread faults when it runs alone.
   */
  lemma {:induction false} RunIsSound(k: Program, table: seq<Option<int>>, ws: seq<Warp>, inits: seq<set<nat>>,
                                      picks: seq<nat>)
    requires CtaInv(k, ws, inits) && ReconvTable(k, table) && Schedule(picks, |ws|)
    ensures var r := Run(k, table, ws, inits, picks);
      && (r.Alive? ==> Reached(k, ws, r.ws, inits))
      && (r.Died? ==> CtaFaults(k, ws, inits))
  {
    if picks == [] {
      ReachedStart(k, ws, inits);
    } else {
      var o := Run(k, table, ws, inits, picks[..|picks| - 1]);
      RunIsSound(k, table, ws, inits, picks[..|picks| - 1]);
      if o.Alive? {
        TurnReaches(k, table, o, inits, picks[|picks| - 1]);
        var r := Turn(k, table, o, picks[|picks| - 1]);
        if r.Alive? { ReachedThen(k, ws, o.ws, r.ws, inits); } else { FaultsLater(k, ws, o.ws, inits); }
      }
    }
  }

  /** In every reachable state of a warp that started with W lanes the stack has at most 2W - 1 frames. */
  lemma StackDepth(k: Program, table: seq<Option<int>>, ws: seq<Warp>, inits: seq<set<nat>>, picks: seq<nat>, i: nat)
    requires CtaInv(k, ws, inits) && ReconvTable(k, table) && Schedule(picks, |ws|) && i < |ws|
    ensures var r := Run(k, table, ws, inits, picks);
      r.Alive? ==> r.ws[i].stack == [] || |r.ws[i].stack| <= 2 * |inits[i]| - 1
  {
    var r := Run(k, table, ws, inits, picks);
    if r.Alive? { InvBound(r.ws[i], inits[i], |k|); }
  }

  ghost predicate AllDone(ws: seq<Warp>) {
    forall i :: 0 <= i < |ws| ==> ws[i].done
  }

  lemma {:induction false} HaltsOnce(k: Program, t: Thread, a: Thread, b: Thread)
    requires ThreadReached(k, t, a) && ThreadReached(k, t, b) && !a.Running? && !b.Running?
    ensures a == b
  {
    var m: nat :| ScalarRun(k, t, m) == a;
    var n: nat :| ScalarRun(k, t, n) == b;
    if m <= n {
      ScalarRunAdd(k, t, m, n - m);
      ScalarRunHalted(k, a, n - m);
    } else {
      ScalarRunAdd(k, t, n, m - n);
      ScalarRunHalted(k, b, m - n);
    }
  }
}
