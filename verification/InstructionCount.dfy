/**
 * What a run computes and how long it takes does not depend on the schedule: a warp whose
 * threads all return executes a fixed number of instructions and ends in a fixed state.
 */
module InstructionCount {
  import opened Options
  import opened Kernel
  import opened Warp
  import opened WarpInvariant
  import opened Simulation
  import opened CtaRun
  import opened Completion

  // ---- One warp ----

  /** A warp in a state of some run, all of whose threads return when they run alone. */
  ghost predicate Halting(k: Program, table: seq<Option<int>>, w: Warp, init: set<nat>) {
    && Inv(w, init, |k|) && InWidth(w) && ReconvTable(k, table)
    && WarpHalts(k, w, init)
  }

  ghost function WorkOf(k: Program, table: seq<Option<int>>, w: Warp, init: set<nat>): nat
    requires Halting(k, table, w, init)
  {
    WarpWork(k, w, init, |w.lanes|)
  }

  lemma NoneFaults(k: Program, w: Warp, init: set<nat>)
    requires forall l :: l in init ==> l < |w.lanes|
    requires WarpHalts(k, w, init)
    ensures !SomeThreadFaults(k, w, init)
  {
    forall l | l in init && ThreadOf(w, l).Running? ensures !ScalarStep(k, ThreadOf(w, l)).Faulted? {
      StepPays(k, ThreadOf(w, l));
    }
  }

  /** A step of such a warp drains it, when all its threads have retired, or takes some of their work. */
  lemma HaltingStep(k: Program, table: seq<Option<int>>, w: Warp, init: set<nat>)
    requires Halting(k, table, w, init)
    ensures var r := Step(k, table, w);
      && !r.Aborted? && Halting(k, table, r.w, init)
      && (r.Drained? <==> w.exited == init)
      && (r.Drained? ==> r.w.done)
      && (r.Advanced? ==> r.w.done == w.done && WorkOf(k, table, r.w, init) < WorkOf(k, table, w, init))
  {
    var r := Step(k, table, w);
    StepSimulates(k, table, w, init);
    NoneFaults(k, w, init);
    InvBound(r.w, init, |k|);
    StepKeepsWidth(k, table, w);
    var moved := if r.Drained? then {} else Normalize(w).w.active;
    WarpWorkDrops(k, w, r.w, init, moved, |w.lanes|);
    if moved != {} { var l :| l in moved; assert ThreadOf(w, l).Running?; }
  }

  /** How many instructions the warp executes until all its threads have retired. */
  ghost function Instructions(k: Program, table: seq<Option<int>>, w: Warp, init: set<nat>): (n: nat)
    requires Halting(k, table, w, init)
    ensures n == 0 <==> w.exited == init
    decreases WorkOf(k, table, w, init)
  {
    HaltingStep(k, table, w, init);
    if Step(k, table, w).Advanced? then 1 + Instructions(k, table, Step(k, table, w).w, init) else 0
  }

  /** The state in which the warp ends. */
  ghost function Final(k: Program, table: seq<Option<int>>, w: Warp, init: set<nat>): (r: Warp)
    requires Halting(k, table, w, init)
    ensures r.done
    decreases WorkOf(k, table, w, init)
  {
    HaltingStep(k, table, w, init);
    if w.done then w
    else
      var r := Step(k, table, w);
      if r.Advanced? then Final(k, table, r.w, init) else r.w
  }

  lemma {:induction false} WithinWork(k: Program, table: seq<Option<int>>, w: Warp, init: set<nat>)
    requires Halting(k, table, w, init)
    ensures Instructions(k, table, w, init) <= WorkOf(k, table, w, init)
    decreases WorkOf(k, table, w, init)
  {
    HaltingStep(k, table, w, init);
    if Step(k, table, w).Advanced? { WithinWork(k, table, Step(k, table, w).w, init); }
  }

  // ---- The warps of a CTA ----

  ghost predicate CtaHalting(k: Program, table: seq<Option<int>>, ws: seq<Warp>, inits: seq<set<nat>>) {
    CtaInv(k, ws, inits) && ReconvTable(k, table) && CtaHalts(k, ws, inits)
  }

  ghost function Counts(k: Program, table: seq<Option<int>>, ws: seq<Warp>, inits: seq<set<nat>>): (r: seq<nat>)
    requires CtaHalting(k, table, ws, inits)
    ensures |r| == |ws|
  {
    seq<nat>(|ws|, i requires 0 <= i < |ws| => Instructions(k, table, ws[i], inits[i]))
  }

  /** The instructions that the warps of the CTA execute, all together. */
  ghost function CtaInstructions(k: Program, table: seq<Option<int>>, ws: seq<Warp>, inits: seq<set<nat>>): nat
    requires CtaHalting(k, table, ws, inits)
  {
    Total(Counts(k, table, ws, inits))
  }

  ghost function Finals(k: Program, table: seq<Option<int>>, ws: seq<Warp>, inits: seq<set<nat>>): (r: seq<Warp>)
    requires CtaHalting(k, table, ws, inits)
    ensures |r| == |ws| && AllDone(r)
  {
    seq(|ws|, i requires 0 <= i < |ws| => Final(k, table, ws[i], inits[i]))
  }

  /** The warp that takes the turn pays one instruction or drains; where it will end does not change. */
  lemma TurnOfWarp(k: Program, table: seq<Option<int>>, o: CtaOutcome, inits: seq<set<nat>>, i: nat)
    requires o.Alive? && CtaHalting(k, table, o.ws, inits) && i < |o.ws|
    ensures var r := Turn(k, table, o, i);
      && r.Alive? && CtaHalting(k, table, r.ws, inits) && |r.ws| == |o.ws| && r.ws == o.ws[i := r.ws[i]]
      && r.steps + Instructions(k, table, r.ws[i], inits[i]) == o.steps + Instructions(k, table, o.ws[i], inits[i])
      && Final(k, table, r.ws[i], inits[i]) == Final(k, table, o.ws[i], inits[i])
  {
    TurnPays(k, table, o, inits, i);
    HaltingStep(k, table, o.ws[i], inits[i]);
  }

  /** Two states of a CTA that differ in one warp. */
  ghost predicate DifferAt(k: Program, table: seq<Option<int>>, a: seq<Warp>, b: seq<Warp>, inits: seq<set<nat>>,
                           i: nat) {
    && CtaHalting(k, table, a, inits) && CtaHalting(k, table, b, inits)
    && i < |a| == |b| && b == a[i := b[i]]
  }

  lemma CountsAtOneWarp(k: Program, table: seq<Option<int>>, a: seq<Warp>, b: seq<Warp>, inits: seq<set<nat>>, i: nat)
    requires DifferAt(k, table, a, b, inits, i)
    ensures CtaInstructions(k, table, b, inits) + Counts(k, table, a, inits)[i]
         == CtaInstructions(k, table, a, inits) + Counts(k, table, b, inits)[i]
  {
    assert Counts(k, table, b, inits) == Counts(k, table, a, inits)[i := Counts(k, table, b, inits)[i]];
    TotalChanges(Counts(k, table, a, inits), i, Counts(k, table, b, inits)[i]);
  }

  lemma FinalsAtOneWarp(k: Program, table: seq<Option<int>>, a: seq<Warp>, b: seq<Warp>, inits: seq<set<nat>>, i: nat)
    requires DifferAt(k, table, a, b, inits, i)
    ensures Finals(k, table, b, inits) == Finals(k, table, a, inits)[i := Finals(k, table, b, inits)[i]]
  {
  }

  lemma TurnCounts(k: Program, table: seq<Option<int>>, o: CtaOutcome, inits: seq<set<nat>>, i: nat)
    requires o.Alive? && CtaHalting(k, table, o.ws, inits) && i < |o.ws|
    ensures var r := Turn(k, table, o, i);
      && r.Alive? && CtaHalting(k, table, r.ws, inits)
      && r.steps + CtaInstructions(k, table, r.ws, inits) == o.steps + CtaInstructions(k, table, o.ws, inits)
      && Finals(k, table, r.ws, inits) == Finals(k, table, o.ws, inits)
  {
    TurnOfWarp(k, table, o, inits, i);
    CountsAtOneWarp(k, table, o.ws, Turn(k, table, o, i).ws, inits, i);
    FinalsAtOneWarp(k, table, o.ws, Turn(k, table, o, i).ws, inits, i);
  }

  /**
   * The steps taken plus the instructions left are the instructions of the CTA at its start,
   * after any turns in any order; so is the state in which its warps will end.
   */
  lemma {:induction false} RunCounts(k: Program, table: seq<Option<int>>, ws: seq<Warp>, inits: seq<set<nat>>,
                                     picks: seq<nat>)
    requires CtaHalting(k, table, ws, inits) && Schedule(picks, |ws|)
    ensures var r := Run(k, table, ws, inits, picks);
      && r.Alive? && CtaHalting(k, table, r.ws, inits)
      && r.steps + CtaInstructions(k, table, r.ws, inits) == CtaInstructions(k, table, ws, inits)
      && Finals(k, table, r.ws, inits) == Finals(k, table, ws, inits)
  {
    if picks != [] {
      RunCounts(k, table, ws, inits, picks[..|picks| - 1]);
      TurnCounts(k, table, Run(k, table, ws, inits, picks[..|picks| - 1]), inits, picks[|picks| - 1]);
    }
  }

  // ---- Finished runs ----

  ghost predicate AllExited(ws: seq<Warp>, inits: seq<set<nat>>) {
    |inits| == |ws| && forall i :: 0 <= i < |ws| ==> ws[i].exited == inits[i]
  }

  lemma {:induction false} TotalZero(s: seq<nat>)
    ensures Total(s) == 0 <==> forall i :: 0 <= i < |s| ==> s[i] == 0
  {
    if s != [] { TotalZero(s[..|s| - 1]); }
  }

  lemma NothingLeft(k: Program, table: seq<Option<int>>, ws: seq<Warp>, inits: seq<set<nat>>)
    requires CtaHalting(k, table, ws, inits)
    ensures CtaInstructions(k, table, ws, inits) == 0 <==> AllExited(ws, inits)
  {
    TotalZero(Counts(k, table, ws, inits));
    assert forall i :: 0 <= i < |ws| ==>
      (Counts(k, table, ws, inits)[i] == 0 <==> ws[i].exited == inits[i]);
  }

  /** No schedule takes more steps, and all threads have retired exactly when that many were taken. */
  lemma RetiredExactly(k: Program, table: seq<Option<int>>, ws: seq<Warp>, inits: seq<set<nat>>, picks: seq<nat>)
    requires CtaHalting(k, table, ws, inits) && Schedule(picks, |ws|)
    ensures var r := Run(k, table, ws, inits, picks);
      && r.Alive? && r.steps <= CtaInstructions(k, table, ws, inits)
      && (AllExited(r.ws, inits) <==> r.steps == CtaInstructions(k, table, ws, inits))
  {
    RunCounts(k, table, ws, inits, picks);
    NothingLeft(k, table, Run(k, table, ws, inits, picks).ws, inits);
  }

  lemma FinishedHalts(k: Program, table: seq<Option<int>>, ws: seq<Warp>, inits: seq<set<nat>>, picks: seq<nat>)
    requires CtaInv(k, ws, inits) && ReconvTable(k, table) && Schedule(picks, |ws|)
    requires var r := Run(k, table, ws, inits, picks); r.Alive? && AllDone(r.ws)
    ensures CtaHalting(k, table, ws, inits)
    ensures AllExited(Run(k, table, ws, inits, picks).ws, inits)
  {
    var r := Run(k, table, ws, inits, picks);
    RunIsSound(k, table, ws, inits, picks);
    forall i: nat, l: nat | LaneOf(inits, i, l) ensures Halts(k, ThreadOf(ws[i], l)) {
      assert r.ws[i].done && ThreadReached(k, ThreadOf(ws[i], l), ThreadOf(r.ws[i], l));
    }
    assert forall i: nat, l: nat :: i < |ws| && l in inits[i] ==> LaneOf(inits, i, l);
  }

  lemma FinishedIsFinal(k: Program, table: seq<Option<int>>, ws: seq<Warp>, inits: seq<set<nat>>, picks: seq<nat>)
    requires CtaHalting(k, table, ws, inits) && Schedule(picks, |ws|)
    requires var r := Run(k, table, ws, inits, picks); r.Alive? && AllDone(r.ws)
    ensures Run(k, table, ws, inits, picks) ==
            Alive(Finals(k, table, ws, inits), CtaInstructions(k, table, ws, inits))
  {
    var r := Run(k, table, ws, inits, picks);
    RunCounts(k, table, ws, inits, picks);
    NothingLeft(k, table, r.ws, inits);
    forall i | 0 <= i < |r.ws| ensures r.ws[i] == Finals(k, table, r.ws, inits)[i] {}
  }

  /** A run has come to that state exactly when every warp has noticed that its threads have retired. */
  lemma FinishedExactly(k: Program, table: seq<Option<int>>, ws: seq<Warp>, inits: seq<set<nat>>, picks: seq<nat>)
    requires CtaHalting(k, table, ws, inits) && Schedule(picks, |ws|)
    ensures var r := Run(k, table, ws, inits, picks);
      && r.Alive?
      && (AllDone(r.ws) <==> r == Alive(Finals(k, table, ws, inits), CtaInstructions(k, table, ws, inits)))
  {
    RunCounts(k, table, ws, inits, picks);
    if AllDone(Run(k, table, ws, inits, picks).ws) { FinishedIsFinal(k, table, ws, inits, picks); }
  }

  /**
   * Scheduler independence. Two schedules that finish the CTA end in the same state: every
   * warp with the same registers, predicates, local memory, masks and stack, after the same
   * number of steps, with every thread retired.
   */
  lemma ScheduleIndependence(k: Program, table: seq<Option<int>>, ws: seq<Warp>, inits: seq<set<nat>>,
                             p: seq<nat>, q: seq<nat>)
    requires CtaInv(k, ws, inits) && ReconvTable(k, table) && Schedule(p, |ws|) && Schedule(q, |ws|)
    requires var a := Run(k, table, ws, inits, p); a.Alive? && AllDone(a.ws)
    requires var b := Run(k, table, ws, inits, q); b.Alive? && AllDone(b.ws)
    ensures Run(k, table, ws, inits, p) == Run(k, table, ws, inits, q)
    ensures AllExited(Run(k, table, ws, inits, p).ws, inits)
  {
    FinishedHalts(k, table, ws, inits, p);
    FinishedIsFinal(k, table, ws, inits, p);
    FinishedIsFinal(k, table, ws, inits, q);
  }

  /** The instructions are within the threads' own steps, since a warp runs several threads at once. */
  lemma InstructionsWithinWork(k: Program, table: seq<Option<int>>, ws: seq<Warp>, inits: seq<set<nat>>)
    requires CtaHalting(k, table, ws, inits)
    ensures CtaInstructions(k, table, ws, inits) <= Work(k, ws, inits)
  {
    var a, b := Counts(k, table, ws, inits), Works(k, ws, inits);
    forall i | 0 <= i < |ws| ensures a[i] <= b[i] { WithinWork(k, table, ws[i], inits[i]); }
    TotalMonotone(a, b);
  }

  lemma {:induction false} TotalMonotone(a: seq<nat>, b: seq<nat>)
    requires |a| == |b| && forall i :: 0 <= i < |a| ==> a[i] <= b[i]
    ensures Total(a) <= Total(b)
  {
    if a != [] { TotalMonotone(a[..|a| - 1], b[..|b| - 1]); }
  }
}
