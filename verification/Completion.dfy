/**
 * Completeness of CTA runs: when every thread returns on its own, no schedule can fail or
 * run longer than the threads' own work.
 */
module Completion {
  import opened Options
  import opened Kernel
  import opened Warp
  import opened WarpInvariant
  import opened Simulation
  import opened CtaRun

  // ---- How long a thread runs on its own ----

  ghost predicate HaltsAt(k: Program, t: Thread, m: nat) {
    ScalarRun(k, t, m).Exited? && (m > 0 ==> ScalarRun(k, t, m - 1).Running?)
  }

  ghost predicate Halts(k: Program, t: Thread) {
    exists m: nat :: ScalarRun(k, t, m).Exited?
  }

  lemma {:induction false} HaltsAtSome(k: Program, t: Thread, m: nat) returns (n: nat)
    requires ScalarRun(k, t, m).Exited?
    ensures n <= m && HaltsAt(k, t, n)
  {
    n := m;
    if m > 0 {
      ScalarRunLast(k, t, m - 1);
      if !ScalarRun(k, t, m - 1).Running? { n := HaltsAtSome(k, t, m - 1); }
    }
  }

  lemma HaltsAtExists(k: Program, t: Thread, m: nat)
    requires ScalarRun(k, t, m).Exited?
    ensures exists n: nat :: HaltsAt(k, t, n)
  {
    var n := HaltsAtSome(k, t, m);
  }

  lemma HaltsAtUnique(k: Program, t: Thread, m: nat, n: nat)
    requires HaltsAt(k, t, m) && HaltsAt(k, t, n)
    ensures m == n
  {
    if m < n {
      ScalarRunAdd(k, t, m, n - 1 - m);
      ScalarRunHalted(k, ScalarRun(k, t, m), n - 1 - m);
    } else if n < m {
      ScalarRunAdd(k, t, n, m - 1 - n);
      ScalarRunHalted(k, ScalarRun(k, t, n), m - 1 - n);
    }
  }

  /** The number of scalar steps until the thread returns. */
  ghost function StepsLeft(k: Program, t: Thread): (m: nat)
    requires Halts(k, t)
    ensures HaltsAt(k, t, m)
  {
    var n: nat :| ScalarRun(k, t, n).Exited?;
    HaltsAtExists(k, t, n);
    var m: nat :| HaltsAt(k, t, m);
    m
  }

  lemma StepPays(k: Program, t: Thread)
    requires Halts(k, t) && t.Running?
    ensures Halts(k, ScalarStep(k, t)) && StepsLeft(k, ScalarStep(k, t)) + 1 == StepsLeft(k, t)
  {
    var m := StepsLeft(k, t);
    assert ScalarRun(k, ScalarStep(k, t), m - 1) == ScalarRun(k, t, m);
    assert HaltsAt(k, ScalarStep(k, t), m - 1);
    HaltsAtUnique(k, ScalarStep(k, t), m - 1, StepsLeft(k, ScalarStep(k, t)));
  }

  lemma NeverFaults(k: Program, t: Thread)
    requires Halts(k, t)
    ensures !ThreadReached(k, t, Faulted)
  {
    if ThreadReached(k, t, Faulted) {
      var m: nat :| ScalarRun(k, t, m).Exited?;
      HaltsOnce(k, t, Faulted, ScalarRun(k, t, m));
    }
  }

  // ---- The work left in a warp and in a CTA ----

  ghost predicate WarpHalts(k: Program, w: Warp, init: set<nat>)
    requires forall l :: l in init ==> l < |w.lanes|
  {
    forall l :: l in init ==> Halts(k, ThreadOf(w, l))
  }

  ghost function WarpWork(k: Program, w: Warp, init: set<nat>, j: nat): nat
    requires forall l :: l in init ==> l < |w.lanes|
    requires WarpHalts(k, w, init)
  {
    if j == 0 then 0
    else WarpWork(k, w, init, j - 1) + if j - 1 in init then StepsLeft(k, ThreadOf(w, j - 1)) else 0
  }

  lemma {:induction false} WarpWorkDrops(k: Program, w: Warp, w': Warp, init: set<nat>, moved: set<nat>, j: nat)
    requires forall l :: l in init ==> l < |w.lanes| && l < |w'.lanes|
    requires WarpHalts(k, w, init) && Advances(k, w, w', init, moved)
    ensures WarpHalts(k, w', init)
    ensures WarpWork(k, w', init, j) <= WarpWork(k, w, init, j)
    ensures (exists l :: l in moved && l in init && l < j) ==> WarpWork(k, w', init, j) < WarpWork(k, w, init, j)
  {
    forall l | l in init ensures Halts(k, ThreadOf(w', l)) {
      if l in moved { StepPays(k, ThreadOf(w, l)); }
    }
    if j > 0 {
      WarpWorkDrops(k, w, w', init, moved, j - 1);
      if j - 1 in init && j - 1 in moved { StepPays(k, ThreadOf(w, j - 1)); }
    }
  }

  ghost predicate CtaHalts(k: Program, ws: seq<Warp>, inits: seq<set<nat>>)
    requires CtaInv(k, ws, inits)
  {
    forall i :: 0 <= i < |ws| ==> WarpHalts(k, ws[i], inits[i])
  }

  /** The work of each warp, in scalar steps. */
  ghost function Works(k: Program, ws: seq<Warp>, inits: seq<set<nat>>): (r: seq<nat>)
    requires CtaInv(k, ws, inits) && CtaHalts(k, ws, inits)
    ensures |r| == |ws|
  {
    seq<nat>(|ws|, i requires 0 <= i < |ws| => WarpWork(k, ws[i], inits[i], |ws[i].lanes|))
  }

  function Total(s: seq<nat>): nat {
    if s == [] then 0 else Total(s[..|s| - 1]) + s[|s| - 1]
  }

  ghost function Work(k: Program, ws: seq<Warp>, inits: seq<set<nat>>): nat
    requires CtaInv(k, ws, inits) && CtaHalts(k, ws, inits)
  {
    Total(Works(k, ws, inits))
  }

  lemma {:induction false} TotalChanges(s: seq<nat>, c: nat, x: nat)
    requires c < |s|
    ensures Total(s[c := x]) + s[c] == Total(s) + x
  {
    var n := |s| - 1;
    if c < n {
      assert s[c := x][..n] == s[..n][c := x];
      TotalChanges(s[..n], c, x);
    } else {
      assert s[c := x][..n] == s[..n];
    }
  }

  lemma WorkAtOneWarp(k: Program, a: seq<Warp>, b: seq<Warp>, inits: seq<set<nat>>, c: nat)
    requires CtaInv(k, a, inits) && CtaInv(k, b, inits) && CtaHalts(k, a, inits) && CtaHalts(k, b, inits)
    requires c < |a| == |b| && b == a[c := b[c]]
    ensures Work(k, b, inits) + Works(k, a, inits)[c] == Work(k, a, inits) + Works(k, b, inits)[c]
  {
    assert Works(k, b, inits) == Works(k, a, inits)[c := Works(k, b, inits)[c]];
    TotalChanges(Works(k, a, inits), c, Works(k, b, inits)[c]);
  }

  /** A turn fails no halting CTA, and an executed instruction pays for itself. */
  lemma TurnPays(k: Program, table: seq<Option<int>>, o: CtaOutcome, inits: seq<set<nat>>, i: nat)
    requires o.Alive? && CtaInv(k, o.ws, inits) && i < |o.ws| && ReconvTable(k, table) && CtaHalts(k, o.ws, inits)
    ensures var r := Turn(k, table, o, i);
      && r.Alive? && CtaInv(k, r.ws, inits) && CtaHalts(k, r.ws, inits) && |r.ws| == |o.ws|
      && r.steps + Work(k, r.ws, inits) <= o.steps + Work(k, o.ws, inits)
  {
    TurnReaches(k, table, o, inits, i);
    var r := Turn(k, table, o, i);
    if r.Died? {
      var c: nat, l: nat :| LaneOf(inits, c, l) && ThreadReached(k, ThreadOf(o.ws[c], l), Faulted);
      NeverFaults(k, ThreadOf(o.ws[c], l));
    } else if !o.ws[i].done {
      var w, init := o.ws[i], inits[i];
      StepSimulates(k, table, w, init);
      var moved := if Step(k, table, w).Drained? then {} else Normalize(w).w.active;
      WarpWorkDrops(k, w, r.ws[i], init, moved, |w.lanes|);
      if moved != {} { var l :| l in moved; assert l in init && l < |w.lanes|; }
      StepKeepsWidth(k, table, w);
      WorkAtOneWarp(k, o.ws, r.ws, inits, i);
    } else {
      assert r == o;
    }
  }

  lemma {:induction false} UopsKeepWidth(table: seq<Option<int>>, uops: seq<Uop>, g: set<nat>, o: Outcome)
    requires o.Going? && InWidth(o.w)
    ensures var r := WarpUops(table, uops, g, o); r.Going? ==> |r.w.lanes| == |o.w.lanes|
  {
    if uops != [] {
      var o1 := WarpUop(table, uops[0], g, o);
      if o1.Going? { UopsKeepWidth(table, uops[1..], g, o1); } else { FailedStays(table, uops[1..], g, o1.diag); }
    }
  }

  lemma {:induction false} NormalizeKeepsWidth(w: Warp)
    ensures |Normalize(w).w.lanes| == |w.lanes|
    decreases |w.stack|
  {
    if w.stack != [] {
      var rest := Pop(w.stack);
      var top := Top(w.stack).(active := Top(w.stack).active - w.exited);
      NormalizeKeepsWidth(w.(stack := rest));
      if FindJoin(rest, top.pc).Some? {
        NormalizeKeepsWidth(w.(stack := Merge(rest, FindJoin(rest, top.pc).value, top.active)));
      }
    }
  }

  lemma StepKeepsWidth(k: Program, table: seq<Option<int>>, w: Warp)
    requires InWidth(w)
    ensures var r := Step(k, table, w); !r.Aborted? ==> |r.w.lanes| == |w.lanes|
  {
    NormalizeKeepsWidth(w);
    var w1 := Normalize(w).w;
    if Normalize(w).Ready? && 0 <= w1.pc < |k| && k[w1.pc].Some? && PredInRange(k[w1.pc].value) {
      var inst := k[w1.pc].value;
      UopsKeepWidth(table, inst.uops, Guard(inst, w1), Going(w1, None, None));
    }
  }

  /**
   * Completeness. When every thread of the CTA returns on its own, no schedule ends in a
   * diagnostic, and the steps taken plus the work left never exceed the work at the start.
   */
  lemma {:induction false} RunIsComplete(k: Program, table: seq<Option<int>>, ws: seq<Warp>, inits: seq<set<nat>>,
                                         picks: seq<nat>)
    requires CtaInv(k, ws, inits) && ReconvTable(k, table) && Schedule(picks, |ws|) && CtaHalts(k, ws, inits)
    ensures var r := Run(k, table, ws, inits, picks);
      && r.Alive? && CtaHalts(k, r.ws, inits)
      && r.steps + Work(k, r.ws, inits) <= Work(k, ws, inits)
  {
    if picks != [] {
      var o := Run(k, table, ws, inits, picks[..|picks| - 1]);
      RunIsComplete(k, table, ws, inits, picks[..|picks| - 1]);
      TurnPays(k, table, o, inits, picks[|picks| - 1]);
    }
  }
}
