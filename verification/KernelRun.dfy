/** One CTA: build its warps, analyse the kernel, run the CTA loop, and what the run achieves. */
module KernelRun {
  import opened Arithmetic
  import opened Options
  import opened Kernel
  import opened ThreadNumbering
  import opened WarpScheduling
  import opened WarpState
  import opened CtaRun
  import opened Completion
  import opened InstructionCount
  import opened Diagnostics
  import CtaLoop
  import CFA = ControlFlowAnalysis

  // ---- The warps of a CTA ----

  function BuiltinsOf(l: Launch, c: Dim3, w: nat, lane: nat): Builtins
    requires Launchable(l)
  {
    Builtins(IndexOf(l.block, ThreadLinear(l, w, lane)), l.block, c, l.grid, lane, w)
  }

  function StartLanes(l: Launch, c: Dim3, w: nat): (r: seq<LaneState>)
    requires Launchable(l)
    ensures |r| == l.warpSize
  {
    seq(l.warpSize, lane requires 0 <= lane < l.warpSize =>
      LaneState(BuiltinsOf(l, c, w, lane), map[], map[], map[], map[]))
  }

  function StartWarp(l: Launch, c: Dim3, n: nat, w: nat): W.Warp
    requires Launchable(l)
  {
    W.Start(n, UpTo(LanesOn(l, w)), StartLanes(l, c, w))
  }

  function StartWarps(l: Launch, c: Dim3, n: nat): (r: seq<W.Warp>)
    requires Launchable(l)
    ensures |r| == WarpCount(l)
  {
    seq(WarpCount(l), w requires 0 <= w < WarpCount(l) => StartWarp(l, c, n, w))
  }

  function StartMasks(l: Launch): (r: seq<set<nat>>)
    requires Launchable(l)
    ensures |r| == WarpCount(l)
  {
    seq(WarpCount(l), w requires 0 <= w < WarpCount(l) => UpTo(LanesOn(l, w)))
  }

  lemma StartWarpInv(l: Launch, c: Dim3, n: nat, w: nat)
    requires Launchable(l) && w < WarpCount(l)
    ensures WarpInvariant.Inv(StartWarp(l, c, n, w), UpTo(LanesOn(l, w)), n)
    ensures W.InWidth(StartWarp(l, c, n, w)) && !StartWarp(l, c, n, w).done
  {
    EveryWarpHasThread(l, w);
    var warp, mask := StartWarp(l, c, n, w), UpTo(LanesOn(l, w));
    assert warp.stack == [W.Frame(0, mask, n, false)];
    assert warp.stack[1..] == [];
    assert W.Top(warp.stack).active == mask;
  }

  lemma StartInv(k: Program, l: Launch, c: Dim3)
    requires Launchable(l)
    ensures CtaInv(k, StartWarps(l, c, |k|), StartMasks(l))
  {
    forall w: nat | w < WarpCount(l)
      ensures WarpInvariant.Inv(StartWarps(l, c, |k|)[w], StartMasks(l)[w], |k|)
      ensures W.InWidth(StartWarps(l, c, |k|)[w]) && !StartWarps(l, c, |k|)[w].done
    {
      StartWarpInv(l, c, |k|, w);
    }
  }

  method MakeWarps(l: Launch, c: Dim3, n: nat) returns (warps: seq<WarpState>)
    requires Launchable(l)
    ensures CtaLoop.Distinct(warps) && forall i :: 0 <= i < |warps| ==> fresh(warps[i])
    ensures CtaLoop.Values(warps) == StartWarps(l, c, n)
  {
    warps := [];
    for w := 0 to WarpCount(l)
      invariant |warps| == w && CtaLoop.Distinct(warps) && forall i :: 0 <= i < |warps| ==> fresh(warps[i])
      invariant forall i: nat :: i < w ==> warps[i].Value() == StartWarp(l, c, n, i)
    {
      var warp := new WarpState(n, UpTo(LanesOn(l, w)), StartLanes(l, c, w));
      warps := warps + [warp];
    }
  }

  // ---- What a CTA run must achieve ----

  /** Every thread of the CTA has returned, in the state the scalar machine computes for it. */
  ghost predicate Retired(k: Program, l: Launch, c: Dim3, o: CtaOutcome)
    requires Launchable(l)
  {
    o.Alive? && |o.ws| == WarpCount(l) &&
    forall w: nat, lane: nat :: ActiveLane(l, w, lane) ==> LaneRetired(k, l, c, w, lane, o.ws[w])
  }

  ghost predicate LaneRetired(k: Program, l: Launch, c: Dim3, w: nat, lane: nat, warp: W.Warp)
    requires Launchable(l) && lane < LanesOn(l, w)
  {
    && lane < |warp.lanes| && lane in warp.exited
    && ThreadReached(k, Running(0, StartLanes(l, c, w)[lane]), Exited(warp.lanes[lane]))
  }

  lemma StartThread(l: Launch, c: Dim3, n: nat, w: nat, lane: nat)
    requires Launchable(l) && ActiveLane(l, w, lane)
    ensures lane < l.warpSize
    ensures WarpInvariant.ThreadOf(StartWarp(l, c, n, w), lane) == Running(0, StartLanes(l, c, w)[lane])
  {
  }

  /** Some thread of the CTA faults when it runs alone. */
  ghost predicate Faults(k: Program, l: Launch, c: Dim3)
    requires Launchable(l)
  {
    StartInv(k, l, c);
    CtaFaults(k, StartWarps(l, c, |k|), StartMasks(l))
  }

  /** Some thread of the CTA comes to the cause of the diagnostic when it runs alone. */
  ghost predicate Blamed(k: Program, l: Launch, c: Dim3, d: W.Diag)
    requires Launchable(l)
  {
    StartInv(k, l, c);
    Blames(k, StartWarps(l, c, |k|), StartMasks(l), d)
  }

  /** Every thread of the CTA returns when it runs alone. */
  ghost predicate Returns(k: Program, l: Launch, c: Dim3)
    requires Launchable(l)
  {
    StartInv(k, l, c);
    CtaHalts(k, StartWarps(l, c, |k|), StartMasks(l))
  }

  ghost function CtaWork(k: Program, l: Launch, c: Dim3): nat
    requires Launchable(l) && Returns(k, l, c)
  {
    StartInv(k, l, c);
    Work(k, StartWarps(l, c, |k|), StartMasks(l))
  }

  /** How many instructions the warps of the CTA execute, whatever the schedule. */
  ghost function CtaSteps(k: Program, l: Launch, c: Dim3): nat
    requires Launchable(l) && CFA.Analyzable(k) && Returns(k, l, c)
  {
    StartHalting(k, l, c);
    CtaInstructions(k, CFA.Table(k), StartWarps(l, c, |k|), StartMasks(l))
  }

  /** The CTA when every warp is done. */
  ghost function CtaFinal(k: Program, l: Launch, c: Dim3): CtaOutcome
    requires Launchable(l) && CFA.Analyzable(k) && Returns(k, l, c)
  {
    StartHalting(k, l, c);
    Alive(Finals(k, CFA.Table(k), StartWarps(l, c, |k|), StartMasks(l)), CtaSteps(k, l, c))
  }

  /** The CTA has ended in that state. */
  ghost predicate Settled(k: Program, l: Launch, c: Dim3, o: CtaOutcome)
    requires Launchable(l) && CFA.Analyzable(k)
  {
    Returns(k, l, c) && o == CtaFinal(k, l, c)
  }

  lemma StartHalting(k: Program, l: Launch, c: Dim3)
    requires Launchable(l) && CFA.Analyzable(k) && Returns(k, l, c)
    ensures CtaHalting(k, CFA.Table(k), StartWarps(l, c, |k|), StartMasks(l))
  {
    StartInv(k, l, c);
    CFA.TableIsComplete(k);
  }

  lemma CtaStepsWithinWork(k: Program, l: Launch, c: Dim3)
    requires Launchable(l) && CFA.Analyzable(k) && Returns(k, l, c)
    ensures CtaSteps(k, l, c) <= CtaWork(k, l, c)
  {
    StartHalting(k, l, c);
    InstructionsWithinWork(k, CFA.Table(k), StartWarps(l, c, |k|), StartMasks(l));
  }

  lemma CtaStepsPositive(k: Program, l: Launch, c: Dim3)
    requires Launchable(l) && CFA.Analyzable(k) && Returns(k, l, c)
    ensures CtaSteps(k, l, c) > 0
  {
    StartHalting(k, l, c);
    EveryWarpHasThread(l, 0);
    NothingLeft(k, CFA.Table(k), StartWarps(l, c, |k|), StartMasks(l));
    assert 0 in StartMasks(l)[0] && StartWarps(l, c, |k|)[0].exited == {};
  }

  /** A CTA whose threads have all returned is one whose threads return when they run alone. */
  lemma RetiredReturns(k: Program, l: Launch, c: Dim3, o: CtaOutcome)
    requires Launchable(l) && Retired(k, l, c, o)
    ensures Returns(k, l, c)
  {
    StartInv(k, l, c);
    forall w: nat, lane: nat | w < WarpCount(l) && lane in StartMasks(l)[w]
      ensures Halts(k, WarpInvariant.ThreadOf(StartWarps(l, c, |k|)[w], lane))
    {
      assert ActiveLane(l, w, lane) && LaneRetired(k, l, c, w, lane, o.ws[w]);
      StartThread(l, c, |k|, w, lane);
    }
  }

  datatype KernelDiag =
    | LaunchDim | LaunchOverflow | BadWarpSize | UnknownMemoryModel | UnknownCtaScheduler | UnknownWarpScheduler
    | Analysis(cfa: CFA.AnalysisDiag) | Execution(diag: W.Diag)

  /** How the run of one CTA may end. */
  ghost predicate CtaEnds(k: Program, l: Launch, c: Dim3, maxSteps: nat, from: nat, diag: Option<W.Diag>, steps: nat,
                          limit: bool, o: CtaOutcome)
    requires Launchable(l) && CFA.Analyzable(k)
  {
    && from <= steps && (steps > from ==> steps <= maxSteps)
    && (diag.Some? ==> !limit && Faults(k, l, c) && Blamed(k, l, c, diag.value) && !Returns(k, l, c))
    && (diag.None? && !limit ==> Retired(k, l, c, o) && Settled(k, l, c, o) && steps < maxSteps)
    && (limit ==> steps >= maxSteps)
    && (from >= maxSteps ==> limit && steps == from && o == Alive(StartWarps(l, c, |k|), 0))
    && (Returns(k, l, c) ==>
          && steps <= from + CtaSteps(k, l, c)
          && (Retired(k, l, c, o) <==> steps == from + CtaSteps(k, l, c)))
  }

  /** All lanes of the CTA have retired, each in the state the scalar machine computes. */
  lemma ExitedIsRetired(k: Program, table: seq<Option<int>>, l: Launch, c: Dim3, picks: seq<nat>, o: CtaOutcome)
    requires Launchable(l) && o.Alive?
    requires CtaLoop.Follows(k, table, StartWarps(l, c, |k|), StartMasks(l), picks, o)
    ensures AllExited(o.ws, StartMasks(l)) <==> Retired(k, l, c, o)
  {
    var start, inits := StartWarps(l, c, |k|), StartMasks(l);
    RunIsSound(k, table, start, inits, picks);
    if AllExited(o.ws, inits) {
      forall w: nat, lane: nat | ActiveLane(l, w, lane) ensures LaneRetired(k, l, c, w, lane, o.ws[w]) {
        assert LaneOf(inits, w, lane) && o.ws[w].exited == inits[w];
        StartThread(l, c, |k|, w, lane);
      }
    }
    if Retired(k, l, c, o) {
      forall w | 0 <= w < |o.ws| ensures o.ws[w].exited == inits[w] {
        assert WarpInvariant.Inv(o.ws[w], inits[w], |k|);
        forall lane | lane in inits[w] ensures lane in o.ws[w].exited {
          assert ActiveLane(l, w, lane) && LaneRetired(k, l, c, w, lane, o.ws[w]);
        }
      }
    }
  }

  /** When no warp is live every thread of the CTA has been retired by RET. */
  lemma DoneIsRetired(k: Program, table: seq<Option<int>>, l: Launch, c: Dim3, picks: seq<nat>, o: CtaOutcome)
    requires Launchable(l) && o.Alive? && NoneLive(CtaLoop.Flags(o.ws))
    requires CtaLoop.Follows(k, table, StartWarps(l, c, |k|), StartMasks(l), picks, o)
    ensures Retired(k, l, c, o)
  {
    forall w | 0 <= w < |o.ws| ensures o.ws[w].exited == StartMasks(l)[w] { assert CtaLoop.Flags(o.ws)[w]; }
    ExitedIsRetired(k, table, l, c, picks, o);
  }

  lemma DoneIsSettled(k: Program, l: Launch, c: Dim3, picks: seq<nat>, o: CtaOutcome)
    requires Launchable(l) && CFA.Analyzable(k) && o.Alive? && NoneLive(CtaLoop.Flags(o.ws))
    requires CtaLoop.Follows(k, CFA.Table(k), StartWarps(l, c, |k|), StartMasks(l), picks, o)
    ensures Retired(k, l, c, o) && Settled(k, l, c, o)
  {
    DoneIsRetired(k, CFA.Table(k), l, c, picks, o);
    RetiredReturns(k, l, c, o);
    StartHalting(k, l, c);
    FinishedIsFinal(k, CFA.Table(k), StartWarps(l, c, |k|), StartMasks(l), picks);
  }

  lemma FailedRun(k: Program, l: Launch, c: Dim3, picks: seq<nat>, o: CtaOutcome)
    requires Launchable(l) && CFA.Analyzable(k) && o.Died?
    requires CtaLoop.Follows(k, CFA.Table(k), StartWarps(l, c, |k|), StartMasks(l), picks, o)
    ensures Faults(k, l, c) && Blamed(k, l, c, o.diag)
  {
    RunIsSound(k, CFA.Table(k), StartWarps(l, c, |k|), StartMasks(l), picks);
    RunFailure(k, CFA.Table(k), StartWarps(l, c, |k|), StartMasks(l), picks);
  }

  lemma CountedRun(k: Program, l: Launch, c: Dim3, picks: seq<nat>, o: CtaOutcome)
    requires Launchable(l) && CFA.Analyzable(k) && Returns(k, l, c)
    requires CtaLoop.Follows(k, CFA.Table(k), StartWarps(l, c, |k|), StartMasks(l), picks, o)
    ensures o.Alive? && o.steps <= CtaSteps(k, l, c)
    ensures Retired(k, l, c, o) <==> o.steps == CtaSteps(k, l, c)
  {
    StartHalting(k, l, c);
    RetiredExactly(k, CFA.Table(k), StartWarps(l, c, |k|), StartMasks(l), picks);
    ExitedIsRetired(k, CFA.Table(k), l, c, picks, o);
  }

  lemma RunEnds(k: Program, l: Launch, c: Dim3, maxSteps: nat, from: nat, picks: seq<nat>, diag: Option<W.Diag>,
                steps: nat, limit: bool, o: CtaOutcome)
    requires Launchable(l) && CFA.Analyzable(k) && from <= steps && (steps > from ==> steps <= maxSteps)
    requires CtaLoop.Follows(k, CFA.Table(k), StartWarps(l, c, |k|), StartMasks(l), picks, o)
    requires diag.Some? ==> o == Died(diag.value) && !limit
    requires diag.None? ==> o.Alive? && o.steps == steps - from
    requires diag.None? && !limit ==> NoneLive(CtaLoop.Flags(o.ws)) && steps < maxSteps
    requires limit ==> steps >= maxSteps
    requires from >= maxSteps ==> limit && steps == from && o == Alive(StartWarps(l, c, |k|), 0)
    ensures CtaEnds(k, l, c, maxSteps, from, diag, steps, limit, o)
  {
    if diag.Some? { FailedRun(k, l, c, picks, o); }
    if Returns(k, l, c) { CountedRun(k, l, c, picks, o); }
    if diag.None? && !limit { DoneIsSettled(k, l, c, picks, o); }
  }

  /** The CTA came to that state under a schedule that the policy makes. */
  ghost predicate Scheduled(k: Program, l: Launch, c: Dim3, policy: Policy, o: CtaOutcome)
    requires Launchable(l)
  {
    exists picks :: CtaLoop.Recorded(policy, k, CFA.Table(k), StartWarps(l, c, |k|), StartMasks(l), picks, o)
  }

  /** The same, with the analysis that precedes the run. */
  ghost predicate CtaReports(k: Program, l: Launch, c: Dim3, policy: Policy, maxSteps: nat, from: nat,
                             diag: Option<KernelDiag>, steps: nat, limit: bool, o: CtaOutcome)
    requires Launchable(l)
  {
    if !CFA.Analyzable(k) then
      diag.Some? && diag.value.Analysis? && CFA.RejectedFor(k, diag.value.cfa) && steps == from
    else
      && (diag.Some? ==> diag.value.Execution?)
      && Scheduled(k, l, c, policy, o)
      && CtaEnds(k, l, c, maxSteps, from, if diag.Some? then Some(diag.value.diag) else None, steps, limit, o)
  }

  /** The diagnostic has its cause in the kernel or in a thread of the CTA. */
  ghost predicate CtaBlames(k: Program, l: Launch, c: Dim3, d: KernelDiag)
    requires Launchable(l)
  {
    && (d.Analysis? ==> CFA.RejectedFor(k, d.cfa))
    && (d.Execution? ==> Faults(k, l, c) && Blamed(k, l, c, d.diag) && !Returns(k, l, c))
  }

  /** The source builds the warps, analyses the kernel, then enters the CTA loop. */
  method RunOneCta(k: Program, l: Launch, c: Dim3, policy: Policy, maxSteps: nat, from: nat)
    returns (diag: Option<KernelDiag>, steps: nat, limit: bool, ghost o: CtaOutcome)
    requires Launchable(l)
    ensures CtaReports(k, l, c, policy, maxSteps, from, diag, steps, limit, o)
    ensures diag.Some? ==> CtaBlames(k, l, c, diag.value)
  {
    var warps := MakeWarps(l, c, |k|);
    var table, d := Analyze(k);
    if d.Some? { return Some(Analysis(d.value)), from, false, Alive([], 0); }
    var sched := new WarpScheduler(policy);
    var e;
    e, steps, limit, o := RunWarps(k, table, l, c, warps, sched, maxSteps, from);
    diag := if e.Some? then Some(Execution(e.value)) else None;
  }

  method Analyze(k: Program) returns (table: seq<Option<int>>, diag: Option<CFA.AnalysisDiag>)
    ensures diag.None? ==> table == CFA.Table(k)
    ensures diag.None? <==> CFA.Analyzable(k)
    ensures diag.Some? ==> CFA.RejectedFor(k, diag.value)
  {
    table, diag := CFA.AnalyzeControlFlow(k);
    if diag.Some? { assert diag.value.InvalidTarget? || diag.value.MissingIpdom?; }
  }

  method RunWarps(k: Program, table: seq<Option<int>>, l: Launch, c: Dim3, warps: seq<WarpState>, sched: WarpScheduler,
                  maxSteps: nat, from: nat)
    returns (diag: Option<W.Diag>, steps: nat, limit: bool, ghost o: CtaOutcome)
    requires Launchable(l) && CFA.Analyzable(k) && table == CFA.Table(k)
    requires CtaLoop.Distinct(warps) && CtaLoop.Values(warps) == StartWarps(l, c, |k|)
    modifies sched, warps
    ensures CtaEnds(k, l, c, maxSteps, from, diag, steps, limit, o) && Scheduled(k, l, c, sched.policy, o)
  {
    ghost var start, inits, picks := StartWarps(l, c, |k|), StartMasks(l), [];
    StartInv(k, l, c);
    CFA.TableIsComplete(k);
    diag, steps, limit, picks, o := CtaLoop.RunCta(k, table, warps, sched, maxSteps, from, inits, start);
    RunEnds(k, l, c, maxSteps, from, picks, diag, steps, limit, o);
  }
}
