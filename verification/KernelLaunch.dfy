/** A whole kernel launch on one SM: check it, submit the CTAs, run each one, report the result. */
module KernelLaunch {
  import opened Options
  import opened Kernel
  import opened ThreadNumbering
  import opened CtaScheduling
  import opened WarpScheduling
  import opened CtaRun
  import opened KernelRun
  import W = Warp

  /** The selectors name a memory model and the schedulers. */
  datatype Config = Config(warpSize: nat, maxSteps: nat, memoryModel: string, ctaScheduler: string,
                           warpScheduler: string, allowUnknown: bool)

  const U64_MAX := 0xFFFF_FFFF_FFFF_FFFF

  /** The launch with the warp size that the executor uses for it. */
  function Effective(l: Launch, cfg: Config): Launch {
    if l.warpSize == 0 then l.(warpSize := cfg.warpSize) else l
  }

  function PolicyNamed(name: string): Option<Policy> {
    if name == "in_order_run_to_completion" then Some(InOrderRunToCompletion)
    else if name == "round_robin_interleave_step" then Some(RoundRobinInterleaveStep)
    else None
  }

  /** Unknown names stand for the in-order scheduler where the configuration allows them. */
  function PolicyOf(cfg: Config): Policy {
    match PolicyNamed(cfg.warpScheduler)
    case Some(p) => p
    case None => InOrderRunToCompletion
  }

  /** The launch checks, in the order of the source. */
  function LaunchError(l: Launch, cfg: Config): (r: Option<KernelDiag>)
    ensures r.None? ==> Launchable(l)
  {
    if !Positive(l.grid) || !Positive(l.block) then Some(LaunchDim)
    else if Volume(l.block) > U64_MAX then Some(LaunchOverflow)
    else if l.warpSize == 0 || l.warpSize > 32 then Some(BadWarpSize)
    else if cfg.allowUnknown then None
    else if cfg.memoryModel != "no_cache_addrspace" then Some(UnknownMemoryModel)
    else if cfg.ctaScheduler != "fifo" && cfg.ctaScheduler != "sm_round_robin" then Some(UnknownCtaScheduler)
    else if PolicyNamed(cfg.warpScheduler).None? then Some(UnknownWarpScheduler)
    else None
  }

  /** The launch runs with its own warp size, or with the configured one if it has none. */
  lemma EffectiveExactly(l: Launch, cfg: Config)
    ensures var e := Effective(l, cfg);
      && e.grid == l.grid && e.block == l.block
      && (l.warpSize != 0 ==> e.warpSize == l.warpSize) && (l.warpSize == 0 ==> e.warpSize == cfg.warpSize)
  {
  }

  /** The selectors name something that exists. */
  predicate KnownSelectors(cfg: Config) {
    && cfg.memoryModel == "no_cache_addrspace"
    && cfg.ctaScheduler in {"fifo", "sm_round_robin"}
    && cfg.warpScheduler in {"in_order_run_to_completion", "round_robin_interleave_step"}
  }

  /** Exactly which launches are accepted, and which error comes first. */
  lemma AcceptedLaunches(l: Launch, cfg: Config)
    ensures LaunchError(l, cfg).None? <==>
            Launchable(l) && Volume(l.block) <= U64_MAX && (cfg.allowUnknown || KnownSelectors(cfg))
    ensures LaunchError(l, cfg) == Some(LaunchDim) <==>
            0 in {l.grid.x, l.grid.y, l.grid.z, l.block.x, l.block.y, l.block.z}
    ensures LaunchError(l, cfg) == Some(LaunchOverflow) <==>
            Positive(l.grid) && Positive(l.block) && Volume(l.block) > U64_MAX
    ensures LaunchError(l, cfg) == Some(BadWarpSize) <==>
            Positive(l.grid) && Positive(l.block) && Volume(l.block) <= U64_MAX && !(1 <= l.warpSize <= 32)
    ensures LaunchError(l, cfg) == Some(UnknownMemoryModel) ==> cfg.memoryModel != "no_cache_addrspace"
    ensures LaunchError(l, cfg) == Some(UnknownCtaScheduler) ==> cfg.ctaScheduler !in {"fifo", "sm_round_robin"}
    ensures LaunchError(l, cfg) == Some(UnknownWarpScheduler) ==>
              cfg.warpScheduler !in {"in_order_run_to_completion", "round_robin_interleave_step"}
  {
  }

  /** Which scheduler a name selects. */
  lemma SelectedPolicy(cfg: Config)
    ensures PolicyOf(cfg) == RoundRobinInterleaveStep <==> cfg.warpScheduler == "round_robin_interleave_step"
    ensures U64_MAX + 1 == 0x1_0000_0000 * 0x1_0000_0000
  {
  }

  method CheckLaunch(request: Launch, cfg: Config) returns (error: Option<KernelDiag>)
    ensures error == LaunchError(Effective(request, cfg), cfg)
  {
    if request.grid.x == 0 || request.grid.y == 0 || request.grid.z == 0 { return Some(LaunchDim); }
    if request.block.x == 0 || request.block.y == 0 || request.block.z == 0 { return Some(LaunchDim); }
    if Volume(request.block) > U64_MAX { return Some(LaunchOverflow); }
    var warpSize := if request.warpSize == 0 then cfg.warpSize else request.warpSize;
    if warpSize == 0 || warpSize > 32 { return Some(BadWarpSize); }
    if cfg.memoryModel != "no_cache_addrspace" {
      if !cfg.allowUnknown { return Some(UnknownMemoryModel); }
    }
    if cfg.ctaScheduler != "fifo" && cfg.ctaScheduler != "sm_round_robin" {
      if !cfg.allowUnknown { return Some(UnknownCtaScheduler); }
    }
    if PolicyNamed(cfg.warpScheduler).None? {
      if !cfg.allowUnknown { return Some(UnknownWarpScheduler); }
    }
    return None;
  }

  // ---- Submission ----

  /** The CTAs of the grid in the order of their linear index. */
  function GridOrder(grid: Dim3): (r: seq<Dim3>)
    requires Positive(grid)
    ensures |r| == Volume(grid) && forall i: nat :: i < |r| ==> r[i] == IndexOf(grid, i)
  {
    seq(Volume(grid), i requires 0 <= i < Volume(grid) => IndexOf(grid, i))
  }

  function Items(cs: seq<Dim3>): (r: seq<CtaWorkItem>)
    ensures |r| == |cs|
    ensures forall i: nat :: i < |r| ==> r[i] == CtaWorkItem(cs[i].x, cs[i].y, cs[i].z, i)
  {
    seq(|cs|, i requires 0 <= i < |cs| => CtaWorkItem(cs[i].x, cs[i].y, cs[i].z, i))
  }

  lemma ItemsNext(grid: Dim3, c: Dim3)
    requires Positive(grid) && InBox(c, grid)
    ensures var i, cs := SubmitLinear(grid, c), GridOrder(grid);
      i < |cs| && Items(cs[..i]) + [CtaWorkItem(c.x, c.y, c.z, i)] == Items(cs[..i + 1])
  {
    SubmitLinearIsLinear(grid, c);
    LinearThenIndex(grid, c);
  }

  /** Submission walks the grid with x fastest; the queue ends up in linear order. */
  method SubmitAll(grid: Dim3, sched: FifoCtaScheduler)
    requires Positive(grid) && sched.Value() == Init(1)
    modifies sched
    ensures sched.Value() == State([Items(GridOrder(grid))], false, false)
  {
    ghost var cs := GridOrder(grid);
    for cz := 0 to grid.z
      invariant Submitted(sched, cs, (cz * grid.y + 0) * grid.x + 0)
    {
      for cy := 0 to grid.y
        invariant Submitted(sched, cs, (cz * grid.y + cy) * grid.x + 0)
      {
        for cx := 0 to grid.x
          invariant Submitted(sched, cs, (cz * grid.y + cy) * grid.x + cx)
        {
          var linear := (cz * grid.y + cy) * grid.x + cx;
          ItemsNext(grid, Dim3(cx, cy, cz));
          sched.Submit(CtaWorkItem(cx, cy, cz, linear));
        }
        RowEnd(cz * grid.y + cy, grid.x);
      }
      RowEnd(cz, grid.y);
    }
    VolumeOrder(grid);
    assert cs[..|cs|] == cs;
  }

  /** The queue holds the first `n` CTAs. */
  ghost predicate Submitted(sched: FifoCtaScheduler, cs: seq<Dim3>, n: nat)
    reads sched
  {
    n <= |cs| && sched.Value() == State([Items(cs[..n])], false, false)
  }

  lemma RowEnd(a: nat, b: nat)
    ensures a * b + b == (a + 1) * b
  {
  }

  lemma VolumeOrder(d: Dim3)
    ensures d.z * d.y * d.x == Volume(d)
  {
  }

  lemma VolumePositive(d: Dim3)
    requires Positive(d)
    ensures Volume(d) > 0
  {
  }

  // ---- The launch ----

  ghost predicate AllReturn(k: Program, l: Launch, cs: seq<Dim3>)
    requires Launchable(l)
  {
    forall i :: 0 <= i < |cs| ==> Returns(k, l, cs[i])
  }

  /** How many instructions the warps of the CTAs execute, whatever the schedules. */
  ghost function Instructions(k: Program, l: Launch, cs: seq<Dim3>): nat
    requires Launchable(l) && CFA.Analyzable(k) && AllReturn(k, l, cs)
  {
    if cs == [] then 0 else Instructions(k, l, cs[..|cs| - 1]) + CtaSteps(k, l, cs[|cs| - 1])
  }

  /** The scalar steps of all threads of the CTAs. */
  ghost function TotalWork(k: Program, l: Launch, cs: seq<Dim3>): nat
    requires Launchable(l) && AllReturn(k, l, cs)
  {
    if cs == [] then 0 else TotalWork(k, l, cs[..|cs| - 1]) + CtaWork(k, l, cs[|cs| - 1])
  }

  lemma {:induction false} InstructionsWithinTotal(k: Program, l: Launch, cs: seq<Dim3>)
    requires Launchable(l) && CFA.Analyzable(k) && AllReturn(k, l, cs)
    ensures Instructions(k, l, cs) <= TotalWork(k, l, cs)
  {
    if cs != [] {
      InstructionsWithinTotal(k, l, cs[..|cs| - 1]);
      CtaStepsWithinWork(k, l, cs[|cs| - 1]);
    }
  }

  /** Every CTA needs instructions of its own. */
  lemma {:induction false} MoreCtasNeedMore(k: Program, l: Launch, cs: seq<Dim3>, n: nat)
    requires Launchable(l) && CFA.Analyzable(k) && AllReturn(k, l, cs) && n < |cs|
    ensures Instructions(k, l, cs[..n]) < Instructions(k, l, cs)
  {
    var rest := cs[..|cs| - 1];
    CtaStepsPositive(k, l, cs[|cs| - 1]);
    assert rest[..n] == cs[..n];
    if n < |rest| { MoreCtasNeedMore(k, l, rest, n); }
  }

  ghost predicate SomeCtaFaults(k: Program, l: Launch, cs: seq<Dim3>)
    requires Launchable(l)
  {
    exists i :: 0 <= i < |cs| && Faults(k, l, cs[i])
  }

  ghost predicate SomeCtaBlamed(k: Program, l: Launch, cs: seq<Dim3>, d: W.Diag)
    requires Launchable(l)
  {
    exists i :: 0 <= i < |cs| && Blamed(k, l, cs[i], d)
  }

  /** A diagnostic of the launch has its cause in the kernel or in one of the threads. */
  ghost predicate Justified(k: Program, l: Launch, cs: seq<Dim3>, d: KernelDiag)
    requires Launchable(l)
  {
    && (d.Analysis? ==> CFA.RejectedFor(k, d.cfa))
    && (d.Execution? ==> SomeCtaFaults(k, l, cs) && SomeCtaBlamed(k, l, cs, d.diag) && !AllReturn(k, l, cs))
  }

  lemma CtaJustifies(k: Program, l: Launch, cs: seq<Dim3>, i: nat, d: KernelDiag)
    requires Launchable(l) && i < |cs| && CtaBlames(k, l, cs[i], d)
    ensures Justified(k, l, cs, d)
  {
  }

  /** Each of the CTAs ran, and all its threads returned in the states the scalar machine gives. */
  ghost predicate AllRetired(k: Program, l: Launch, cs: seq<Dim3>, runs: seq<CtaOutcome>)
    requires Launchable(l)
  {
    |runs| == |cs| && forall i :: 0 <= i < |cs| ==> Retired(k, l, cs[i], runs[i])
  }

  /** Each of the CTAs has ended in the state that depends on kernel and launch alone. */
  ghost predicate AllSettled(k: Program, l: Launch, cs: seq<Dim3>, runs: seq<CtaOutcome>)
    requires Launchable(l) && (cs != [] ==> CFA.Analyzable(k))
  {
    |runs| == |cs| && forall i :: 0 <= i < |cs| ==> Settled(k, l, cs[i], runs[i])
  }

  /** The first CTA with every thread still at its first instruction. */
  ghost function Untouched(k: Program, l: Launch, cs: seq<Dim3>): CtaOutcome
    requires Launchable(l) && cs != []
  {
    Alive(StartWarps(l, cs[0], |k|), 0)
  }

  function Min(a: nat, b: nat): nat {
    if a < b then a else b
  }

  /** If all threads return, all have retired exactly when all instructions have been executed. */
  ghost predicate Counted(k: Program, l: Launch, cs: seq<Dim3>, steps: nat, runs: seq<CtaOutcome>)
    requires Launchable(l)
  {
    CFA.Analyzable(k) && AllReturn(k, l, cs) ==>
      && steps <= Instructions(k, l, cs)
      && (AllRetired(k, l, cs, runs) <==> steps == Instructions(k, l, cs))
  }

  /** The CTA came to that state under a schedule that the configured policy makes. */
  ghost function UnderPolicy(k: Program, l: Launch, cfg: Config): (Dim3, CtaOutcome) -> bool {
    (c, o) => Launchable(l) && Scheduled(k, l, c, PolicyOf(cfg), o)
  }

  /** `p` holds of the CTAs that ran. */
  ghost predicate AllHold(p: (Dim3, CtaOutcome) -> bool, cs: seq<Dim3>, runs: seq<CtaOutcome>) {
    |runs| <= |cs| && forall i :: 0 <= i < |runs| ==> p(cs[i], runs[i])
  }

  /** Between two CTAs: those in `cs` ran, and `stopped` tells whether the step limit was hit. */
  ghost predicate Between(k: Program, l: Launch, cfg: Config, cs: seq<Dim3>, stopped: bool, steps: nat,
                          runs: seq<CtaOutcome>)
    requires Launchable(l)
  {
    && |runs| == |cs| && (cs != [] ==> CFA.Analyzable(k)) && AllHold(UnderPolicy(k, l, cfg), cs, runs)
    && Counted(k, l, cs, steps, runs)
    && (stopped ==> cs != [] && steps == cfg.maxSteps)
    && (!stopped ==> AllRetired(k, l, cs, runs) && AllSettled(k, l, cs, runs))
    && (!stopped ==> if cs == [] then steps == 0 else steps < cfg.maxSteps)
    && (cfg.maxSteps == 0 ==> steps == 0 && (cs == [] || (stopped && runs == [Untouched(k, l, cs)])))
  }

  /**
   * How a launch of the CTAs `cs` ends. Every thread has been retired exactly if the analysis
   * accepts the kernel, all threads return when they run alone, and the step limit is at
   * least the number of instructions that takes.
   */
  ghost predicate LaunchEnds(k: Program, l: Launch, cfg: Config, cs: seq<Dim3>, diag: Option<KernelDiag>, steps: nat,
                             runs: seq<CtaOutcome>)
    requires Launchable(l)
  {
    && (diag.Some? ==> diag.value.Analysis? || diag.value.Execution?)
    && (diag.Some? && diag.value.Analysis? <==> !CFA.Analyzable(k))
    && (diag.Some? ==> Justified(k, l, cs, diag.value)) && AllHold(UnderPolicy(k, l, cfg), cs, runs)
    && (AllRetired(k, l, cs, runs) <==>
          CFA.Analyzable(k) && AllReturn(k, l, cs) && Instructions(k, l, cs) <= cfg.maxSteps)
    && (CFA.Analyzable(k) && AllReturn(k, l, cs) ==> steps == Min(Instructions(k, l, cs), cfg.maxSteps))
    && (diag.None? && steps < cfg.maxSteps ==> AllRetired(k, l, cs, runs) && AllSettled(k, l, cs, runs))
    && steps <= cfg.maxSteps && (!CFA.Analyzable(k) ==> steps == 0)
    && (CFA.Analyzable(k) && cfg.maxSteps == 0 ==>
          diag.None? && steps == 0 && cs != [] && runs == [Untouched(k, l, cs)])
  }

  lemma InstructionsNext(k: Program, l: Launch, cs: seq<Dim3>, i: nat)
    requires Launchable(l) && CFA.Analyzable(k) && i < |cs| && AllReturn(k, l, cs[..i + 1])
    ensures AllReturn(k, l, cs[..i]) && Returns(k, l, cs[i])
    ensures Instructions(k, l, cs[..i + 1]) == Instructions(k, l, cs[..i]) + CtaSteps(k, l, cs[i])
  {
    var now := cs[..i + 1];
    assert now[..i] == cs[..i] && now[i] == cs[i];
    assert forall j :: 0 <= j < i ==> cs[..i][j] == now[j];
  }

  lemma RetiredNext(k: Program, l: Launch, cs: seq<Dim3>, i: nat, runs: seq<CtaOutcome>, o: CtaOutcome)
    requires Launchable(l) && i < |cs| && AllRetired(k, l, cs[..i], runs)
    ensures AllRetired(k, l, cs[..i + 1], runs + [o]) <==> Retired(k, l, cs[i], o)
  {
    assert cs[..i + 1][i] == cs[i] && (runs + [o])[i] == o;
    assert forall j :: 0 <= j < i ==> cs[..i + 1][j] == cs[..i][j] && (runs + [o])[j] == runs[j];
  }

  lemma SettledNext(k: Program, l: Launch, cs: seq<Dim3>, i: nat, runs: seq<CtaOutcome>, o: CtaOutcome)
    requires Launchable(l) && CFA.Analyzable(k) && i < |cs|
    requires AllSettled(k, l, cs[..i], runs) && Settled(k, l, cs[i], o)
    ensures AllSettled(k, l, cs[..i + 1], runs + [o])
  {
    assert forall j :: 0 <= j < i ==> cs[..i + 1][j] == cs[..i][j] && (runs + [o])[j] == runs[j];
  }

  lemma HoldStill(p: (Dim3, CtaOutcome) -> bool, cs: seq<Dim3>, i: nat, runs: seq<CtaOutcome>)
    requires i <= |cs| && AllHold(p, cs[..i], runs)
    ensures AllHold(p, cs, runs)
  {
    assert forall j :: 0 <= j < |runs| ==> cs[j] == cs[..i][j];
  }

  lemma HoldNext(p: (Dim3, CtaOutcome) -> bool, cs: seq<Dim3>, i: nat, runs: seq<CtaOutcome>, o: CtaOutcome)
    requires i < |cs| && |runs| == i && AllHold(p, cs[..i], runs) && p(cs[i], o)
    ensures AllHold(p, cs[..i + 1], runs + [o])
  {
    assert forall j :: 0 <= j < i ==> cs[..i + 1][j] == cs[..i][j] && (runs + [o])[j] == runs[j];
  }

  lemma NextCta(k: Program, l: Launch, cfg: Config, cs: seq<Dim3>, i: nat, from: nat, runs: seq<CtaOutcome>,
                steps: nat, limit: bool, o: CtaOutcome)
    requires Launchable(l) && i < |cs| && Between(k, l, cfg, cs[..i], false, from, runs)
    requires CtaReports(k, l, cs[i], PolicyOf(cfg), cfg.maxSteps, from, None, steps, limit, o)
    ensures Between(k, l, cfg, cs[..i + 1], limit, steps, runs + [o])
  {
    RetiredNext(k, l, cs, i, runs, o);
    HoldNext(UnderPolicy(k, l, cfg), cs, i, runs, o);
    if !limit { SettledNext(k, l, cs, i, runs, o); }
    if AllReturn(k, l, cs[..i + 1]) { InstructionsNext(k, l, cs, i); }
  }

  lemma FailedCta(k: Program, l: Launch, cfg: Config, cs: seq<Dim3>, i: nat, from: nat, runs: seq<CtaOutcome>,
                  d: KernelDiag, steps: nat, limit: bool, o: CtaOutcome)
    requires Launchable(l) && i < |cs| && Between(k, l, cfg, cs[..i], false, from, runs)
    requires CtaReports(k, l, cs[i], PolicyOf(cfg), cfg.maxSteps, from, Some(d), steps, limit, o)
    requires CtaBlames(k, l, cs[i], d)
    ensures LaunchEnds(k, l, cfg, cs, Some(d), steps, runs)
  {
    HoldStill(UnderPolicy(k, l, cfg), cs, i, runs);
    CtaJustifies(k, l, cs, i, d);
  }

  lemma RetiredReturn(k: Program, l: Launch, cs: seq<Dim3>, runs: seq<CtaOutcome>)
    requires Launchable(l) && AllRetired(k, l, cs, runs)
    ensures AllReturn(k, l, cs)
  {
    forall i | 0 <= i < |cs| ensures Returns(k, l, cs[i]) { RetiredReturns(k, l, cs[i], runs[i]); }
  }

  lemma LastCta(k: Program, l: Launch, cfg: Config, cs: seq<Dim3>, i: nat, stopped: bool, steps: nat,
                runs: seq<CtaOutcome>)
    requires Launchable(l) && cs != [] && i <= |cs| && Between(k, l, cfg, cs[..i], stopped, steps, runs)
    requires stopped || i == |cs|
    ensures LaunchEnds(k, l, cfg, cs, None, steps, runs)
  {
    HoldStill(UnderPolicy(k, l, cfg), cs, i, runs);
    if AllRetired(k, l, cs, runs) { RetiredReturn(k, l, cs, runs); }
    if i == |cs| {
      assert cs[..i] == cs;
    } else if AllReturn(k, l, cs) {
      assert AllReturn(k, l, cs[..i]);
      MoreCtasNeedMore(k, l, cs, i);
    }
  }

  /** Acquiring from the closed queue that still holds the CTAs from `i` on. */
  lemma AcquireFrom(cs: seq<Dim3>, i: nat, stop: bool)
    requires i <= |cs|
    ensures Apply(State([Items(cs)[i..]], true, stop), Acquire(0)) ==
            if stop || i == |cs| then (State([Items(cs)[i..]], true, stop), Some(Nothing))
            else (State([Items(cs)[i + 1..]], true, false), Some(Item(CtaWorkItem(cs[i].x, cs[i].y, cs[i].z, i))))
  {
    var q := Items(cs)[i..];
    if i < |cs| { assert [q][0 := q[1..]] == [Items(cs)[i + 1..]]; }
  }

  /** Acquire the next CTA and run it; the step limit or a diagnostic stops the scheduler. */
  method ServeOne(k: Program, l: Launch, cfg: Config, sched: FifoCtaScheduler, from: nat, ghost cs: seq<Dim3>,
                  ghost i: nat, ghost stopped: bool)
    returns (more: bool, diag: Option<KernelDiag>, steps: nat, ghost limit: bool, ghost o: CtaOutcome)
    requires Launchable(l) && i <= |cs| && sched.Value() == State([Items(cs)[i..]], true, stopped)
    modifies sched
    ensures more <==> i < |cs| && !stopped
    ensures !more ==> diag.None? && steps == from
    ensures more ==> CtaReports(k, l, cs[i], PolicyOf(cfg), cfg.maxSteps, from, diag, steps, limit, o)
    ensures more && diag.Some? ==> CtaBlames(k, l, cs[i], diag.value)
    ensures more && diag.None? ==> sched.Value() == State([Items(cs)[i + 1..]], true, limit)
  {
    AcquireFrom(cs, i, stopped);
    var reply := sched.Acquire(0);
    if !reply.Item? { return false, None, from, stopped, Alive([], 0); }
    var stop;
    diag, steps, stop, o :=
      RunOneCta(k, l, Dim3(reply.item.cx, reply.item.cy, reply.item.cz), PolicyOf(cfg), cfg.maxSteps, from);
    if diag.Some? || stop { sched.RequestStop(); }
    more, limit := true, stop;
  }

  /**
   * The single-threaded driver: CTAs run one after the other until the queue is empty, a
   * diagnostic occurs, or the step limit stops the scheduler. `runs` holds how the CTAs ended.
   */
  method RunCtas(k: Program, l: Launch, cfg: Config, sched: FifoCtaScheduler, ghost cs: seq<Dim3>)
    returns (diag: Option<KernelDiag>, steps: nat, ghost runs: seq<CtaOutcome>)
    requires Launchable(l) && cs != [] && sched.Value() == State([Items(cs)], true, false)
    modifies sched
    ensures LaunchEnds(k, l, cfg, cs, diag, steps, runs)
  {
    diag, steps, runs := None, 0, [];
    ghost var i, stopped := 0, false;
    while true
      invariant diag.None? && i <= |cs| && Between(k, l, cfg, cs[..i], stopped, steps, runs)
      invariant sched.Value() == State([Items(cs)[i..]], true, stopped)
      decreases |cs| - i
    {
      var more;
      ghost var from, limit, o := steps, false, Untouched(k, l, cs);
      more, diag, steps, limit, o := ServeOne(k, l, cfg, sched, steps, cs, i, stopped);
      if !more {
        LastCta(k, l, cfg, cs, i, stopped, steps, runs);
        return;
      }
      if diag.Some? {
        FailedCta(k, l, cfg, cs, i, from, runs, diag.value, steps, limit, o);
        return;
      }
      NextCta(k, l, cfg, cs, i, from, runs, steps, limit, o);
      runs, stopped, i := runs + [o], limit, i + 1;
    }
  }

  /**
   * Runs a kernel. When all threads return, the launch always reports completion, after as
   * many steps as the kernel has instructions or the limit allows; the report is right
   * exactly if the limit is no smaller than that number, which depends on the kernel and the
   * launch alone. An execution diagnostic means that some thread faults when it runs alone.
   * With a limit of zero the launch completes although no thread has started.
   */
  method RunKernel(k: Program, request: Launch, cfg: Config)
    returns (completed: bool, diag: Option<KernelDiag>, steps: nat, ghost runs: seq<CtaOutcome>)
    ensures completed <==> diag.None?
    ensures var l := Effective(request, cfg);
      if LaunchError(l, cfg).Some? then diag == LaunchError(l, cfg) && steps == 0 && runs == []
      else LaunchEnds(k, l, cfg, GridOrder(l.grid), diag, steps, runs)
  {
    diag := CheckLaunch(request, cfg);
    if diag.Some? { return false, diag, 0, []; }
    var l := Effective(request, cfg);
    VolumePositive(l.grid);
    var sched := new FifoCtaScheduler(1);
    SubmitAll(l.grid, sched);
    sched.Close();
    diag, steps, runs := RunCtas(k, l, cfg, sched, GridOrder(l.grid));
    completed := diag.None?;
  }

  /** The steps of a launch stay within the sum of the threads' own steps. */
  lemma StepsWithinWork(k: Program, l: Launch, cfg: Config, cs: seq<Dim3>, diag: Option<KernelDiag>, steps: nat,
                        runs: seq<CtaOutcome>)
    requires Launchable(l) && LaunchEnds(k, l, cfg, cs, diag, steps, runs) && AllReturn(k, l, cs)
    ensures steps <= TotalWork(k, l, cs)
  {
    if CFA.Analyzable(k) { InstructionsWithinTotal(k, l, cs); }
  }

  // ---- The schedulers and the step limit do not matter ----

  /** Every thread of the CTA has the same registers, predicates and local memory in both. */
  ghost predicate SameThreads(l: Launch, a: CtaOutcome, b: CtaOutcome)
    requires Launchable(l)
  {
    && a.Alive? && b.Alive? && |a.ws| == |b.ws| == WarpCount(l)
    && forall w: nat, lane: nat :: ActiveLane(l, w, lane) ==> SameLane(a.ws[w], b.ws[w], lane)
  }

  predicate SameLane(a: W.Warp, b: W.Warp, lane: nat) {
    lane < |a.lanes| && lane < |b.lanes| && a.lanes[lane] == b.lanes[lane]
  }

  lemma RetiredSame(k: Program, l: Launch, c: Dim3, a: CtaOutcome, b: CtaOutcome)
    requires Launchable(l) && Retired(k, l, c, a) && Retired(k, l, c, b)
    ensures SameThreads(l, a, b)
  {
    forall w: nat, lane: nat | ActiveLane(l, w, lane) ensures SameLane(a.ws[w], b.ws[w], lane) {
      assert LaneRetired(k, l, c, w, lane, a.ws[w]) && LaneRetired(k, l, c, w, lane, b.ws[w]);
      HaltsOnce(k, Running(0, StartLanes(l, c, w)[lane]), Exited(a.ws[w].lanes[lane]), Exited(b.ws[w].lanes[lane]));
    }
  }

  /**
   * Two launches of the same CTAs under any configurations: if both retire all threads, they
   * take the same number of steps and leave every thread in the same state. If neither ends
   * on its step limit, they end with identical warps. A launch that ends on its limit may stop
   * before it has marked its last warps as done, so there the stacks depend on the schedule.
   */
  lemma ConfigIndependence(k: Program, l: Launch, cs: seq<Dim3>,
                           cfg: Config, diag: Option<KernelDiag>, steps: nat, runs: seq<CtaOutcome>,
                           cfg': Config, diag': Option<KernelDiag>, steps': nat, runs': seq<CtaOutcome>)
    requires Launchable(l) && LaunchEnds(k, l, cfg, cs, diag, steps, runs)
    requires LaunchEnds(k, l, cfg', cs, diag', steps', runs')
    requires AllRetired(k, l, cs, runs) && AllRetired(k, l, cs, runs')
    ensures diag == diag' == None && steps == steps'
    ensures forall i :: 0 <= i < |cs| ==> SameThreads(l, runs[i], runs'[i])
    ensures steps < cfg.maxSteps && steps < cfg'.maxSteps ==> runs == runs'
  {
    forall i | 0 <= i < |cs| ensures SameThreads(l, runs[i], runs'[i]) {
      RetiredSame(k, l, cs[i], runs[i], runs'[i]);
    }
    if steps < cfg.maxSteps && steps < cfg'.maxSteps {
      forall i | 0 <= i < |cs| ensures runs[i] == runs'[i] {
        assert Settled(k, l, cs[i], runs[i]) && Settled(k, l, cs[i], runs'[i]);
      }
    }
  }
}
