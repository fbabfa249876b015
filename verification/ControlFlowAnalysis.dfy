/** The control-flow analysis of a kernel: CFG, post-dominators, reconvergence table. */
module ControlFlowAnalysis {
  import opened Options
  import opened Kernel
  import opened Graph
  import opened PostDom
  import opened Ipdom
  import W = Warp
  import Simulation

  // ---- Classifying an instruction ----

  datatype CtrlInfo = CtrlInfo(hasBra: bool, hasRet: bool, predicated: bool, target: Option<int>)

  /** The target of the last BRA with an immediate operand. */
  function LastTarget(uops: seq<Uop>): Option<int> {
    if uops == [] then None
    else
      var u := uops[|uops| - 1];
      if u.Bra? && u.target.Some? then u.target else LastTarget(uops[..|uops| - 1])
  }

  predicate HasRet(uops: seq<Uop>) {
    exists i :: 0 <= i < |uops| && uops[i].Ret?
  }

  function Info(inst: Inst): CtrlInfo {
    CtrlInfo(HasBra(inst.uops), HasRet(inst.uops), inst.pred.Some?, LastTarget(inst.uops))
  }

  method ClassifyInst(inst: Inst) returns (info: CtrlInfo)
    ensures info == Info(inst)
  {
    info := CtrlInfo(false, false, inst.pred.Some?, None);
    var uops := inst.uops;
    for i := 0 to |uops|
      invariant info == CtrlInfo(HasBra(uops[..i]), HasRet(uops[..i]), inst.pred.Some?, LastTarget(uops[..i]))
    {
      assert uops[..i + 1][..i] == uops[..i] && uops[..i + 1][i] == uops[i];
      assert HasBra(uops[..i]) ==> HasBra(uops[..i + 1]) by { PrefixHas(uops, i); }
      assert HasRet(uops[..i]) ==> HasRet(uops[..i + 1]) by { PrefixHas(uops, i); }
      match uops[i]
      case Bra(target) =>
        info := info.(hasBra := true);
        assert uops[..i + 1][i].Bra?;
        if target.Some? { info := info.(target := target); }
      case Ret =>
        info := info.(hasRet := true);
        assert uops[..i + 1][i].Ret?;
      case _ =>
    }
    assert uops[..|uops|] == uops;
  }

  lemma PrefixHas(uops: seq<Uop>, i: nat)
    requires i < |uops|
    ensures HasBra(uops[..i]) ==> HasBra(uops[..i + 1])
    ensures HasRet(uops[..i]) ==> HasRet(uops[..i + 1])
  {
  }

  // ---- Control-flow graph ----

  /** A predicated branch whose target is missing or outside the kernel, and that does not return. */
  predicate BadBranch(k: Program, pc: nat)
    requires pc < |k|
  {
    k[pc].Some? &&
    var info := Info(k[pc].value);
    !info.hasRet && info.hasBra && info.predicated && (info.target.None? || !(0 <= info.target.value < |k|))
  }

  predicate InKernel(k: Program, target: Option<int>) {
    target.Some? && 0 <= target.value < |k|
  }

  /** The successors of an instruction; the node after the last one is EXIT. */
  function Successors(k: Program, pc: nat): (r: seq<nat>)
    requires pc < |k| && !BadBranch(k, pc)
    ensures r != [] && forall i :: 0 <= i < |r| ==> r[i] <= |k|
  {
    if k[pc].None? then [pc + 1]
    else
      var info := Info(k[pc].value);
      if info.hasRet then [|k|]
      else if !info.hasBra then [pc + 1]
      else if info.predicated then [info.target.value, pc + 1]
      else if info.target.None? then [pc + 1]
      else if InKernel(k, info.target) then [info.target.value]
      else [|k|]
  }

  ghost predicate IsCfg(k: Program, g: Succ) {
    && |g| == |k| + 1 && g[|k|] == []
    && forall pc: nat :: pc < |k| ==> !BadBranch(k, pc) && g[pc] == Successors(k, pc)
  }

  lemma CfgWellFormed(k: Program, g: Succ)
    requires IsCfg(k, g)
    ensures WellFormed(g) && Exit(g) == |k|
    ensures forall pc: nat :: pc < |k| ==> Next(g, pc) == Successors(k, pc)
  {
  }

  /** The graph of a kernel without such branches. */
  ghost function Cfg(k: Program): (g: Succ)
    ensures |g| == |k| + 1 && WellFormed(g)
    ensures forall h :: IsCfg(k, h) ==> h == g
  {
    seq(|k|, pc requires 0 <= pc < |k| => if BadBranch(k, pc) then [] else Successors(k, pc)) + [[]]
  }

  method BuildCfg(k: Program) returns (g: Option<Succ>)
    ensures g.Some? ==> IsCfg(k, g.value)
    ensures g.None? ==> exists pc: nat :: pc < |k| && BadBranch(k, pc)
  {
    var n := |k|;
    var succ: Succ := [];
    for pc := 0 to n
      invariant |succ| == pc
      invariant forall i: nat :: i < pc ==> !BadBranch(k, i) && succ[i] == Successors(k, i)
    {
      var fallthrough := if pc + 1 < n then pc + 1 else n;
      var edges: seq<nat> := [];
      if k[pc].None? {
        edges := [fallthrough];
      } else {
        var info := ClassifyInst(k[pc].value);
        if info.hasRet {
          edges := [n];
        } else if info.hasBra {
          if info.predicated {
            if info.target.None? || info.target.value < 0 || info.target.value >= n {
              assert BadBranch(k, pc);
              return None;
            }
            edges := edges + [info.target.value];
            edges := edges + [fallthrough];
          } else if info.target.None? {
            edges := [fallthrough];
          } else {
            edges := [if 0 <= info.target.value < n then info.target.value else n];
          }
        } else {
          edges := [fallthrough];
        }
      }
      succ := succ + [edges];
    }
    succ := succ + [[]];
    return Some(succ);
  }

  // ---- Choosing the reconvergence point ----

  /** The first immediate post-dominator from `c` on. */
  ghost function FirstImmediate(g: Succ, pc: nat, c: nat): (r: Option<nat>)
    requires WellFormed(g)
    ensures r.Some? ==> Immediate(g, pc, r.value)
    ensures r.None? ==> forall x: nat :: x >= c ==> !Immediate(g, pc, x)
    decreases |g| - c
  {
    if c >= |g| then None else if Immediate(g, pc, c) then Some(c) else FirstImmediate(g, pc, c + 1)
  }

  method SelectIpdom(g: Succ, postdom: array<set<nat>>, pc: nat) returns (r: Option<nat>)
    requires WellFormed(g) && postdom.Length == |g| && pc < |g|
    requires forall i: nat :: i < |g| ==> Exact(g, i, postdom[i])
    ensures r.Some? ==> Immediate(g, pc, r.value) && forall c: nat :: c < r.value ==> !Immediate(g, pc, c)
    ensures r.None? ==> forall c: nat :: !Immediate(g, pc, c)
    ensures r == FirstImmediate(g, pc, 0)
  {
    var n := |g|;
    for c := 0 to n
      invariant forall x: nat :: x < c ==> !Immediate(g, pc, x)
      invariant FirstImmediate(g, pc, 0) == FirstImmediate(g, pc, c)
    {
      if c == pc || c !in postdom[pc] { continue; }
      assert Candidate(g, pc, c);
      var immediate := true;
      var d := 0;
      while d < n && immediate
        invariant d <= n
        invariant immediate ==> forall x: nat :: x < d && Candidate(g, pc, x) && x != c ==> !PostDominates(g, c, x)
        invariant !immediate ==> !Immediate(g, pc, c)
      {
        if d != pc && d != c && d in postdom[pc] && c in postdom[d] {
          assert Candidate(g, pc, d) && PostDominates(g, c, d);
          immediate := false;
        }
        d := d + 1;
      }
      if immediate { return Some(c); }
    }
    return None;
  }

  // ---- The analysis ----

  datatype AnalysisDiag = InvalidTarget | MissingIpdom

  ghost predicate NeedsReconv(k: Program, pc: nat) {
    pc < |k| && k[pc].Some? && k[pc].value.pred.Some? && HasBra(k[pc].value.uops)
  }

  /** The table entry of a predicated branch: an immediate post-dominator, the only one if EXIT is in reach. */
  ghost predicate GoodEntry(g: Succ, pc: nat, entry: Option<int>)
    requires WellFormed(g)
  {
    && entry.Some? && entry.value >= 0
    && Immediate(g, pc, entry.value)
    && (ReachesExit(g, pc) ==>
          forall d: nat :: Candidate(g, pc, d) && d != entry.value ==> PostDominates(g, d, entry.value))
  }

  ghost predicate GoodTable(k: Program, table: seq<Option<int>>) {
    |table| == |k| && exists g :: IsCfg(k, g) && GoodEntries(k, g, table)
  }

  ghost predicate GoodEntries(k: Program, g: Succ, table: seq<Option<int>>) {
    && |table| == |k| && WellFormed(g)
    && forall pc: nat :: NeedsReconv(k, pc) ==> GoodEntry(g, pc, table[pc])
  }

  /** A predicated branch that the analysis must reject. */
  ghost predicate NoReconvergence(k: Program, g: Succ, pc: nat) {
    IsCfg(k, g) && WellFormed(g) && NeedsReconv(k, pc) && !ReachesExit(g, pc) && TwoOthersStuck(g, pc)
  }

  lemma ImmediateIsGood(g: Succ, pc: nat, c: nat)
    requires WellFormed(g) && pc != Exit(g) && Immediate(g, pc, c)
    ensures GoodEntry(g, pc, Some(c))
  {
    if ReachesExit(g, pc) { var u := UniqueIpdom(g, pc); }
  }

  /** The control-flow analysis accepts the kernel. */
  ghost predicate Analyzable(k: Program) {
    && (forall pc: nat :: pc < |k| ==> !BadBranch(k, pc))
    && (forall g, pc: nat :: !NoReconvergence(k, g, pc))
  }

  /** Why the analysis rejects the kernel. */
  ghost predicate RejectedFor(k: Program, d: AnalysisDiag) {
    match d
    case InvalidTarget => exists pc: nat :: pc < |k| && BadBranch(k, pc)
    case MissingIpdom => exists g, pc: nat :: NoReconvergence(k, g, pc)
  }

  /** The table of a kernel: the first immediate post-dominator of each predicated branch. */
  ghost function Table(k: Program): (t: seq<Option<int>>)
    ensures |t| == |k|
  {
    seq(|k|, pc requires 0 <= pc < |k| => TableEntry(k, pc))
  }

  ghost function TableEntry(k: Program, pc: nat): Option<int> {
    if NeedsReconv(k, pc) then FirstImmediate(Cfg(k), pc, 0) else None
  }

  /** The analysis of an accepted kernel leaves no branch without an entry. */
  lemma TableIsComplete(k: Program)
    requires Analyzable(k)
    ensures Simulation.ReconvTable(k, Table(k)) && GoodTable(k, Table(k))
  {
    var g := Cfg(k);
    assert IsCfg(k, g);
    forall pc: nat | NeedsReconv(k, pc) ensures GoodEntry(g, pc, Table(k)[pc]) {
      BranchEdges(k, g, pc);
      MissExactly(g, pc, pc + 1);
      assert !NoReconvergence(k, g, pc);
      ImmediateIsGood(g, pc, FirstImmediate(g, pc, 0).value);
    }
    assert GoodEntries(k, g, Table(k));
    forall pc | 0 <= pc < |k| && k[pc].Some? && k[pc].value.pred.Some? && HasBra(k[pc].value.uops)
      ensures W.ReconvAt(Table(k), pc).Some?
    {
      assert NeedsReconv(k, pc);
    }
  }

  /** The two ways on from a predicated branch, as the exactness lemma needs them. */
  lemma BranchEdges(k: Program, g: Succ, pc: nat)
    requires IsCfg(k, g) && NeedsReconv(k, pc)
    ensures WellFormed(g) && Exit(g) == |k|
    ensures Edge(g, pc, Exit(g)) || Edge(g, pc, pc + 1)
  {
  }

  /**
   * Succeeds with a table that gives every predicated branch its immediate post-dominator.
   * Fails only for an invalid branch target, or for a predicated branch from which EXIT is
   * out of reach together with at least two more nodes.
   */
  method AnalyzeControlFlow(k: Program) returns (table: seq<Option<int>>, diag: Option<AnalysisDiag>)
    ensures diag.None? ==> table == Table(k) && Analyzable(k)
    ensures diag.None? ==> Simulation.ReconvTable(k, table) && GoodTable(k, table)
    ensures diag == Some(InvalidTarget) <==> exists pc: nat :: pc < |k| && BadBranch(k, pc)
    ensures diag == Some(MissingIpdom) <==> exists g, pc: nat :: NoReconvergence(k, g, pc)
  {
    table := seq(|k|, _ => None);
    var cfg := BuildCfg(k);
    if cfg.None? { return table, Some(InvalidTarget); }
    var g := cfg.value;
    CfgWellFormed(k, g);
    var postdom, iters := ComputePostDominators(g);
    for pc := 0 to |k|
      invariant |table| == |k| && postdom.Length == |g|
      invariant forall i: nat :: i < |g| ==> Exact(g, i, postdom[i])
      invariant forall i: nat :: i < |k| ==> table[i] == if i < pc then TableEntry(k, i) else None
      invariant forall i: nat :: i < pc ==> !NoReconvergence(k, g, i)
    {
      if k[pc].Some? {
        var info := ClassifyInst(k[pc].value);
        if info.hasBra && info.predicated {
          BranchEdges(k, g, pc);
          MissExactly(g, pc, pc + 1);
          var r := SelectIpdom(g, postdom, pc);
          if r.None? {
            assert NoReconvergence(k, g, pc);
            return table, Some(MissingIpdom);
          }
          table := table[pc := Some(r.value)];
        }
      }
    }
    forall h: Succ, pc: nat ensures !NoReconvergence(k, h, pc) { if IsCfg(k, h) { assert h == g; } }
    TableIsComplete(k);
    return table, None;
  }
}
