/**
 * Branches that share a reconvergence point. The design asks that all lanes of a branch
 * merge before they run on; the executor does not do this when a nested branch has the same
 * immediate post-dominator, because its join runs at once instead of merging outwards.
 */
module SharedReconvergence {
  import opened Options
  import opened Kernel
  import opened Graph
  import opened Ipdom
  import opened Warp
  import opened WarpInvariant
  import opened ControlFlowAnalysis
  import opened Reconvergence
  import opened Simulation
  import opened Together

  /** p0 for lane 0, p1 for lane 1. */
  function SetPredicates(s: LaneState): Option<LaneState> {
    Some(s.(p := map[0 := s.env.laneid == 0, 1 := s.env.laneid == 1]))
  }

  function Unchanged(s: LaneState): Option<LaneState> {
    Some(s)
  }

  /** setp; @p0 bra 4; @p1 bra 4; mov; ret */
  function Nested(): Program {
    [ Some(Inst(None, [Exec(SetPredicates)])),
      Some(Inst(Some(Pred(0, false)), [Bra(Some(4))])),
      Some(Inst(Some(Pred(1, false)), [Bra(Some(4))])),
      Some(Inst(None, [Exec(Unchanged)])),
      Some(Inst(None, [Ret])) ]
  }

  const TABLE: seq<Option<int>> := [None, Some(4), Some(4), None, None]

  const CFG: Succ := [[1], [4, 2], [4, 3], [4], [5], []]

  // ---- The table is the one the analysis computes ----

  lemma CfgOfNested()
    ensures IsCfg(Nested(), CFG) && WellFormed(CFG)
  {
    var k := Nested();
    assert k[1].value.uops[0].Bra? && k[2].value.uops[0].Bra? && k[4].value.uops[0].Ret?;
    assert LastTarget(k[1].value.uops) == Some(4) && LastTarget(k[2].value.uops) == Some(4);
  }

  lemma EveryPathEndsAt4(i: nat)
    requires i < 5
    ensures WellFormed(CFG) && PostDominates(CFG, 4, i)
  {
    forall p | ExitPath(CFG, i, p) ensures 4 in p {
      assert EdgeAt(CFG, p, |p| - 2);
      assert p[|p| - 2] == 4;
    }
  }

  lemma BranchReconvergesAt4(b: nat)
    requires b == 1 || b == 2
    ensures WellFormed(CFG) && ReachesExit(CFG, b) && GoodEntry(CFG, b, Some(4))
  {
    EveryPathEndsAt4(b);
    var p: seq<nat> := [b, 4, 5];
    assert EdgeAt(CFG, p, 0) && EdgeAt(CFG, p, 1);
    assert ExitPath(CFG, b, p);
    assert ExitPath(CFG, 5, [5]);
    forall d: nat | Candidate(CFG, b, d) && d != 4 ensures d == 5 { assert d in p; }
    forall q | ExitPath(CFG, 4, q) ensures 5 in q { assert q[|q| - 1] == 5; }
  }

  lemma TableIsGood()
    ensures GoodTable(Nested(), TABLE) && Regular(Nested(), CFG, TABLE) && ReconvTable(Nested(), TABLE)
  {
    CfgOfNested();
    BranchReconvergesAt4(1);
    BranchReconvergesAt4(2);
    assert forall pc: nat :: NeedsReconv(Nested(), pc) ==> pc == 1 || pc == 2;
    assert GoodEntries(Nested(), CFG, TABLE);
  }

  // ---- The run of a warp with three lanes ----

  function Lane(id: nat): LaneState {
    LaneState(Builtins(Dim3(id, 0, 0), Dim3(3, 1, 1), Dim3(0, 0, 0), Dim3(1, 1, 1), id, 0), map[], map[], map[], map[])
  }

  function LaneWithPredicates(id: nat): LaneState {
    Lane(id).(p := map[0 := id == 0, 1 := id == 1])
  }

  function State(pc: int, active: set<nat>, stack: seq<Frame>): Warp {
    Warp(pc, active, false, {}, stack, [LaneWithPredicates(0), LaneWithPredicates(1), LaneWithPredicates(2)])
  }

  function Run(): (t: seq<Warp>)
    ensures |t| == 5
  {
    [ Start(5, {0, 1, 2}, [Lane(0), Lane(1), Lane(2)]),
      State(1, {0, 1, 2}, [Frame(1, {0, 1, 2}, 5, false)]),
      State(4, {0}, [Frame(4, {}, 5, true), Frame(2, {1, 2}, 4, false), Frame(4, {0}, 4, false)]),
      State(4, {1}, [Frame(4, {0}, 5, true), Frame(4, {}, 4, true), Frame(3, {2}, 4, false), Frame(4, {1}, 4, false)]),
      State(4, {2}, [Frame(4, {0}, 5, true), Frame(4, {1}, 4, true), Frame(4, {2}, 4, false)]) ]
  }

  lemma TopRuns(w: Warp)
    requires Normal(w) && Top(w.stack).pc != Top(w.stack).reconv
    ensures Normalize(w) == Ready(w)
  {
    var top := Top(w.stack);
    assert top.active - w.exited == top.active;
    assert Pop(w.stack) + [top] == w.stack;
  }

  /** The lanes of the top frame arrive at their join, and the frame `f` below them runs. */
  lemma TopArrives(w: Warp, joins: seq<Frame>, f: Frame, merged: seq<Frame>)
    requires w.exited == {} && w.stack != [] && w.stack == joins + [f, Top(w.stack)]
    requires !Top(w.stack).isJoin && Top(w.stack).pc == Top(w.stack).reconv && Top(w.stack).active != {}
    requires !f.isJoin && f.pc != f.reconv && f.active != {}
    requires joins != [] && Top(joins).isJoin && Top(joins).pc == Top(w.stack).pc
    requires merged == SetTop(joins, Top(joins).(active := Top(joins).active + Top(w.stack).active))
    ensures Normalize(w) == Ready(w.(stack := merged + [f], pc := f.pc, active := f.active))
  {
    var top := Top(w.stack);
    assert top.active - w.exited == top.active;
    assert Pop(w.stack) == joins + [f];
    assert Pop(joins + [f]) == joins;
    assert FindJoin(joins + [f], top.pc) == FindJoin(joins, top.pc) == Some(|joins| - 1);
    assert Merge(joins + [f], |joins| - 1, top.active) == merged + [f];
    OneRound(w);
    TopRuns(w.(stack := merged + [f], pc := f.pc, active := f.active));
    OneRound(w.(stack := merged + [f]));
    assert f.active - w.exited == f.active;
  }

  lemma OneUop(u: Uop, g: set<nat>, o: Outcome)
    requires o.Going? ==> InWidth(o.w)
    ensures WarpUops(TABLE, [u], g, o) == WarpUop(TABLE, u, g, o)
  {
    assert [u][1..] == [];
  }

  lemma SetpLanes()
    ensures ExecLanes(SetPredicates, {0, 1, 2}, [Lane(0), Lane(1), Lane(2)]) ==
            [LaneWithPredicates(0), LaneWithPredicates(1), LaneWithPredicates(2)]
  {
    forall id: nat ensures SetPredicates(Lane(id)) == Some(LaneWithPredicates(id)) {}
  }

  /** From normalising and executing to a step. */
  lemma StepBy(w: Warp, v: Warp, u: Warp)
    requires InWidth(w) && Normalize(w) == Ready(v) && Execute(Nested(), TABLE, v) == Advanced(u)
    ensures Step(Nested(), TABLE, w) == Advanced(u)
  {
  }

  /** `u` is `v` after a micro-op on all running lanes. */
  ghost predicate Moves(v: Warp, u: Warp, f: LaneState -> Option<LaneState>) {
    && v.stack != [] && InWidth(v)
    && u == v.(lanes := ExecLanes(f, v.active, v.lanes), pc := v.pc + 1, active := Top(v.stack).active,
               stack := SetTop(v.stack, Top(v.stack).(pc := v.pc + 1)))
  }

  lemma ExecExecutes(v: Warp, u: Warp, f: LaneState -> Option<LaneState>)
    requires Moves(v, u, f) && 0 <= v.pc < 5 && Nested()[v.pc] == Some(Inst(None, [Exec(f)]))
    requires forall s: LaneState :: f(s).Some?
    ensures Execute(Nested(), TABLE, v) == Advanced(u)
  {
    var inst := Nested()[v.pc].value;
    var g := Guard(inst, v);
    assert v.active * g == v.active;
    OneUop(inst.uops[0], g, Going(v, None, None));
  }

  /** `u` is `v` after a branch to 4 that the lanes in `g` take and others do not. */
  ghost predicate Parts(v: Warp, u: Warp, g: set<nat>) {
    && v.stack != [] && InWidth(v) && v.active * g != {} && v.active - g != {}
    && u == v.(pc := 4, active := v.active * g,
               stack := CommitStack(v.stack, v.pc, Some(4), Some(Split(4, 4, v.active * g, v.active - g))))
  }

  lemma BranchExecutes(v: Warp, u: Warp, g: set<nat>)
    requires Parts(v, u, g) && (v.pc == 1 || v.pc == 2) && Guard(Nested()[v.pc].value, v) == g
    ensures Execute(Nested(), TABLE, v) == Advanced(u)
  {
    OneUop(Nested()[v.pc].value.uops[0], g, Going(v, None, None));
  }

  lemma SetpMoves(w: Warp, u: Warp)
    requires w == Run()[0] && u == Run()[1]
    ensures Moves(w, u, SetPredicates) && Normalize(w) == Ready(w)
  {
    SetpLanes();
    TopRuns(w);
  }

  lemma SetpStep()
    ensures InWidth(Run()[0]) && Step(Nested(), TABLE, Run()[0]) == Advanced(Run()[1])
  {
    var w, u := Run()[0], Run()[1];
    SetpMoves(w, u);
    ExecExecutes(w, u, SetPredicates);
    StepBy(w, w, u);
  }

  lemma OuterParts(w: Warp, u: Warp)
    requires w == Run()[1] && u == Run()[2]
    ensures Parts(w, u, {0}) && Normalize(w) == Ready(w) && Guard(Nested()[1].value, w) == {0}
  {
    TopRuns(w);
    assert {0, 1, 2} * {0} == {0} && {0, 1, 2} - {0} == {1, 2};
  }

  lemma OuterBranchStep()
    ensures InWidth(Run()[1]) && Step(Nested(), TABLE, Run()[1]) == Advanced(Run()[2])
  {
    var w, u := Run()[1], Run()[2];
    OuterParts(w, u);
    BranchExecutes(w, u, {0});
    StepBy(w, w, u);
  }

  lemma InnerParts(w: Warp, v: Warp, u: Warp)
    requires w == Run()[2] && u == Run()[3]
    requires v == State(2, {1, 2}, [Frame(4, {0}, 5, true), Frame(2, {1, 2}, 4, false)])
    ensures Parts(v, u, {1}) && Guard(Nested()[2].value, v) == {1}
  {
    assert {1, 2} * {1} == {1} && {1, 2} - {1} == {2};
  }

  lemma InnerArrives(w: Warp, v: Warp)
    requires w == Run()[2] && v == State(2, {1, 2}, [Frame(4, {0}, 5, true), Frame(2, {1, 2}, 4, false)])
    ensures InWidth(w) && Normalize(w) == Ready(v)
  {
    assert {} + {0} == {0};
    TopArrives(w, [Frame(4, {}, 5, true)], w.stack[1], [Frame(4, {0}, 5, true)]);
  }

  lemma InnerBranchStep()
    ensures InWidth(Run()[2]) && Step(Nested(), TABLE, Run()[2]) == Advanced(Run()[3])
  {
    var w, u := Run()[2], Run()[3];
    var v := State(2, {1, 2}, [Frame(4, {0}, 5, true), Frame(2, {1, 2}, 4, false)]);
    InnerArrives(w, v);
    InnerParts(w, v, u);
    BranchExecutes(v, u, {1});
    StepBy(w, v, u);
  }

  lemma MovKeepsLanes(mask: set<nat>, lanes: seq<LaneState>)
    ensures ExecLanes(Unchanged, mask, lanes) == lanes
  {
    var r := ExecLanes(Unchanged, mask, lanes);
    forall i | 0 <= i < |lanes| ensures r[i] == lanes[i] { assert Unchanged(lanes[i]).value == lanes[i]; }
  }

  lemma MovArrives(w: Warp, v: Warp)
    requires w == Run()[3]
    requires v == State(3, {2}, [Frame(4, {0}, 5, true), Frame(4, {1}, 4, true), Frame(3, {2}, 4, false)])
    ensures InWidth(w) && Normalize(w) == Ready(v)
  {
    var outer := Frame(4, {0}, 5, true);
    assert {} + {1} == {1};
    TopArrives(w, [outer, Frame(4, {}, 4, true)], w.stack[2], [outer, Frame(4, {1}, 4, true)]);
  }

  lemma MovMoves(v: Warp, u: Warp)
    requires u == Run()[4]
    requires v == State(3, {2}, [Frame(4, {0}, 5, true), Frame(4, {1}, 4, true), Frame(3, {2}, 4, false)])
    ensures Moves(v, u, Unchanged)
  {
    MovKeepsLanes({2}, v.lanes);
  }

  lemma MovStep()
    ensures InWidth(Run()[3]) && Step(Nested(), TABLE, Run()[3]) == Advanced(Run()[4])
  {
    var w, u := Run()[3], Run()[4];
    var v := State(3, {2}, [Frame(4, {0}, 5, true), Frame(4, {1}, 4, true), Frame(3, {2}, 4, false)]);
    MovArrives(w, v);
    MovMoves(v, u);
    ExecExecutes(v, u, Unchanged);
    StepBy(w, v, u);
  }

  lemma RunIsTrace()
    ensures Trace(Nested(), TABLE, Run())
  {
    SetpStep();
    OuterBranchStep();
    InnerBranchStep();
    MovStep();
    var t := Run();
    forall i | 0 <= i < |t| - 1 ensures InWidth(t[i]) && Step(Nested(), TABLE, t[i]) == Advanced(t[i + 1]) {
      assert i in {0, 1, 2, 3};
    }
  }

  lemma RunStarts()
    ensures Inv(Run()[0], {0, 1, 2}, 5)
  {
    var w := Run()[0];
    assert Top(w.stack).active == {0, 1, 2} && w.stack[1..] == [];
  }

  /**
   * With the table that the analysis computes, lanes 1 and 2 run the instruction at the
   * reconvergence point of the outer branch while its join, with lane 0, still waits there.
   */
  lemma NestedRunsEarly()
    ensures GoodTable(Nested(), TABLE) && RunOf(Nested(), CFG, TABLE, Run(), {0, 1, 2})
    ensures EarlyAt(Nested(), Run(), 4)
    ensures var n := Normalize(Run()[4]);
      && n.Ready? && n.w.pc == 4 && n.w.active == {1, 2}
      && n.w.stack[0] == Frame(4, {0}, 5, true)
  {
    TableIsGood();
    RunIsTrace();
    RunStarts();
    var w := Run()[4];
    var outer := Frame(4, {0}, 5, true);
    assert {1} + {2} == {1, 2};
    assert {2} - w.exited == {2};
    OneRound(w);
    assert Pop(w.stack) == [outer, Frame(4, {1}, 4, true)];
    assert FindJoin(Pop(w.stack), 4) == Some(1);
    assert Merge(Pop(w.stack), 1, {2}) == [outer, Frame(4, {1, 2}, 4, true)];
    var v := w.(stack := [outer, Frame(4, {1, 2}, 4, true)]);
    OneRound(v);
    assert Pop(v.stack) == [outer];
    assert {1, 2} - w.exited == {1, 2};
    assert Normalize(w).w.stack == [outer, Frame(4, {1, 2}, 4, false)];
    var n := Normalize(w).w;
    assert n.stack[0] == outer && n.pc == n.stack[0].pc && |Nested()| == 5;
    assert !NotEarly(Nested(), n);
  }
}
