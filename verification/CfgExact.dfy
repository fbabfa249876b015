/**
 * The graph that the analysis builds is the one the threads walk: it has an edge exactly
 * where some thread can move, except that a predicated RET has none to the next
 * instruction. Together.dfy shows for warps that no edge is missing; here none is too many.
 */
module CfgExact {
  import opened Options
  import opened Kernel
  import opened Graph
  import opened Ipdom
  import opened ControlFlowAnalysis
  import opened Together

  // ---- What a micro-op list makes of the next pc ----

  /** Every branch of the list has this target. */
  ghost predicate AllGoTo(uops: seq<Uop>, target: Option<int>) {
    forall i :: 0 <= i < |uops| && uops[i].Bra? ==> uops[i].target.Some? && uops[i].target == target
  }

  lemma {:induction false} BrasDecide(uops: seq<Uop>, t: Progress)
    requires t.Progress? && !t.retired && !HasRet(uops)
    ensures var r := ScalarUops(uops, true, t);
      r.Progress? ==>
        && !r.retired && AllGoTo(uops, r.next)
        && (t.next.Some? || !HasBra(uops) ==> r.next == t.next)
  {
    if uops != [] {
      var t1, rest := ScalarUop(uops[0], true, t), uops[1..];
      forall i | 0 <= i < |rest| ensures !rest[i].Ret? { assert rest[i] == uops[i + 1]; }
      if HasBra(rest) { var i :| 0 <= i < |rest| && rest[i].Bra?; assert uops[i + 1].Bra?; }
      assert !uops[0].Ret?;
      if t1.Fault? {
        FaultAgain(rest, true);
      } else {
        BrasDecide(rest, t1);
        assert forall i :: 1 <= i < |uops| ==> uops[i] == rest[i - 1];
        if uops[0].Bra? { assert HasBra(uops); }
      }
    }
  }

  lemma {:induction false} FaultAgain(uops: seq<Uop>, on: bool)
    ensures ScalarUops(uops, on, Fault) == Fault
  {
    if uops != [] { FaultAgain(uops[1..], on); }
  }

  lemma {:induction false} RetDecides(uops: seq<Uop>, t: Progress)
    requires t.Progress? && (t.retired || HasRet(uops))
    ensures var r := ScalarUops(uops, true, t); r.Progress? ==> r.retired
  {
    if uops != [] {
      var t1, rest := ScalarUop(uops[0], true, t), uops[1..];
      if t1.Fault? {
        FaultAgain(rest, true);
      } else {
        if !t.retired && !uops[0].Ret? { var i :| 0 <= i < |uops| && uops[i].Ret?; assert rest[i - 1].Ret?; }
        RetDecides(rest, t1);
      }
    }
  }

  lemma {:induction false} OffMovesOn(uops: seq<Uop>, t: Progress)
    requires t.Progress?
    ensures var r := ScalarUops(uops, false, t); r.Progress? ==> r == t
  {
    if uops != [] {
      var t1 := ScalarUop(uops[0], false, t);
      if t1.Fault? { FaultAgain(uops[1..], false); } else { OffMovesOn(uops[1..], t1); }
    }
  }

  // ---- One scalar step ----

  /** With this value of its predicate the instruction passes in some state without a fault. */
  ghost predicate Passes(k: Program, pc: nat, on: bool) {
    exists s :: PassesIn(k, pc, on, s)
  }

  ghost predicate PassesIn(k: Program, pc: nat, on: bool, s: LaneState) {
    && pc < |k| && k[pc].Some? && PredInRange(k[pc].value)
    && Enabled(k[pc].value, s) == on && !ScalarStep(k, Running(pc, s)).Faulted?
  }

  /** A decoded instruction that passes in some state whatever its predicate says. */
  ghost predicate Passable(k: Program, pc: nat) {
    pc < |k| && k[pc].Some? && Passes(k, pc, true) && (k[pc].value.pred.Some? ==> Passes(k, pc, false))
  }

  /** The instruction returns only some of the threads, and others follow. */
  predicate ReturnsSome(k: Program, pc: nat)
    requires pc < |k| && k[pc].Some?
  {
    HasRet(k[pc].value.uops) && k[pc].value.pred.Some? && pc + 1 < |k|
  }

  /** Where a step goes that does not fault. */
  lemma StepGoes(k: Program, pc: nat, on: bool, s: LaneState)
    requires PassesIn(k, pc, on, s) && !BadBranch(k, pc)
    ensures var inst, r := k[pc].value, ScalarStep(k, Running(pc, s));
      if on && HasRet(inst.uops) then r.Exited?
      else r.Running? && if on && HasBra(inst.uops) then LastTarget(inst.uops) == Some(r.pc) else r.pc == pc + 1
  {
    var uops := k[pc].value.uops;
    var start := Progress(s, false, None);
    if on {
      if HasRet(uops) {
        RetDecides(uops, start);
      } else {
        BrasDecide(uops, start);
        var r := ScalarUops(uops, true, start);
        if HasBra(uops) {
          var i :| 0 <= i < |uops| && uops[i].Bra?;
          LastTargetAgrees(uops, r.next);
        }
      }
    } else {
      OffMovesOn(uops, start);
    }
  }

  /** The thread moves from `pc` to `q` in some state. */
  ghost predicate CanMove(k: Program, pc: nat, q: nat) {
    exists s, s' :: ScalarStep(k, Running(pc, s)) == Running(q, s')
  }

  /** The thread returns, or comes to a pc outside the kernel, in some state. */
  ghost predicate CanLeave(k: Program, pc: nat) {
    exists s :: Leaves(k, ScalarStep(k, Running(pc, s)))
  }

  ghost predicate CanGo(k: Program, pc: nat, q: nat) {
    if q < |k| then CanMove(k, pc, q) else CanLeave(k, pc)
  }

  predicate Leaves(k: Program, t: Thread) {
    t.Exited? || (t.Running? && !(0 <= t.pc < |k|))
  }

  /** A way the step goes is a move or leaves the kernel. */
  lemma Witness(k: Program, pc: nat, s: LaneState)
    requires !ScalarStep(k, Running(pc, s)).Faulted?
    ensures var r := ScalarStep(k, Running(pc, s));
      if r.Running? && 0 <= r.pc < |k| then CanMove(k, pc, r.pc) else CanLeave(k, pc)
  {
    var r := ScalarStep(k, Running(pc, s));
    if r.Running? && 0 <= r.pc < |k| {
      assert ScalarStep(k, Running(pc, s)) == Running(r.pc, r.s);
    } else {
      assert Leaves(k, ScalarStep(k, Running(pc, s)));
    }
  }

  /** No edge is too many. */
  lemma EdgeIsTaken(k: Program, g: Succ, pc: nat, q: nat)
    requires IsCfg(k, g) && Passable(k, pc) && Edge(g, pc, q)
    ensures CanGo(k, pc, q)
  {
    CfgWellFormed(k, g);
    var inst := k[pc].value;
    var s :| PassesIn(k, pc, true, s);
    StepGoes(k, pc, true, s);
    Witness(k, pc, s);
    if inst.pred.Some? {
      var s' :| PassesIn(k, pc, false, s');
      StepGoes(k, pc, false, s');
      Witness(k, pc, s');
    }
    assert q in Successors(k, pc);
    if HasBra(inst.uops) && !HasRet(inst.uops) { assert LastTarget(inst.uops).Some?; }
  }

  /** No edge is missing. */
  lemma MoveIsEdge(k: Program, g: Succ, pc: nat, s: LaneState)
    requires IsCfg(k, g) && Passable(k, pc) && !ReturnsSome(k, pc) && !ScalarStep(k, Running(pc, s)).Faulted?
    ensures var r := ScalarStep(k, Running(pc, s));
      Edge(g, pc, if r.Running? && 0 <= r.pc < |k| then r.pc else |k|)
  {
    CfgWellFormed(k, g);
    var inst := k[pc].value;
    var on := Enabled(inst, s);
    assert PassesIn(k, pc, on, s);
    StepGoes(k, pc, on, s);
    var r := ScalarStep(k, Running(pc, s));
    var succ := Successors(k, pc);
    var q: nat := if r.Running? && 0 <= r.pc < |k| then r.pc else |k|;
    assert q in succ by {
      if |succ| == 2 { assert q == succ[0] || q == succ[1]; } else { assert q == succ[0]; }
    }
  }

  /** The edges of the instruction are where some thread can go from it. */
  ghost predicate ExactAt(k: Program, g: Succ, pc: nat) {
    forall q: nat :: q <= |k| ==> (Edge(g, pc, q) <==> CanGo(k, pc, q))
  }

  lemma EdgesSuffice(k: Program, g: Succ, pc: nat)
    requires IsCfg(k, g) && Passable(k, pc) && !ReturnsSome(k, pc)
    ensures ExactAt(k, g, pc)
  {
    forall q: nat | q <= |k| ensures Edge(g, pc, q) <==> CanGo(k, pc, q) {
      if Edge(g, pc, q) {
        EdgeIsTaken(k, g, pc, q);
      } else if q < |k| {
        forall s, s' ensures ScalarStep(k, Running(pc, s)) != Running(q, s') {
          if ScalarStep(k, Running(pc, s)) == Running(q, s') { MoveIsEdge(k, g, pc, s); }
        }
      } else {
        forall s ensures !Leaves(k, ScalarStep(k, Running(pc, s))) {
          if Leaves(k, ScalarStep(k, Running(pc, s))) { MoveIsEdge(k, g, pc, s); }
        }
      }
    }
  }

  /** A predicated RET lets threads move to the next instruction, but the graph has no such edge. */
  lemma EdgeIsMissing(k: Program, g: Succ, pc: nat)
    requires IsCfg(k, g) && Passable(k, pc) && ReturnsSome(k, pc)
    ensures CanGo(k, pc, pc + 1) && !Edge(g, pc, pc + 1)
  {
    CfgWellFormed(k, g);
    var s :| PassesIn(k, pc, false, s);
    StepGoes(k, pc, false, s);
    Witness(k, pc, s);
  }

  /**
   * The graph has an edge exactly where some thread can move, where EXIT stands for leaving
   * the kernel, if and only if the instruction is no predicated RET in front of another one.
   */
  lemma EdgesAreMoves(k: Program, g: Succ, pc: nat)
    requires IsCfg(k, g) && Passable(k, pc)
    ensures ExactAt(k, g, pc) <==> !ReturnsSome(k, pc)
  {
    if ReturnsSome(k, pc) { EdgeIsMissing(k, g, pc); } else { EdgesSuffice(k, g, pc); }
  }

  /** Place `i` holds the last branch of the list with an immediate operand. */
  predicate LastImmediate(uops: seq<Uop>, i: nat) {
    && i < |uops| && uops[i].Bra? && uops[i].target.Some?
    && forall j :: i < j < |uops| && uops[j].Bra? ==> uops[j].target.None?
  }

  ghost predicate NoImmediate(uops: seq<Uop>) {
    forall i :: 0 <= i < |uops| && uops[i].Bra? ==> uops[i].target.None?
  }

  lemma {:induction false} LastTargetIs(uops: seq<Uop>)
    ensures match LastTarget(uops)
            case None => NoImmediate(uops)
            case Some(t) => exists i: nat :: LastImmediate(uops, i) && uops[i].target == Some(t)
  {
    if uops != [] {
      var n := |uops| - 1;
      if uops[n].Bra? && uops[n].target.Some? {
        assert LastImmediate(uops, n);
      } else {
        LastTargetIs(uops[..n]);
        if LastTarget(uops[..n]).Some? {
          var i: nat :| LastImmediate(uops[..n], i) && uops[..n][i].target == LastTarget(uops[..n]);
          assert forall j :: 0 <= j < n ==> uops[j] == uops[..n][j];
          assert LastImmediate(uops, i);
        } else {
          assert forall j :: 0 <= j < n ==> uops[j] == uops[..n][j];
        }
      }
    }
  }

  /** A predicated branch without RET. */
  predicate MayDiverge(k: Program, pc: nat) {
    pc < |k| && k[pc].Some? && k[pc].value.pred.Some? && HasBra(k[pc].value.uops) && !HasRet(k[pc].value.uops)
  }

  /**
   * The analysis refuses an instruction exactly if it is a predicated branch without RET that
   * has no immediate operand, or whose last one is no address inside the kernel.
   */
  lemma RefusedBranches(k: Program, pc: nat)
    requires pc < |k|
    ensures BadBranch(k, pc) <==>
            && MayDiverge(k, pc)
            && var uops := k[pc].value.uops;
               || NoImmediate(uops)
               || exists i: nat :: LastImmediate(uops, i) && (uops[i].target.value < 0 || uops[i].target.value >= |k|)
  {
    if k[pc].Some? { LastTargetIs(k[pc].value.uops); }
  }

  // ---- An if with an else ----

  /** 0: @p bra 3; 1: op; 2: bra 4; 3: op; 4: ret */
  function IfElse(op: Uop): Program {
    [ Some(Inst(Some(Pred(0, false)), [Bra(Some(3))])), Some(Inst(None, [op])), Some(Inst(None, [Bra(Some(4))])),
      Some(Inst(None, [op])), Some(Inst(None, [Ret])) ]
  }

  const DIAMOND: Succ := [[3, 1], [2], [4], [4], [5], []]

  lemma IfElseGraph(op: Uop)
    requires op.Exec?
    ensures IsCfg(IfElse(op), DIAMOND) && WellFormed(DIAMOND)
  {
    var k := IfElse(op);
    assert k[0].value.uops[0].Bra? && k[2].value.uops[0].Bra? && k[4].value.uops[0].Ret?;
    assert LastTarget(k[0].value.uops) == Some(3) && LastTarget(k[2].value.uops) == Some(4);
  }

  lemma AllMeetAt4(i: nat)
    requires i < 5
    ensures PostDominates(DIAMOND, 4, i)
  {
    forall p | ExitPath(DIAMOND, i, p) ensures 4 in p {
      assert EdgeAt(DIAMOND, p, |p| - 2);
      assert p[|p| - 2] == 4;
    }
  }

  lemma BothSides()
    ensures ExitPath(DIAMOND, 0, [0, 3, 4, 5]) && ExitPath(DIAMOND, 0, [0, 1, 2, 4, 5])
    ensures ExitPath(DIAMOND, 5, [5])
  {
    var p: seq<nat>, q: seq<nat> := [0, 3, 4, 5], [0, 1, 2, 4, 5];
    assert EdgeAt(DIAMOND, p, 0) && EdgeAt(DIAMOND, p, 1) && EdgeAt(DIAMOND, p, 2);
    assert EdgeAt(DIAMOND, q, 0) && EdgeAt(DIAMOND, q, 1) && EdgeAt(DIAMOND, q, 2) && EdgeAt(DIAMOND, q, 3);
  }

  lemma MeetIsImmediate()
    ensures Immediate(DIAMOND, 0, 4)
  {
    AllMeetAt4(0);
    BothSides();
    forall d: nat | Candidate(DIAMOND, 0, d) && d != 4 ensures !PostDominates(DIAMOND, 4, d) {
      assert d in [0, 3, 4, 5] && d in [0, 1, 2, 4, 5];
      assert d == 5;
      assert 4 !in [5];
    }
  }

  /** The analysis lets the two sides of an if meet where the else ends. */
  lemma IfElseMeets(op: Uop)
    requires op.Exec?
    ensures Table(IfElse(op))[0] == Some(4)
  {
    var k := IfElse(op);
    IfElseGraph(op);
    assert Cfg(k) == DIAMOND;
    assert k[0].value.uops[0].Bra?;
    assert NeedsReconv(k, 0);
    MeetIsImmediate();
    BothSides();
    assert ReachesExit(DIAMOND, 0);
    var c := UniqueIpdom(DIAMOND, 0);
    assert FirstImmediate(DIAMOND, 0, 0) == Some(4);
  }
}
