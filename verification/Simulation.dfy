/**
 * The lock-step machine simulates independent threads: one step of a warp advances exactly
 * the lanes of its running frame, each by one step of the scalar machine.
 */
module Simulation {
  import opened Options
  import opened Kernel
  import opened Warp
  import opened StackShape
  import opened WarpInvariant

  /** What a successful control-flow analysis provides (see ControlFlowAnalysis.dfy). */
  ghost predicate ReconvTable(k: Program, table: seq<Option<int>>) {
    forall pc :: 0 <= pc < |k| && k[pc].Some? && k[pc].value.pred.Some? && HasBra(k[pc].value.uops)
      ==> ReconvAt(table, pc).Some?
  }

  /**
   * Part-way through an instruction that started in the normal warp `w` with guard `g`:
   * `retired` tells whether a RET has already taken the guarded lanes away.
   */
  ghost predicate Midway(w: Warp, g: set<nat>, o: Outcome, retired: bool) {
    && o.Going? && w.stack != []
    && o.w.pc == w.pc && o.w.done == w.done && |o.w.lanes| == |w.lanes|
    && o.w.active == (if retired then w.active - g else w.active)
    && o.w.exited == (if retired then w.exited + w.active * g else w.exited)
    && o.w.stack == SetTop(w.stack, Top(w.stack).(active := o.w.active))
    && (retired || o.next.Some? ==> w.active * g != {})
    && (forall l :: 0 <= l < |w.lanes| && l !in w.active ==> o.w.lanes[l] == w.lanes[l])
    && (o.split.None? && o.next.Some? ==> w.active <= g)
    && (o.split.Some? ==>
          o.split.value.taken == w.active * g && o.split.value.fallthrough == w.active - g
          && o.split.value.taken != {} && o.split.value.fallthrough != {}
          && o.next == Some(o.split.value.target))
  }

  function LaneProgress(o: Outcome, g: set<nat>, retired: bool, l: nat): Progress
    requires o.Going? && l < |o.w.lanes|
  {
    Progress(o.w.lanes[l], retired && l in g, if l in g then o.next else None)
  }

  lemma UopSimulates(table: seq<Option<int>>, w: Warp, g: set<nat>, u: Uop, o: Outcome, retired: bool)
    returns (retired': bool)
    requires InWidth(w) && Normal(w) && Midway(w, g, o, retired) && InWidth(o.w)
    requires u.Bra? && !(w.active <= g) ==> ReconvAt(table, w.pc).Some?
    ensures var o' := WarpUop(table, u, g, o);
      && (o'.Failed? ==> exists l :: l in w.active && ScalarUop(u, l in g, LaneProgress(o, g, retired, l)).Fault?)
      && (o'.Going? ==>
            && Midway(w, g, o', retired')
            && forall l :: l in w.active ==>
                 ScalarUop(u, l in g, LaneProgress(o, g, retired, l)) == LaneProgress(o', g, retired', l))
  {
    var o' := WarpUop(table, u, g, o);
    var mask := o.w.active * g;
    retired' := retired || (u.Ret? && mask != {});
    assert forall l :: l in o.w.active && l in g ==> l in mask;
    if u.Broken? {
      var l :| l in w.active;
      assert ScalarUop(u, l in g, LaneProgress(o, g, retired, l)).Fault?;
    } else if mask == {} {
      assert o'.Going? && o'.next == o.next && o'.split == o.split;
      assert o'.w.lanes == o.w.lanes;
      assert forall l :: l in w.active && l in g ==> retired;
    } else {
      assert !retired;
      assert mask == w.active * g;
      match u
      case Exec(f) =>
        if o'.Failed? {
          var l :| l in mask && f(o.w.lanes[l]).None?;
          assert ScalarUop(u, l in g, LaneProgress(o, g, retired, l)).Fault?;
        }
      case Ret =>
        assert w.active - mask == w.active - g;
        assert SetTop(SetTop(w.stack, Top(w.stack).(active := w.active)), Top(w.stack).(active := w.active - g))
            == SetTop(w.stack, Top(w.stack).(active := w.active - g));
      case Bra(target) =>
        var l :| l in mask;
        if o.w.active - g == {} {
          forall x | x in w.active ensures x in g { assert x !in o.w.active - g; }
        }
        if o'.Failed? {
          assert ScalarUop(u, l in g, LaneProgress(o, g, retired, l)).Fault?;
        }
      case Broken =>
    }
  }

  lemma {:induction false} FaultStays(uops: seq<Uop>, on: bool)
    ensures ScalarUops(uops, on, Fault) == Fault
  {
    if uops != [] { FaultStays(uops[1..], on); }
  }

  lemma {:induction false} UopsSimulate(table: seq<Option<int>>, w: Warp, g: set<nat>, uops: seq<Uop>, o: Outcome,
                                        retired: bool)
    returns (retired': bool)
    requires InWidth(w) && Normal(w) && Midway(w, g, o, retired) && InWidth(o.w)
    requires HasBra(uops) && !(w.active <= g) ==> ReconvAt(table, w.pc).Some?
    ensures var o' := WarpUops(table, uops, g, o);
      && (o'.Failed? ==> exists l :: l in w.active && ScalarUops(uops, l in g, LaneProgress(o, g, retired, l)).Fault?)
      && (o'.Going? ==>
            && Midway(w, g, o', retired')
            && forall l :: l in w.active ==>
                 ScalarUops(uops, l in g, LaneProgress(o, g, retired, l)) == LaneProgress(o', g, retired', l))
  {
    retired' := retired;
    if uops != [] {
      var u, rest := uops[0], uops[1..];
      assert HasBra(rest) ==> HasBra(uops) by {
        if HasBra(rest) { var i :| 0 <= i < |rest| && rest[i].Bra?; assert uops[i + 1].Bra?; }
      }
      var r := UopSimulates(table, w, g, u, o, retired);
      var o1 := WarpUop(table, u, g, o);
      match o1
      case Failed(d) =>
        FailedStays(table, rest, g, d);
        var l :| l in w.active && ScalarUop(u, l in g, LaneProgress(o, g, retired, l)).Fault?;
        FaultStays(rest, l in g);
        assert ScalarUops(uops, l in g, LaneProgress(o, g, retired, l)).Fault?;
      case Going(_, _, _) =>
        retired' := UopsSimulate(table, w, g, rest, o1, r);
        if WarpUops(table, rest, g, o1).Failed? {
          var l :| l in w.active && ScalarUops(rest, l in g, LaneProgress(o1, g, r, l)).Fault?;
          assert ScalarUops(uops, l in g, LaneProgress(o, g, retired, l)).Fault?;
        }
    }
  }

  /** Every lane in `moved` made one scalar step without a fault; no other lane moved. */
  ghost predicate Advances(k: Program, w: Warp, w': Warp, init: set<nat>, moved: set<nat>)
    requires forall l :: l in init ==> l < |w.lanes| && l < |w'.lanes|
  {
    forall l :: l in init ==>
      if l in moved then
        ThreadOf(w', l) == ScalarStep(k, ThreadOf(w, l)) && ThreadOf(w, l).Running? && !ThreadOf(w', l).Faulted?
      else ThreadOf(w', l) == ThreadOf(w, l)
  }

  ghost predicate SomeThreadFaults(k: Program, w: Warp, init: set<nat>)
    requires forall l :: l in init ==> l < |w.lanes|
  {
    exists l :: l in init && ThreadOf(w, l).Running? && ScalarStep(k, ThreadOf(w, l)).Faulted?
  }

  lemma ActiveThreads(w: Warp, init: set<nat>, n: int)
    requires Inv(w, init, n) && Normal(w)
    ensures InWidth(w) && w.active <= init
    ensures forall l :: l in w.active ==> ThreadOf(w, l) == Running(w.pc, w.lanes[l])
  {
  }

  // ---- Committing the instruction ----

  lemma SplitPlaces(s: seq<Frame>, join: Frame, fall: Frame, taken: Frame)
    requires s != [] && join.active == {}
    ensures forall l ::
              Where(Pop(s) + [join, fall, taken], l) ==
              if l in taken.active then Some(taken.pc)
              else if l in fall.active then Some(fall.pc)
              else Where(Pop(s), l)
  {
    var t := Pop(s) + [join, fall, taken];
    assert Pop(t) == Pop(s) + [join, fall];
    assert Pop(Pop(t)) == Pop(s) + [join];
    assert Pop(Pop(Pop(t))) == Pop(s);
    forall l
      ensures Where(t, l) == if l in taken.active then Some(taken.pc)
                             else if l in fall.active then Some(fall.pc) else Where(Pop(s), l)
    {
      assert Where(t, l) == if l in taken.active then Some(taken.pc) else Where(Pop(t), l);
      assert Where(Pop(t), l) == if l in fall.active then Some(fall.pc) else Where(Pop(Pop(t)), l);
      assert Where(Pop(Pop(t)), l) == Where(Pop(s), l);
    }
  }

  lemma SplitDisjoint(s: seq<Frame>, init: set<nat>, join: Frame, fall: Frame, taken: Frame)
    requires s != [] && Disjoint(s) && Within(s, init)
    requires join.active == {} && fall.active !! taken.active && fall.active + taken.active == Top(s).active
    ensures Disjoint(Pop(s) + [join, fall, taken]) && Within(Pop(s) + [join, fall, taken], init)
  {
  }

  lemma MoveDisjoint(s: seq<Frame>, init: set<nat>, f: Frame)
    requires s != [] && Disjoint(s) && Within(s, init) && f.active <= Top(s).active
    ensures Disjoint(SetTop(s, f)) && Within(SetTop(s, f), init)
    ensures forall l :: Where(SetTop(s, f), l) == if l in f.active then Some(f.pc) else Where(Pop(s), l)
  {
  }

  /** Where the lanes go: those that were not running stay, the others follow the branch or fall through. */
  ghost predicate Placed(w: Warp, g: set<nat>, next: Option<int>, exited: set<nat>, t: seq<Frame>) {
    forall l :: l !in exited ==>
      Where(t, l) ==
        if l !in w.active then Where(w.stack, l)
        else Some(if l in g && next.Some? then next.value else w.pc + 1)
  }

  /** The stack after the instruction: lanes in place, masks apart, shape kept. */
  ghost predicate Committed(w: Warp, init: set<nat>, n: int, g: set<nat>, o: Outcome, t: seq<Frame>)
    requires o.Going?
  {
    && Placed(w, g, o.next, o.w.exited, t)
    && Disjoint(t) && Within(t, init) && Shaped(t, n) && Weight(t) <= |init|
  }

  /** The frames of a divergent branch in place of the running one. */
  ghost predicate SplitFrames(w: Warp, o: Outcome, join: Frame, fall: Frame, taken: Frame)
    requires o.Going?
  {
    && w.stack != [] && o.split.Some?
    && var d := o.split.value;
      && join == Frame(d.reconv, {}, Top(w.stack).reconv, true)
      && fall == Frame(w.pc + 1, d.fallthrough, d.reconv, false)
      && taken == Frame(d.target, d.taken, d.reconv, false)
  }

  lemma SplitStackIs(w: Warp, g: set<nat>, o: Outcome, retired: bool, join: Frame, fall: Frame, taken: Frame)
    requires Midway(w, g, o, retired) && SplitFrames(w, o, join, fall, taken)
    ensures CommitStack(o.w.stack, w.pc, o.next, o.split) == Pop(w.stack) + [join, fall, taken]
  {
    assert Pop(o.w.stack) == Pop(w.stack);
  }

  lemma SplitPlaced(w: Warp, init: set<nat>, n: int, g: set<nat>, o: Outcome, retired: bool, join: Frame, fall: Frame,
                    taken: Frame)
    requires Inv(w, init, n) && Normal(w) && Midway(w, g, o, retired) && SplitFrames(w, o, join, fall, taken)
    ensures Placed(w, g, o.next, o.w.exited, Pop(w.stack) + [join, fall, taken])
  {
    SplitPlaces(w.stack, join, fall, taken);
  }

  lemma SplitKeepsShape(w: Warp, init: set<nat>, n: int, g: set<nat>, o: Outcome, retired: bool, join: Frame,
                        fall: Frame, taken: Frame)
    requires Inv(w, init, n) && Normal(w) && Midway(w, g, o, retired) && SplitFrames(w, o, join, fall, taken)
    ensures var t := Pop(w.stack) + [join, fall, taken];
      Disjoint(t) && Within(t, init) && Shaped(t, n) && Weight(t) <= |init|
  {
    var s, top := w.stack, Top(w.stack);
    assert fall.active + taken.active == top.active;
    assert SetTop(s, top.(active := fall.active + taken.active)) == s;
    ShapedSplit(s, n, join, fall, taken);
    SplitDisjoint(s, init, join, fall, taken);
  }

  lemma SplitCommits(w: Warp, init: set<nat>, n: int, g: set<nat>, o: Outcome, retired: bool)
    requires Inv(w, init, n) && Normal(w) && Midway(w, g, o, retired) && o.split.Some?
    ensures Committed(w, init, n, g, o, CommitStack(o.w.stack, w.pc, o.next, o.split))
  {
    var d := o.split.value;
    var join := Frame(d.reconv, {}, Top(w.stack).reconv, true);
    var fall := Frame(w.pc + 1, d.fallthrough, d.reconv, false);
    var taken := Frame(d.target, d.taken, d.reconv, false);
    SplitPlaced(w, init, n, g, o, retired, join, fall, taken);
    SplitKeepsShape(w, init, n, g, o, retired, join, fall, taken);
    SplitStackIs(w, g, o, retired, join, fall, taken);
  }

  lemma MoveCommits(w: Warp, init: set<nat>, n: int, g: set<nat>, o: Outcome, retired: bool)
    requires Inv(w, init, n) && Normal(w) && Midway(w, g, o, retired) && o.split.None?
    ensures Committed(w, init, n, g, o, CommitStack(o.w.stack, w.pc, o.next, o.split))
  {
    var s := w.stack;
    var pc := if o.next.Some? then o.next.value else w.pc + 1;
    var f := Top(s).(active := o.w.active, pc := pc);
    assert SetTop(o.w.stack, f) == SetTop(s, f);
    ShapedSetTop(s, n, f);
    MoveDisjoint(s, init, f);
  }

  lemma CommitKeeps(w: Warp, init: set<nat>, n: int, g: set<nat>, o: Outcome, retired: bool)
    requires Inv(w, init, n) && Normal(w) && Midway(w, g, o, retired)
    ensures var w' := Commit(o.w, o.next, o.split);
      && Inv(w', init, n)
      && w'.lanes == o.w.lanes && w'.exited == o.w.exited && w'.done == w.done
      && Placed(w, g, o.next, w'.exited, w'.stack)
  {
    if o.split.Some? { SplitCommits(w, init, n, g, o, retired); } else { MoveCommits(w, init, n, g, o, retired); }
    assert w.active <= init;
  }

  // ---- One instruction ----

  /** The instruction of a running warp as each of its lanes sees it. */
  ghost predicate Fetches(k: Program, w: Warp, inst: Inst) {
    0 <= w.pc < |k| && k[w.pc] == Some(inst) && PredInRange(inst)
  }

  lemma LaneAdvances(k: Program, w: Warp, inst: Inst, g: set<nat>, o: Outcome, retired: bool, w': Warp, l: nat)
    requires l < |w.lanes| == |w'.lanes| && Fetches(k, w, inst) && Midway(w, g, o, retired)
    requires l in w.active && l !in w.exited && (l in g <==> Enabled(inst, w.lanes[l]))
    requires ThreadOf(w, l) == Running(w.pc, w.lanes[l])
    requires ScalarUops(inst.uops, l in g, Progress(w.lanes[l], false, None)) == LaneProgress(o, g, retired, l)
    requires w'.lanes == o.w.lanes && w'.exited == o.w.exited && Placed(w, g, o.next, w'.exited, w'.stack)
    ensures ThreadOf(w', l) == ScalarStep(k, ThreadOf(w, l)) && !ThreadOf(w', l).Faulted?
  {
  }

  lemma LaneStays(w: Warp, g: set<nat>, o: Outcome, retired: bool, w': Warp, l: nat)
    requires l < |w.lanes| == |w'.lanes| && Midway(w, g, o, retired) && l !in w.active
    requires w'.lanes == o.w.lanes && w'.exited == o.w.exited && Placed(w, g, o.next, w'.exited, w'.stack)
    ensures ThreadOf(w', l) == ThreadOf(w, l)
  {
  }

  lemma SomeFaults(k: Program, w: Warp, init: set<nat>, l: nat)
    requires forall x :: x in init ==> x < |w.lanes|
    requires l in init && ThreadOf(w, l).Running? && ScalarStep(k, ThreadOf(w, l)).Faulted?
    ensures SomeThreadFaults(k, w, init)
  {
  }

  /** The micro-ops of a fetched instruction. */
  lemma InstSimulates(k: Program, table: seq<Option<int>>, w: Warp, init: set<nat>, n: int, inst: Inst)
    requires Inv(w, init, n) && Normal(w) && InWidth(w) && ReconvTable(k, table) && Fetches(k, w, inst)
    ensures var o := WarpUops(table, inst.uops, Guard(inst, w), Going(w, None, None));
      && (o.Failed? ==> SomeThreadFaults(k, w, init))
      && (o.Going? ==>
            var w' := Commit(o.w, o.next, o.split);
            Inv(w', init, n) && w'.done == w.done && Advances(k, w, w', init, w.active))
  {
    ActiveThreads(w, init, n);
    var g := Guard(inst, w);
    var start := Going(w, None, None);
    assert SetTop(w.stack, Top(w.stack)) == w.stack;
    assert Midway(w, g, start, false);
    if inst.pred.None? { assert w.active <= g; }
    var retired := UopsSimulate(table, w, g, inst.uops, start, false);
    var o := WarpUops(table, inst.uops, g, start);
    if o.Failed? {
      var l :| l in w.active && ScalarUops(inst.uops, l in g, LaneProgress(start, g, false, l)).Fault?;
      assert LaneProgress(start, g, false, l) == Progress(w.lanes[l], false, None);
      SomeFaults(k, w, init, l);
    } else {
      CommitKeeps(w, init, n, g, o, retired);
      var w' := Commit(o.w, o.next, o.split);
      forall l | l in init
        ensures if l in w.active then
                  && ThreadOf(w', l) == ScalarStep(k, ThreadOf(w, l))
                  && ThreadOf(w, l).Running? && !ThreadOf(w', l).Faulted?
                else ThreadOf(w', l) == ThreadOf(w, l)
      {
        if l in w.active {
          assert LaneProgress(start, g, false, l) == Progress(w.lanes[l], false, None);
          LaneAdvances(k, w, inst, g, o, retired, w', l);
        } else {
          LaneStays(w, g, o, retired, w', l);
        }
      }
    }
  }

  /**
   * A normal warp executes one instruction, wherever its lowest frame reconverges: the lanes
   * of its running frame advance by one scalar step, or one of them would fault.
   */
  lemma ExecuteSimulates(k: Program, table: seq<Option<int>>, w: Warp, init: set<nat>, n: int)
    requires Inv(w, init, n) && Normal(w) && InWidth(w) && ReconvTable(k, table)
    ensures var r := Execute(k, table, w);
      && !r.Drained?
      && (r.Aborted? ==> SomeThreadFaults(k, w, init))
      && (r.Advanced? ==> Inv(r.w, init, n) && r.w.done == w.done && Advances(k, w, r.w, init, w.active))
  {
    if 0 <= w.pc < |k| && k[w.pc].Some? && PredInRange(k[w.pc].value) {
      InstSimulates(k, table, w, init, n, k[w.pc].value);
    } else {
      ActiveThreads(w, init, n);
      var any :| any in w.active;
      SomeFaults(k, w, init, any);
    }
  }

  // ---- One turn of a warp ----

  lemma SameThreadsSameFaults(k: Program, w: Warp, w1: Warp, init: set<nat>)
    requires forall l :: l in init ==> l < |w.lanes| && l < |w1.lanes|
    requires forall l :: l in init ==> ThreadOf(w1, l) == ThreadOf(w, l)
    ensures SomeThreadFaults(k, w1, init) ==> SomeThreadFaults(k, w, init)
    ensures forall w2: Warp, moved: set<nat> ::
      (forall l :: l in init ==> l < |w2.lanes|) && Advances(k, w1, w2, init, moved) ==> Advances(k, w, w2, init, moved)
  {
  }

  /**
   * One turn of a warp, from any state that satisfies the invariant. It advances a
   * non-empty set of threads by one scalar step each, or finishes a warp whose threads have
   * all retired, or reports a diagnostic because some thread faults on its own.
   */
  lemma StepSimulates(k: Program, table: seq<Option<int>>, w: Warp, init: set<nat>)
    requires Inv(w, init, |k|) && InWidth(w) && ReconvTable(k, table)
    ensures var r := Step(k, table, w);
      && (r.Aborted? ==> SomeThreadFaults(k, w, init))
      && (r.Drained? ==> r.w.done && Inv(r.w, init, |k|) && w.exited == init && Advances(k, w, r.w, init, {}))
      && (r.Advanced? ==>
            && Inv(r.w, init, |k|) && r.w.done == w.done
            && Normalize(w).w.active != {} && Normalize(w).w.active <= init
            && Advances(k, w, r.w, init, Normalize(w).w.active))
  {
    NormalizeStutters(w, init, |k|);
    match Normalize(w)
    case Finished(_) =>
    case Stuck(_) =>
      var l :| l in init && RanOff(w, |k|, l);
      SomeFaults(k, w, init, l);
    case Ready(w1) =>
      ExecuteSimulates(k, table, w1, init, |k|);
      ActiveThreads(w1, init, |k|);
      SameThreadsSameFaults(k, w, w1, init);
  }

  // ---- The executor's own check for a missing reconvergence point ----

  lemma {:induction false} UopsNeverMiss(table: seq<Option<int>>, uops: seq<Uop>, g: set<nat>, o: Outcome)
    requires o.Going? && InWidth(o.w) && o.w.stack != [] && Top(o.w.stack).active == o.w.active
    requires HasBra(uops) && !(o.w.active <= g) ==> ReconvAt(table, o.w.pc).Some?
    ensures WarpUops(table, uops, g, o) != Failed(ReconvMiss)
  {
    if uops != [] {
      var o1, rest := WarpUop(table, uops[0], g, o), uops[1..];
      if HasBra(rest) { var i :| 0 <= i < |rest| && rest[i].Bra?; assert uops[i + 1].Bra?; }
      if uops[0].Bra? { assert HasBra(uops); }
      if o1.Failed? {
        FailedStays(table, rest, g, o1.diag);
        forall l | l in o.w.active - g ensures !(o.w.active <= g) {}
      } else {
        UopsNeverMiss(table, rest, g, o1);
      }
    }
  }

  /** After a successful analysis a divergent branch always finds its reconvergence point. */
  lemma NeverMissesReconv(k: Program, table: seq<Option<int>>, w: Warp, init: set<nat>)
    requires Inv(w, init, |k|) && InWidth(w) && ReconvTable(k, table)
    ensures Step(k, table, w) != Aborted(ReconvMiss)
  {
    NormalizeStutters(w, init, |k|);
    if Normalize(w).Ready? {
      var v := Normalize(w).w;
      if 0 <= v.pc < |k| && k[v.pc].Some? && PredInRange(k[v.pc].value) {
        var inst := k[v.pc].value;
        var g := Guard(inst, v);
        if inst.pred.None? { assert v.active <= g; }
        UopsNeverMiss(table, inst.uops, g, Going(v, None, None));
      }
    }
  }
}
