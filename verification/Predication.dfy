/**
 * What a predicate does, in terms of the values that lanes have written: @p and @!p share
 * the running lanes out, predicates start out true, and an instruction whose predicate is
 * false does nothing but move on.
 */
module Predication {
  import opened Options
  import opened Kernel
  import opened Warp

  /** The instruction @p or @!p. */
  function Guarded(id: int, negated: bool, uops: seq<Uop>): Inst {
    Inst(Some(Pred(id, negated)), uops)
  }

  /** The source asks whether the predicate's lanes lie inside the file of 8 predicates. */
  lemma InPredicateFile(inst: Inst, warpSize: nat)
    requires warpSize > 0 && inst.pred.Some?
    ensures PredInRange(inst) <==>
            var id := inst.pred.value.id; !(id < 0) && !(id * warpSize + warpSize > 8 * warpSize)
  {
    var id := inst.pred.value.id;
    if id >= 8 {
      assert id * warpSize >= 8 * warpSize;
    } else if id >= 0 {
      assert (id + 1) * warpSize <= 8 * warpSize;
      assert id * warpSize + warpSize == (id + 1) * warpSize;
    }
  }

  // ---- The lanes of a warp ----

  /** Without a predicate all running lanes are enabled. */
  lemma UnpredicatedEnablesAll(w: Warp, inst: Inst)
    requires InWidth(w) && inst.pred.None?
    ensures w.active * Guard(inst, w) == w.active
  {
  }

  /** @p and @!p share the running lanes out. */
  lemma OppositePredicates(w: Warp, id: int, uops: seq<Uop>, others: seq<Uop>)
    requires InWidth(w) && 0 <= id < PREDICATES
    ensures var on, off := Guard(Guarded(id, false, uops), w), Guard(Guarded(id, true, others), w);
      on !! off && on + off == w.active
  {
  }

  /** After a lane has written a predicate, @p enables it exactly if it wrote true, @!p if it wrote false. */
  lemma WrittenPredicate(w: Warp, l: nat, id: int, b: bool, uops: seq<Uop>)
    requires InWidth(w) && l in w.active && 0 <= id < PREDICATES
    ensures var w' := w.(lanes := w.lanes[l := w.lanes[l].(p := w.lanes[l].p[id := b])]);
      && InWidth(w')
      && (l in Guard(Guarded(id, false, uops), w') <==> b)
      && (l in Guard(Guarded(id, true, uops), w') <==> !b)
  {
  }

  /** The lanes have not written any predicate yet. */
  ghost predicate Unwritten(w: Warp) {
    forall l :: 0 <= l < |w.lanes| ==> w.lanes[l].p == map[]
  }

  /** Predicates start out true: @p enables every running lane and @!p none. */
  lemma InitialPredicates(w: Warp, id: int, uops: seq<Uop>)
    requires InWidth(w) && Unwritten(w) && 0 <= id < PREDICATES
    ensures Guard(Guarded(id, false, uops), w) == w.active
    ensures Guard(Guarded(id, true, uops), w) == {}
  {
  }

  // ---- A thread on its own ----

  /** The thread is at that instruction. */
  ghost predicate At(k: Program, pc: int, inst: Inst) {
    0 <= pc < |k| && k[pc] == Some(inst)
  }

  lemma {:induction false} OffDoesNothing(uops: seq<Uop>, s: LaneState)
    requires forall i :: 0 <= i < |uops| ==> !uops[i].Broken?
    ensures ScalarUops(uops, false, Progress(s, false, None)) == Progress(s, false, None)
  {
    if uops != [] {
      assert forall i :: 0 <= i < |uops[1..]| ==> uops[1..][i] == uops[i + 1];
      OffDoesNothing(uops[1..], s);
    }
  }

  /** A thread whose predicate has the wrong value keeps its state and falls through, RET and BRA included. */
  lemma SkipsWhenOff(k: Program, pc: int, s: LaneState, id: int, negated: bool, uops: seq<Uop>)
    requires At(k, pc, Guarded(id, negated, uops)) && 0 <= id < PREDICATES
    requires id in s.p && s.p[id] == negated
    requires forall i :: 0 <= i < |uops| ==> !uops[i].Broken?
    ensures ScalarStep(k, Running(pc, s)) == Running(pc + 1, s)
  {
    OffDoesNothing(uops, s);
  }

  /** With the right value the instruction does what it does without predicate. */
  lemma RunsWhenOn(k: Program, pc: int, s: LaneState, id: int, negated: bool, uops: seq<Uop>)
    requires At(k, pc, Guarded(id, negated, uops)) && 0 <= id < PREDICATES
    requires id in s.p && s.p[id] != negated
    ensures ScalarStep(k, Running(pc, s)) == ScalarStep(k[pc := Some(Inst(None, uops))], Running(pc, s))
  {
  }
}
