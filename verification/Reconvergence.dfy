/**
 * Reconvergence. The frames above a join behave as a warp of their own (a frame rule for
 * the stack), so the join opens exactly once, for all lanes of its branch that have not
 * returned, and until then the frames below it stay as they are.
 */
module Reconvergence {
  import opened Options
  import opened Kernel
  import opened Warp
  import opened StackShape
  import opened WarpInvariant
  import opened Simulation

  // ---- The frame rule ----

  /** `v` is the warp that runs the lanes `a` of `w`, on the frames of `w` above `below`. */
  ghost predicate Lifts(below: seq<Frame>, v: Warp, w: Warp, a: set<nat>) {
    && w.stack == below + v.stack
    && w.pc == v.pc && w.active == v.active && w.lanes == v.lanes && w.done == v.done
    && v.exited == w.exited * a
    && v.active <= a && Within(v.stack, a)
  }

  lemma {:induction false} FindJoinAbove(below: seq<Frame>, s: seq<Frame>, pc: int)
    requires FindJoin(s, pc).Some?
    ensures FindJoin(below + s, pc) == Some(|below| + FindJoin(s, pc).value)
  {
    assert Top(below + s) == Top(s);
    if !(Top(s).isJoin && Top(s).pc == pc) {
      assert Pop(below + s) == below + Pop(s);
      FindJoinAbove(below, Pop(s), pc);
    }
  }

  /** What one round of normalisation does with the top frame. */
  lemma OneRound(w: Warp)
    requires w.stack != []
    ensures var top := Top(w.stack).(active := Top(w.stack).active - w.exited);
      var rest := Pop(w.stack);
      && (top.active == {} ==> Normalize(w) == Normalize(w.(stack := rest)))
      && (top.active != {} && (top.isJoin || top.pc != top.reconv) ==>
            Normalize(w) == Ready(w.(stack := rest + [top.(isJoin := false)], pc := top.pc, active := top.active)))
      && (top.active != {} && !top.isJoin && top.pc == top.reconv ==>
            var i := FindJoin(rest, top.pc);
            Normalize(w) == if i.None? then Stuck(w.(stack := rest))
                            else Normalize(w.(stack := Merge(rest, i.value, top.active))))
  {
  }

  /** Normalisation looks below the region only when the region is empty. */
  ghost predicate NormalizesAlike(below: seq<Frame>, v: Warp, w: Warp, a: set<nat>) {
    Alike(below, Normalize(v), Normalize(w), Normalize(w.(stack := below)), a)
  }

  ghost predicate Alike(below: seq<Frame>, v: Normalized, w: Normalized, emptied: Normalized, a: set<nat>) {
    match v
    case Ready(v') => w.Ready? && Lifts(below, v', w.w, a)
    case Finished(_) => w == emptied
    case Stuck(_) => true
  }

  lemma SameTop(below: seq<Frame>, v: Warp, w: Warp, a: set<nat>)
    requires Lifts(below, v, w, a) && v.stack != []
    ensures w.stack != [] && Top(w.stack) == Top(v.stack) && Pop(w.stack) == below + Pop(v.stack)
    ensures Top(w.stack).active - w.exited == Top(v.stack).active - v.exited
  {
  }

  lemma ActivateAbove(below: seq<Frame>, v: Warp, w: Warp, a: set<nat>)
    requires Lifts(below, v, w, a) && v.stack != [] && Top(v.stack).active - v.exited != {}
    requires Top(v.stack).isJoin || Top(v.stack).pc != Top(v.stack).reconv
    ensures NormalizesAlike(below, v, w, a)
  {
    SameTop(below, v, w, a);
    OneRound(v);
    OneRound(w);
    var f := Top(v.stack).(active := Top(v.stack).active - v.exited, isJoin := false);
    assert below + Pop(v.stack) + [f] == below + (Pop(v.stack) + [f]);
  }

  /** Popping or merging shortens the region; what follows is the same for both warps. */
  lemma Shorten(below: seq<Frame>, v: Warp, w: Warp, a: set<nat>) returns (s: seq<Frame>)
    requires Lifts(below, v, w, a) && v.stack != []
    requires Top(v.stack).active - v.exited == {} ||
             (!Top(v.stack).isJoin && Top(v.stack).pc == Top(v.stack).reconv
              && FindJoin(Pop(v.stack), Top(v.stack).pc).Some?)
    ensures |s| < |v.stack| && Lifts(below, v.(stack := s), w.(stack := below + s), a)
    ensures Normalize(v) == Normalize(v.(stack := s))
    ensures Normalize(w) == Normalize(w.(stack := below + s))
  {
    SameTop(below, v, w, a);
    OneRound(v);
    OneRound(w);
    s := Pop(v.stack);
    var arrived := Top(v.stack).active - v.exited;
    if arrived != {} {
      FindJoinAbove(below, Pop(v.stack), Top(v.stack).pc);
      var i := FindJoin(s, Top(v.stack).pc).value;
      s := Merge(s, i, arrived);
      assert Merge(below + Pop(v.stack), |below| + i, arrived) == below + s;
    }
  }

  lemma {:induction false} NormalizeAbove(below: seq<Frame>, v: Warp, w: Warp, a: set<nat>)
    requires Lifts(below, v, w, a)
    ensures NormalizesAlike(below, v, w, a)
    decreases |v.stack|
  {
    if v.stack == [] {
      assert w.stack == below;
    } else {
      var top := Top(v.stack).(active := Top(v.stack).active - v.exited);
      var arrived := top.active != {} && !top.isJoin && top.pc == top.reconv;
      if top.active != {} && !arrived {
        ActivateAbove(below, v, w, a);
      } else if arrived && FindJoin(Pop(v.stack), top.pc).None? {
        OneRound(v);
      } else {
        var s := Shorten(below, v, w, a);
        var v', w' := v.(stack := s), w.(stack := below + s);
        NormalizeAbove(below, v', w', a);
        assert w'.(stack := below) == w.(stack := below);
      }
    }
  }

  ghost predicate LiftsOutcome(below: seq<Frame>, o: Outcome, p: Outcome, a: set<nat>) {
    if o.Failed? then p == o
    else
      && p.Going? && Lifts(below, o.w, p.w, a) && o.w.stack != []
      && p.next == o.next && p.split == o.split
      && (o.split.Some? ==> o.split.value.taken <= a && o.split.value.fallthrough <= a)
  }

  lemma UopAbove(below: seq<Frame>, table: seq<Option<int>>, u: Uop, g: set<nat>, o: Outcome, p: Outcome, a: set<nat>)
    requires (o.Going? ==> InWidth(o.w)) && (p.Going? ==> InWidth(p.w))
    requires LiftsOutcome(below, o, p, a)
    ensures LiftsOutcome(below, WarpUop(table, u, g, o), WarpUop(table, u, g, p), a)
  {
  }

  lemma {:induction false} UopsAbove(below: seq<Frame>, table: seq<Option<int>>, uops: seq<Uop>, g: set<nat>,
                                     o: Outcome, p: Outcome, a: set<nat>)
    requires (o.Going? ==> InWidth(o.w)) && (p.Going? ==> InWidth(p.w))
    requires LiftsOutcome(below, o, p, a)
    ensures LiftsOutcome(below, WarpUops(table, uops, g, o), WarpUops(table, uops, g, p), a)
  {
    if uops != [] {
      UopAbove(below, table, uops[0], g, o, p, a);
      UopsAbove(below, table, uops[1..], g, WarpUop(table, uops[0], g, o), WarpUop(table, uops[0], g, p), a);
    }
  }

  lemma CommitAbove(below: seq<Frame>, o: Outcome, p: Outcome, a: set<nat>)
    requires o.Going? && LiftsOutcome(below, o, p, a)
    ensures Lifts(below, Commit(o.w, o.next, o.split), Commit(p.w, p.next, p.split), a)
    ensures Commit(o.w, o.next, o.split).stack != []
  {
  }

  /** Executing an instruction touches nothing below the region. */
  lemma ExecuteAbove(k: Program, table: seq<Option<int>>, below: seq<Frame>, v: Warp, w: Warp, a: set<nat>)
    requires InWidth(v) && InWidth(w) && Lifts(below, v, w, a) && v.stack != []
    ensures match Execute(k, table, v)
            case Aborted(d) => Execute(k, table, w) == Aborted(d)
            case Advanced(v') =>
              Execute(k, table, w).Advanced? && Lifts(below, v', Execute(k, table, w).w, a) && v'.stack != []
            case Drained(_) => false
  {
    if 0 <= w.pc < |k| && k[w.pc].Some? && PredInRange(k[w.pc].value) {
      var inst := k[w.pc].value;
      assert Guard(inst, w) == Guard(inst, v);
      var o, p := Going(v, None, None), Going(w, None, None);
      UopsAbove(below, table, inst.uops, Guard(inst, w), o, p, a);
      var o', p' := WarpUops(table, inst.uops, Guard(inst, w), o), WarpUops(table, inst.uops, Guard(inst, w), p);
      if o'.Going? { CommitAbove(below, o', p', a); }
    }
  }

  // ---- A join that waits for its lanes ----

  function Region(w: Warp, b: nat, a: set<nat>): Warp
    requires b <= |w.stack|
  {
    w.(stack := w.stack[b..], exited := w.exited * a)
  }

  /** Above `below` the warp runs the lanes `a`, which leave the region at `outer`. */
  ghost predicate Inside(w: Warp, below: seq<Frame>, a: set<nat>, outer: int) {
    && |w.stack| > |below| && w.stack[..|below|] == below
    && Inv(Region(w, |below|, a), a, outer)
  }

  /** The join of a branch taken by the lanes `a` waits above `below` at pc `r`. */
  ghost predicate Waiting(w: Warp, below: seq<Frame>, a: set<nat>, outer: int, r: int) {
    && Inside(w, below, a, outer)
    && w.stack[|below|].isJoin && w.stack[|below|].pc == r
  }

  lemma RegionLifts(w: Warp, below: seq<Frame>, a: set<nat>, outer: int)
    requires Inside(w, below, a, outer)
    ensures Lifts(below, Region(w, |below|, a), w, a) && InWidth(Region(w, |below|, a))
  {
  }

  lemma LiftsInside(below: seq<Frame>, v: Warp, w: Warp, a: set<nat>, outer: int)
    requires Lifts(below, v, w, a) && Inv(v, a, outer) && v.stack != []
    ensures Region(w, |below|, a) == v && Inside(w, below, a, outer)
  {
  }

  /** In the region itself the join is the lowest frame, and normalising keeps it waiting or opens it. */
  lemma {:induction false} BaseJoin(v: Warp, a: set<nat>, outer: int, r: int)
    requires Inv(v, a, outer) && v.stack != [] && v.stack[0].isJoin && v.stack[0].pc == r
    ensures !Normalize(v).Stuck?
    ensures Normalize(v).Ready? ==>
              var s := Normalize(v).w.stack;
              s != [] && s[0].pc == r && (|s| > 1 ==> s[0].isJoin)
    decreases |v.stack|
  {
    var s := v.stack;
    var top := Top(s).(active := Top(s).active - v.exited);
    if top.active == {} {
      PopKeeps(v, a, outer);
      if |s| > 1 { BaseJoin(v.(stack := Pop(s)), a, outer, r); }
    } else if |s| > 1 && !top.isJoin && top.pc == top.reconv {
      MergeKeeps(v, a, outer);
      BaseJoin(v.(stack := Merge(Pop(s), JoinBelowTop(s), top.active)), a, outer, r);
    }
  }

  /** The join runs as a path of its own, with every lane of its branch that has not returned. */
  ghost predicate Opens(w: Warp, below: seq<Frame>, a: set<nat>, r: int) {
    var n := Normalize(w);
    && n.Ready? && |n.w.stack| == |below| + 1 && n.w.stack[..|below|] == below
    && n.w.pc == r && n.w.active == a - w.exited
  }

  /** Every lane of the branch has returned: the region is gone. */
  ghost predicate Vanishes(w: Warp, below: seq<Frame>, a: set<nat>) {
    a <= w.exited && Normalize(w) == Normalize(w.(stack := below))
  }

  /** The region on its own: its join stays at the bottom until it runs with all remaining lanes. */
  lemma RegionNormalizes(v: Warp, a: set<nat>, outer: int, r: int)
    requires Inv(v, a, outer) && v.stack != [] && v.stack[0].isJoin && v.stack[0].pc == r
    ensures !Normalize(v).Stuck? && (Normalize(v).Finished? ==> a <= v.exited)
    ensures Normalize(v).Ready? ==>
              var v' := Normalize(v).w;
              && Inv(v', a, outer) && Normal(v') && v'.exited == v.exited && v'.stack[0].pc == r
              && if |v'.stack| > 1 then v'.stack[0].isJoin else v'.pc == r && v'.active == a - v.exited
  {
    NormalizeStutters(v, a, outer);
    BaseJoin(v, a, outer, r);
    if Normalize(v).Ready? && |Normalize(v).w.stack| == 1 { OpenedWhole(Normalize(v).w, a, outer); }
  }

  /** Normalising a warp with a waiting join. */
  lemma JoinNormalizes(w: Warp, below: seq<Frame>, a: set<nat>, outer: int, r: int)
    requires Waiting(w, below, a, outer, r)
    ensures Opens(w, below, a, r) || Vanishes(w, below, a) ||
            (Normalize(w).Ready? && Normal(Normalize(w).w) && Waiting(Normalize(w).w, below, a, outer, r)
             && |Normalize(w).w.stack| > |below| + 1)
  {
    var v := Region(w, |below|, a);
    RegionLifts(w, below, a, outer);
    NormalizeAbove(below, v, w, a);
    RegionNormalizes(v, a, outer, r);
    if Normalize(v).Ready? {
      NormalizeKeepsLanes(w);
      LiftsInside(below, Normalize(v).w, Normalize(w).w, a, outer);
      LiftsNormal(below, Normalize(v).w, Normalize(w).w, a);
    }
  }

  lemma LiftsNormal(below: seq<Frame>, v: Warp, w: Warp, a: set<nat>)
    requires Lifts(below, v, w, a) && Normal(v)
    ensures Normal(w)
  {
  }

  lemma OpenedWhole(v: Warp, a: set<nat>, outer: int)
    requires Inv(v, a, outer) && Normal(v) && |v.stack| == 1
    ensures v.active == a - v.exited
  {
    assert Pop(v.stack) == [];
    forall l | l in a && l !in v.exited ensures l in v.active {
      assert Where(v.stack, l).Some?;
      assert Where(Pop(v.stack), l).None?;
    }
  }

  lemma {:induction false} NormalizeKeepsLanes(w: Warp)
    ensures Normalize(w).w.exited == w.exited && Normalize(w).w.lanes == w.lanes
    decreases |w.stack|
  {
    if w.stack != [] {
      var rest := Pop(w.stack);
      var top := Top(w.stack).(active := Top(w.stack).active - w.exited);
      NormalizeKeepsLanes(w.(stack := rest));
      if FindJoin(rest, top.pc).Some? {
        NormalizeKeepsLanes(w.(stack := Merge(rest, FindJoin(rest, top.pc).value, top.active)));
      }
    }
  }

  /** Only the running frame is touched. */
  lemma ExecuteKeepsRest(k: Program, table: seq<Option<int>>, w: Warp)
    requires InWidth(w) && Normal(w) && Execute(k, table, w).Advanced?
    ensures var s := Execute(k, table, w).w.stack; |s| >= |w.stack| && s[..|w.stack| - 1] == Pop(w.stack)
  {
    var below := Pop(w.stack);
    var v := Region(w, |below|, w.active);
    assert w.stack == below + v.stack;
    ExecuteAbove(k, table, below, v, w, w.active);
  }

  lemma RegionExecutes(k: Program, table: seq<Option<int>>, v: Warp, a: set<nat>, outer: int)
    requires Inv(v, a, outer) && InWidth(v) && Normal(v) && |v.stack| > 1 && ReconvTable(k, table)
    requires Execute(k, table, v).Advanced?
    ensures var v' := Execute(k, table, v).w; Inv(v', a, outer) && v'.stack != [] && v'.stack[0] == v.stack[0]
  {
    ExecuteSimulates(k, table, v, a, outer);
    ExecuteKeepsRest(k, table, v);
    var v' := Execute(k, table, v).w;
    assert v'.stack[..|v.stack| - 1][0] == Pop(v.stack)[0];
  }

  lemma RegionNormal(w: Warp, below: seq<Frame>, a: set<nat>)
    requires |below| < |w.stack| && w.stack[..|below|] == below && Normal(w)
    ensures Normal(Region(w, |below|, a))
  {
  }

  /** Executing an instruction above a waiting join. */
  lemma JoinExecutes(k: Program, table: seq<Option<int>>, w: Warp, below: seq<Frame>, a: set<nat>, outer: int, r: int)
    requires Waiting(w, below, a, outer, r) && Normal(w) && |w.stack| > |below| + 1
    requires ReconvTable(k, table) && InWidth(w)
    ensures Execute(k, table, w).Advanced? ==> Waiting(Execute(k, table, w).w, below, a, outer, r)
  {
    var v := Region(w, |below|, a);
    RegionLifts(w, below, a, outer);
    RegionNormal(w, below, a);
    ExecuteAbove(k, table, below, v, w, a);
    if Execute(k, table, v).Advanced? {
      RegionExecutes(k, table, v, a, outer);
      LiftsInside(below, Execute(k, table, v).w, Execute(k, table, w).w, a, outer);
    }
  }

  /** One turn of a warp with a waiting join. */
  lemma JoinSteps(k: Program, table: seq<Option<int>>, w: Warp, init: set<nat>, below: seq<Frame>, a: set<nat>,
                  outer: int, r: int)
    requires Inv(w, init, |k|) && ReconvTable(k, table) && InWidth(w) && Waiting(w, below, a, outer, r)
    ensures Opens(w, below, a, r) || Vanishes(w, below, a) ||
            (Step(k, table, w).Advanced? ==> Waiting(Step(k, table, w).w, below, a, outer, r))
  {
    JoinNormalizes(w, below, a, outer, r);
    if !Opens(w, below, a, r) && !Vanishes(w, below, a) {
      NormalizeStutters(w, init, |k|);
      InvBound(Normalize(w).w, init, |k|);
      JoinExecutes(k, table, Normalize(w).w, below, a, outer, r);
    }
  }

  // ---- A divergent branch ----

  lemma {:induction false} SplitReconv(table: seq<Option<int>>, uops: seq<Uop>, g: set<nat>, o: Outcome)
    requires o.Going? && InWidth(o.w)
    requires o.split.Some? ==> Some(o.split.value.reconv) == ReconvAt(table, o.w.pc)
    ensures var p := WarpUops(table, uops, g, o);
      p.Going? ==> p.w.pc == o.w.pc && (p.split.Some? ==> Some(p.split.value.reconv) == ReconvAt(table, p.w.pc))
  {
    if uops != [] {
      var o1 := WarpUop(table, uops[0], g, o);
      if o1.Going? { SplitReconv(table, uops[1..], g, o1); } else { FailedStays(table, uops[1..], g, o1.diag); }
    }
  }

  /** The instruction split the running frame in two. */
  ghost predicate Splits(k: Program, table: seq<Option<int>>, w: Warp) {
    && w.stack != [] && InWidth(w) && Execute(k, table, w).Advanced?
    && |Execute(k, table, w).w.stack| == |w.stack| + 2
  }

  /** The stack after an instruction: one frame moved, or a join and two paths in its place. */
  lemma SplitStack(k: Program, table: seq<Option<int>>, w: Warp)
    requires Normal(w) && InWidth(w) && Execute(k, table, w).Advanced?
    ensures var s := Execute(k, table, w).w.stack;
      && |s| in {|w.stack|, |w.stack| + 2}
      && (|s| == |w.stack| + 2 ==>
            && ReconvAt(table, w.pc).Some?
            && s[|w.stack| - 1] == Frame(ReconvAt(table, w.pc).value, {}, Top(w.stack).reconv, true))
  {
    var inst := k[w.pc].value;
    var below := Pop(w.stack);
    var v := Region(w, |below|, w.active);
    assert w.stack == below + v.stack && v.stack == [Top(w.stack)];
    var g := Guard(inst, w);
    var start, from := Going(v, None, None), Going(w, None, None);
    SplitReconv(table, inst.uops, g, from);
    KeepsDepth(table, inst.uops, g, from);
  }

  lemma {:induction false} KeepsDepth(table: seq<Option<int>>, uops: seq<Uop>, g: set<nat>, o: Outcome)
    requires o.Going? && InWidth(o.w) && o.w.stack != []
    ensures var p := WarpUops(table, uops, g, o);
      p.Going? ==> |p.w.stack| == |o.w.stack| && Top(p.w.stack).reconv == Top(o.w.stack).reconv
  {
    if uops != [] {
      var o1 := WarpUop(table, uops[0], g, o);
      if o1.Going? { KeepsDepth(table, uops[1..], g, o1); } else { FailedStays(table, uops[1..], g, o1.diag); }
    }
  }

  /** After a divergent branch its join waits for the lanes that took the branch instruction. */
  lemma SplitWaits(k: Program, table: seq<Option<int>>, w: Warp, init: set<nat>, n: int)
    requires Inv(w, init, n) && Normal(w) && ReconvTable(k, table) && Splits(k, table, w)
    ensures ReconvAt(table, w.pc).Some?
    ensures Waiting(Execute(k, table, w).w, Pop(w.stack), w.active, Top(w.stack).reconv, ReconvAt(table, w.pc).value)
  {
    var below, a, outer := Pop(w.stack), w.active, Top(w.stack).reconv;
    var v := Region(w, |below|, a);
    assert v.stack == [Top(w.stack)];
    assert Pop(v.stack) == [] && v.stack[1..] == [];
    assert w.exited * a == {};
    assert Inv(v, a, outer);
    RegionLifts(w, below, a, outer);
    ExecuteAbove(k, table, below, v, w, a);
    ExecuteSimulates(k, table, v, a, outer);
    SplitStack(k, table, w);
    LiftsInside(below, Execute(k, table, v).w, Execute(k, table, w).w, a, outer);
  }

  // ---- Any run of a warp ----

  /** Successive states of a warp, one instruction apart. */
  ghost predicate Trace(k: Program, table: seq<Option<int>>, t: seq<Warp>) {
    t != [] && forall i :: 0 <= i < |t| - 1 ==> InWidth(t[i]) && Step(k, table, t[i]) == Advanced(t[i + 1])
  }

  lemma {:induction false} TraceInv(k: Program, table: seq<Option<int>>, t: seq<Warp>, init: set<nat>, i: nat)
    requires Trace(k, table, t) && Inv(t[0], init, |k|) && ReconvTable(k, table) && i < |t|
    ensures Inv(t[i], init, |k|)
  {
    if i > 0 {
      TraceInv(k, table, t, init, i - 1);
      StepSimulates(k, table, t[i - 1], init);
    }
  }

  /** The next turn of a run in which the join keeps waiting. */
  lemma WaitsOn(k: Program, table: seq<Option<int>>, t: seq<Warp>, init: set<nat>, below: seq<Frame>, a: set<nat>,
                outer: int, r: int, i: nat)
    requires Trace(k, table, t) && Inv(t[0], init, |k|) && ReconvTable(k, table) && i + 1 < |t|
    requires Waiting(t[i], below, a, outer, r) && !Opens(t[i], below, a, r) && !Vanishes(t[i], below, a)
    ensures Waiting(t[i + 1], below, a, outer, r)
  {
    TraceInv(k, table, t, init, i);
    assert Step(k, table, t[i]) == Advanced(t[i + 1]);
    JoinSteps(k, table, t[i], init, below, a, outer, r);
  }

  /** What goes on until it stops goes on up to the first stop. */
  lemma {:induction false} FirstStop(waits: seq<bool>, stops: seq<bool>) returns (i: nat)
    requires |waits| == |stops| > 0 && waits[0]
    requires forall j: nat :: j + 1 < |waits| && waits[j] && !stops[j] ==> waits[j + 1]
    ensures i < |waits| && (forall j :: 0 <= j <= i ==> waits[j]) && (forall j :: 0 <= j < i ==> !stops[j])
    ensures i == |waits| - 1 || stops[i]
  {
    i := 0;
    while i < |waits| - 1 && !stops[i]
      invariant i < |waits| && (forall j :: 0 <= j <= i ==> waits[j]) && (forall j :: 0 <= j < i ==> !stops[j])
    {
      i := i + 1;
    }
  }

  /**
   * A join waits, with the frames below it untouched, until the turn in which it opens for
   * all lanes of its branch that have not returned, or until all of them have returned.
   */
  lemma JoinWaitsForAll(k: Program, table: seq<Option<int>>, t: seq<Warp>, init: set<nat>, below: seq<Frame>,
                        a: set<nat>, outer: int, r: int) returns (i: nat)
    requires Trace(k, table, t) && Inv(t[0], init, |k|) && ReconvTable(k, table)
    requires Waiting(t[0], below, a, outer, r)
    ensures i < |t| && forall j :: 0 <= j <= i ==> Waiting(t[j], below, a, outer, r)
    ensures forall j :: 0 <= j < i ==> !Opens(t[j], below, a, r) && !Vanishes(t[j], below, a)
    ensures i == |t| - 1 || Opens(t[i], below, a, r) || Vanishes(t[i], below, a)
  {
    var waits := seq(|t|, j requires 0 <= j < |t| => Waiting(t[j], below, a, outer, r));
    var stops := seq(|t|, j requires 0 <= j < |t| => Opens(t[j], below, a, r) || Vanishes(t[j], below, a));
    forall j: nat | j + 1 < |t| && waits[j] && !stops[j] ensures waits[j + 1] {
      WaitsOn(k, table, t, init, below, a, outer, r, j);
    }
    i := FirstStop(waits, stops);
    forall j | 0 <= j <= i ensures Waiting(t[j], below, a, outer, r) { assert waits[j]; }
    forall j | 0 <= j < i ensures !Opens(t[j], below, a, r) && !Vanishes(t[j], below, a) { assert !stops[j]; }
  }
}
