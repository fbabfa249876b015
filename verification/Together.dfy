/**
 * What the immediate post-dominators are for: while a join waits, no lane of its branch
 * runs the instruction at the join, so the lanes run it together when the join opens.
 */
module Together {
  import opened Options
  import opened Kernel
  import opened Graph
  import opened Ipdom
  import opened Warp
  import opened WarpInvariant
  import opened StackShape
  import opened Simulation
  import opened ControlFlowAnalysis
  import opened Reconvergence

  // ---- Paths from a branch that have not yet come to its reconvergence point ----

  ghost predicate Way(g: Succ, b: nat, r: nat, q: seq<nat>, p: nat) {
    && IsPath(g, q) && |q| >= 2 && q[0] == b && q[|q| - 1] == p
    && forall i :: 0 <= i < |q| - 1 ==> q[i] != r
  }

  /** A path of at least one edge leads from `b` to `p` and avoids `r` before its end. */
  ghost predicate OnWay(g: Succ, b: nat, r: nat, p: nat) {
    exists q :: Way(g, b, r, q, p)
  }

  lemma FirstEdge(g: Succ, b: nat, r: nat, p: nat)
    requires WellFormed(g) && Edge(g, b, p) && b != r
    ensures OnWay(g, b, r, p)
  {
    assert EdgeAt(g, [b, p], 0);
    assert Way(g, b, r, [b, p], p);
  }

  lemma NextEdge(g: Succ, b: nat, r: nat, p: nat, p': nat)
    requires WellFormed(g) && OnWay(g, b, r, p) && p != r && Edge(g, p, p')
    ensures OnWay(g, b, r, p')
  {
    var q :| Way(g, b, r, q, p);
    assert EdgeAt(g, [p, p'], 0);
    PathJoin(g, q, [p, p']);
    assert Way(g, b, r, q + [p, p'][1..], p');
  }

  /** Going on from the end of one such path along another one that also avoids `r`. */
  lemma WayOn(g: Succ, b: nat, r: nat, p: nat, q: seq<nat>)
    requires WellFormed(g) && OnWay(g, b, r, p) && p != r && IsPath(g, q) && |q| >= 2 && q[0] == p
    requires forall i :: 0 <= i < |q| - 1 ==> q[i] != r
    ensures OnWay(g, b, r, q[|q| - 1])
  {
    var a :| Way(g, b, r, a, p);
    PathJoin(g, a, q);
    assert Way(g, b, r, a + q[1..], q[|q| - 1]);
  }

  /** A branch and its immediate post-dominator, as the analysis provides it. */
  ghost predicate Branch(g: Succ, b: nat, r: nat) {
    && WellFormed(g) && b < Exit(g) && ReachesExit(g, b) && Candidate(g, b, r)
    && forall d: nat :: Candidate(g, b, d) && d != r ==> PostDominates(g, d, r)
  }

  /** A reconvergence point is a strict post-dominator of every branch on the way to it. */
  lemma OuterIsCandidate(g: Succ, b: nat, r: nat, b': nat)
    requires Branch(g, b, r) && OnWay(g, b, r, b') && b' != r
    ensures Candidate(g, b', r)
  {
    var q :| Way(g, b, r, q, b');
    forall p | ExitPath(g, b', p) ensures r in p {
      PathJoin(g, q, p);
      assert ExitPath(g, b, q + p[1..]);
      assert r in q + p[1..];
      assert r !in q;
    }
  }

  /** An exit path that does not come back to its start. */
  lemma LeavesForGood(g: Succ, i: nat) returns (p: seq<nat>)
    requires WellFormed(g) && ReachesExit(g, i)
    ensures ExitPath(g, i, p) && forall t: nat :: 0 < t < |p| ==> p[t] != i
  {
    p :| ExitPath(g, i, p);
    p := ShortestPath(g, i, p);
    forall t: nat | 0 < t < |p| ensures p[t] != i { ShortestIsSimple(g, i, p, 0, t); }
  }

  lemma StillReaches(g: Succ, c: nat, i: nat)
    requires WellFormed(g) && ReachesExit(g, i) && PostDominates(g, c, i)
    ensures ReachesExit(g, c)
  {
    var p :| ExitPath(g, i, p);
    var t :| 0 <= t < |p| && p[t] == c;
    PathSplit(g, p, t);
    assert ExitPath(g, c, p[t..]);
  }

  /**
   * Nested branches do not overtake: a branch on the way to the reconvergence point of an
   * outer branch comes to its own reconvergence point first, unless they are the same.
   */
  lemma InnerComesFirst(g: Succ, b: nat, r: nat, b': nat, r': nat)
    requires Branch(g, b, r) && Branch(g, b', r') && OnWay(g, b, r, b') && b' != r && OnWay(g, b', r', r)
    ensures r' == r
  {
    OuterIsCandidate(g, b, r, b');
    if r' != r {
      var q :| Way(g, b', r', q, r);
      StillReaches(g, r, b');
      var p := LeavesForGood(g, r);
      PathJoin(g, q, p);
      var whole := q + p[1..];
      assert ExitPath(g, b', whole);
      assert r' in whole && r' !in q;
      var t :| 0 <= t < |p| && p[t] == r';
      PathSplit(g, p, t);
      assert ExitPath(g, r', p[t..]);
      OutOfReach(g, r, r', p[t..]);
    }
  }

  lemma OutOfReach(g: Succ, r: nat, r': nat, p: seq<nat>)
    requires WellFormed(g) && PostDominates(g, r, r') && ExitPath(g, r', p)
    ensures r in p
  {
  }

  /** The reconvergence point of an inner branch is itself on the way to the outer one. */
  lemma ReconvOnWay(g: Succ, b: nat, r: nat, b': nat, r': nat)
    requires Branch(g, b, r) && Branch(g, b', r') && OnWay(g, b, r, b') && b' != r
    ensures OnWay(g, b, r, r')
  {
    var p :| ExitPath(g, b', p);
    assert r' in p;
    var t := 0;
    while p[t] != r'
      invariant t < |p| && forall u :: 0 <= u < t ==> p[u] != r'
      decreases |p| - t
    {
      t := t + 1;
    }
    forall u: nat | u < t ensures p[u] != r {
      if p[u] == r {
        PathSplit(g, p, u);
        assert Way(g, b', r', p[..u + 1], r);
        InnerComesFirst(g, b, r, b', r');
      }
    }
    PathSplit(g, p, t);
    WayOn(g, b, r, b', p[..t + 1]);
  }

  // ---- Kernels whose branches reconverge at points of their own ----

  /** The reconvergence point of a branch. */
  ghost predicate ReconvergesAt(k: Program, table: seq<Option<int>>, b: nat, r: nat) {
    NeedsReconv(k, b) && |table| == |k| && table[b] == Some(r)
  }

  /**
   * No branch shares the reconvergence point of a branch that it is nested in. In
   * particular a branch is not nested in itself, that is, no loop repeats it.
   */
  ghost predicate NoneShared(k: Program, g: Succ, table: seq<Option<int>>) {
    forall b: nat, r: nat, b': nat ::
      ReconvergesAt(k, table, b, r) && r < |k| && OnWay(g, b, r, b') && b' != r ==> !ReconvergesAt(k, table, b', r)
  }

  /** The analysis succeeded, every branch reaches EXIT, and RET is not predicated. */
  ghost predicate Regular(k: Program, g: Succ, table: seq<Option<int>>) {
    && IsCfg(k, g) && GoodEntries(k, g, table)
    && (forall b: nat :: NeedsReconv(k, b) ==> ReachesExit(g, b))
    && (forall pc: nat :: pc < |k| && k[pc].Some? && HasRet(k[pc].value.uops) ==> k[pc].value.pred.None?)
  }

  lemma IsBranch(k: Program, g: Succ, table: seq<Option<int>>, b: nat, r: nat)
    requires Regular(k, g, table) && ReconvergesAt(k, table, b, r)
    ensures Branch(g, b, r)
  {
  }

  // ---- The stack invariant ----

  predicate Holds(f: Frame, exited: set<nat>) {
    f.isJoin || !(f.active <= exited)
  }

  /** `f`, which belongs to the branch `bf` if it is a join, lies above the join of branch `b` at `r`. */
  ghost predicate Above(g: Succ, n: nat, b: nat, r: nat, f: Frame, bf: nat, exited: set<nat>) {
    && (f.isJoin ==> OnWay(g, b, r, bf) && bf != r)
    && (Holds(f, exited) && 0 <= f.pc < n ==> OnWay(g, b, r, f.pc))
    && (Holds(f, exited) && f.pc == r && r < n ==> f.reconv == r)
  }

  ghost predicate JoinOf(k: Program, table: seq<Option<int>>, b: nat, f: Frame) {
    f.pc >= 0 && ReconvergesAt(k, table, b, f.pc)
  }

  /** Every join of the stack belongs to a branch, and every frame above it is on the way to it. */
  ghost predicate Owned(k: Program, g: Succ, table: seq<Option<int>>, s: seq<Frame>, bs: seq<nat>, exited: set<nat>) {
    && |bs| == |s|
    && (forall i :: 0 <= i < |s| && s[i].isJoin ==> JoinOf(k, table, bs[i], s[i]))
    && (forall i, j :: 0 <= i < j < |s| && s[i].isJoin ==> Above(g, |k|, bs[i], s[i].pc, s[j], bs[j], exited))
  }

  /** No join below the running frame waits at its pc. */
  ghost predicate NotEarly(k: Program, w: Warp) {
    forall i :: 0 <= i < |w.stack| - 1 && w.stack[i].isJoin && w.stack[i].pc < |k| ==> w.pc != w.stack[i].pc
  }

  /**
   * The running frame is at its own reconvergence point: a join has been activated there,
   * although the next join outwards waits at the same point.
   */
  ghost predicate AtOwnReconv(k: Program, w: Warp) {
    w.stack != [] && 0 <= w.pc < |k| && w.pc == Top(w.stack).reconv
  }

  /** Dropping frames from the top, dropping lanes, and letting a join run keep the invariant. */
  ghost predicate Shrinks(s: seq<Frame>, t: seq<Frame>, exited: set<nat>) {
    && |t| <= |s|
    && forall i :: 0 <= i < |t| ==>
         && t[i].pc == s[i].pc && t[i].reconv == s[i].reconv
         && (t[i].isJoin ==> s[i].isJoin)
         && (Holds(t[i], exited) ==> Holds(s[i], exited))
  }

  lemma ShrinksKeeps(k: Program, g: Succ, table: seq<Option<int>>, s: seq<Frame>, t: seq<Frame>, bs: seq<nat>,
                     exited: set<nat>)
    requires Owned(k, g, table, s, bs, exited) && Shrinks(s, t, exited)
    ensures Owned(k, g, table, t, bs[..|t|], exited)
  {
  }

  /** A frame that is activated although a join below waits at its pc is at its own reconvergence point. */
  lemma ActivatedEarly(k: Program, g: Succ, table: seq<Option<int>>, w: Warp, bs: seq<nat>, top: Frame)
    requires Owned(k, g, table, w.stack, bs, w.exited) && w.stack != []
    requires top == Top(w.stack).(active := Top(w.stack).active - w.exited) && top.active != {}
    ensures var v := w.(stack := Pop(w.stack) + [top.(isJoin := false)], pc := top.pc, active := top.active);
      NotEarly(k, v) || AtOwnReconv(k, v)
  {
    var s, rest := w.stack, Pop(w.stack);
    forall i | 0 <= i < |rest| && rest[i].isJoin && rest[i].pc < |k| && top.pc == rest[i].pc
      ensures top.reconv == top.pc && top.pc >= 0
    {
      assert Above(g, |k|, bs[i], s[i].pc, s[|s| - 1], bs[|s| - 1], w.exited);
    }
  }

  lemma {:induction false} NormalizeOwned(k: Program, g: Succ, table: seq<Option<int>>, w: Warp, bs: seq<nat>)
    returns (bs': seq<nat>)
    requires Owned(k, g, table, w.stack, bs, w.exited) && Normalize(w).Ready?
    ensures Owned(k, g, table, Normalize(w).w.stack, bs', w.exited)
    ensures NotEarly(k, Normalize(w).w) || AtOwnReconv(k, Normalize(w).w)
    decreases |w.stack|
  {
    OneRound(w);
    var s, rest := w.stack, Pop(w.stack);
    var top := Top(s).(active := Top(s).active - w.exited);
    if top.active == {} {
      ShrinksKeeps(k, g, table, s, rest, bs, w.exited);
      bs' := NormalizeOwned(k, g, table, w.(stack := rest), bs[..|rest|]);
    } else if !top.isJoin && top.pc == top.reconv {
      var merged := Merge(rest, FindJoin(rest, top.pc).value, top.active);
      ShrinksKeeps(k, g, table, s, merged, bs, w.exited);
      bs' := NormalizeOwned(k, g, table, w.(stack := merged), bs[..|merged|]);
    } else {
      var t := rest + [top.(isJoin := false)];
      ShrinksKeeps(k, g, table, s, t, bs, w.exited);
      bs' := bs[..|t|];
      ActivatedEarly(k, g, table, w, bs, top);
    }
  }

  // ---- One instruction follows the control-flow graph ----

  lemma {:induction false} BrasAgree(table: seq<Option<int>>, uops: seq<Uop>, g: set<nat>, o: Outcome)
    requires o.Going? && InWidth(o.w) && !HasRet(uops)
    ensures var p := WarpUops(table, uops, g, o);
      p.Going? ==>
        && (o.w.active * g == {} || !HasBra(uops) ==> p.next == o.next)
        && (o.w.active * g != {} ==>
              && (o.next.Some? ==> p.next == o.next)
              && forall i :: 0 <= i < |uops| && uops[i].Bra? ==> uops[i].target.Some? && uops[i].target == p.next)
  {
    if uops != [] {
      var o1, rest := WarpUop(table, uops[0], g, o), uops[1..];
      forall i | 0 <= i < |rest| ensures !rest[i].Ret? { assert rest[i] == uops[i + 1]; }
      if HasBra(rest) { var i :| 0 <= i < |rest| && rest[i].Bra?; assert uops[i + 1].Bra?; }
      if o1.Failed? {
        FailedStays(table, rest, g, o1.diag);
      } else {
        assert !uops[0].Ret?;
        BrasAgree(table, rest, g, o1);
        assert forall i :: 1 <= i < |uops| ==> uops[i] == rest[i - 1];
        if uops[0].Bra? { assert HasBra(uops); }
      }
    }
  }

  lemma {:induction false} LastTargetAgrees(uops: seq<Uop>, target: Option<int>)
    requires HasBra(uops) && target.Some?
    requires forall i :: 0 <= i < |uops| && uops[i].Bra? ==> uops[i].target == target
    ensures LastTarget(uops) == target
  {
    var last := |uops| - 1;
    if !uops[last].Bra? {
      var i :| 0 <= i < |uops| && uops[i].Bra?;
      assert uops[..last][i].Bra?;
      LastTargetAgrees(uops[..last], target);
    }
  }

  /** A RET that is not predicated retires the whole running frame. */
  lemma {:induction false} RetRetires(table: seq<Option<int>>, uops: seq<Uop>, g: set<nat>, o: Outcome)
    requires o.Going? && InWidth(o.w) && o.w.stack != [] && Top(o.w.stack).active == o.w.active && o.w.active <= g
    requires HasRet(uops) || o.w.active == {}
    ensures var p := WarpUops(table, uops, g, o); p.Going? ==> p.w.active == {}
  {
    if uops != [] {
      var o1, rest := WarpUop(table, uops[0], g, o), uops[1..];
      if o1.Failed? {
        FailedStays(table, rest, g, o1.diag);
      } else {
        if HasRet(uops) && !uops[0].Ret? { var i :| 0 <= i < |uops| && uops[i].Ret?; assert rest[i - 1].Ret?; }
        RetRetires(table, rest, g, o1);
      }
    }
  }

  /** The instruction that a normal warp has executed, and how far it got before the commit. */
  ghost predicate Executed(k: Program, table: seq<Option<int>>, w: Warp, inst: Inst, g: set<nat>, o: Outcome,
                           retired: bool) {
    && InWidth(w) && Normal(w) && Fetches(k, w, inst) && g == Guard(inst, w)
    && o == WarpUops(table, inst.uops, g, Going(w, None, None))
    && Midway(w, g, o, retired)
  }

  lemma GetExecuted(k: Program, table: seq<Option<int>>, w: Warp)
    returns (inst: Inst, g: set<nat>, o: Outcome, retired: bool)
    requires InWidth(w) && Normal(w) && ReconvTable(k, table) && Execute(k, table, w).Advanced?
    ensures Executed(k, table, w, inst, g, o, retired)
    ensures Execute(k, table, w).w == Commit(o.w, o.next, o.split)
    ensures inst.pred.None? ==> w.active <= g
  {
    inst := k[w.pc].value;
    g := Guard(inst, w);
    var start := Going(w, None, None);
    assert SetTop(w.stack, Top(w.stack)) == w.stack;
    assert Midway(w, g, start, false);
    if inst.pred.None? { assert w.active <= g; }
    retired := UopsSimulate(table, w, g, inst.uops, start, false);
    o := WarpUops(table, inst.uops, g, start);
  }

  /** The pcs at which the lanes that go on will continue. */
  predicate Continues(w: Warp, o: Outcome, q: int)
    requires o.Going?
  {
    (o.next.Some? && q == o.next.value) || ((o.next.None? || o.split.Some?) && q == w.pc + 1)
  }

  /** Unless the whole frame returns, its lanes continue along edges of the control-flow graph. */
  lemma StaysOnGraph(k: Program, g: Succ, table: seq<Option<int>>, w: Warp, inst: Inst, guard: set<nat>, o: Outcome,
                     retired: bool, q: int)
    requires Regular(k, g, table) && Executed(k, table, w, inst, guard, o, retired)
    requires inst.pred.None? ==> w.active <= guard
    requires Continues(w, o, q) && 0 <= q < |k| && o.w.active != {}
    ensures Edge(g, w.pc, q)
  {
    var start := Going(w, None, None);
    CfgWellFormed(k, g);
    if HasRet(inst.uops) {
      RetRetires(table, inst.uops, guard, start);
    } else {
      BrasAgree(table, inst.uops, guard, start);
      if o.next.Some? {
        LastTargetAgrees(inst.uops, o.next);
      }
      assert Next(g, w.pc) == Successors(k, w.pc);
      var s := Successors(k, w.pc);
      assert q in s by {
        if |s| == 2 { assert q == s[0] || q == s[1]; } else { assert q == s[0]; }
      }
    }
  }

  // ---- One instruction keeps the stack invariant ----

  /** The state in which an instruction starts. */
  ghost predicate AtInstruction(k: Program, g: Succ, table: seq<Option<int>>, w: Warp, bs: seq<nat>) {
    && Regular(k, g, table) && Owned(k, g, table, w.stack, bs, w.exited) && NotEarly(k, w) && Normal(w)
    && Shaped(w.stack, |k|) && 0 <= w.pc < |k|
  }

  /** The running frame before the instruction, as the joins below it see it. */
  lemma RunningAbove(k: Program, g: Succ, table: seq<Option<int>>, w: Warp, bs: seq<nat>, i: nat)
    requires AtInstruction(k, g, table, w, bs)
    requires i < |w.stack| - 1 && w.stack[i].isJoin
    ensures w.stack[i].pc >= 0 && Branch(g, bs[i], w.stack[i].pc)
    ensures OnWay(g, bs[i], w.stack[i].pc, w.pc) && w.pc != w.stack[i].pc
  {
  }

  /** Lanes that come to the reconvergence point of a join below come to that of the nearest join. */
  lemma ArrivesAtNearest(k: Program, g: Succ, table: seq<Option<int>>, w: Warp, bs: seq<nat>, i: nat, m: nat, q: nat)
    requires AtInstruction(k, g, table, w, bs)
    requires i < m < |w.stack| - 1 && w.stack[i].isJoin && w.stack[m].isJoin
    requires Edge(g, w.pc, q) && q == w.stack[i].pc
    ensures w.stack[m].pc == q
  {
    RunningAbove(k, g, table, w, bs, i);
    RunningAbove(k, g, table, w, bs, m);
    NextEdge(g, bs[m], w.stack[m].pc, w.pc, q);
    assert Above(g, |k|, bs[i], w.stack[i].pc, w.stack[m], bs[m], w.exited);
    InnerComesFirst(g, bs[i], w.stack[i].pc, bs[m], w.stack[m].pc);
  }

  lemma NearestBelow(s: seq<Frame>, n: int, i: nat) returns (m: nat)
    requires Shaped(s, n) && i < |s| - 1 && s[i].isJoin
    ensures i <= m < |s| - 1 && s[m].isJoin && s[m].pc == Top(s).reconv
  {
    NearestJoin(s, n);
    m := JoinBelowTop(s);
  }

  /** A frame that continues from the running one along an edge, with the same reconvergence point. */
  lemma MovedAbove(k: Program, g: Succ, table: seq<Option<int>>, w: Warp, bs: seq<nat>, f: Frame,
                   exited: set<nat>, i: nat)
    requires AtInstruction(k, g, table, w, bs)
    requires i < |w.stack| - 1 && w.stack[i].isJoin
    requires !f.isJoin && f.reconv == Top(w.stack).reconv
    requires Holds(f, exited) && 0 <= f.pc < |k| ==> Edge(g, w.pc, f.pc)
    ensures Above(g, |k|, bs[i], w.stack[i].pc, f, 0, exited)
  {
    if Holds(f, exited) && 0 <= f.pc < |k| {
      RunningAbove(k, g, table, w, bs, i);
      NextEdge(g, bs[i], w.stack[i].pc, w.pc, f.pc);
      if f.pc == w.stack[i].pc {
        var m := NearestBelow(w.stack, |k|, i);
        if i < m { ArrivesAtNearest(k, g, table, w, bs, i, m, f.pc); }
        assert f.reconv == w.stack[i].pc;
      }
    }
  }

  /** The join of a new branch, seen from a join below. */
  lemma NewJoinAbove(k: Program, g: Succ, table: seq<Option<int>>, w: Warp, bs: seq<nat>, r: nat, join: Frame,
                     exited: set<nat>, i: nat)
    requires AtInstruction(k, g, table, w, bs)
    requires i < |w.stack| - 1 && w.stack[i].isJoin
    requires ReconvergesAt(k, table, w.pc, r) && join.isJoin && join.pc == r && join.reconv == Top(w.stack).reconv
    ensures Above(g, |k|, bs[i], w.stack[i].pc, join, w.pc, exited)
  {
    RunningAbove(k, g, table, w, bs, i);
    IsBranch(k, g, table, w.pc, r);
    ReconvOnWay(g, bs[i], w.stack[i].pc, w.pc, r);
    if r == w.stack[i].pc {
      var m := NearestBelow(w.stack, |k|, i);
      if i < m { SharedByNearest(k, g, table, w, bs, i, m, r); }
    }
  }

  /** A branch that shares the reconvergence point of a join below shares that of the nearest join. */
  lemma SharedByNearest(k: Program, g: Succ, table: seq<Option<int>>, w: Warp, bs: seq<nat>, i: nat, m: nat, r: nat)
    requires AtInstruction(k, g, table, w, bs)
    requires i < m < |w.stack| - 1 && w.stack[i].isJoin && w.stack[m].isJoin
    requires ReconvergesAt(k, table, w.pc, r) && r == w.stack[i].pc
    ensures w.stack[m].pc == r
  {
    RunningAbove(k, g, table, w, bs, i);
    RunningAbove(k, g, table, w, bs, m);
    IsBranch(k, g, table, w.pc, r);
    ReconvOnWay(g, bs[m], w.stack[m].pc, w.pc, r);
    assert Above(g, |k|, bs[i], w.stack[i].pc, w.stack[m], bs[m], w.exited);
    InnerComesFirst(g, bs[i], w.stack[i].pc, bs[m], w.stack[m].pc);
  }

  /** A path of a new branch, seen from a join below. */
  lemma NewPathAbove(k: Program, g: Succ, table: seq<Option<int>>, w: Warp, bs: seq<nat>, r: nat, f: Frame,
                     exited: set<nat>, i: nat)
    requires AtInstruction(k, g, table, w, bs)
    requires i < |w.stack| - 1 && w.stack[i].isJoin
    requires ReconvergesAt(k, table, w.pc, r) && !f.isJoin && f.reconv == r
    requires Holds(f, exited) && 0 <= f.pc < |k| ==> Edge(g, w.pc, f.pc)
    ensures Above(g, |k|, bs[i], w.stack[i].pc, f, 0, exited)
  {
    if Holds(f, exited) && 0 <= f.pc < |k| {
      RunningAbove(k, g, table, w, bs, i);
      NextEdge(g, bs[i], w.stack[i].pc, w.pc, f.pc);
      if f.pc == w.stack[i].pc {
        IsBranch(k, g, table, w.pc, r);
        FirstEdge(g, w.pc, r, f.pc);
        InnerComesFirst(g, bs[i], w.stack[i].pc, w.pc, r);
      }
    }
  }

  /** A path of a new branch, seen from its own join. */
  lemma PathAboveOwnJoin(k: Program, g: Succ, table: seq<Option<int>>, b: nat, r: nat, f: Frame, exited: set<nat>)
    requires Regular(k, g, table) && ReconvergesAt(k, table, b, r) && !f.isJoin && f.reconv == r
    requires Holds(f, exited) && 0 <= f.pc < |k| ==> Edge(g, b, f.pc)
    ensures Above(g, |k|, b, r, f, 0, exited)
  {
    IsBranch(k, g, table, b, r);
    if Holds(f, exited) && 0 <= f.pc < |k| { FirstEdge(g, b, r, f.pc); }
  }

  /** The new join does not wait at the reconvergence point of the frame it replaces. */
  lemma NewJoinIsApart(k: Program, g: Succ, table: seq<Option<int>>, w: Warp, bs: seq<nat>, r: nat)
    requires AtInstruction(k, g, table, w, bs) && NoneShared(k, g, table)
    requires ReconvergesAt(k, table, w.pc, r) && r < |k|
    ensures r != Top(w.stack).reconv
  {
    NearestJoin(w.stack, |k|);
    if |w.stack| >= 2 { RunningAbove(k, g, table, w, bs, JoinBelowTop(w.stack)); }
  }

  /** What is left of the stack below the running frame. */
  lemma BelowOwned(k: Program, g: Succ, table: seq<Option<int>>, s: seq<Frame>, bs: seq<nat>, exited: set<nat>,
                   exited': set<nat>)
    requires Owned(k, g, table, s, bs, exited) && exited <= exited' && s != []
    ensures Owned(k, g, table, Pop(s), bs[..|s| - 1], exited')
  {
  }

  ghost predicate AboveAll(k: Program, g: Succ, table: seq<Option<int>>, s: seq<Frame>, bs: seq<nat>, f: Frame, bf: nat,
                           exited: set<nat>)
    requires Owned(k, g, table, s, bs, exited)
  {
    forall i :: 0 <= i < |s| && s[i].isJoin ==> Above(g, |k|, bs[i], s[i].pc, f, bf, exited)
  }

  lemma PushOwned(k: Program, g: Succ, table: seq<Option<int>>, s: seq<Frame>, bs: seq<nat>, f: Frame, bf: nat,
                  exited: set<nat>)
    requires Owned(k, g, table, s, bs, exited) && AboveAll(k, g, table, s, bs, f, bf, exited)
    requires f.isJoin ==> JoinOf(k, table, bf, f)
    ensures Owned(k, g, table, s + [f], bs + [bf], exited)
  {
  }

  /** The frame continues along an edge of the graph. */
  ghost predicate OnGraph(k: Program, g: Succ, pc: nat, f: Frame, exited: set<nat>) {
    !f.isJoin && (Holds(f, exited) && 0 <= f.pc < |k| ==> Edge(g, pc, f.pc))
  }

  lemma MoveOwned(k: Program, g: Succ, table: seq<Option<int>>, w: Warp, bs: seq<nat>, f: Frame, exited: set<nat>)
    requires AtInstruction(k, g, table, w, bs) && w.exited <= exited
    requires OnGraph(k, g, w.pc, f, exited) && f.reconv == Top(w.stack).reconv
    ensures Owned(k, g, table, SetTop(w.stack, f), bs[..|w.stack| - 1] + [0], exited)
  {
    var s, cs := Pop(w.stack), bs[..|w.stack| - 1];
    BelowOwned(k, g, table, w.stack, bs, w.exited, exited);
    forall i | 0 <= i < |s| && s[i].isJoin ensures Above(g, |k|, cs[i], s[i].pc, f, 0, exited) {
      MovedAbove(k, g, table, w, bs, f, exited, i);
    }
    PushOwned(k, g, table, s, cs, f, 0, exited);
    assert SetTop(w.stack, f) == s + [f];
  }

  /** The stack of a branch that has pushed its join, and perhaps its first path. */
  ghost predicate Pushed(w: Warp, bs: seq<nat>, r: nat, s: seq<Frame>, cs: seq<nat>) {
    var m := |w.stack| - 1;
    && m >= 0 && |bs| == |w.stack| <= |s| == |cs|
    && s[..m] == Pop(w.stack) && cs[..m] == bs[..m]
    && s[m].isJoin && s[m].pc == r && cs[m] == w.pc
    && forall i :: m < i < |s| ==> !s[i].isJoin
  }

  lemma JoinOwned(k: Program, g: Succ, table: seq<Option<int>>, w: Warp, bs: seq<nat>, r: nat, join: Frame,
                  exited: set<nat>)
    requires AtInstruction(k, g, table, w, bs) && w.exited <= exited && ReconvergesAt(k, table, w.pc, r)
    requires join.isJoin && join.pc == r && join.reconv == Top(w.stack).reconv
    ensures var s, cs := Pop(w.stack) + [join], bs[..|w.stack| - 1] + [w.pc];
      Owned(k, g, table, s, cs, exited) && Pushed(w, bs, r, s, cs)
  {
    var s, cs := Pop(w.stack), bs[..|w.stack| - 1];
    BelowOwned(k, g, table, w.stack, bs, w.exited, exited);
    forall i | 0 <= i < |s| && s[i].isJoin ensures Above(g, |k|, cs[i], s[i].pc, join, w.pc, exited) {
      NewJoinAbove(k, g, table, w, bs, r, join, exited, i);
    }
    PushOwned(k, g, table, s, cs, join, w.pc, exited);
  }

  lemma PathAboveAll(k: Program, g: Succ, table: seq<Option<int>>, w: Warp, bs: seq<nat>, r: nat, s: seq<Frame>,
                     cs: seq<nat>, f: Frame, exited: set<nat>)
    requires AtInstruction(k, g, table, w, bs) && ReconvergesAt(k, table, w.pc, r)
    requires Owned(k, g, table, s, cs, exited) && Pushed(w, bs, r, s, cs)
    requires OnGraph(k, g, w.pc, f, exited) && f.reconv == r
    ensures AboveAll(k, g, table, s, cs, f, 0, exited)
  {
    var m := |w.stack| - 1;
    forall i | 0 <= i < |s| && s[i].isJoin ensures Above(g, |k|, cs[i], s[i].pc, f, 0, exited) {
      if i < m {
        assert s[..m][i] == w.stack[i] && cs[..m][i] == bs[i];
        NewPathAbove(k, g, table, w, bs, r, f, exited, i);
      } else {
        PathAboveOwnJoin(k, g, table, w.pc, r, f, exited);
      }
    }
  }

  lemma PathPushed(w: Warp, bs: seq<nat>, r: nat, s: seq<Frame>, cs: seq<nat>, f: Frame)
    requires Pushed(w, bs, r, s, cs) && !f.isJoin
    ensures Pushed(w, bs, r, s + [f], cs + [0])
  {
    var m := |w.stack| - 1;
    assert (s + [f])[..m] == s[..m] && (cs + [0])[..m] == cs[..m];
  }

  lemma PathOwned(k: Program, g: Succ, table: seq<Option<int>>, w: Warp, bs: seq<nat>, r: nat, s: seq<Frame>,
                  cs: seq<nat>, f: Frame, exited: set<nat>)
    requires AtInstruction(k, g, table, w, bs) && ReconvergesAt(k, table, w.pc, r)
    requires Owned(k, g, table, s, cs, exited) && Pushed(w, bs, r, s, cs)
    requires OnGraph(k, g, w.pc, f, exited) && f.reconv == r
    ensures Owned(k, g, table, s + [f], cs + [0], exited) && Pushed(w, bs, r, s + [f], cs + [0])
  {
    PathAboveAll(k, g, table, w, bs, r, s, cs, f, exited);
    PushOwned(k, g, table, s, cs, f, 0, exited);
    PathPushed(w, bs, r, s, cs, f);
  }

  lemma SplitOwned(k: Program, g: Succ, table: seq<Option<int>>, w: Warp, bs: seq<nat>, r: nat, join: Frame,
                   fall: Frame, taken: Frame, exited: set<nat>) returns (cs: seq<nat>)
    requires AtInstruction(k, g, table, w, bs) && w.exited <= exited && ReconvergesAt(k, table, w.pc, r)
    requires join.isJoin && join.pc == r && join.reconv == Top(w.stack).reconv
    requires OnGraph(k, g, w.pc, fall, exited) && fall.reconv == r
    requires OnGraph(k, g, w.pc, taken, exited) && taken.reconv == r
    ensures Owned(k, g, table, Pop(w.stack) + [join] + [fall] + [taken], cs, exited)
  {
    JoinOwned(k, g, table, w, bs, r, join, exited);
    var s := Pop(w.stack) + [join];
    cs := PathsOwned(k, g, table, w, bs, r, s, bs[..|w.stack| - 1] + [w.pc], fall, taken, exited);
  }

  lemma PathsOwned(k: Program, g: Succ, table: seq<Option<int>>, w: Warp, bs: seq<nat>, r: nat, s: seq<Frame>,
                   cs: seq<nat>, fall: Frame, taken: Frame, exited: set<nat>) returns (ds: seq<nat>)
    requires AtInstruction(k, g, table, w, bs) && ReconvergesAt(k, table, w.pc, r)
    requires Owned(k, g, table, s, cs, exited) && Pushed(w, bs, r, s, cs)
    requires OnGraph(k, g, w.pc, fall, exited) && fall.reconv == r
    requires OnGraph(k, g, w.pc, taken, exited) && taken.reconv == r
    ensures Owned(k, g, table, s + [fall] + [taken], ds, exited)
  {
    PathOwned(k, g, table, w, bs, r, s, cs, fall, exited);
    PathOwned(k, g, table, w, bs, r, s + [fall], cs + [0], taken, exited);
    ds := cs + [0] + [0];
  }

  /** Only a predicated branch splits a frame, and then at its table entry; it returns no lane. */
  lemma SplitIsBranch(k: Program, g: Succ, table: seq<Option<int>>, w: Warp, inst: Inst, guard: set<nat>, o: Outcome,
                      retired: bool)
    requires Regular(k, g, table) && Executed(k, table, w, inst, guard, o, retired)
    requires inst.pred.None? ==> w.active <= guard
    requires o.split.Some?
    ensures o.split.value.reconv >= 0 && ReconvergesAt(k, table, w.pc, o.split.value.reconv)
    ensures o.w.active != {} && !HasRet(inst.uops)
  {
    var start := Going(w, None, None);
    assert inst.pred.Some?;
    assert !HasRet(inst.uops);
    BrasAgree(table, inst.uops, guard, start);
    assert NeedsReconv(k, w.pc);
    SplitReconv(table, inst.uops, guard, start);
    assert GoodEntry(g, w.pc, table[w.pc]);
  }

  lemma MoveCommitOwned(k: Program, g: Succ, table: seq<Option<int>>, w: Warp, bs: seq<nat>, inst: Inst,
                        guard: set<nat>, o: Outcome, retired: bool) returns (cs: seq<nat>)
    requires AtInstruction(k, g, table, w, bs) && Executed(k, table, w, inst, guard, o, retired)
    requires inst.pred.None? ==> w.active <= guard
    requires o.split.None?
    ensures Owned(k, g, table, CommitStack(o.w.stack, w.pc, o.next, o.split), cs, o.w.exited)
  {
    var q := if o.next.Some? then o.next.value else w.pc + 1;
    var f := Top(w.stack).(active := o.w.active, pc := q);
    assert Continues(w, o, q);
    if o.w.active != {} && 0 <= q < |k| { StaysOnGraph(k, g, table, w, inst, guard, o, retired, q); }
    MoveOwned(k, g, table, w, bs, f, o.w.exited);
    cs := bs[..|w.stack| - 1] + [0];
    assert CommitStack(o.w.stack, w.pc, o.next, None) == SetTop(w.stack, f);
  }

  lemma PathsOnGraph(k: Program, g: Succ, table: seq<Option<int>>, w: Warp, inst: Inst, guard: set<nat>, o: Outcome,
                     retired: bool, f: Frame)
    requires Regular(k, g, table) && Executed(k, table, w, inst, guard, o, retired)
    requires inst.pred.None? ==> w.active <= guard
    requires o.split.Some? && !f.isJoin && (f.pc == w.pc + 1 || f.pc == o.split.value.target)
    ensures OnGraph(k, g, w.pc, f, o.w.exited)
  {
    SplitIsBranch(k, g, table, w, inst, guard, o, retired);
    if 0 <= f.pc < |k| { StaysOnGraph(k, g, table, w, inst, guard, o, retired, f.pc); }
  }

  lemma OneByOne(s: seq<Frame>, a: Frame, b: Frame, c: Frame)
    ensures s + [a] + [b] + [c] == s + [a, b, c]
  {
  }

  lemma SplitCommitOwned(k: Program, g: Succ, table: seq<Option<int>>, w: Warp, bs: seq<nat>, inst: Inst,
                         guard: set<nat>, o: Outcome, retired: bool) returns (cs: seq<nat>)
    requires AtInstruction(k, g, table, w, bs) && Executed(k, table, w, inst, guard, o, retired)
    requires inst.pred.None? ==> w.active <= guard
    requires o.split.Some?
    ensures Owned(k, g, table, CommitStack(o.w.stack, w.pc, o.next, o.split), cs, o.w.exited)
  {
    var d := o.split.value;
    SplitIsBranch(k, g, table, w, inst, guard, o, retired);
    var join := Frame(d.reconv, {}, Top(w.stack).reconv, true);
    var fall := Frame(w.pc + 1, d.fallthrough, d.reconv, false);
    var taken := Frame(d.target, d.taken, d.reconv, false);
    PathsOnGraph(k, g, table, w, inst, guard, o, retired, fall);
    PathsOnGraph(k, g, table, w, inst, guard, o, retired, taken);
    cs := SplitOwned(k, g, table, w, bs, d.reconv, join, fall, taken, o.w.exited);
    SplitStackIs(w, guard, o, retired, join, fall, taken);
    OneByOne(Pop(w.stack), join, fall, taken);
  }

  /** Executing an instruction keeps the invariant of the stack. */
  lemma ExecuteOwned(k: Program, g: Succ, table: seq<Option<int>>, w: Warp, bs: seq<nat>) returns (cs: seq<nat>)
    requires AtInstruction(k, g, table, w, bs) && InWidth(w) && ReconvTable(k, table)
    requires Execute(k, table, w).Advanced?
    ensures var w' := Execute(k, table, w).w; Owned(k, g, table, w'.stack, cs, w'.exited)
  {
    var inst, guard, o, retired := GetExecuted(k, table, w);
    if o.split.None? {
      cs := MoveCommitOwned(k, g, table, w, bs, inst, guard, o, retired);
    } else {
      cs := SplitCommitOwned(k, g, table, w, bs, inst, guard, o, retired);
    }
  }

  // ---- Joins away from their own reconvergence points ----

  ghost predicate Unshared(k: Program, s: seq<Frame>) {
    forall i :: 0 <= i < |s| && s[i].isJoin && 0 <= s[i].pc < |k| ==> s[i].pc != s[i].reconv
  }

  lemma {:induction false} NormalizeUnshared(k: Program, w: Warp)
    requires Unshared(k, w.stack) && Normalize(w).Ready?
    ensures Unshared(k, Normalize(w).w.stack) && !AtOwnReconv(k, Normalize(w).w)
    decreases |w.stack|
  {
    OneRound(w);
    var rest := Pop(w.stack);
    var top := Top(w.stack).(active := Top(w.stack).active - w.exited);
    if top.active == {} {
      NormalizeUnshared(k, w.(stack := rest));
    } else if !top.isJoin && top.pc == top.reconv {
      NormalizeUnshared(k, w.(stack := Merge(rest, FindJoin(rest, top.pc).value, top.active)));
    }
  }

  /**
   * The guard where the executor pushes the join of a divergent branch: the table sends the
   * branch to the point at which the running frame itself reconverges.
   */
  ghost predicate SharesReconv(k: Program, table: seq<Option<int>>, w: Warp) {
    && Splits(k, table, w) && ReconvAt(table, w.pc).Some?
    && 0 <= ReconvAt(table, w.pc).value == Top(w.stack).reconv < |k|
  }

  /** Any other instruction adds no join that waits at its own reconvergence point. */
  lemma ExecuteUnshared(k: Program, table: seq<Option<int>>, w: Warp)
    requires InWidth(w) && Normal(w) && ReconvTable(k, table) && Execute(k, table, w).Advanced?
    requires Unshared(k, w.stack) && !SharesReconv(k, table, w)
    ensures Unshared(k, Execute(k, table, w).w.stack)
  {
    var inst, guard, o, retired := GetExecuted(k, table, w);
    assert Pop(o.w.stack) == Pop(w.stack);
    SplitReconv(table, inst.uops, guard, Going(w, None, None));
    var t := CommitStack(o.w.stack, w.pc, o.next, o.split);
    forall i | 0 <= i < |t| && t[i].isJoin && 0 <= t[i].pc < |k| ensures t[i].pc != t[i].reconv {
      if i < |w.stack| - 1 { assert t[i] == Pop(w.stack)[i] == w.stack[i]; }
    }
  }

  /** Where no branch shares its reconvergence point the guard never holds. */
  lemma NoneSharedNoneShares(k: Program, g: Succ, table: seq<Option<int>>, w: Warp, bs: seq<nat>)
    requires AtInstruction(k, g, table, w, bs) && NoneShared(k, g, table)
    requires InWidth(w) && ReconvTable(k, table) && Execute(k, table, w).Advanced?
    ensures !SharesReconv(k, table, w)
  {
    if Splits(k, table, w) {
      var inst, guard, o, retired := GetExecuted(k, table, w);
      SplitIsBranch(k, g, table, w, inst, guard, o, retired);
      var r := table[w.pc].value;
      if r < |k| { NewJoinIsApart(k, g, table, w, bs, r); }
    }
  }

  // ---- Any run of a warp ----

  lemma StepOwned(k: Program, g: Succ, table: seq<Option<int>>, w: Warp, init: set<nat>, bs: seq<nat>)
    returns (cs: seq<nat>)
    requires Regular(k, g, table) && ReconvTable(k, table) && Inv(w, init, |k|) && InWidth(w)
    requires Owned(k, g, table, w.stack, bs, w.exited) && Step(k, table, w).Advanced? && NotEarly(k, Normalize(w).w)
    ensures var w' := Step(k, table, w).w; Owned(k, g, table, w'.stack, cs, w'.exited)
    ensures NoneShared(k, g, table) ==> !SharesReconv(k, table, Normalize(w).w)
  {
    NormalizeStutters(w, init, |k|);
    var v := Normalize(w).w;
    var ds := NormalizeOwned(k, g, table, w, bs);
    InvBound(v, init, |k|);
    cs := ExecuteOwned(k, g, table, v, ds);
    if NoneShared(k, g, table) { NoneSharedNoneShares(k, g, table, v, ds); }
  }

  lemma StepUnshared(k: Program, table: seq<Option<int>>, w: Warp, init: set<nat>)
    requires ReconvTable(k, table) && Inv(w, init, |k|) && InWidth(w) && Step(k, table, w).Advanced?
    requires Unshared(k, w.stack) && !SharesReconv(k, table, Normalize(w).w)
    ensures Unshared(k, Step(k, table, w).w.stack)
  {
    NormalizeStutters(w, init, |k|);
    InvBound(Normalize(w).w, init, |k|);
    NormalizeUnshared(k, w);
    ExecuteUnshared(k, table, Normalize(w).w);
  }

  /** A run from the start of a warp with the initial mask `init`. */
  ghost predicate RunOf(k: Program, g: Succ, table: seq<Option<int>>, t: seq<Warp>, init: set<nat>) {
    && Regular(k, g, table) && ReconvTable(k, table) && Trace(k, table, t)
    && Inv(t[0], init, |k|) && |t[0].stack| == 1 && !t[0].stack[0].isJoin
  }

  ghost predicate EarlyAt(k: Program, t: seq<Warp>, j: nat)
    requires j < |t|
  {
    Normalize(t[j]).Ready? && !NotEarly(k, Normalize(t[j]).w)
  }

  ghost predicate OwnReconvAt(k: Program, t: seq<Warp>, j: nat)
    requires j < |t|
  {
    Normalize(t[j]).Ready? && AtOwnReconv(k, Normalize(t[j]).w)
  }

  /** The warp splits in turn `s` of the run. */
  ghost predicate SplitsAt(k: Program, table: seq<Option<int>>, t: seq<Warp>, s: nat) {
    s + 1 < |t| && Normalize(t[s]).Ready? && Splits(k, table, Normalize(t[s]).w)
  }

  /** It splits at a branch that shares the reconvergence point of the frame that runs it. */
  ghost predicate SharesAt(k: Program, table: seq<Option<int>>, t: seq<Warp>, s: nat) {
    s + 1 < |t| && Normalize(t[s]).Ready? && SharesReconv(k, table, Normalize(t[s]).w)
  }

  lemma {:induction false} TraceOwned(k: Program, g: Succ, table: seq<Option<int>>, t: seq<Warp>, init: set<nat>,
                                      i: nat) returns (bs: seq<nat>)
    requires RunOf(k, g, table, t, init) && i < |t| && forall j :: 0 <= j < i ==> !EarlyAt(k, t, j)
    ensures Owned(k, g, table, t[i].stack, bs, t[i].exited)
    ensures NoneShared(k, g, table) ==> forall s: nat :: s < i ==> !SharesAt(k, table, t, s)
  {
    bs := [0];
    var j := 0;
    while j < i
      invariant j <= i && Owned(k, g, table, t[j].stack, bs, t[j].exited)
      invariant NoneShared(k, g, table) ==> forall s: nat :: s < j ==> !SharesAt(k, table, t, s)
    {
      TraceInv(k, table, t, init, j);
      assert Step(k, table, t[j]) == Advanced(t[j + 1]);
      assert !EarlyAt(k, t, j);
      bs := StepOwned(k, g, table, t[j], init, bs);
      j := j + 1;
    }
  }

  lemma {:induction false} TraceUnshared(k: Program, g: Succ, table: seq<Option<int>>, t: seq<Warp>, init: set<nat>,
                                         i: nat)
    requires RunOf(k, g, table, t, init) && i < |t| && forall s: nat :: s < i ==> !SharesAt(k, table, t, s)
    ensures Unshared(k, t[i].stack)
  {
    if i > 0 {
      TraceUnshared(k, g, table, t, init, i - 1);
      TraceInv(k, table, t, init, i - 1);
      assert Step(k, table, t[i - 1]) == Advanced(t[i]);
      assert !SharesAt(k, table, t, i - 1);
      StepUnshared(k, table, t[i - 1], init);
    }
  }

  /** A warp at its own reconvergence point is early: the nearest join waits there. */
  lemma OwnReconvIsEarly(k: Program, table: seq<Option<int>>, t: seq<Warp>, init: set<nat>, j: nat)
    requires Trace(k, table, t) && Inv(t[0], init, |k|) && ReconvTable(k, table) && j < |t| && OwnReconvAt(k, t, j)
    ensures EarlyAt(k, t, j)
  {
    TraceInv(k, table, t, init, j);
    NormalizeStutters(t[j], init, |k|);
    var v := Normalize(t[j]).w;
    NearestJoin(v.stack, |k|);
    if |v.stack| >= 2 { assert v.stack[JoinBelowTop(v.stack)].pc == v.pc; }
  }

  /** The first turn in which lanes are early has activated a join at its own reconvergence point. */
  lemma FirstEarlyIsOwn(k: Program, g: Succ, table: seq<Option<int>>, t: seq<Warp>, init: set<nat>, j: nat)
    requires RunOf(k, g, table, t, init) && j < |t| && forall i :: 0 <= i < j ==> !EarlyAt(k, t, i)
    ensures EarlyAt(k, t, j) ==> OwnReconvAt(k, t, j)
  {
    if EarlyAt(k, t, j) {
      var bs := TraceOwned(k, g, table, t, init, j);
      var cs := NormalizeOwned(k, g, table, t[j], bs);
    }
  }

  lemma {:induction false} NoneOwnNoneEarly(k: Program, g: Succ, table: seq<Option<int>>, t: seq<Warp>, init: set<nat>,
                                            n: nat)
    requires RunOf(k, g, table, t, init) && n <= |t| && forall j :: 0 <= j < n ==> !OwnReconvAt(k, t, j)
    ensures forall j :: 0 <= j < n ==> !EarlyAt(k, t, j)
  {
    if n > 0 {
      NoneOwnNoneEarly(k, g, table, t, init, n - 1);
      FirstEarlyIsOwn(k, g, table, t, init, n - 1);
    }
  }

  /**
   * Exactly when the first lane runs early: a run is free of lanes that run at the pc of a
   * join waiting below them if and only if no join is activated at its own reconvergence
   * point, which is the case that the source does not merge outwards.
   */
  lemma EarlyExactly(k: Program, g: Succ, table: seq<Option<int>>, t: seq<Warp>, init: set<nat>, n: nat)
    requires RunOf(k, g, table, t, init) && n <= |t|
    ensures (forall j :: 0 <= j < n ==> !EarlyAt(k, t, j)) <==> (forall j :: 0 <= j < n ==> !OwnReconvAt(k, t, j))
  {
    if forall j :: 0 <= j < n ==> !OwnReconvAt(k, t, j) {
      NoneOwnNoneEarly(k, g, table, t, init, n);
    } else {
      var j :| 0 <= j < n && OwnReconvAt(k, t, j);
      OwnReconvIsEarly(k, table, t, init, j);
    }
  }

  /** Up to the first turn that splits at a shared reconvergence point no lane runs early. */
  lemma NoneEarly(k: Program, g: Succ, table: seq<Option<int>>, t: seq<Warp>, init: set<nat>, n: nat)
    requires RunOf(k, g, table, t, init) && n <= |t|
    requires forall s: nat :: s + 1 < n ==> !SharesAt(k, table, t, s)
    ensures forall j :: 0 <= j < n ==> !EarlyAt(k, t, j) && !OwnReconvAt(k, t, j)
  {
    forall j | 0 <= j < n ensures !OwnReconvAt(k, t, j) {
      TraceUnshared(k, g, table, t, init, j);
      if Normalize(t[j]).Ready? { NormalizeUnshared(k, t[j]); }
    }
    EarlyExactly(k, g, table, t, init, n);
  }

  /** Where nested branches share no reconvergence point there is no such turn in any run. */
  lemma {:induction false} NestedBranchesApart(k: Program, g: Succ, table: seq<Option<int>>, t: seq<Warp>,
                                               init: set<nat>, n: nat)
    requires RunOf(k, g, table, t, init) && NoneShared(k, g, table) && n < |t|
    ensures forall s: nat :: s < n ==> !SharesAt(k, table, t, s)
  {
    if n > 0 {
      NestedBranchesApart(k, g, table, t, init, n - 1);
      NoneEarly(k, g, table, t, init, n);
      var bs := TraceOwned(k, g, table, t, init, n);
    }
  }

  // ---- A join that waits at its own reconvergence point opens there ----

  lemma {:induction false} KeepsExited(table: seq<Option<int>>, uops: seq<Uop>, g: set<nat>, o: Outcome)
    requires o.Going? && InWidth(o.w) && !HasRet(uops)
    ensures var p := WarpUops(table, uops, g, o); p.Going? ==> p.w.exited == o.w.exited
  {
    if uops != [] {
      var o1, rest := WarpUop(table, uops[0], g, o), uops[1..];
      forall i | 0 <= i < |rest| ensures !rest[i].Ret? { assert rest[i] == uops[i + 1]; }
      assert !uops[0].Ret?;
      if o1.Failed? { FailedStays(table, rest, g, o1.diag); } else { KeepsExited(table, rest, g, o1); }
    }
  }

  lemma NotOnWayOut(g: Succ, b: nat, r: nat)
    requires Branch(g, b, r) && r != Exit(g)
    ensures !OnWay(g, b, r, Exit(g))
  {
    forall q ensures !Way(g, b, r, q, Exit(g)) {
      if ExitPath(g, b, q) { assert r in q; }
    }
  }

  /** Lanes on the way to a reconvergence point inside the kernel cannot return. */
  lemma NoReturnOnWay(k: Program, g: Succ, b: nat, r: nat, pc: nat)
    requires IsCfg(k, g) && Branch(g, b, r) && r < |k| && OnWay(g, b, r, pc) && pc != r && pc < |k| && k[pc].Some?
    ensures !HasRet(k[pc].value.uops)
  {
    CfgWellFormed(k, g);
    if HasRet(k[pc].value.uops) {
      assert |k| in Successors(k, pc);
      NextEdge(g, b, r, pc, |k|);
      NotOnWayOut(g, b, r);
    }
  }

  /** While a join waits inside the kernel and no lane is early, an instruction above it retires no lane. */
  lemma NoneReturns(k: Program, g: Succ, table: seq<Option<int>>, w: Warp, bs: seq<nat>, below: seq<Frame>,
                    a: set<nat>, outer: int, r: nat)
    requires AtInstruction(k, g, table, w, bs) && InWidth(w) && ReconvTable(k, table) && r < |k|
    requires Waiting(w, below, a, outer, r) && |w.stack| > |below| + 1 && Execute(k, table, w).Advanced?
    ensures Execute(k, table, w).w.exited == w.exited
  {
    RunningAbove(k, g, table, w, bs, |below|);
    NoReturnOnWay(k, g, bs[|below|], r, w.pc);
    var inst, guard, o, retired := GetExecuted(k, table, w);
    KeepsExited(table, inst.uops, guard, Going(w, None, None));
  }

  lemma WaitingStepRetiresNone(k: Program, g: Succ, table: seq<Option<int>>, t: seq<Warp>, init: set<nat>, j: nat,
                               below: seq<Frame>, a: set<nat>, outer: int, r: nat)
    requires RunOf(k, g, table, t, init) && j + 1 < |t| && r < |k| && Waiting(t[j], below, a, outer, r)
    requires !Opens(t[j], below, a, r) && !Vanishes(t[j], below, a)
    requires forall i :: 0 <= i <= j ==> !EarlyAt(k, t, i)
    ensures t[j + 1].exited == t[j].exited
  {
    TraceInv(k, table, t, init, j);
    NormalizeStutters(t[j], init, |k|);
    JoinNormalizes(t[j], below, a, outer, r);
    var v := Normalize(t[j]).w;
    var bs := TraceOwned(k, g, table, t, init, j);
    assert !EarlyAt(k, t, j);
    var ds := NormalizeOwned(k, g, table, t[j], bs);
    InvBound(v, init, |k|);
    assert Step(k, table, t[j]) == Advanced(t[j + 1]);
    NoneReturns(k, g, table, v, ds, below, a, outer, r);
  }

  /** A join that opens runs as a frame that reconverges where the frame of its branch did. */
  lemma OpensOutwards(w: Warp, init: set<nat>, n: int, below: seq<Frame>, a: set<nat>, outer: int, r: int)
    requires Inv(w, init, n) && Waiting(w, below, a, outer, r) && Opens(w, below, a, r)
    ensures Top(Normalize(w).w.stack).reconv == outer
  {
    var v := Region(w, |below|, a);
    RegionLifts(w, below, a, outer);
    NormalizeAbove(below, v, w, a);
    RegionNormalizes(v, a, outer, r);
    NormalizeStutters(w, init, n);
  }

  /** The run ends with every lane of the warp retired. */
  ghost predicate Drains(t: seq<Warp>) {
    t != [] && Normalize(t[|t| - 1]).Finished?
  }

  lemma SplitRetiresNone(k: Program, g: Succ, table: seq<Option<int>>, w: Warp)
    requires Regular(k, g, table) && ReconvTable(k, table) && Normal(w) && Splits(k, table, w)
    ensures Execute(k, table, w).w.exited == w.exited
  {
    var inst, guard, o, retired := GetExecuted(k, table, w);
    SplitIsBranch(k, g, table, w, inst, guard, o, retired);
    KeepsExited(table, inst.uops, guard, Going(w, None, None));
  }

  /** The join of the branch at which turn `s` splits waits, up to turn `i`, for the lanes `a` of that branch. */
  ghost predicate JoinWaits(t: seq<Warp>, s: nat, i: nat, below: seq<Frame>, a: set<nat>, outer: int, r: int) {
    && s < i < |t|
    && (forall j :: s < j <= i ==> Waiting(t[j], below, a, outer, r))
    && (forall j :: s < j < i ==> !Opens(t[j], below, a, r) && !Vanishes(t[j], below, a))
    && (i == |t| - 1 || Opens(t[i], below, a, r) || Vanishes(t[i], below, a))
  }

  lemma SplitJoinWaits(k: Program, g: Succ, table: seq<Option<int>>, t: seq<Warp>, init: set<nat>, s: nat)
    returns (i: nat)
    requires RunOf(k, g, table, t, init) && SplitsAt(k, table, t, s)
    ensures var w := Normalize(t[s]).w;
      && ReconvAt(table, w.pc).Some?
      && JoinWaits(t, s, i, Pop(w.stack), w.active, Top(w.stack).reconv, ReconvAt(table, w.pc).value)
      && t[s + 1].exited !! w.active
  {
    TraceInv(k, table, t, init, s);
    NormalizeStutters(t[s], init, |k|);
    var w := Normalize(t[s]).w;
    SplitRetiresNone(k, g, table, w);
    SplitWaits(k, table, w, init, |k|);
    assert Step(k, table, t[s]) == Advanced(t[s + 1]);
    i := JoinWaitsFrom(k, table, t, init, s + 1, Pop(w.stack), w.active, Top(w.stack).reconv,
                       ReconvAt(table, w.pc).value);
  }

  /** The lanes of a branch are all still there when its join opens. */
  lemma JoinKeepsLanes(k: Program, g: Succ, table: seq<Option<int>>, t: seq<Warp>, init: set<nat>, s: nat, i: nat,
                       below: seq<Frame>, a: set<nat>, outer: int, r: nat)
    requires RunOf(k, g, table, t, init) && r < |k| && JoinWaits(t, s, i, below, a, outer, r)
    requires forall j :: 0 <= j < i ==> !EarlyAt(k, t, j)
    requires t[s + 1].exited !! a
    ensures t[i].exited !! a
  {
    var j := s + 1;
    while j < i
      invariant s < j <= i && t[j].exited !! a
    {
      WaitingStepRetiresNone(k, g, table, t, init, j, below, a, outer, r);
      j := j + 1;
    }
  }

  /** In a run that drains a join that keeps its lanes opens. */
  lemma FullJoinOpens(k: Program, table: seq<Option<int>>, t: seq<Warp>, init: set<nat>, i: nat, below: seq<Frame>,
                      a: set<nat>, outer: int, r: int)
    requires Trace(k, table, t) && Inv(t[0], init, |k|) && ReconvTable(k, table) && Drains(t)
    requires i < |t| && Waiting(t[i], below, a, outer, r) && a != {} && t[i].exited !! a
    requires i == |t| - 1 || Opens(t[i], below, a, r) || Vanishes(t[i], below, a)
    ensures Opens(t[i], below, a, r) && Top(Normalize(t[i]).w.stack).reconv == outer
  {
    TraceInv(k, table, t, init, i);
    JoinNormalizes(t[i], below, a, outer, r);
    OpensOutwards(t[i], init, |k|, below, a, outer, r);
  }

  /**
   * Conversely, in a run that drains, a split at a shared reconvergence point is followed by
   * a turn in which lanes run early: RET is out of reach before that point, so the new join
   * opens there, while the join below it waits at the same pc.
   */
  lemma SharedSplitRunsEarly(k: Program, g: Succ, table: seq<Option<int>>, t: seq<Warp>, init: set<nat>, s: nat)
    requires RunOf(k, g, table, t, init) && Drains(t) && SharesAt(k, table, t, s)
    ensures exists j :: 0 <= j < |t| && EarlyAt(k, t, j)
  {
    var i := SplitJoinWaits(k, g, table, t, init, s);
    var w := Normalize(t[s]).w;
    var below, a, r := Pop(w.stack), w.active, ReconvAt(table, w.pc).value;
    TraceInv(k, table, t, init, s);
    NormalizeStutters(t[s], init, |k|);
    if forall j :: 0 <= j < i ==> !EarlyAt(k, t, j) { SharedJoinRunsEarly(k, g, table, t, init, s, i, below, a, r); }
  }

  lemma SharedJoinRunsEarly(k: Program, g: Succ, table: seq<Option<int>>, t: seq<Warp>, init: set<nat>, s: nat, i: nat,
                            below: seq<Frame>, a: set<nat>, r: nat)
    requires RunOf(k, g, table, t, init) && Drains(t) && r < |k| && JoinWaits(t, s, i, below, a, r, r)
    requires a != {} && t[s + 1].exited !! a && forall j :: 0 <= j < i ==> !EarlyAt(k, t, j)
    ensures EarlyAt(k, t, i)
  {
    JoinKeepsLanes(k, g, table, t, init, s, i, below, a, r, r);
    FullJoinOpens(k, table, t, init, i, below, a, r, r);
    OwnReconvIsEarly(k, table, t, init, i);
  }

  /**
   * Exactly when lanes run early: in a run that drains, some turn has lanes at the pc of a
   * join that waits below them if and only if some turn splits at a branch that shares the
   * reconvergence point of the frame that runs it.
   */
  lemma EarlyIffShared(k: Program, g: Succ, table: seq<Option<int>>, t: seq<Warp>, init: set<nat>)
    requires RunOf(k, g, table, t, init) && Drains(t)
    ensures (exists j :: 0 <= j < |t| && EarlyAt(k, t, j)) <==> (exists s: nat :: SharesAt(k, table, t, s))
  {
    if s: nat :| SharesAt(k, table, t, s) {
      SharedSplitRunsEarly(k, g, table, t, init, s);
    } else {
      NoneEarly(k, g, table, t, init, |t|);
    }
  }

  /**
   * Reconvergence. When the warp splits, the join of the branch waits until it opens for all
   * lanes of the branch that have not returned; in the meantime no lane of the branch runs
   * the instruction at the reconvergence point, so they run it together. This holds in every
   * run in which no join is activated at its own reconvergence point, loops included.
   */
  lemma BranchesReconverge(k: Program, g: Succ, table: seq<Option<int>>, t: seq<Warp>, init: set<nat>, s: nat)
    returns (i: nat)
    requires RunOf(k, g, table, t, init) && SplitsAt(k, table, t, s)
    requires forall j :: 0 <= j < |t| ==> !OwnReconvAt(k, t, j)
    ensures var w := Normalize(t[s]).w;
      && s < i < |t| && ReconvAt(table, w.pc).Some?
      && var below, a, outer, r := Pop(w.stack), w.active, Top(w.stack).reconv, ReconvAt(table, w.pc).value;
      && (forall j :: s < j <= i ==> Waiting(t[j], below, a, outer, r))
      && (forall j :: s < j < i && r < |k| ==> Normalize(t[j]).Ready? && Normalize(t[j]).w.pc != r)
      && (i == |t| - 1 || Opens(t[i], below, a, r) || Vanishes(t[i], below, a))
  {
    i := SplitJoinWaits(k, g, table, t, init, s);
    var w := Normalize(t[s]).w;
    var below, a, outer, r := Pop(w.stack), w.active, Top(w.stack).reconv, ReconvAt(table, w.pc).value;
    EarlyExactly(k, g, table, t, init, |t|);
    forall j | s < j < i && r < |k| ensures Normalize(t[j]).Ready? && Normalize(t[j]).w.pc != r {
      WaitsElsewhere(k, t, j, below, a, outer, r);
    }
  }

  /** The join that waits in turn `from` of a run, in terms of the turns of that run. */
  lemma JoinWaitsFrom(k: Program, table: seq<Option<int>>, t: seq<Warp>, init: set<nat>, from: nat, below: seq<Frame>,
                      a: set<nat>, outer: int, r: int) returns (i: nat)
    requires Trace(k, table, t) && Inv(t[0], init, |k|) && ReconvTable(k, table)
    requires from < |t| && Waiting(t[from], below, a, outer, r)
    ensures from <= i < |t| && forall j :: from <= j <= i ==> Waiting(t[j], below, a, outer, r)
    ensures forall j :: from <= j < i ==> !Opens(t[j], below, a, r) && !Vanishes(t[j], below, a)
    ensures i == |t| - 1 || Opens(t[i], below, a, r) || Vanishes(t[i], below, a)
  {
    var u := t[from..];
    TraceInv(k, table, t, init, from);
    TraceSuffix(k, table, t, from);
    var n := JoinWaitsForAll(k, table, u, init, below, a, outer, r);
    i := from + n;
    forall j | from <= j <= i
      ensures Waiting(t[j], below, a, outer, r)
      ensures j < i ==> !Opens(t[j], below, a, r) && !Vanishes(t[j], below, a)
    {
      assert t[j] == u[j - from];
    }
  }

  /** While a join waits, the running frame lies above it and is not at its pc. */
  lemma WaitsElsewhere(k: Program, t: seq<Warp>, j: nat, below: seq<Frame>, a: set<nat>, outer: int, r: int)
    requires j < |t| && Waiting(t[j], below, a, outer, r) && r < |k| && !EarlyAt(k, t, j)
    requires !Opens(t[j], below, a, r) && !Vanishes(t[j], below, a)
    ensures Normalize(t[j]).Ready? && Normalize(t[j]).w.pc != r
  {
    JoinNormalizes(t[j], below, a, outer, r);
    assert Normalize(t[j]).w.stack[|below|].isJoin;
  }

  // ---- Lanes that run early break the promise of some branch ----

  lemma {:induction false} NormalizeKeepsJoins(w: Warp)
    requires Normalize(w).Ready?
    ensures var s := Normalize(w).w.stack;
      |s| <= |w.stack| && forall i :: 0 <= i < |s| - 1 && s[i].isJoin ==> w.stack[i].isJoin
    decreases |w.stack|
  {
    OneRound(w);
    var rest := Pop(w.stack);
    var top := Top(w.stack).(active := Top(w.stack).active - w.exited);
    if top.active == {} {
      NormalizeKeepsJoins(w.(stack := rest));
    } else if !top.isJoin && top.pc == top.reconv {
      NormalizeKeepsJoins(w.(stack := Merge(rest, FindJoin(rest, top.pc).value, top.active)));
    }
  }

  /** An instruction that does not split pushes no join, and one that does pushes one. */
  lemma OneNewJoin(k: Program, table: seq<Option<int>>, w: Warp, i: nat)
    requires InWidth(w) && Normal(w) && ReconvTable(k, table) && Execute(k, table, w).Advanced?
    ensures var s := Execute(k, table, w).w.stack;
      i < |s| && s[i].isJoin && i >= |w.stack| - 1 ==> i == |w.stack| - 1 && Splits(k, table, w)
  {
    var inst, guard, o, retired := GetExecuted(k, table, w);
    assert |CommitStack(o.w.stack, w.pc, o.next, o.split)| == if o.split.Some? then |w.stack| + 2 else |w.stack|;
  }

  /** The join that turn `since` pushed: the frames below it, the lanes of its branch and its two pcs. */
  datatype Pause = Pause(since: nat, below: seq<Frame>, lanes: set<nat>, outer: int, reconv: int)

  /** The join of the branch at which turn `s` splits. */
  function PauseAt(table: seq<Option<int>>, t: seq<Warp>, s: nat): Pause
    requires s < |t| && Normalize(t[s]).w.stack != []
  {
    var w := Normalize(t[s]).w;
    var r := ReconvAt(table, w.pc);
    Pause(s, Pop(w.stack), w.active, Top(w.stack).reconv, if r.Some? then r.value else -1)
  }

  ghost predicate Holding(w: Warp, p: Pause) {
    Waiting(w, p.below, p.lanes, p.outer, p.reconv)
  }

  ghost predicate Ending(w: Warp, p: Pause) {
    Opens(w, p.below, p.lanes, p.reconv) || Vanishes(w, p.below, p.lanes)
  }

  /** The join waits in all turns after the one that pushed it up to `j`, without opening in between. */
  ghost predicate WaitsThrough(t: seq<Warp>, p: Pause, j: nat)
    requires p.since < j < |t|
    decreases j
  {
    Holding(t[j], p) && (j > p.since + 1 ==> !Ending(t[j - 1], p) && WaitsThrough(t, p, j - 1))
  }

  /** `p` is the join of a branch at which an earlier turn split, and still waits in turn `j`. */
  ghost predicate Pending(k: Program, table: seq<Option<int>>, t: seq<Warp>, p: Pause, j: nat) {
    && p.since < j < |t| && SplitsAt(k, table, t, p.since) && p == PauseAt(table, t, p.since)
    && WaitsThrough(t, p, j)
  }

  lemma WaitsFurther(k: Program, table: seq<Option<int>>, t: seq<Warp>, init: set<nat>, p: Pause, j: nat)
    requires Trace(k, table, t) && Inv(t[0], init, |k|) && ReconvTable(k, table)
    requires p.since < j && j + 1 < |t| && WaitsThrough(t, p, j)
    requires Normalize(t[j]).Ready? && |Normalize(t[j]).w.stack| > |p.below| + 1
    ensures WaitsThrough(t, p, j + 1)
  {
    NotVanished(t[j], p.below, p.lanes);
    WaitsOn(k, table, t, init, p.below, p.lanes, p.outer, p.reconv, j);
  }

  lemma NotVanished(w: Warp, below: seq<Frame>, a: set<nat>)
    requires Normalize(w).Ready? && |Normalize(w).w.stack| > |below| + 1
    ensures !Vanishes(w, below, a)
  {
    if Vanishes(w, below, a) { NormalizeKeepsJoins(w.(stack := below)); }
  }

  /** The frames below the running one, one turn later. */
  lemma BelowStays(k: Program, table: seq<Option<int>>, t: seq<Warp>, init: set<nat>, j: nat, i: nat)
    requires Trace(k, table, t) && Inv(t[0], init, |k|) && ReconvTable(k, table) && j + 1 < |t|
    ensures Normalize(t[j]).Ready?
    ensures i < |t[j + 1].stack| && t[j + 1].stack[i].isJoin && i < |Normalize(t[j]).w.stack| - 1 ==>
              i < |t[j].stack| && t[j].stack[i].isJoin
  {
    TraceInv(k, table, t, init, j);
    NormalizeStutters(t[j], init, |k|);
    assert Step(k, table, t[j]) == Advanced(t[j + 1]);
    var v := Normalize(t[j]).w;
    InvBound(v, init, |k|);
    ExecuteKeepsRest(k, table, v);
    NormalizeKeepsJoins(t[j]);
    if i < |v.stack| - 1 { assert t[j + 1].stack[..|v.stack| - 1][i] == v.stack[i]; }
  }

  lemma NewJoinIsPending(k: Program, table: seq<Option<int>>, t: seq<Warp>, init: set<nat>, j: nat, i: nat)
    returns (p: Pause)
    requires Trace(k, table, t) && Inv(t[0], init, |k|) && ReconvTable(k, table) && j + 1 < |t|
    requires i < |t[j + 1].stack| && t[j + 1].stack[i].isJoin
    requires Normalize(t[j]).Ready? && i >= |Normalize(t[j]).w.stack| - 1
    ensures Pending(k, table, t, p, j + 1) && |p.below| == i
  {
    TraceInv(k, table, t, init, j);
    NormalizeStutters(t[j], init, |k|);
    assert Step(k, table, t[j]) == Advanced(t[j + 1]);
    var v := Normalize(t[j]).w;
    InvBound(v, init, |k|);
    OneNewJoin(k, table, v, i);
    SplitWaits(k, table, v, init, |k|);
    p := PauseAt(table, t, j);
  }

  /** Every join on the stack is that of an earlier turn that split, and has waited since. */
  lemma {:induction false} JoinIsPending(k: Program, g: Succ, table: seq<Option<int>>, t: seq<Warp>, init: set<nat>,
                                         j: nat, i: nat) returns (p: Pause)
    requires RunOf(k, g, table, t, init) && j < |t| && i < |t[j].stack| && t[j].stack[i].isJoin
    ensures Pending(k, table, t, p, j) && |p.below| == i
  {
    p := Pause(0, [], {}, 0, 0);
    if j > 0 {
      BelowStays(k, table, t, init, j - 1, i);
      if i < |Normalize(t[j - 1]).w.stack| - 1 {
        p := JoinIsPending(k, g, table, t, init, j - 1, i);
        WaitsFurther(k, table, t, init, p, j - 1);
      } else {
        p := NewJoinIsPending(k, table, t, init, j - 1, i);
      }
    }
  }

  /**
   * In turn `j` lanes of a branch run the instruction at its reconvergence point, although
   * its join `p` has not opened.
   */
  ghost predicate Broken(k: Program, table: seq<Option<int>>, t: seq<Warp>, p: Pause, j: nat) {
    && Pending(k, table, t, p, j) && Normalize(t[j]).Ready? && !Ending(t[j], p)
    && Normalize(t[j]).w.pc == p.reconv < |k| && {} != Normalize(t[j]).w.active <= p.lanes
  }

  /** While a join waits below the running frame, that frame holds lanes of its branch. */
  lemma RunsInside(w: Warp, p: Pause)
    requires Holding(w, p) && Normalize(w).Ready? && |Normalize(w).w.stack| > |p.below| + 1
    ensures !Ending(w, p)
    ensures Normalize(w).w.stack[|p.below|].pc == p.reconv && {} != Normalize(w).w.active <= p.lanes
  {
    NotVanished(w, p.below, p.lanes);
    JoinNormalizes(w, p.below, p.lanes, p.outer, p.reconv);
  }

  lemma EarlyIsBroken(k: Program, g: Succ, table: seq<Option<int>>, t: seq<Warp>, init: set<nat>, j: nat)
    returns (p: Pause)
    requires RunOf(k, g, table, t, init) && j < |t| && EarlyAt(k, t, j)
    ensures Broken(k, table, t, p, j)
  {
    var v := Normalize(t[j]).w;
    NormalizeKeepsJoins(t[j]);
    var i :| 0 <= i < |v.stack| - 1 && v.stack[i].isJoin && v.stack[i].pc < |k| && v.pc == v.stack[i].pc;
    p := JoinIsPending(k, g, table, t, init, j, i);
    RunsInside(t[j], p);
  }

  lemma BrokenIsEarly(k: Program, table: seq<Option<int>>, t: seq<Warp>, p: Pause, j: nat)
    requires Broken(k, table, t, p, j)
    ensures EarlyAt(k, t, j)
  {
    if !EarlyAt(k, t, j) { WaitsElsewhere(k, t, j, p.below, p.lanes, p.outer, p.reconv); }
  }

  /**
   * The promise itself: in a run that drains, some branch has lanes at its reconvergence point
   * before its join opens if and only if some turn splits at a branch that shares the
   * reconvergence point of the frame that runs it.
   */
  lemma BrokenIffShared(k: Program, g: Succ, table: seq<Option<int>>, t: seq<Warp>, init: set<nat>)
    requires RunOf(k, g, table, t, init) && Drains(t)
    ensures (exists p: Pause, j: nat :: Broken(k, table, t, p, j)) <==> (exists s: nat :: SharesAt(k, table, t, s))
  {
    EarlyIffShared(k, g, table, t, init);
    if p: Pause, j: nat :| Broken(k, table, t, p, j) {
      BrokenIsEarly(k, table, t, p, j);
    }
    if j: nat :| j < |t| && EarlyAt(k, t, j) {
      var p := EarlyIsBroken(k, g, table, t, init, j);
    }
  }

  lemma TraceSuffix(k: Program, table: seq<Option<int>>, t: seq<Warp>, s: nat)
    requires Trace(k, table, t) && s < |t|
    ensures Trace(k, table, t[s..])
  {
  }
}
