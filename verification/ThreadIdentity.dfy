/** What the threads of a launch know about themselves when they start. */
module ThreadIdentity {
  import opened Kernel
  import opened ThreadNumbering
  import opened KernelRun
  import opened Predication
  import W = Warp

  /** A thread of the grid, by its CTA, warp and lane. */
  predicate InGrid(l: Launch, c: Dim3, w: nat, lane: nat)
    requires Launchable(l)
  {
    InBox(c, l.grid) && ActiveLane(l, w, lane)
  }

  /** The lane that carries the thread in the warps that a CTA starts with. */
  function Started(l: Launch, c: Dim3, n: nat, w: nat, lane: nat): LaneState
    requires Launchable(l) && InGrid(l, c, w, lane)
  {
    LaneHasThread(l, w, lane);
    StartWarps(l, c, n)[w].lanes[lane]
  }

  /**
   * The builtins of a thread locate it: its indices lie inside the sizes it sees, which are
   * those of the launch; with them it computes its number in the block, which is its place
   * among the lanes of the warps, and its number in the grid.
   */
  lemma KnowsItself(l: Launch, c: Dim3, n: nat, w: nat, lane: nat)
    requires Launchable(l) && InGrid(l, c, w, lane)
    ensures var e := Started(l, c, n, w, lane).env;
      && e.ntid == l.block && e.nctaid == l.grid && e.warpid == w && e.laneid == lane
      && InBox(e.tid, e.ntid) && InBox(e.ctaid, e.nctaid) && e.ctaid == c
      && LinearOf(e.ntid, e.tid) == e.warpid * l.warpSize + e.laneid
      && LinearOf(e.nctaid, e.ctaid) * Volume(e.ntid) + LinearOf(e.ntid, e.tid) == GlobalLinear(l, c, w, lane)
  {
    LaneHasThread(l, w, lane);
    IndexThenLinear(l.block, ThreadLinear(l, w, lane));
  }

  /** Threads with the same %ctaid and %tid are the same thread. */
  lemma NoTwoAlike(l: Launch, n: nat, c: Dim3, w: nat, lane: nat, c': Dim3, w': nat, lane': nat)
    requires Launchable(l) && InGrid(l, c, w, lane) && InGrid(l, c', w', lane')
    requires var e, e' := Started(l, c, n, w, lane).env, Started(l, c', n, w', lane').env;
      e.ctaid == e'.ctaid && e.tid == e'.tid
    ensures c == c' && w == w' && lane == lane'
  {
    KnowsItself(l, c, n, w, lane);
    KnowsItself(l, c', n, w', lane');
    LaneInjective(l, w, lane, w', lane');
  }

  /** Every index of the grid and the block box belongs to some thread. */
  lemma EveryIndexHasThread(l: Launch, n: nat, c: Dim3, t: Dim3) returns (w: nat, lane: nat)
    requires Launchable(l) && InBox(c, l.grid) && InBox(t, l.block)
    ensures InGrid(l, c, w, lane)
    ensures Started(l, c, n, w, lane).env.ctaid == c && Started(l, c, n, w, lane).env.tid == t
  {
    LinearThenIndex(l.block, t);
    w, lane := ThreadHasOneLane(l, LinearOf(l.block, t));
  }

  /** Warps start at the first instruction, with the lanes that carry a thread and nothing written. */
  lemma StartsFresh(l: Launch, c: Dim3, n: nat, w: nat)
    requires Launchable(l) && w < WarpCount(l)
    ensures var warp := StartWarps(l, c, n)[w];
      && warp.pc == 0 && warp.exited == {} && !warp.done && |warp.lanes| == l.warpSize
      && (forall lane: nat :: lane in warp.active <==> ActiveLane(l, w, lane))
      && (forall lane :: 0 <= lane < |warp.lanes| ==>
            var s := warp.lanes[lane]; s.u32 == map[] && s.u64 == map[] && s.p == map[] && s.local == map[])
  {
  }

  /** On the warps that a CTA starts with @p enables every running lane and @!p none. */
  lemma StartsWithPredicatesTrue(l: Launch, c: Dim3, n: nat, w: nat, id: int, uops: seq<Uop>)
    requires Launchable(l) && w < WarpCount(l) && 0 <= id < PREDICATES
    ensures var warp := StartWarps(l, c, n)[w];
      && W.InWidth(warp)
      && W.Guard(Guarded(id, false, uops), warp) == warp.active && W.Guard(Guarded(id, true, uops), warp) == {}
  {
    StartWarpInv(l, c, n, w);
    StartsFresh(l, c, n, w);
    InitialPredicates(StartWarps(l, c, n)[w], id, uops);
  }

  /** The local windows of neighbouring lanes are 4096 bytes apart. */
  lemma NextWindow(l: Launch, c: Dim3, w: nat, lane: nat, offset: nat)
    ensures LocalAddress(l, c, w, lane + 1, offset) == LocalAddress(l, c, w, lane, offset) + 4096
  {
  }
}
