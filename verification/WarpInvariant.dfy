/**
 * What every step of a warp keeps, and normalisation as a stutter: popping, merging and
 * activating frames moves no thread.
 */
module WarpInvariant {
  import opened Options
  import opened Kernel
  import opened Warp
  import opened StackShape

  ghost predicate Disjoint(s: seq<Frame>) {
    forall i, j :: 0 <= i < j < |s| ==> s[i].active !! s[j].active
  }

  /** The pc of the topmost frame that holds the lane. */
  function Where(s: seq<Frame>, l: nat): Option<int> {
    if s == [] then None
    else if l in Top(s).active then Some(Top(s).pc)
    else Where(Pop(s), l)
  }

  /** The thread a lane stands for. */
  function ThreadOf(w: Warp, l: nat): Thread
    requires l < |w.lanes|
  {
    if l in w.exited then Exited(w.lanes[l])
    else match Where(w.stack, l)
      case Some(pc) => Running(pc, w.lanes[l])
      case None => Faulted
  }

  ghost predicate Within(s: seq<Frame>, init: set<nat>) {
    forall i :: 0 <= i < |s| ==> s[i].active <= init
  }

  /**
   * `init` is the mask the warp started with and `n` the program end. Retired lanes and the
   * masks of the frames partition `init`.
   */
  ghost predicate Inv(w: Warp, init: set<nat>, n: int) {
    && (forall l :: l in init ==> l < |w.lanes|)
    && w.exited <= init && w.active <= init
    && Within(w.stack, init)
    && Disjoint(w.stack)
    && (forall l :: l in init && l !in w.exited ==> Where(w.stack, l).Some?)
    && Shaped(w.stack, n)
    && Weight(w.stack) <= |init|
  }

  lemma {:induction false} WhereFrame(s: seq<Frame>, i: nat, l: nat)
    requires Disjoint(s) && i < |s| && l in s[i].active
    ensures Where(s, l) == Some(s[i].pc)
  {
    if i < |s| - 1 { WhereFrame(Pop(s), i, l); }
  }

  lemma {:induction false} WhereHolder(s: seq<Frame>, l: nat) returns (i: nat)
    requires Where(s, l).Some?
    ensures i < |s| && l in s[i].active && s[i].pc == Where(s, l).value
  {
    if l in Top(s).active { i := |s| - 1; } else { i := WhereHolder(Pop(s), l); }
  }

  lemma InvBound(w: Warp, init: set<nat>, n: int)
    requires Inv(w, init, n)
    ensures |w.stack| <= 2 * |init| - 1 || w.stack == []
    ensures InWidth(w)
  {
    if w.stack != [] { DepthBound(w.stack, n); }
  }

  /** The effect of one operation on the frames, for every lane that has not retired. */
  ghost predicate SamePlaces(s: seq<Frame>, t: seq<Frame>, exited: set<nat>) {
    forall l :: l !in exited ==> Where(s, l) == Where(t, l)
  }

  lemma PlacesPop(s: seq<Frame>, exited: set<nat>)
    requires s != [] && Top(s).active <= exited
    ensures SamePlaces(s, Pop(s), exited)
  {
  }

  lemma PlacesSetTop(s: seq<Frame>, f: Frame, exited: set<nat>)
    requires s != [] && f.pc == Top(s).pc && f.active == Top(s).active - exited
    ensures SamePlaces(s, SetTop(s, f), exited)
  {
  }

  lemma PlacesMerge(s: seq<Frame>, i: nat, exited: set<nat>)
    requires s != [] && Disjoint(s) && i < |s| - 1 && s[i].pc == Top(s).pc
    ensures SamePlaces(s, Merge(Pop(s), i, Top(s).active - exited), exited)
    ensures Disjoint(Merge(Pop(s), i, Top(s).active - exited))
  {
    var t := Merge(Pop(s), i, Top(s).active - exited);
    forall a, b | 0 <= a < b < |t| ensures t[a].active !! t[b].active {
      assert s[a].active !! s[b].active && s[a].active !! Top(s).active && s[b].active !! Top(s).active;
    }
    forall l | l !in exited ensures Where(s, l) == Where(t, l) {
      if l in Top(s).active {
        WhereFrame(t, i, l);
      } else if Where(s, l).Some? {
        var j := WhereHolder(s, l);
        assert l in t[j].active;
        WhereFrame(t, j, l);
      } else if Where(t, l).Some? {
        var j := WhereHolder(t, l);
        assert l in s[j].active;
        WhereFrame(s, j, l);
      }
    }
  }

  lemma InvStack(w: Warp, init: set<nat>, n: int, s: seq<Frame>)
    requires Inv(w, init, n)
    requires SamePlaces(w.stack, s, w.exited) && Within(s, init) && Disjoint(s)
    requires Shaped(s, n) && Weight(s) <= |init|
    ensures Inv(w.(stack := s), init, n)
    ensures forall l :: l in init ==> ThreadOf(w.(stack := s), l) == ThreadOf(w, l)
  {
  }

  /** A normalised warp: its top frame is a running path without retired lanes. */
  predicate Normal(w: Warp) {
    && w.stack != [] && !Top(w.stack).isJoin
    && w.pc == Top(w.stack).pc && w.active == Top(w.stack).active
    && w.active != {} && w.active !! w.exited
  }

  lemma ActivateKeeps(w: Warp, init: set<nat>, n: int, f: Frame)
    requires Inv(w, init, n) && w.stack != []
    requires f.pc == Top(w.stack).pc && f.reconv == Top(w.stack).reconv && !f.isJoin
    requires f.active == Top(w.stack).active - w.exited && f.active != {}
    ensures var w' := w.(stack := Pop(w.stack) + [f], pc := f.pc, active := f.active);
      && Inv(w', init, n) && Normal(w')
      && forall l :: l in init ==> ThreadOf(w', l) == ThreadOf(w, l)
  {
    var s := w.stack;
    var t := SetTop(s, f);
    assert t == Pop(s) + [f];
    PlacesSetTop(s, f, w.exited);
    ShapedSetTop(s, n, f);
    forall i, j | 0 <= i < j < |t| ensures t[i].active !! t[j].active {
      assert s[i].active !! s[j].active;
    }
    InvStack(w, init, n, t);
  }

  lemma PopKeeps(w: Warp, init: set<nat>, n: int)
    requires Inv(w, init, n) && w.stack != [] && Top(w.stack).active - w.exited == {}
    ensures var w' := w.(stack := Pop(w.stack));
      && Inv(w', init, n)
      && forall l :: l in init ==> ThreadOf(w', l) == ThreadOf(w, l)
  {
    var s := w.stack;
    forall l | l in Top(s).active ensures l in w.exited { assert l !in Top(s).active - w.exited; }
    PlacesPop(s, w.exited);
    ShapedPop(s, n);
    InvStack(w, init, n, Pop(s));
  }

  lemma MergeKeeps(w: Warp, init: set<nat>, n: int)
    requires Inv(w, init, n) && |w.stack| >= 2 && Top(w.stack).pc == Top(w.stack).reconv
    ensures JoinBelowTop(w.stack) >= 0
    ensures FindJoin(Pop(w.stack), Top(w.stack).pc) == Some(JoinBelowTop(w.stack))
    ensures var w' := w.(stack := Merge(Pop(w.stack), JoinBelowTop(w.stack), Top(w.stack).active - w.exited));
      && Inv(w', init, n)
      && forall l :: l in init ==> ThreadOf(w', l) == ThreadOf(w, l)
  {
    var s := w.stack;
    FindJoinIsNearest(s, n);
    NearestJoin(s, n);
    var i: nat := JoinBelowTop(s);
    PlacesMerge(s, i, w.exited);
    ShapedMerge(s, n, Top(s).active - w.exited);
    InvStack(w, init, n, Merge(Pop(s), i, Top(s).active - w.exited));
  }

  /** The lane has left the last instruction behind without executing RET. */
  predicate RanOff(w: Warp, n: int, l: nat) {
    l < |w.lanes| && ThreadOf(w, l) == Running(n, w.lanes[l])
  }

  lemma BaseRanOff(w: Warp, init: set<nat>, n: int)
    requires Inv(w, init, n) && |w.stack| == 1 && Top(w.stack).active - w.exited != {}
    requires Top(w.stack).pc == Top(w.stack).reconv
    ensures FindJoin(Pop(w.stack), Top(w.stack).pc) == None
    ensures exists l :: l in init && RanOff(w, n, l)
  {
  }

  /**
   * Normalising a warp keeps the invariant, registers and retired lanes, and moves no
   * thread. It finishes the warp only when every lane has retired, and it fails to find a
   * join only when no join is pending and some thread has run off the end of the program.
   */
  lemma {:induction false} NormalizeStutters(w: Warp, init: set<nat>, n: int)
    requires Inv(w, init, n)
    ensures var r := Normalize(w);
      && r.w.exited == w.exited && r.w.lanes == w.lanes
      && (r.Ready? || r.Finished? ==>
            Inv(r.w, init, n) && forall l :: l in init ==> ThreadOf(r.w, l) == ThreadOf(w, l))
      && (r.Ready? ==> Normal(r.w) && r.w.done == w.done)
      && (r.Finished? ==> r.w.done && r.w.stack == [] && w.exited == init)
      && (r.Stuck? ==> r.w.stack == [] && exists l :: l in init && RanOff(w, n, l))
    decreases |w.stack|
  {
    if w.stack != [] {
      var s := w.stack;
      var top := Top(s).(active := Top(s).active - w.exited);
      if top.active == {} {
        PopKeeps(w, init, n);
        NormalizeStutters(w.(stack := Pop(s)), init, n);
        RanOffSame(w, w.(stack := Pop(s)), init, n);
      } else if top.isJoin {
        ActivateKeeps(w, init, n, top.(isJoin := false));
      } else if top.pc == top.reconv {
        if |s| == 1 {
          BaseRanOff(w, init, n);
        } else {
          MergeKeeps(w, init, n);
          var w' := w.(stack := Merge(Pop(s), JoinBelowTop(s), top.active));
          NormalizeStutters(w', init, n);
          RanOffSame(w, w', init, n);
        }
      } else {
        ActivateKeeps(w, init, n, top);
      }
    }
  }

  lemma RanOffSame(w: Warp, w': Warp, init: set<nat>, n: int)
    requires |w'.lanes| == |w.lanes| && forall l :: l in init ==> l < |w.lanes|
    requires w'.lanes == w.lanes && forall l :: l in init ==> ThreadOf(w', l) == ThreadOf(w, l)
    ensures (exists l :: l in init && RanOff(w', n, l)) ==> exists l :: l in init && RanOff(w, n, l)
  {
  }
}
