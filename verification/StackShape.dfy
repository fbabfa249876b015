/**
 * The shape of a reconvergence stack. Read from the bottom, a stack is nested regions: a
 * join frame, then the fall-through path if it has not started yet, then the region that
 * is running. The shape fixes where every path merges and bounds the depth.
 */
module StackShape {
  import opened Options
  import opened Warp

  /** The join at the bottom still waits for both of its paths. */
  predicate BothPending(s: seq<Frame>) {
    |s| >= 3 && !s[1].isJoin
  }

  /**
   * `outer` is the pc of the join below `s`, or the program end. Every frame reconverges at
   * the join below it, and a join that waits for both of its paths has received no lane.
   */
  predicate Shaped(s: seq<Frame>, outer: int) {
    s == [] || (
      && s[0].reconv == outer
      && (|s| >= 2 ==> s[0].isJoin)
      && if |s| < 2 then true
         else if BothPending(s) then
           s[0].active == {} && s[1].reconv == s[0].pc && Shaped(s[2..], s[0].pc)
         else Shaped(s[1..], s[0].pc))
  }

  function AtLeastOne(n: nat): nat {
    if n == 0 then 1 else n
  }

  /** A lower bound on the number of lanes the warp started with. */
  function Weight(s: seq<Frame>): nat {
    if s == [] then 0
    else if BothPending(s) then AtLeastOne(|s[1].active|) + Weight(s[2..])
    else AtLeastOne(|s[0].active|) + Weight(s[1..])
  }

  lemma {:induction false} DepthBound(s: seq<Frame>, outer: int)
    requires Shaped(s, outer) && s != []
    ensures |s| <= 2 * Weight(s) - 1
  {
    if |s| == 1 {
    } else if BothPending(s) {
      DepthBound(s[2..], s[0].pc);
    } else {
      DepthBound(s[1..], s[0].pc);
    }
  }

  /** Where the top frame merges: the join right below it, or below its pending sibling. */
  function JoinBelowTop(s: seq<Frame>): (i: int)
    requires |s| >= 2
  {
    if s[|s| - 2].isJoin then |s| - 2 else |s| - 3
  }

  lemma {:induction false} NearestJoin(s: seq<Frame>, outer: int)
    requires Shaped(s, outer) && s != []
    ensures |s| == 1 ==> Top(s).reconv == outer
    ensures |s| >= 2 ==> (
      var i := JoinBelowTop(s);
      0 <= i && s[i].isJoin && s[i].pc == Top(s).reconv && (i == |s| - 3 ==> s[i].active == {}))
  {
    if |s| >= 4 || (|s| == 3 && !BothPending(s)) {
      var rest := if BothPending(s) then s[2..] else s[1..];
      NearestJoin(rest, s[0].pc);
    }
  }

  /** The source's search from the top finds exactly that join. */
  lemma {:induction false} FindJoinIsNearest(s: seq<Frame>, outer: int)
    requires Shaped(s, outer) && s != []
    ensures FindJoin(Pop(s), Top(s).reconv) == if |s| == 1 then None else Some(JoinBelowTop(s))
  {
    NearestJoin(s, outer);
    var rest := Pop(s);
    if |s| >= 2 && !s[|s| - 2].isJoin {
      assert FindJoin(rest, Top(s).reconv) == FindJoin(Pop(rest), Top(s).reconv);
    }
  }

  lemma {:induction false} ShapedPop(s: seq<Frame>, outer: int)
    requires Shaped(s, outer) && s != []
    ensures Shaped(Pop(s), outer)
    ensures Weight(Pop(s)) <= Weight(s)
  {
    if |s| >= 4 || (|s| == 3 && !BothPending(s)) {
      if BothPending(s) {
        ShapedPop(s[2..], s[0].pc);
        assert Pop(s)[2..] == Pop(s[2..]);
      } else {
        ShapedPop(s[1..], s[0].pc);
        assert Pop(s)[1..] == Pop(s[1..]);
      }
    }
  }

  lemma CardinalityMonotone(a: set<nat>, b: set<nat>)
    requires a <= b
    ensures |a| <= |b|
  {
    assert b == a + (b - a);
  }

  /** Changing the pc or the kind of the top frame, or dropping lanes from it. */
  lemma {:induction false} ShapedSetTop(s: seq<Frame>, outer: int, f: Frame)
    requires Shaped(s, outer) && s != []
    requires f.reconv == Top(s).reconv && f.active <= Top(s).active
    ensures Shaped(SetTop(s, f), outer)
    ensures Weight(SetTop(s, f)) <= Weight(s)
  {
    CardinalityMonotone(f.active, Top(s).active);
    if |s| >= 2 {
      if BothPending(s) {
        ShapedSetTop(s[2..], s[0].pc, f);
        assert SetTop(s, f)[2..] == SetTop(s[2..], f);
      } else {
        ShapedSetTop(s[1..], s[0].pc, f);
        assert SetTop(s, f)[1..] == SetTop(s[1..], f);
      }
    }
  }

  lemma UnionCardinality(a: set<nat>, b: set<nat>)
    ensures |a + b| <= |a| + |b|
  {
  }

  lemma MergeOnePending(s: seq<Frame>, outer: int, arrived: set<nat>)
    requires Shaped(s, outer) && |s| == 2 && arrived <= Top(s).active
    ensures Shaped(Merge(Pop(s), 0, arrived), outer)
    ensures Weight(Merge(Pop(s), 0, arrived)) <= Weight(s)
  {
    UnionCardinality(s[0].active, arrived);
    CardinalityMonotone(arrived, s[1].active);
    assert Merge(Pop(s), 0, arrived) == [s[0].(active := s[0].active + arrived)];
    assert s[1..] == [s[1]] && [s[1]][1..] == [];
  }

  lemma MergeBothPending(s: seq<Frame>, outer: int, arrived: set<nat>)
    requires Shaped(s, outer) && |s| == 3 && BothPending(s) && arrived <= Top(s).active
    ensures Shaped(Merge(Pop(s), 0, arrived), outer)
    ensures Weight(Merge(Pop(s), 0, arrived)) <= Weight(s)
  {
    var m := Merge(Pop(s), 0, arrived);
    CardinalityMonotone(arrived, s[2].active);
    assert s[0].active + arrived == arrived;
    assert m == [s[0].(active := arrived), s[1]];
    assert m[1..] == [s[1]] && s[2..] == [s[2]];
    assert [s[1]][1..] == [] && [s[2]][1..] == [];
  }

  /** How many frames the lowest region has below the one that runs. */
  function RegionBase(s: seq<Frame>): nat {
    if BothPending(s) then 2 else 1
  }

  /** Changing a stack above its lowest region. */
  lemma Rebuilt(s: seq<Frame>, t: seq<Frame>, d: nat, outer: int)
    requires Shaped(s, outer) && d == RegionBase(s) && d < |s| && d < |t| && t[..d] == s[..d]
    requires d == 1 && |t| >= 3 ==> t[1].isJoin
    requires Shaped(t[d..], s[0].pc) && Weight(t[d..]) <= Weight(s[d..])
    ensures Shaped(t, outer) && Weight(t) <= Weight(s)
  {
    assert t[0] == t[..d][0] == s[0];
    if d == 2 { assert t[1] == t[..d][1] == s[1]; }
  }

  lemma MergeAboveBase(s: seq<Frame>, d: nat, i: nat, arrived: set<nat>)
    requires d <= i < |s| - 1
    ensures Merge(Pop(s), i, arrived)[..d] == s[..d]
    ensures Merge(Pop(s), i, arrived)[d..] == Merge(Pop(s[d..]), i - d, arrived)
    ensures forall j :: 0 <= j < |s| - 1 ==> Merge(Pop(s), i, arrived)[j].isJoin == s[j].isJoin
  {
  }

  /** The top frame arrives at its join. */
  lemma {:induction false} ShapedMerge(s: seq<Frame>, outer: int, arrived: set<nat>)
    requires Shaped(s, outer) && |s| >= 2 && arrived <= Top(s).active
    requires JoinBelowTop(s) >= 0
    ensures Shaped(Merge(Pop(s), JoinBelowTop(s), arrived), outer)
    ensures Weight(Merge(Pop(s), JoinBelowTop(s), arrived)) <= Weight(s)
  {
    if |s| == 2 {
      MergeOnePending(s, outer, arrived);
    } else if |s| == 3 && BothPending(s) {
      MergeBothPending(s, outer, arrived);
    } else {
      var i, d := JoinBelowTop(s), RegionBase(s);
      NearestJoin(s[d..], s[0].pc);
      ShapedMerge(s[d..], s[0].pc, arrived);
      MergeAboveBase(s, d, i, arrived);
      Rebuilt(s, Merge(Pop(s), i, arrived), d, outer);
    }
  }

  lemma ReplaceAboveBase(s: seq<Frame>, d: nat, top: seq<Frame>)
    requires d < |s|
    ensures (Pop(s) + top)[d..] == Pop(s[d..]) + top && Top(s[d..]) == Top(s)
    ensures |top| == 1 ==> SetTop(s, top[0])[d..] == SetTop(s[d..], top[0])
  {
  }

  /** A divergent branch replaces the top frame by a join and two paths. */
  lemma {:induction false} ShapedSplit(s: seq<Frame>, outer: int, join: Frame, fall: Frame, taken: Frame)
    requires Shaped(s, outer) && s != []
    requires join.isJoin && join.active == {} && join.reconv == Top(s).reconv
    requires !fall.isJoin && fall.reconv == join.pc && taken.reconv == join.pc
    requires fall.active != {} && taken.active != {} && fall.active !! taken.active
    ensures Shaped(Pop(s) + [join, fall, taken], outer)
    ensures Weight(Pop(s) + [join, fall, taken])
         <= Weight(SetTop(s, Top(s).(active := fall.active + taken.active)))
  {
    var t := Pop(s) + [join, fall, taken];
    var u := SetTop(s, Top(s).(active := fall.active + taken.active));
    if |s| == 1 {
      assert t == [join, fall, taken] && t[2..] == [taken];
      assert t[2..][1..] == [] && u[1..] == [];
      assert |fall.active| > 0 && |taken.active| > 0;
      assert |fall.active + taken.active| == |fall.active| + |taken.active|;
    } else {
      var d := RegionBase(s);
      ShapedSplit(s[d..], s[0].pc, join, fall, taken);
      ReplaceAboveBase(s, d, [join, fall, taken]);
      ReplaceAboveBase(s, d, [Top(s).(active := fall.active + taken.active)]);
    }
  }
}
