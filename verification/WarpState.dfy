/** A warp updated in place, proved against the functions on values in Warp.dfy. */
module WarpState {
  import opened Options
  import opened Kernel
  import W = Warp

  datatype Status = Ready | Finished | Stuck

  class WarpState {
    var pc: int
    var active: set<nat>
    var done: bool
    var exited: set<nat>
    var stack: seq<W.Frame>
    var lanes: seq<LaneState>

    /** The warp as a value. */
    function Value(): W.Warp
      reads this
    {
      W.Warp(pc, active, done, exited, stack, lanes)
    }

    constructor (n: nat, mask: set<nat>, lanes: seq<LaneState>)
      ensures Value() == W.Start(n, mask, lanes)
    {
      pc, active, done, exited := 0, mask, false, {};
      stack := [W.Frame(0, mask, n, false)];
      this.lanes := lanes;
    }

    method NormalizeStack() returns (r: Status)
      modifies this
      ensures W.Normalize(old(Value())) ==
              match r
              case Ready => W.Ready(Value())
              case Finished => W.Finished(Value())
              case Stuck => W.Stuck(Value())
    {
      while true
        invariant W.Normalize(Value()) == W.Normalize(old(Value()))
        decreases |stack|
      {
        if stack == [] {
          done, active := true, {};
          return Finished;
        }
        var rest := W.Pop(stack);
        var top := W.Top(stack);
        top := top.(active := top.active - exited);
        if top.active == {} {
          stack := rest;
          continue;
        }
        if top.isJoin {
          stack := rest + [top.(isJoin := false)];
          pc, active := top.pc, top.active;
          return Ready;
        }
        if top.pc == top.reconv {
          stack := rest;
          var found := MergeIntoJoin(top.pc, top.active);
          if !found { return Stuck; }
          continue;
        }
        stack := rest + [top];
        pc, active := top.pc, top.active;
        return Ready;
      }
    }

    /** Search the stack from the top for a join at `target` and let the arrived lanes wait there. */
    method MergeIntoJoin(target: int, arrived: set<nat>) returns (found: bool)
      modifies this`stack
      ensures found <==> W.FindJoin(old(stack), target).Some?
      ensures stack == if found then W.Merge(old(stack), W.FindJoin(old(stack), target).value, arrived) else old(stack)
    {
      var i := |stack|;
      assert stack[..i] == stack;
      while i > 0
        invariant i <= |stack| && stack == old(stack)
        invariant W.FindJoin(stack[..i], target) == W.FindJoin(stack, target)
      {
        assert W.Pop(stack[..i]) == stack[..i - 1];
        i := i - 1;
        if stack[i].isJoin && stack[i].pc == target {
          stack := stack[i := stack[i].(active := stack[i].active + arrived)];
          return true;
        }
      }
      return false;
    }

    /** Dispatch a lane-local micro-op to its unit: one lane after the other. */
    method ExecLanes(f: LaneState -> Option<LaneState>, mask: set<nat>) returns (ok: bool)
      requires forall l :: l in mask ==> l < |lanes|
      modifies this`lanes
      ensures ok <==> forall l :: l in mask ==> f(old(lanes)[l]).Some?
      ensures ok ==> lanes == W.ExecLanes(f, mask, old(lanes))
    {
      var lane := 0;
      while lane < |lanes|
        invariant 0 <= lane <= |lanes| == |old(lanes)|
        invariant forall l :: l in mask && l < lane ==> f(old(lanes)[l]).Some?
        invariant forall l :: 0 <= l < |lanes| ==>
                    lanes[l] == if l < lane && l in mask then f(old(lanes)[l]).value else old(lanes)[l]
      {
        if lane in mask {
          match f(lanes[lane])
          case None => return false;
          case Some(s) => lanes := lanes[lane := s];
        }
        lane := lane + 1;
      }
      return true;
    }

    /** The lanes that an instruction's predicate enables. */
    method PredMask(inst: Inst) returns (mask: set<nat>)
      requires PredInRange(inst) && W.InWidth(Value())
      ensures mask == W.Guard(inst, Value())
    {
      mask := {};
      var lane := 0;
      while lane < |lanes|
        invariant 0 <= lane <= |lanes|
        invariant mask == set l | l in W.Guard(inst, Value()) && l < lane
      {
        if inst.pred.None? || (lane in active && Enabled(inst, lanes[lane])) { mask := mask + {lane}; }
        lane := lane + 1;
      }
    }

    /** Fetch, predicate, execute and commit one instruction. */
    method Execute(k: Program, table: seq<Option<int>>) returns (diag: Option<W.Diag>)
      requires W.InWidth(Value())
      modifies this
      ensures match diag
              case Some(d) => W.Execute(k, table, old(Value())) == W.Aborted(d)
              case None => W.Execute(k, table, old(Value())) == W.Advanced(Value())
    {
      if !(0 <= pc < |k|) { return Some(W.PcOutOfBounds); }
      if k[pc].None? { return Some(W.DescMiss); }
      var inst := k[pc].value;
      if !PredInRange(inst) { return Some(W.PredOutOfBounds); }
      var guard := PredMask(inst);

      var next: Option<int> := None;
      var split: Option<W.Split> := None;
      ghost var start := W.Going(Value(), None, None);
      ghost var end := W.WarpUops(table, inst.uops, guard, start);
      var i := 0;
      assert inst.uops[0..] == inst.uops;
      while i < |inst.uops|
        invariant 0 <= i <= |inst.uops| && W.InWidth(Value()) && pc == old(pc)
        invariant W.WarpUops(table, inst.uops[i..], guard, W.Going(Value(), next, split)) == end
      {
        ghost var before := W.Going(Value(), next, split);
        assert inst.uops[i..][1..] == inst.uops[i + 1..];
        var d;
        d, next, split := Dispatch(table, inst.uops[i], guard, next, split);
        if d.Some? {
          W.FailedStays(table, inst.uops[i + 1..], guard, d.value);
          return d;
        }
        i := i + 1;
      }
      Commit(next, split);
      return None;
    }

    /** One micro-op: the new candidate for the next pc and the pending split. */
    method Dispatch(table: seq<Option<int>>, u: Uop, guard: set<nat>, next: Option<int>, split: Option<W.Split>)
      returns (diag: Option<W.Diag>, next': Option<int>, split': Option<W.Split>)
      requires W.InWidth(Value())
      modifies this
      ensures pc == old(pc)
      ensures W.WarpUop(table, u, guard, W.Going(old(Value()), next, split)) ==
              if diag.Some? then W.Failed(diag.value) else W.Going(Value(), next', split')
    {
      diag, next', split' := None, next, split;
      var mask := active * guard;
      match u
      case Broken => diag := Some(W.UnitDiag);
      case Exec(f) =>
        var ok := ExecLanes(f, mask);
        if !ok { diag := Some(W.UnitDiag); }
      case Ret =>
        if mask != {} {
          exited := exited + mask;
          if stack != [] {
            stack := W.SetTop(stack, W.Top(stack).(active := W.Top(stack).active - mask));
            active := W.Top(stack).active;
          }
        }
      case Bra(target) =>
        if mask != {} {
          if target.None? { diag := Some(W.UnitDiag); return; }
          var fallthrough := active - guard;
          if fallthrough != {} {
            if W.ReconvAt(table, pc).None? { diag := Some(W.ReconvMiss); return; }
            split' := Some(W.Split(target.value, W.ReconvAt(table, pc).value, mask, fallthrough));
          }
          if next.Some? && next != target { diag := Some(W.NextPcConflict); return; }
          next' := target;
        }
    }

    method Commit(next: Option<int>, split: Option<W.Split>)
      modifies this
      ensures Value() == W.Commit(old(Value()), next, split)
    {
      if stack == [] {
        done := true;
        return;
      }
      var top := W.Top(stack);
      match split {
        case Some(d) =>
          stack := W.Pop(stack);
          stack := stack + [W.Frame(d.reconv, {}, top.reconv, true)];
          stack := stack + [W.Frame(pc + 1, d.fallthrough, d.reconv, false)];
          stack := stack + [W.Frame(d.target, d.taken, d.reconv, false)];
        case None =>
          stack := W.SetTop(stack, top.(pc := if next.Some? then next.value else pc + 1));
      }
      assert stack == W.CommitStack(old(stack), pc, next, split);
      pc, active := W.Top(stack).pc, W.Top(stack).active;
    }
  }
}
