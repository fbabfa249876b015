/**
 * The SIMT reconvergence-stack machine of one warp, as functions on values. WarpState.dfy
 * holds the methods that update a warp in place; they are proved against these functions.
 * Lane masks are sets of lanes.
 */
module Warp {
  import opened Options
  import opened Kernel

  datatype Frame = Frame(pc: int, active: set<nat>, reconv: int, isJoin: bool)

  datatype Warp = Warp(pc: int, active: set<nat>, done: bool, exited: set<nat>, stack: seq<Frame>,
                       lanes: seq<LaneState>)

  datatype Diag =
    | ReconvInvalid | PcOutOfBounds | DescMiss | PredOutOfBounds | ReconvMiss | NextPcConflict | UnitDiag

  function Top(s: seq<Frame>): Frame
    requires s != []
  {
    s[|s| - 1]
  }

  function Pop(s: seq<Frame>): (r: seq<Frame>)
    requires s != []
    ensures |r| == |s| - 1
  {
    s[..|s| - 1]
  }

  function SetTop(s: seq<Frame>, f: Frame): (r: seq<Frame>)
    requires s != []
  {
    s[|s| - 1 := f]
  }

  /** Every mask fits the width of the warp. */
  ghost predicate InWidth(w: Warp) {
    && (forall l :: l in w.active ==> l < |w.lanes|)
    && (forall i, l :: 0 <= i < |w.stack| && l in w.stack[i].active ==> l < |w.lanes|)
  }

  // ---- Normalisation: pop, merge and activate frames ----

  /** The index of the nearest join frame for `pc`, searching from the top. */
  function FindJoin(s: seq<Frame>, pc: int): (r: Option<nat>)
    ensures r.Some? ==> r.value < |s| && s[r.value].isJoin && s[r.value].pc == pc
  {
    if s == [] then None
    else if Top(s).isJoin && Top(s).pc == pc then Some(|s| - 1)
    else FindJoin(Pop(s), pc)
  }

  function Merge(s: seq<Frame>, i: nat, arrived: set<nat>): seq<Frame>
    requires i < |s|
  {
    s[i := s[i].(active := s[i].active + arrived)]
  }

  datatype Normalized = Ready(w: Warp) | Finished(w: Warp) | Stuck(w: Warp)

  function Normalize(w: Warp): (r: Normalized)
    ensures InWidth(w) ==> InWidth(r.w)
    decreases |w.stack|
  {
    if w.stack == [] then Finished(w.(done := true, active := {}))
    else
      var rest := Pop(w.stack);
      var top := Top(w.stack).(active := Top(w.stack).active - w.exited);
      if top.active == {} then Normalize(w.(stack := rest))
      else if top.isJoin then
        Ready(w.(stack := rest + [top.(isJoin := false)], pc := top.pc, active := top.active))
      else if top.pc == top.reconv then
        match FindJoin(rest, top.pc)
        case None => Stuck(w.(stack := rest))
        case Some(i) => Normalize(w.(stack := Merge(rest, i, top.active)))
      else Ready(w.(stack := rest + [top], pc := top.pc, active := top.active))
  }

  // ---- Executing one instruction ----

  datatype Split = Split(target: int, reconv: int, taken: set<nat>, fallthrough: set<nat>)

  datatype Outcome = Failed(diag: Diag) | Going(w: Warp, next: Option<int>, split: Option<Split>)

  function ExecLanes(f: LaneState -> Option<LaneState>, mask: set<nat>, lanes: seq<LaneState>): (r: seq<LaneState>)
    ensures |r| == |lanes|
  {
    seq(|lanes|, i requires 0 <= i < |lanes| =>
      if i in mask && f(lanes[i]).Some? then f(lanes[i]).value else lanes[i])
  }

  function ReconvAt(table: seq<Option<int>>, pc: int): Option<int> {
    if 0 <= pc < |table| then table[pc] else None
  }

  function WarpUop(table: seq<Option<int>>, u: Uop, guard: set<nat>, o: Outcome): (r: Outcome)
    requires o.Going? ==> InWidth(o.w)
    ensures r.Going? ==> InWidth(r.w)
  {
    if o.Failed? then o
    else
      var w := o.w;
      var mask := w.active * guard;
      match u
      case Broken => Failed(UnitDiag)
      case Exec(f) =>
        if exists l :: l in mask && f(w.lanes[l]).None? then Failed(UnitDiag)
        else o.(w := w.(lanes := ExecLanes(f, mask, w.lanes)))
      case Ret =>
        if mask == {} then o
        else if w.stack == [] then o.(w := w.(exited := w.exited + mask))
        else
          var top := Top(w.stack).(active := Top(w.stack).active - mask);
          o.(w := w.(exited := w.exited + mask, stack := SetTop(w.stack, top), active := top.active))
      case Bra(target) =>
        if mask == {} then o
        else if target.None? then Failed(UnitDiag)
        else
          var fallthrough := w.active - guard;
          var reconv := ReconvAt(table, w.pc);
          if fallthrough != {} && reconv.None? then Failed(ReconvMiss)
          else if o.next.Some? && o.next != target then Failed(NextPcConflict)
          else if fallthrough == {} then o.(next := target)
          else o.(next := target, split := Some(Split(target.value, reconv.value, mask, fallthrough)))
  }

  function WarpUops(table: seq<Option<int>>, uops: seq<Uop>, guard: set<nat>, o: Outcome): (r: Outcome)
    requires o.Going? ==> InWidth(o.w)
    ensures r.Going? ==> InWidth(r.w)
  {
    if uops == [] then o else WarpUops(table, uops[1..], guard, WarpUop(table, uops[0], guard, o))
  }

  lemma {:induction false} FailedStays(table: seq<Option<int>>, uops: seq<Uop>, g: set<nat>, d: Diag)
    ensures WarpUops(table, uops, g, Failed(d)) == Failed(d)
  {
    if uops != [] { FailedStays(table, uops[1..], g, d); }
  }

  /** The lanes of the warp for which the instruction's predicate holds. */
  function Guard(inst: Inst, w: Warp): set<nat>
    requires PredInRange(inst) && InWidth(w)
  {
    set l | 0 <= l < |w.lanes| && (inst.pred.None? || (l in w.active && Enabled(inst, w.lanes[l])))
  }

  /** End of an instruction: replace the top frame by a join and two paths, or move its pc. */
  function CommitStack(s: seq<Frame>, oldPc: int, next: Option<int>, split: Option<Split>): (r: seq<Frame>)
    requires s != []
    ensures r != []
  {
    var top := Top(s);
    match split
    case Some(d) =>
      Pop(s) + [Frame(d.reconv, {}, top.reconv, true),
                Frame(oldPc + 1, d.fallthrough, d.reconv, false),
                Frame(d.target, d.taken, d.reconv, false)]
    case None => SetTop(s, top.(pc := if next.Some? then next.value else oldPc + 1))
  }

  function Commit(w: Warp, next: Option<int>, split: Option<Split>): Warp {
    if w.stack == [] then w.(done := true)
    else
      var s := CommitStack(w.stack, w.pc, next, split);
      w.(stack := s, pc := Top(s).pc, active := Top(s).active)
  }

  datatype Stepped = Advanced(w: Warp) | Drained(w: Warp) | Aborted(diag: Diag)

  /** Fetch, predicate, execute and commit one instruction of a normalised warp. */
  function Execute(k: Program, table: seq<Option<int>>, w: Warp): Stepped
    requires InWidth(w)
  {
    if !(0 <= w.pc < |k|) then Aborted(PcOutOfBounds)
    else if k[w.pc].None? then Aborted(DescMiss)
    else if !PredInRange(k[w.pc].value) then Aborted(PredOutOfBounds)
    else
      var inst := k[w.pc].value;
      match WarpUops(table, inst.uops, Guard(inst, w), Going(w, None, None))
      case Failed(d) => Aborted(d)
      case Going(w', next, split) => Advanced(Commit(w', next, split))
  }

  /** One turn of a scheduled warp. */
  function Step(k: Program, table: seq<Option<int>>, w: Warp): Stepped
    requires InWidth(w)
  {
    match Normalize(w)
    case Finished(w') => Drained(w')
    case Stuck(_) => Aborted(ReconvInvalid)
    case Ready(w') => Execute(k, table, w')
  }

  /** A warp at the start of a CTA: one path frame over the whole initial mask. */
  function Start(n: nat, mask: set<nat>, lanes: seq<LaneState>): Warp {
    Warp(0, mask, false, {}, [Frame(0, mask, n, false)], lanes)
  }
}
