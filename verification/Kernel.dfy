/**
 * Decoded kernels and the scalar machine: what one thread does when it runs alone.
 *
 * A kernel is a list of decoded instructions. Every instruction expands to a list of
 * micro-ops guarded by at most one predicate. Lane-local micro-ops (register arithmetic,
 * SETP, parameter loads, local memory) are functions on the state of one lane, so
 * everything proved about the executor holds for each of them.
 */
module Kernel {
  import opened Options

  datatype Dim3 = Dim3(x: nat, y: nat, z: nat)

  /** The read-only identity of a thread. */
  datatype Builtins = Builtins(tid: Dim3, ntid: Dim3, ctaid: Dim3, nctaid: Dim3, laneid: nat, warpid: nat)

  /** One lane's column of the register files, its predicates and its local memory window. */
  datatype LaneState = LaneState(env: Builtins, u32: map<nat, nat>, u64: map<nat, nat>, p: map<nat, bool>,
                                 local: map<nat, nat>)

  datatype Uop =
    | Exec(f: LaneState -> Option<LaneState>)  // None: the unit reports a diagnostic for this lane
    | Bra(target: Option<int>)                 // None: the operand is not an immediate
    | Ret
    | Broken                                   // the unit reports a diagnostic whatever the mask is

  datatype Pred = Pred(id: int, negated: bool)

  /** `None` in a kernel stands for an instruction without descriptor. */
  datatype Inst = Inst(pred: Option<Pred>, uops: seq<Uop>)
  type Program = seq<Option<Inst>>

  const PREDICATES := 8

  predicate PredInRange(inst: Inst) {
    inst.pred.Some? ==> 0 <= inst.pred.value.id < PREDICATES
  }

  /** Predicates start out true. */
  predicate Enabled(inst: Inst, s: LaneState)
    requires PredInRange(inst)
  {
    inst.pred.Some? ==>
      var id := inst.pred.value.id;
      (id in s.p ==> s.p[id]) != inst.pred.value.negated
  }

  predicate HasBra(uops: seq<Uop>) {
    exists i :: 0 <= i < |uops| && uops[i].Bra?
  }

  // ---- The scalar machine ----

  /** A thread part-way through the micro-ops of one instruction. */
  datatype Progress = Fault | Progress(s: LaneState, retired: bool, next: Option<int>)

  function ScalarUop(u: Uop, on: bool, t: Progress): Progress {
    if t.Fault? || u.Broken? then Fault
    else if !on || t.retired then t
    else match u
      case Exec(f) => (match f(t.s) case None => Fault case Some(s) => t.(s := s))
      case Ret => t.(retired := true)
      case Bra(target) =>
        if target.None? || (t.next.Some? && t.next != target) then Fault else t.(next := target)
  }

  function ScalarUops(uops: seq<Uop>, on: bool, t: Progress): Progress {
    if uops == [] then t else ScalarUops(uops[1..], on, ScalarUop(uops[0], on, t))
  }

  datatype Thread = Running(pc: int, s: LaneState) | Exited(s: LaneState) | Faulted

  function ScalarStep(k: Program, t: Thread): Thread {
    if !t.Running? then t
    else if !(0 <= t.pc < |k|) || k[t.pc].None? || !PredInRange(k[t.pc].value) then Faulted
    else
      var inst := k[t.pc].value;
      match ScalarUops(inst.uops, Enabled(inst, t.s), Progress(t.s, false, None))
      case Fault => Faulted
      case Progress(s, retired, next) =>
        if retired then Exited(s)
        else Running(if next.Some? then next.value else t.pc + 1, s)
  }

  function ScalarRun(k: Program, t: Thread, steps: nat): Thread
    decreases steps
  {
    if steps == 0 then t else ScalarRun(k, ScalarStep(k, t), steps - 1)
  }

  lemma {:induction false} ScalarRunLast(k: Program, t: Thread, steps: nat)
    ensures ScalarRun(k, t, steps + 1) == ScalarStep(k, ScalarRun(k, t, steps))
    decreases steps
  {
    if steps > 0 { ScalarRunLast(k, ScalarStep(k, t), steps - 1); }
  }

  lemma {:induction false} ScalarRunHalted(k: Program, t: Thread, steps: nat)
    requires !t.Running?
    ensures ScalarRun(k, t, steps) == t
  {
    if steps > 0 { ScalarRunHalted(k, t, steps - 1); }
  }

  lemma {:induction false} ScalarRunAdd(k: Program, t: Thread, m: nat, n: nat)
    ensures ScalarRun(k, t, m + n) == ScalarRun(k, ScalarRun(k, t, m), n)
    decreases m
  {
    if m > 0 { ScalarRunAdd(k, ScalarStep(k, t), m - 1, n); }
  }
}
