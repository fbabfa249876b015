/** The loop that runs one CTA: warps updated in place, picked by a warp scheduler. */
module CtaLoop {
  import opened Options
  import opened Kernel
  import opened Simulation
  import opened CtaRun
  import opened WarpScheduling
  import opened WarpState

  ghost function Values(warps: seq<WarpState>): (r: seq<W.Warp>)
    reads warps
    ensures |r| == |warps|
    ensures forall i :: 0 <= i < |r| ==> r[i] == warps[i].Value()
  {
    seq(|warps|, i requires 0 <= i < |warps| reads warps => warps[i].Value())
  }

  predicate Distinct(warps: seq<WarpState>) {
    forall i, j :: 0 <= i < j < |warps| ==> warps[i] != warps[j]
  }

  function Flags(ws: seq<W.Warp>): (r: seq<bool>)
    ensures |r| == |ws| && forall i :: 0 <= i < |r| ==> r[i] == ws[i].done
  {
    seq(|ws|, i requires 0 <= i < |ws| => ws[i].done)
  }

  function Live(flags: seq<bool>): nat {
    if flags == [] then 0 else Live(flags[1..]) + if flags[0] then 0 else 1
  }

  lemma {:induction false} LiveDrops(a: seq<bool>, i: nat)
    requires i < |a| && !a[i]
    ensures Live(a[i := true]) < Live(a)
  {
    if i > 0 {
      LiveDrops(a[1..], i - 1);
      assert a[i := true][1..] == a[1..][i - 1 := true];
    } else {
      assert a[i := true][1..] == a[1..];
    }
  }

  method DoneFlags(warps: seq<WarpState>) returns (flags: seq<bool>)
    ensures flags == Flags(Values(warps))
  {
    flags := [];
    for i := 0 to |warps|
      invariant |flags| == i && forall j :: 0 <= j < i ==> flags[j] == warps[j].done
    {
      flags := flags + [warps[i].done];
    }
  }

  datatype TurnResult = Executed | Idle | Failed(diag: W.Diag)

  /** One turn of the picked warp: normalise its stack, then execute one instruction. */
  method TakeTurn(k: Program, table: seq<Option<int>>, warp: WarpState) returns (r: TurnResult)
    requires W.InWidth(warp.Value())
    modifies warp
    ensures W.Step(k, table, old(warp.Value())) ==
            match r
            case Executed => W.Advanced(warp.Value())
            case Idle => W.Drained(warp.Value())
            case Failed(d) => W.Aborted(d)
  {
    var status := warp.NormalizeStack();
    match status
    case Stuck => r := Failed(W.ReconvInvalid);
    case Finished => r := Idle;
    case Ready =>
      var d := warp.Execute(k, table);
      r := if d.Some? then Failed(d.value) else Executed;
  }

  /** The picked warp took its turn; every other warp is as before. */
  ghost predicate TurnTaken(k: Program, table: seq<Option<int>>, a: seq<W.Warp>, i: nat, turn: TurnResult,
                            b: seq<W.Warp>) {
    && i < |a| == |b| && !a[i].done && W.InWidth(a[i])
    && (forall j :: 0 <= j < |a| && j != i ==> b[j] == a[j])
    && W.Step(k, table, a[i]) ==
       match turn
       case Executed => W.Advanced(b[i])
       case Idle => W.Drained(b[i])
       case Failed(d) => W.Aborted(d)
  }

  /** Following the schedule `picks` from `start` leads to `o`. */
  ghost predicate Follows(k: Program, table: seq<Option<int>>, start: seq<W.Warp>, inits: seq<set<nat>>,
                          picks: seq<nat>, o: CtaOutcome) {
    && CtaInv(k, start, inits) && ReconvTable(k, table) && Schedule(picks, |start|)
    && Run(k, table, start, inits, picks) == o
  }

  /** The warps that are done after the schedule `picks`. */
  ghost function DoneAfter(k: Program, table: seq<Option<int>>, start: seq<W.Warp>, inits: seq<set<nat>>)
    : seq<nat> -> seq<bool>
  {
    picks =>
      if CtaInv(k, start, inits) && ReconvTable(k, table) && Schedule(picks, |start|) &&
         Run(k, table, start, inits, picks).Alive?
      then Flags(Run(k, table, start, inits, picks).ws) else []
  }

  /** Following the schedule, which the policy makes, leads to `o`. */
  ghost predicate Recorded(policy: Policy, k: Program, table: seq<Option<int>>, start: seq<W.Warp>,
                           inits: seq<set<nat>>, picks: seq<nat>, o: CtaOutcome) {
    Follows(k, table, start, inits, picks, o) && ByPolicy(policy, DoneAfter(k, table, start, inits), picks)
  }

  /** The iteration in terms of the turns that schedules are made of. */
  function OutcomeOf(turn: TurnResult, b: seq<W.Warp>, steps: nat): CtaOutcome {
    match turn
    case Failed(d) => Died(d)
    case Executed => Alive(b, steps + 1)
    case Idle => Alive(b, steps)
  }

  lemma FollowsTurn(k: Program, table: seq<Option<int>>, start: seq<W.Warp>, inits: seq<set<nat>>, picks: seq<nat>,
                    a: seq<W.Warp>, steps: nat, i: nat, turn: TurnResult, b: seq<W.Warp>)
    requires Follows(k, table, start, inits, picks, Alive(a, steps)) && TurnTaken(k, table, a, i, turn, b)
    ensures Follows(k, table, start, inits, picks + [i], OutcomeOf(turn, b, steps))
  {
  }

  lemma FlagsTurn(k: Program, table: seq<Option<int>>, a: seq<W.Warp>, inits: seq<set<nat>>, i: nat, turn: TurnResult,
                  b: seq<W.Warp>)
    requires CtaInv(k, a, inits) && ReconvTable(k, table) && TurnTaken(k, table, a, i, turn, b)
    ensures turn.Executed? ==> Flags(b) == Flags(a)
    ensures turn.Idle? ==> Flags(b) == Flags(a)[i := true] && Live(Flags(b)) < Live(Flags(a))
  {
    StepSimulates(k, table, a[i], inits[i]);
    LiveDrops(Flags(a), i);
    if turn.Idle? { assert Flags(b) == Flags(a)[i := true]; }
  }

  lemma TurnRecorded(policy: Policy, k: Program, table: seq<Option<int>>, start: seq<W.Warp>, inits: seq<set<nat>>,
                     picks: seq<nat>, o: CtaOutcome, i: nat, turn: TurnResult, b: seq<W.Warp>)
    requires Recorded(policy, k, table, start, inits, picks, o)
    requires o.Alive? && TurnTaken(k, table, o.ws, i, turn, b) && PickAt(policy, Flags(o.ws), picks, i)
    ensures Recorded(policy, k, table, start, inits, picks + [i], OutcomeOf(turn, b, o.steps))
    ensures turn.Executed? ==> Flags(b) == Flags(o.ws)
    ensures turn.Idle? ==> Flags(b) == Flags(o.ws)[i := true] && Live(Flags(b)) < Live(Flags(o.ws))
  {
    FollowsTurn(k, table, start, inits, picks, o.ws, o.steps, i, turn, b);
    FlagsTurn(k, table, o.ws, inits, i, turn, b);
    assert DoneAfter(k, table, start, inits)(picks) == Flags(o.ws);
    ByPolicyNext(policy, DoneAfter(k, table, start, inits), picks, i);
  }

  lemma FollowsNow(policy: Policy, k: Program, table: seq<Option<int>>, start: seq<W.Warp>, inits: seq<set<nat>>,
                   picks: seq<nat>, a: seq<W.Warp>, steps: nat)
    requires Recorded(policy, k, table, start, inits, picks, Alive(a, steps))
    ensures |a| == |start| && CtaInv(k, a, inits) && forall i :: 0 <= i < |a| ==> W.InWidth(a[i])
  {
  }

  /** One iteration: ask the scheduler, then let the picked warp take its turn. */
  method Iterate(k: Program, table: seq<Option<int>>, warps: seq<WarpState>, sched: WarpScheduler,
                 ghost earlier: seq<nat>)
    returns (pick: Option<nat>, turn: TurnResult)
    requires Distinct(warps) && forall i :: 0 <= i < |warps| ==> W.InWidth(warps[i].Value())
    requires sched.Valid(Flags(Values(warps))) && sched.Behind(earlier, |warps|)
    modifies sched, warps
    ensures sched.Valid(old(Flags(Values(warps))))
    ensures pick.Some? ==> PickAt(sched.policy, old(Flags(Values(warps))), earlier, pick.value)
    ensures pick.Some? ==> sched.Behind(earlier + [pick.value], |warps|)
    ensures pick.None? ==> NoneLive(Flags(Values(warps))) && Values(warps) == old(Values(warps))
    ensures pick.Some? ==> TurnTaken(k, table, old(Values(warps)), pick.value, turn, Values(warps))
  {
    turn := Idle;
    var flags := DoneFlags(warps);
    pick := sched.PickNext(flags);
    if pick.Some? {
      CursorMoves(earlier, pick.value, |warps|);
      assert sched.Behind(earlier + [pick.value], |flags|);
      turn := TakeTurn(k, table, warps[pick.value]);
    }
  }

  /** The same, knowing which schedule has been followed so far. */
  method NextTurn(k: Program, table: seq<Option<int>>, warps: seq<WarpState>, sched: WarpScheduler,
                  ghost start: seq<W.Warp>, ghost inits: seq<set<nat>>, ghost picks: seq<nat>, ghost o: CtaOutcome)
    returns (pick: Option<nat>, turn: TurnResult, ghost picks': seq<nat>, ghost o': CtaOutcome)
    requires Recorded(sched.policy, k, table, start, inits, picks, o)
    requires o.Alive? && Distinct(warps) && o.ws == Values(warps) && sched.Valid(Flags(o.ws))
    requires sched.Behind(picks, |warps|)
    modifies sched, warps
    ensures Recorded(sched.policy, k, table, start, inits, picks', o')
    ensures pick.Some? ==> sched.Behind(picks', |warps|)
    ensures pick.None? ==> NoneLive(Flags(o.ws)) && o' == o && o.ws == Values(warps)
    ensures pick.Some? ==> o' == OutcomeOf(turn, Values(warps), o.steps)
    ensures pick.Some? && turn.Idle? ==> Live(Flags(o'.ws)) < Live(Flags(o.ws))
    ensures pick.Some? && !turn.Failed? ==> sched.Valid(Flags(o'.ws))
  {
    FollowsNow(sched.policy, k, table, start, inits, picks, o.ws, o.steps);
    pick, turn := Iterate(k, table, warps, sched, picks);
    picks', o' := picks, o;
    if pick.Some? {
      ghost var later := Values(warps);
      TurnRecorded(sched.policy, k, table, start, inits, picks, o, pick.value, turn, later);
      picks', o' := picks + [pick.value], OutcomeOf(turn, later, o.steps);
    }
  }

  lemma FollowsStart(policy: Policy, k: Program, table: seq<Option<int>>, start: seq<W.Warp>, inits: seq<set<nat>>)
    requires CtaInv(k, start, inits) && ReconvTable(k, table)
    ensures Recorded(policy, k, table, start, inits, [], Alive(start, 0))
  {
  }

  /**
   * Runs the CTA until every warp is done, a diagnostic occurs or the step limit is hit;
   * in the last case the source asks the CTA scheduler to stop.
   * `picks` is the schedule that was followed, made by the scheduler's policy alone;
   * everything proved about schedules applies.
   */
  method RunCta(k: Program, table: seq<Option<int>>, warps: seq<WarpState>, sched: WarpScheduler, maxSteps: nat,
                steps0: nat, ghost inits: seq<set<nat>>, ghost start: seq<W.Warp>)
    returns (diag: Option<W.Diag>, steps: nat, limit: bool, ghost picks: seq<nat>, ghost o: CtaOutcome)
    requires Distinct(warps) && start == Values(warps) && CtaInv(k, start, inits) && ReconvTable(k, table)
    modifies sched, warps
    ensures Recorded(sched.policy, k, table, start, inits, picks, o)
    ensures diag.Some? ==> o == Died(diag.value)
    ensures steps0 <= steps && (steps > steps0 ==> steps <= maxSteps)
    ensures diag.None? ==> o.Alive? && o.ws == Values(warps) && o.steps == steps - steps0
    ensures diag.None? && !limit ==> NoneLive(Flags(o.ws)) && steps < maxSteps
    ensures limit ==> diag.None? && steps >= maxSteps
    ensures steps0 >= maxSteps ==> limit && steps == steps0 && o == Alive(start, 0)
  {
    diag, steps, limit, picks, o := None, steps0, false, [], Alive(start, 0);
    sched.OnCtaStart();
    FollowsStart(sched.policy, k, table, start, inits);
    while steps < maxSteps
      invariant Recorded(sched.policy, k, table, start, inits, picks, o)
      invariant sched.Behind(picks, |warps|)
      invariant o.Alive? && o.ws == Values(warps) && o.steps == steps - steps0 && sched.Valid(Flags(o.ws))
      invariant steps > steps0 ==> steps <= maxSteps
      invariant steps0 >= maxSteps ==> steps == steps0 && o == Alive(start, 0)
      decreases maxSteps - steps, Live(Flags(o.ws))
    {
      var pick, turn;
      pick, turn, picks, o := NextTurn(k, table, warps, sched, start, inits, picks, o);
      if pick.None? { return; }
      if turn.Failed? {
        diag := Some(turn.diag);
        return;
      }
      if turn.Executed? { steps := steps + 1; }
    }
    limit := true;
  }
}
