/** What it means for the run of a CTA that a scheduler's policy has made its schedule. */
module SchedulePolicy {
  import opened Options
  import opened Kernel
  import opened Simulation
  import opened CtaRun
  import opened WarpScheduling
  import opened CtaLoop
  import W = Warp

  lemma {:induction false} AliveBefore(k: Program, table: seq<Option<int>>, start: seq<W.Warp>, inits: seq<set<nat>>,
                                       picks: seq<nat>, n: nat)
    requires CtaInv(k, start, inits) && ReconvTable(k, table) && Schedule(picks, |start|) && n <= |picks|
    requires Run(k, table, start, inits, picks).Alive?
    ensures Run(k, table, start, inits, picks[..n]).Alive?
    ensures |DoneAfter(k, table, start, inits)(picks[..n])| == |start|
    decreases |picks|
  {
    if n < |picks| {
      assert picks[..|picks| - 1][..n] == picks[..n];
      AliveBefore(k, table, start, inits, picks[..|picks| - 1], n);
    } else {
      assert picks[..n] == picks;
    }
  }

  lemma Lengths(k: Program, table: seq<Option<int>>, start: seq<W.Warp>, inits: seq<set<nat>>, picks: seq<nat>)
    requires CtaInv(k, start, inits) && ReconvTable(k, table) && Schedule(picks, |start|)
    requires Run(k, table, start, inits, picks).Alive?
    ensures AllSee(|start|, DoneAfter(k, table, start, inits), picks)
  {
    forall j: nat | j < |picks| ensures Sees(|start|, DoneAfter(k, table, start, inits), picks, j) {
      AliveBefore(k, table, start, inits, picks, j);
    }
  }

  /** Two runs of a CTA under the same policy are in the same state after the same number of turns. */
  lemma SameTurns(policy: Policy, k: Program, table: seq<Option<int>>, start: seq<W.Warp>, inits: seq<set<nat>>,
                  p: seq<nat>, a: CtaOutcome, q: seq<nat>, b: CtaOutcome)
    requires Recorded(policy, k, table, start, inits, p, a) && Recorded(policy, k, table, start, inits, q, b)
    requires |p| == |q|
    ensures a == b
  {
    OneSchedule(policy, DoneAfter(k, table, start, inits), p, q, |p|);
    assert p[..|p|] == p && q[..|p|] == q;
  }

  /** In a run under round-robin no live warp waits longer than the CTA has warps. */
  lemma NoWarpStarves(k: Program, table: seq<Option<int>>, start: seq<W.Warp>, inits: seq<set<nat>>, picks: seq<nat>,
                      o: CtaOutcome, t: nat, w: nat)
    requires Recorded(RoundRobinInterleaveStep, k, table, start, inits, picks, o) && o.Alive?
    requires StaysLive(|start|, DoneAfter(k, table, start, inits), picks, t, w)
    ensures PickedWithin(picks, t, |start|, w)
  {
    Lengths(k, table, start, inits, picks);
    NobodyStarves(|start|, DoneAfter(k, table, start, inits), picks, t, w);
  }
}
