/** The two warp schedulers of a CTA: which warp issues next. */
module WarpScheduling {
  import opened Options

  datatype Policy = InOrderRunToCompletion | RoundRobinInterleaveStep

  // ---- What the policies mean ----

  predicate NoneLive(done: seq<bool>) {
    forall i :: 0 <= i < |done| ==> done[i]
  }

  /** The warp that is `k` places after `next`, going round. */
  function Ahead(next: nat, k: nat, n: nat): (i: nat)
    requires next < n && k < n
    ensures i < n
  {
    if next + k < n then next + k else next + k - n
  }

  /** How many places after `next` the warp `i` is. */
  function Distance(next: nat, i: nat, n: nat): (k: nat)
    requires next < n && i < n
    ensures k < n && Ahead(next, k, n) == i
  {
    if i >= next then i - next else i + n - next
  }

  /** `i` is the first live warp at or after `next`, going round. */
  predicate FirstLive(done: seq<bool>, next: nat, i: nat)
    requires next < |done|
  {
    && i < |done| && !done[i]
    && forall k :: 0 <= k < Distance(next, i, |done|) ==> done[Ahead(next, k, |done|)]
  }

  /** The first live warp from `next` upwards, or if there is none the first live warp of all. */
  predicate NextInTurn(done: seq<bool>, next: nat, i: nat) {
    && i < |done| && !done[i]
    && if i >= next then forall j :: next <= j < i ==> done[j]
       else (forall j :: next <= j < |done| ==> done[j]) && forall j :: 0 <= j < i ==> done[j]
  }

  lemma FirstLiveIsNext(done: seq<bool>, next: nat, i: nat)
    requires next < |done| && FirstLive(done, next, i)
    ensures NextInTurn(done, next, i)
  {
    var n := |done|;
    forall j | 0 <= j < n && Distance(next, j, n) < Distance(next, i, n) ensures done[j] {
      assert done[Ahead(next, Distance(next, j, n), n)];
    }
  }

  /** Where the next search of round-robin starts: behind the last pick. */
  function Cursor(picks: seq<nat>, n: nat): (c: nat)
    requires n > 0
    ensures c < n
  {
    if picks == [] || picks[|picks| - 1] >= n then 0 else Ahead(picks[|picks| - 1], 1 % n, n)
  }

  lemma CursorMoves(picks: seq<nat>, i: nat, n: nat)
    requires i < n
    ensures Cursor(picks + [i], n) == Ahead(i, 1 % n, n)
  {
  }

  /** The warp that the policy issues after `earlier` picks when these warps are done. */
  ghost predicate PickAt(policy: Policy, done: seq<bool>, earlier: seq<nat>, i: nat) {
    && i < |done| && !done[i]
    && match policy
       case InOrderRunToCompletion => forall j :: 0 <= j < i ==> done[j]
       case RoundRobinInterleaveStep => FirstLive(done, Cursor(earlier, |done|), i)
  }

  /** A policy leaves no choice. */
  lemma OnePick(policy: Policy, done: seq<bool>, earlier: seq<nat>, i: nat, j: nat)
    requires PickAt(policy, done, earlier, i) && PickAt(policy, done, earlier, j)
    ensures i == j
  {
    if policy.RoundRobinInterleaveStep? {
      var n := |done|;
      var c := Cursor(earlier, n);
      assert !done[Ahead(c, Distance(c, i, n), n)] && !done[Ahead(c, Distance(c, j, n), n)];
    }
  }

  /** The policy makes every pick; `done` tells which warps are done after the picks before it. */
  ghost predicate ByPolicy(policy: Policy, done: seq<nat> -> seq<bool>, picks: seq<nat>)
    decreases |picks|
  {
    picks == [] ||
    var earlier := picks[..|picks| - 1];
    ByPolicy(policy, done, earlier) && PickAt(policy, done(earlier), earlier, picks[|picks| - 1])
  }

  lemma ByPolicyNext(policy: Policy, done: seq<nat> -> seq<bool>, picks: seq<nat>, i: nat)
    requires ByPolicy(policy, done, picks) && PickAt(policy, done(picks), picks, i)
    ensures ByPolicy(policy, done, picks + [i])
  {
    assert (picks + [i])[..|picks|] == picks;
  }

  lemma {:induction false} PrefixByPolicy(policy: Policy, done: seq<nat> -> seq<bool>, picks: seq<nat>, n: nat)
    requires n <= |picks| && ByPolicy(policy, done, picks)
    ensures ByPolicy(policy, done, picks[..n])
    decreases |picks|
  {
    if n < |picks| {
      var earlier := picks[..|picks| - 1];
      assert earlier[..n] == picks[..n];
      PrefixByPolicy(policy, done, earlier, n);
    } else {
      assert picks[..n] == picks;
    }
  }

  lemma PickOf(policy: Policy, done: seq<nat> -> seq<bool>, picks: seq<nat>, j: nat)
    requires j < |picks| && ByPolicy(policy, done, picks)
    ensures PickAt(policy, done(picks[..j]), picks[..j], picks[j])
  {
    PrefixByPolicy(policy, done, picks, j + 1);
    assert picks[..j + 1][..j] == picks[..j] && picks[..j + 1][j] == picks[j];
  }

  /** A policy leaves no choice: two of its schedules for the same warps agree as far as both go. */
  lemma {:induction false} OneSchedule(policy: Policy, done: seq<nat> -> seq<bool>, a: seq<nat>, b: seq<nat>, n: nat)
    requires ByPolicy(policy, done, a) && ByPolicy(policy, done, b) && n <= |a| && n <= |b|
    ensures a[..n] == b[..n]
  {
    if n > 0 {
      OneSchedule(policy, done, a, b, n - 1);
      PickOf(policy, done, a, n - 1);
      PickOf(policy, done, b, n - 1);
      OnePick(policy, done(a[..n - 1]), a[..n - 1], a[n - 1], b[n - 1]);
      assert a[..n] == a[..n - 1] + [a[n - 1]] && b[..n] == b[..n - 1] + [b[n - 1]];
    }
  }

  class WarpScheduler {
    const policy: Policy
    var current: nat  // in-order: the warp that is issuing
    var next: nat     // round-robin: where the next search starts

    constructor (policy: Policy)
      ensures this.policy == policy && current == 0 && next == 0
    {
      this.policy := policy;
      current, next := 0, 0;
    }

    method OnCtaStart()
      modifies this
      ensures current == 0 && next == 0
    {
      current, next := 0, 0;
    }

    /**
     * In-order never looks back, so it relies on done warps staying done; round-robin keeps
     * its cursor inside the CTA.
     */
    ghost predicate Valid(done: seq<bool>)
      reads this
    {
      && (policy.InOrderRunToCompletion? ==> forall i :: 0 <= i < |done| && i < current ==> done[i])
      && (next < |done| || next == 0)
    }

    /** The cursor stands behind the last of these picks. */
    ghost predicate Behind(picks: seq<nat>, n: nat)
      reads this
    {
      policy.RoundRobinInterleaveStep? && n > 0 ==> next == Cursor(picks, n)
    }

    /** The source takes the state of the warps through a callback; `done` is what it returns. */
    method PickNext(done: seq<bool>) returns (r: Option<nat>)
      requires Valid(done)
      modifies this
      ensures Valid(done)
      ensures r.None? <==> NoneLive(done)
      ensures r.Some? ==> r.value < |done| && !done[r.value]
      ensures r.Some? && policy.InOrderRunToCompletion? ==>
                current == r.value && forall i :: 0 <= i < r.value ==> done[i]
      ensures r.Some? && policy.RoundRobinInterleaveStep? ==>
                && old(next) < |done| && FirstLive(done, old(next), r.value)
                && next == Ahead(r.value, 1 % |done|, |done|)
      ensures r.Some? && policy.RoundRobinInterleaveStep? ==> NextInTurn(done, old(next), r.value)
    {
      if |done| == 0 { return None; }
      match policy
      case InOrderRunToCompletion => r := PickInOrder(done);
      case RoundRobinInterleaveStep =>
        ghost var from := next;
        r := PickRoundRobin(done);
        if r.Some? { FirstLiveIsNext(done, from, r.value); }
    }

    method PickInOrder(done: seq<bool>) returns (r: Option<nat>)
      requires |done| > 0
      requires forall i :: 0 <= i < |done| && i < current ==> done[i]
      modifies this`current
      ensures r.None? <==> NoneLive(done)
      ensures r.None? ==> current == old(current)
      ensures r.Some? ==> r.value < |done| && !done[r.value] && current == r.value
      ensures r.Some? ==> forall i :: 0 <= i < r.value ==> done[i]
    {
      if current < |done| && !done[current] { return Some(current); }
      var i := current;
      while i < |done|
        invariant current == old(current)
        invariant forall j :: 0 <= j < |done| && j < i ==> done[j]
      {
        if !done[i] {
          current := i;
          return Some(i);
        }
        i := i + 1;
      }
      return None;
    }

    method PickRoundRobin(done: seq<bool>) returns (r: Option<nat>)
      requires next < |done|
      modifies this`next
      ensures r.None? <==> NoneLive(done)
      ensures r.None? ==> next == old(next)
      ensures r.Some? ==> FirstLive(done, old(next), r.value) && next == Ahead(r.value, 1 % |done|, |done|)
    {
      var n := |done|;
      var k := 0;
      while k < n
        invariant 0 <= k <= n && next == old(next)
        invariant forall j :: 0 <= j < k ==> done[Ahead(next, j, n)]
      {
        var idx := (next + k) % n;
        WrapIsAhead(next, k, n);
        if !done[idx] {
          WrapIsAhead(idx, 1 % n, n);
          assert Distance(next, idx, n) == k;
          next := (idx + 1) % n;
          return Some(idx);
        }
        k := k + 1;
      }
      forall i | 0 <= i < n ensures done[i] { assert done[Ahead(next, Distance(next, i, n), n)]; }
      return None;
    }
  }

  lemma ModOnce(x: nat, n: nat)
    requires 0 < n && x < 2 * n
    ensures x % n == if x < n then x else x - n
  {
  }

  lemma WrapIsAhead(next: nat, k: nat, n: nat)
    requires next < n && k < n
    ensures (next + k) % n == Ahead(next, k, n)
    ensures (next + 1) % n == Ahead(next, 1 % n, n)
  {
    ModOnce(next + k, n);
    ModOnce(next + 1, n);
    if n > 1 { ModOnce(1, n); }
  }

  // ---- Round-robin is fair ----

  /** The cursor and the picked warps over consecutive calls; `done[j]` is what the j-th call sees. */
  ghost predicate RoundRobinPicks(n: nat, next: nat, done: seq<seq<bool>>, picks: seq<nat>)
    decreases |done|
  {
    && next < n && |picks| == |done|
    && (forall j :: 0 <= j < |done| ==> |done[j]| == n)
    && (done != [] ==>
          && FirstLive(done[0], next, picks[0])
          && RoundRobinPicks(n, Ahead(picks[0], 1 % n, n), done[1..], picks[1..]))
  }

  /** Picking a nearer warp brings the cursor closer to `w`. */
  lemma CloserToWarp(n: nat, next: nat, i: nat, w: nat)
    requires next < n && i < n && w < n && Distance(next, i, n) < Distance(next, w, n)
    ensures Distance(Ahead(i, 1 % n, n), w, n) < Distance(next, w, n)
  {
    ModOnce(1, n);
  }

  lemma {:induction false} FairWithinDistance(n: nat, next: nat, done: seq<seq<bool>>, picks: seq<nat>, w: nat)
    requires RoundRobinPicks(n, next, done, picks) && w < n
    requires forall j :: 0 <= j < |done| ==> !done[j][w]
    requires |done| > Distance(next, w, n)
    ensures w in picks
    decreases |done|
  {
    var i := picks[0];
    if i != w {
      var next' := Ahead(i, 1 % n, n);
      var d, di := Distance(next, w, n), Distance(next, i, n);
      assert !done[0][Ahead(next, d, n)];
      CloserToWarp(n, next, i, w);
      FairWithinDistance(n, next', done[1..], picks[1..], w);
    }
  }

  /** In any `n` consecutive picks among `n` warps, every warp that stays live is picked. */
  lemma RoundRobinFair(n: nat, next: nat, done: seq<seq<bool>>, picks: seq<nat>, w: nat)
    requires RoundRobinPicks(n, next, done, picks) && w < n && |done| == n
    requires forall j :: 0 <= j < |done| ==> !done[j][w]
    ensures w in picks
  {
    FairWithinDistance(n, next, done, picks, w);
  }

  // ---- Fairness of whole runs ----

  /** What the calls from `t` on see, `m` of them. */
  ghost function SeenFrom(done: seq<nat> -> seq<bool>, picks: seq<nat>, t: nat, m: nat): (r: seq<seq<bool>>)
    requires t + m <= |picks|
    ensures |r| == m
  {
    seq(m, j requires 0 <= j < m => done(picks[..t + j]))
  }

  ghost predicate Sees(n: nat, done: seq<nat> -> seq<bool>, picks: seq<nat>, j: nat)
    requires j <= |picks|
  {
    |done(picks[..j])| == n
  }

  ghost predicate LiveThen(done: seq<nat> -> seq<bool>, picks: seq<nat>, j: nat, w: nat)
    requires j <= |picks|
  {
    w < |done(picks[..j])| && !done(picks[..j])[w]
  }

  /** Every call sees `n` warps. */
  ghost predicate AllSee(n: nat, done: seq<nat> -> seq<bool>, picks: seq<nat>) {
    forall j: nat :: j < |picks| ==> Sees(n, done, picks, j)
  }

  /** Among the `n` warps `w` is live in each of the `n` calls from `t` on. */
  ghost predicate StaysLive(n: nat, done: seq<nat> -> seq<bool>, picks: seq<nat>, t: nat, w: nat) {
    && t + n <= |picks| && w < n
    && forall j: nat :: t <= j < t + n ==> LiveThen(done, picks, j, w)
  }

  /** One of the `n` calls from `t` on picks `w`. */
  predicate PickedWithin(picks: seq<nat>, t: nat, n: nat, w: nat) {
    exists j :: t <= j < t + n && j < |picks| && picks[j] == w
  }

  lemma {:induction false} WindowPicks(n: nat, done: seq<nat> -> seq<bool>, picks: seq<nat>, t: nat, m: nat)
    requires ByPolicy(RoundRobinInterleaveStep, done, picks) && n > 0 && t + m <= |picks| && AllSee(n, done, picks)
    ensures RoundRobinPicks(n, Cursor(picks[..t], n), SeenFrom(done, picks, t, m), picks[t..t + m])
    decreases m
  {
    forall j | 0 <= j < m ensures |SeenFrom(done, picks, t, m)[j]| == n { assert Sees(n, done, picks, t + j); }
    if m > 0 {
      PickOf(RoundRobinInterleaveStep, done, picks, t);
      assert SeenFrom(done, picks, t, m)[0] == done(picks[..t]);
      WindowPicks(n, done, picks, t + 1, m - 1);
      assert picks[..t + 1] == picks[..t] + [picks[t]];
      CursorMoves(picks[..t], picks[t], n);
      assert SeenFrom(done, picks, t, m)[1..] == SeenFrom(done, picks, t + 1, m - 1);
      assert picks[t..t + m][1..] == picks[t + 1..t + 1 + (m - 1)];
    }
  }

  /** In a schedule that round-robin makes no live warp waits longer than there are warps. */
  lemma NobodyStarves(n: nat, done: seq<nat> -> seq<bool>, picks: seq<nat>, t: nat, w: nat)
    requires ByPolicy(RoundRobinInterleaveStep, done, picks) && AllSee(n, done, picks)
    requires StaysLive(n, done, picks, t, w)
    ensures PickedWithin(picks, t, n, w)
  {
    WindowPicks(n, done, picks, t, n);
    var seen := SeenFrom(done, picks, t, n);
    forall j | 0 <= j < n ensures !seen[j][w] { assert LiveThen(done, picks, t + j, w); }
    RoundRobinFair(n, Cursor(picks[..t], n), seen, picks[t..t + n], w);
    var j :| 0 <= j < n && picks[t..t + n][j] == w;
    assert picks[t + j] == w;
  }
}
