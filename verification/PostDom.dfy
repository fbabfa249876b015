/** The round-robin sweep that computes post-dominator sets, and what it computes. */
module PostDom {
  import opened Arithmetic
  import opened Graph

  /** The nodes in all the sets of the listed successors. */
  function Meet(pd: seq<set<nat>>, js: seq<nat>): set<nat>
    requires js != [] && forall m :: 0 <= m < |js| ==> js[m] < |pd|
  {
    set c | c in pd[js[0]] && forall m :: 0 <= m < |js| ==> c in pd[js[m]]
  }

  ghost predicate Sized(g: Succ, pd: seq<set<nat>>) {
    WellFormed(g) && |pd| == |g|
  }

  /** Nothing has been dropped that post-dominates. */
  ghost predicate Upper(g: Succ, i: nat, s: set<nat>)
    requires WellFormed(g)
  {
    && (forall c :: c in s ==> c < |g|)
    && (forall c: nat :: c < |g| && PostDominates(g, c, i) ==> c in s)
  }

  /** What a path of at most `k` edges avoids has been dropped. */
  ghost predicate Lower(g: Succ, k: nat, i: nat, s: set<nat>)
    requires WellFormed(g)
  {
    forall c :: c in s ==> !Avoids(g, c, k, i)
  }

  ghost predicate Exact(g: Succ, i: nat, s: set<nat>)
    requires WellFormed(g)
  {
    forall c: nat :: c in s <==> c < |g| && PostDominates(g, c, i)
  }

  predicate ProperNode(g: Succ, i: nat)
    requires |g| > 0
  {
    i < |g| && i != Exit(g)
  }

  function NewSet(g: Succ, pd: seq<set<nat>>, i: nat): set<nat>
    requires WellFormed(g) && |pd| == |g| && ProperNode(g, i)
  {
    Meet(pd, Next(g, i)) + {i}
  }

  lemma PostDominatesNext(g: Succ, c: nat, i: nat, j: nat)
    requires WellFormed(g) && Edge(g, i, j) && PostDominates(g, c, i) && c != i
    ensures PostDominates(g, c, j)
  {
    forall p | ExitPath(g, j, p) ensures c in p {
      PathCons(g, i, p);
      assert ExitPath(g, i, [i] + p);
    }
  }

  lemma NewSetUpper(g: Succ, pd: seq<set<nat>>, i: nat)
    requires Sized(g, pd) && ProperNode(g, i) && forall j: nat :: j < |g| ==> Upper(g, j, pd[j])
    ensures Upper(g, i, NewSet(g, pd, i))
  {
    forall c: nat | c < |g| && PostDominates(g, c, i) && c != i ensures c in NewSet(g, pd, i) {
      var js := Next(g, i);
      forall m | 0 <= m < |js| ensures c in pd[js[m]] {
        assert Edge(g, i, js[m]);
        PostDominatesNext(g, c, i, js[m]);
        assert Upper(g, js[m], pd[js[m]]);
      }
    }
    forall c | c in NewSet(g, pd, i) && c != i ensures c < |g| { assert Upper(g, Next(g, i)[0], pd[Next(g, i)[0]]); }
  }

  lemma NewSetLower(g: Succ, pd: seq<set<nat>>, i: nat, k: nat)
    requires Sized(g, pd) && ProperNode(g, i) && forall j: nat :: j < |g| ==> Lower(g, k, j, pd[j])
    ensures Lower(g, k + 1, i, NewSet(g, pd, i))
  {
  }

  lemma LowerLess(g: Succ, k: nat, m: nat, i: nat, s: set<nat>)
    requires WellFormed(g) && Lower(g, m, i, s) && k <= m
    ensures Lower(g, k, i, s)
  {
    forall c | c in s ensures !Avoids(g, c, k, i) {
      if Avoids(g, c, k, i) { AvoidsMore(g, c, k, m, i); }
    }
  }

  /** After as many sweeps as there are other nodes, the sets are exact. */
  lemma SqueezeIsExact(g: Succ, k: nat, i: nat, s: set<nat>)
    requires WellFormed(g) && Upper(g, i, s) && Lower(g, k, i, s) && k >= |g| - 1
    ensures Exact(g, i, s)
  {
    LowerLess(g, |g| - 1, k, i, s);
    forall c | c in s ensures PostDominates(g, c, i) { PostDominatesIffShort(g, c, i); }
  }

  ghost predicate Fixpoint(g: Succ, pd: seq<set<nat>>) {
    && Sized(g, pd)
    && pd[Exit(g)] == {Exit(g)}
    && forall i: nat :: ProperNode(g, i) ==> pd[i] == NewSet(g, pd, i)
  }

  lemma ExitLower(g: Succ, k: nat)
    requires WellFormed(g)
    ensures Lower(g, k, Exit(g), {Exit(g)})
    ensures Upper(g, Exit(g), {Exit(g)})
  {
    forall c: nat | c < |g| && PostDominates(g, c, Exit(g)) ensures c == Exit(g) {
      assert ExitPath(g, Exit(g), [Exit(g)]);
    }
    forall c | c in {Exit(g)} ensures !Avoids(g, c, k, Exit(g)) {}
  }

  lemma {:induction false} FixpointLower(g: Succ, pd: seq<set<nat>>, k: nat)
    requires Fixpoint(g, pd)
    ensures forall i: nat :: i < |g| ==> Lower(g, k, i, pd[i])
    decreases k
  {
    ExitLower(g, k);
    if k == 0 {
      forall i: nat | i < |g| ensures Lower(g, k, i, pd[i]) {}
    } else {
      FixpointLower(g, pd, k - 1);
      forall i: nat | i < |g| ensures Lower(g, k, i, pd[i]) {
        if i != Exit(g) { NewSetLower(g, pd, i, k - 1); }
      }
    }
  }

  /** What holds of the sets after `k` sweeps. */
  ghost predicate Swept(g: Succ, pd: seq<set<nat>>, k: nat) {
    && Sized(g, pd)
    && pd[Exit(g)] == {Exit(g)}
    && forall i: nat :: i < |g| ==> Upper(g, i, pd[i]) && Lower(g, k, i, pd[i])
  }

  lemma StartSwept(g: Succ, pd: seq<set<nat>>)
    requires Sized(g, pd)
    requires forall i: nat :: i < |g| ==> pd[i] == if i == Exit(g) then {Exit(g)} else UpTo(|g|)
    ensures Swept(g, pd, 0)
  {
    ExitLower(g, 0);
    forall i: nat | i < |g| ensures Upper(g, i, pd[i]) && Lower(g, 0, i, pd[i]) {}
  }

  /**
   * Recomputing node `i` after `k` sweeps: the new set is as good as after `k + 1` sweeps,
   * and it differs from the old one only while `k + 1` is less than the number of nodes.
   */
  lemma NodeStep(g: Succ, pd: seq<set<nat>>, k: nat, i: nat)
    requires Swept(g, pd, k) && ProperNode(g, i)
    ensures var s := NewSet(g, pd, i);
      && Swept(g, pd[i := s], k) && Lower(g, k + 1, i, s)
      && (s != pd[i] ==> k + 1 < |g|)
  {
    var s := NewSet(g, pd, i);
    NewSetUpper(g, pd, i);
    NewSetLower(g, pd, i, k);
    LowerLess(g, k, k + 1, i, s);
    if k + 1 >= |g| {
      SqueezeIsExact(g, k, i, s);
      SqueezeIsExact(g, k, i, pd[i]);
    }
  }

  lemma SweptMore(g: Succ, pd: seq<set<nat>>, k: nat)
    requires Swept(g, pd, k) && forall i: nat :: ProperNode(g, i) ==> Lower(g, k + 1, i, pd[i])
    ensures Swept(g, pd, k + 1)
  {
  }

  /** At a fixpoint the sets say what post-dominance means. */
  lemma FixpointExact(g: Succ, pd: seq<set<nat>>, k: nat)
    requires Fixpoint(g, pd) && Swept(g, pd, k)
    ensures forall i: nat :: i < |g| ==> Exact(g, i, pd[i])
  {
    FixpointLower(g, pd, |g|);
    forall i: nat | i < |g| ensures Exact(g, i, pd[i]) { SqueezeIsExact(g, |g|, i, pd[i]); }
  }

  /** EXIT post-dominates itself; every other node starts with all nodes. */
  method InitialSets(g: Succ) returns (postdom: array<set<nat>>)
    requires WellFormed(g)
    ensures fresh(postdom) && Swept(g, postdom[..], 0)
  {
    var n, exit := |g|, Exit(g);
    postdom := new set<nat>[n](i => if i == exit then {exit} else UpTo(n));
    StartSwept(g, postdom[..]);
  }

  /**
   * Computes the post-dominators of every node with sweeps that update the sets in place.
   * The sweeps stop changing anything before there are more of them than nodes, so the
   * source's limit of 4n + 64 is never exceeded and no diagnostic is reported.
   */
  method ComputePostDominators(g: Succ) returns (postdom: array<set<nat>>, iters: nat)
    requires WellFormed(g)
    ensures fresh(postdom) && postdom.Length == |g|
    ensures iters <= |g|
    ensures forall i: nat :: i < |g| ==> Exact(g, i, postdom[i])
  {
    var n := |g|;
    postdom := InitialSets(g);
    var changed := true;
    iters := 0;
    while changed
      invariant Swept(g, postdom[..], iters)
      invariant changed ==> iters < n
      invariant !changed ==> iters <= n && Fixpoint(g, postdom[..])
      decreases n - iters, changed
    {
      iters := iters + 1;
      if iters > n * 4 + 64 { assert false; }
      changed := Sweep(g, postdom, iters - 1);
    }
    FixpointExact(g, postdom[..], iters);
  }

  /** Part-way through a sweep: the first `i` nodes have been recomputed. */
  ghost predicate HalfSwept(g: Succ, pd: seq<set<nat>>, k: nat, i: nat) {
    Swept(g, pd, k) && forall j: nat :: j < i && ProperNode(g, j) ==> Lower(g, k + 1, j, pd[j])
  }

  ghost predicate Unchanged(g: Succ, pd: seq<set<nat>>, i: nat) {
    Sized(g, pd) && forall j: nat :: j < i && ProperNode(g, j) ==> pd[j] == NewSet(g, pd, j)
  }

  lemma NodeKeeps(g: Succ, pd: seq<set<nat>>, k: nat, i: nat)
    requires HalfSwept(g, pd, k, i) && ProperNode(g, i)
    ensures HalfSwept(g, pd[i := NewSet(g, pd, i)], k, i + 1)
    ensures NewSet(g, pd, i) != pd[i] ==> k + 1 < |g|
  {
    NodeStep(g, pd, k, i);
  }

  lemma ExitKeeps(g: Succ, pd: seq<set<nat>>, k: nat, i: nat)
    requires HalfSwept(g, pd, k, i) && i < |g|
    requires i == Exit(g) || pd[i] == NewSet(g, pd, i)
    ensures HalfSwept(g, pd, k, i + 1)
    ensures Unchanged(g, pd, i) ==> Unchanged(g, pd, i + 1)
  {
    if i != Exit(g) { NodeStep(g, pd, k, i); }
  }

  /** Recompute the set of one node. */
  method UpdateNode(g: Succ, postdom: array<set<nat>>, i: nat, ghost k: nat) returns (changed: bool)
    requires i < |g| && HalfSwept(g, postdom[..], k, i)
    modifies postdom
    ensures HalfSwept(g, postdom[..], k, i + 1)
    ensures changed ==> k + 1 < |g|
    ensures !changed ==> postdom[..] == old(postdom[..])
    ensures !changed && Unchanged(g, postdom[..], i) ==> Unchanged(g, postdom[..], i + 1)
  {
    ghost var now := postdom[..];
    if i == Exit(g) {
      ExitKeeps(g, now, k, i);
      return false;
    }
    var newSet := MeetSuccessors(g, postdom, i);
    newSet := newSet + {i};
    changed := newSet != postdom[i];
    if changed {
      NodeKeeps(g, now, k, i);
      postdom[i] := newSet;
      assert postdom[..] == now[i := newSet];
    } else {
      ExitKeeps(g, now, k, i);
    }
  }

  /** One sweep over all nodes; `k` sweeps have been made before. */
  method Sweep(g: Succ, postdom: array<set<nat>>, ghost k: nat) returns (changed: bool)
    requires Swept(g, postdom[..], k)
    modifies postdom
    ensures Swept(g, postdom[..], k + 1)
    ensures changed ==> k + 1 < |g|
    ensures !changed ==> Fixpoint(g, postdom[..])
  {
    changed := false;
    for i := 0 to |g|
      invariant HalfSwept(g, postdom[..], k, i)
      invariant changed ==> k + 1 < |g|
      invariant !changed ==> Unchanged(g, postdom[..], i)
    {
      var c := UpdateNode(g, postdom, i, k);
      if c { changed := true; }
    }
    SweptMore(g, postdom[..], k);
  }

  /** The intersection over the successors, one set at a time. */
  method MeetSuccessors(g: Succ, postdom: array<set<nat>>, i: nat) returns (r: set<nat>)
    requires WellFormed(g) && postdom.Length == |g| && ProperNode(g, i)
    ensures r == Meet(postdom[..], Next(g, i))
  {
    if g[i] == [] { return postdom[Exit(g)]; }
    r := {};
    for k := 0 to |g[i]|
      invariant k > 0 ==> r == set c | c in postdom[g[i][0]] && forall m :: 0 <= m < k ==> c in postdom[g[i][m]]
    {
      if k == 0 { r := postdom[g[i][k]]; } else { r := r * postdom[g[i][k]]; }
    }
  }
}
