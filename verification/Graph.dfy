/**
 * Paths and post-dominance in a control-flow graph. Nodes are instruction indices; the
 * last node is EXIT.
 */
module Graph {
  import opened Arithmetic
  import opened Options

  type Succ = seq<seq<nat>>

  predicate WellFormed(g: Succ) {
    |g| > 0 && forall i :: 0 <= i < |g| ==> forall j :: 0 <= j < |g[i]| ==> g[i][j] < |g|
  }

  function Exit(g: Succ): nat
    requires |g| > 0
  {
    |g| - 1
  }

  /** Successors; a node without any leads to EXIT, and EXIT leads nowhere. */
  function Next(g: Succ, i: nat): seq<nat>
    requires i < |g|
  {
    if i == Exit(g) then [] else if g[i] == [] then [Exit(g)] else g[i]
  }

  predicate Edge(g: Succ, i: nat, j: nat) {
    i < |g| && j < |g| && j in Next(g, i)
  }

  ghost predicate EdgeAt(g: Succ, p: seq<nat>, i: nat) {
    i + 1 < |p| && Edge(g, p[i], p[i + 1])
  }

  ghost predicate IsPath(g: Succ, p: seq<nat>) {
    && p != []
    && (forall i :: 0 <= i < |p| ==> p[i] < |g|)
    && (forall i :: 0 <= i < |p| - 1 ==> EdgeAt(g, p, i))
  }

  /** A path from `i` to EXIT. */
  ghost predicate ExitPath(g: Succ, i: nat, p: seq<nat>)
    requires WellFormed(g)
  {
    IsPath(g, p) && p[0] == i && p[|p| - 1] == Exit(g)
  }

  ghost predicate ReachesExit(g: Succ, i: nat)
    requires WellFormed(g)
  {
    exists p :: ExitPath(g, i, p)
  }

  /** Every path from `i` to EXIT passes through `c`. */
  ghost predicate PostDominates(g: Succ, c: nat, i: nat)
    requires WellFormed(g)
  {
    forall p :: ExitPath(g, i, p) ==> c in p
  }

  lemma PathTail(g: Succ, p: seq<nat>)
    requires IsPath(g, p) && |p| > 1
    ensures IsPath(g, p[1..]) && Edge(g, p[0], p[1])
  {
    PathSplit(g, p, 1);
    assert EdgeAt(g, p, 0);
  }

  lemma PathCons(g: Succ, i: nat, p: seq<nat>)
    requires IsPath(g, p) && Edge(g, i, p[0])
    ensures IsPath(g, [i] + p)
  {
    var q := [i] + p;
    forall k | 0 <= k < |q| - 1 ensures EdgeAt(g, q, k) {
      if k > 0 { assert EdgeAt(g, p, k - 1); }
    }
  }

  lemma PathSplit(g: Succ, p: seq<nat>, k: nat)
    requires IsPath(g, p) && k < |p|
    ensures IsPath(g, p[k..]) && IsPath(g, p[..k + 1])
  {
    var a, b := p[..k + 1], p[k..];
    forall i | 0 <= i < |a| - 1 ensures EdgeAt(g, a, i) { assert EdgeAt(g, p, i); }
    forall i | 0 <= i < |b| - 1 ensures EdgeAt(g, b, i) { assert EdgeAt(g, p, k + i); }
  }

  /** Joining two paths that meet in one node. */
  lemma PathJoin(g: Succ, p: seq<nat>, q: seq<nat>)
    requires IsPath(g, p) && IsPath(g, q) && p[|p| - 1] == q[0]
    ensures IsPath(g, p + q[1..])
  {
    var r := p + q[1..];
    forall i | 0 <= i < |r| - 1 ensures EdgeAt(g, r, i) {
      if i < |p| - 1 { assert EdgeAt(g, p, i); } else { assert EdgeAt(g, q, i - (|p| - 1)); }
    }
  }

  // ---- Nodes with a short path to EXIT that avoids a given node ----

  /** A path of at most `k` edges leads from `i` to EXIT and avoids `c`. */
  ghost predicate Avoids(g: Succ, c: nat, k: nat, i: nat)
    requires WellFormed(g)
    decreases k
  {
    i < |g| && i != c && (i == Exit(g) || (k > 0 && exists j :: Edge(g, i, j) && Avoids(g, c, k - 1, j)))
  }

  lemma {:induction false} AvoidsIsPath(g: Succ, c: nat, k: nat, i: nat) returns (p: seq<nat>)
    requires WellFormed(g) && Avoids(g, c, k, i)
    ensures ExitPath(g, i, p) && c !in p
    decreases k
  {
    if i == Exit(g) {
      p := [i];
    } else {
      var j :| Edge(g, i, j) && Avoids(g, c, k - 1, j);
      var q := AvoidsIsPath(g, c, k - 1, j);
      PathCons(g, i, q);
      p := [i] + q;
    }
  }

  lemma {:induction false} PathAvoids(g: Succ, c: nat, i: nat, p: seq<nat>)
    requires WellFormed(g) && ExitPath(g, i, p) && c !in p
    ensures Avoids(g, c, |p| - 1, i)
    decreases |p|
  {
    assert p[0] != c;
    if |p| > 1 {
      PathTail(g, p);
      PathAvoids(g, c, p[1], p[1..]);
    }
  }

  lemma {:induction false} AvoidsMore(g: Succ, c: nat, k: nat, m: nat, i: nat)
    requires WellFormed(g) && Avoids(g, c, k, i) && k <= m
    ensures Avoids(g, c, m, i)
    decreases k
  {
    if i != Exit(g) {
      var j :| Edge(g, i, j) && Avoids(g, c, k - 1, j);
      AvoidsMore(g, c, k - 1, m - 1, j);
    }
  }

  // ---- Paths of fewer edges than there are nodes are enough ----

  /** One more edge reaches no new node. */
  ghost predicate StopsAt(g: Succ, c: nat, k: nat)
    requires WellFormed(g)
  {
    forall i :: Avoids(g, c, k + 1, i) ==> Avoids(g, c, k, i)
  }

  lemma {:induction false} StopsForGood(g: Succ, c: nat, k: nat, m: nat, i: nat)
    requires WellFormed(g) && StopsAt(g, c, k) && k <= m && Avoids(g, c, m, i)
    ensures Avoids(g, c, k, i)
    decreases m
  {
    if k < m && i != Exit(g) {
      var j :| Edge(g, i, j) && Avoids(g, c, m - 1, j);
      StopsForGood(g, c, k, m - 1, j);
      assert Avoids(g, c, k + 1, i);
    }
  }

  ghost function Level(g: Succ, c: nat, k: nat): (r: set<nat>)
    requires WellFormed(g)
    ensures forall i :: i in r <==> Avoids(g, c, k, i)
  {
    set i: nat | i < |g| && Avoids(g, c, k, i)
  }

  lemma SubsetCardinality(a: set<nat>, b: set<nat>)
    requires a <= b
    ensures |a| <= |b|
    ensures a != b ==> |a| < |b|
  {
    assert b == a + (b - a);
    if a != b { var x :| x in b - a; assert |b - a| > 0; }
  }

  lemma LevelGains(g: Succ, c: nat, k: nat)
    requires WellFormed(g) && !StopsAt(g, c, k)
    ensures |Level(g, c, k + 1)| > |Level(g, c, k)|
  {
    forall i | i in Level(g, c, k) ensures i in Level(g, c, k + 1) { AvoidsMore(g, c, k, k + 1, i); }
    SubsetCardinality(Level(g, c, k), Level(g, c, k + 1));
  }

  /** Either some earlier level was the last one to grow, or every level added a node. */
  lemma {:induction false} LevelCounts(g: Succ, c: nat, k: nat) returns (stop: Option<nat>)
    requires WellFormed(g) && c != Exit(g)
    ensures stop.Some? ==> stop.value < k && StopsAt(g, c, stop.value)
    ensures stop.None? ==> |Level(g, c, k)| > k
    decreases k
  {
    stop := None;
    if k == 0 {
      assert Exit(g) in Level(g, c, 0);
    } else {
      stop := LevelCounts(g, c, k - 1);
      if stop.None? {
        if StopsAt(g, c, k - 1) { stop := Some(k - 1); } else { LevelGains(g, c, k - 1); }
      }
    }
  }

  lemma FullLevel(g: Succ, c: nat, k: nat, i: nat)
    requires WellFormed(g) && |Level(g, c, k)| >= |g| - 1 && i < |g| && i != c
    requires c < |g| || |Level(g, c, k)| >= |g|
    ensures Avoids(g, c, k, i)
  {
    SubsetCardinality(Level(g, c, k), UpTo(|g|) - {c});
    if c < |g| { assert |UpTo(|g|) - {c}| == |g| - 1; }
  }

  lemma EarlyEnough(g: Succ, c: nat, m: nat, i: nat)
    requires WellFormed(g) && Avoids(g, c, m, i)
    ensures Avoids(g, c, |g| - 1, i)
  {
    var n := |g| - 1;
    if m <= n {
      AvoidsMore(g, c, m, n, i);
    } else if i != Exit(g) && c != Exit(g) {
      var stop := LevelCounts(g, c, n);
      if stop.Some? {
        StopsForGood(g, c, stop.value, m, i);
        AvoidsMore(g, c, stop.value, n, i);
      } else {
        FullLevel(g, c, n, i);
      }
    } else if c == Exit(g) {
      NothingAvoidsExit(g, m, i);
    }
  }

  lemma {:induction false} NothingAvoidsExit(g: Succ, k: nat, i: nat)
    requires WellFormed(g)
    ensures !Avoids(g, Exit(g), k, i)
  {
    if k > 0 {
      var n := k - 1;
      forall j: nat ensures !Avoids(g, Exit(g), n, j) { NothingAvoidsExit(g, n, j); }
    }
  }

  /** Post-dominance in terms of short paths. */
  lemma PostDominatesIffShort(g: Succ, c: nat, i: nat)
    requires WellFormed(g)
    ensures PostDominates(g, c, i) <==> !Avoids(g, c, |g| - 1, i)
  {
    if Avoids(g, c, |g| - 1, i) { var p := AvoidsIsPath(g, c, |g| - 1, i); }
    if !PostDominates(g, c, i) {
      var p :| ExitPath(g, i, p) && c !in p;
      PathAvoids(g, c, i, p);
      EarlyEnough(g, c, |p| - 1, i);
    }
  }
}
