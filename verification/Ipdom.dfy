/** Immediate post-dominators: the strict post-dominators of a node form a chain. */
module Ipdom {
  import opened Graph

  /** A strict post-dominator. */
  ghost predicate Candidate(g: Succ, pc: nat, c: nat)
    requires WellFormed(g)
  {
    c < |g| && c != pc && PostDominates(g, c, pc)
  }

  /** The source's test: `c` post-dominates no other candidate. */
  ghost predicate Immediate(g: Succ, pc: nat, c: nat)
    requires WellFormed(g)
  {
    Candidate(g, pc, c) && forall d: nat :: Candidate(g, pc, d) && d != c ==> !PostDominates(g, c, d)
  }

  ghost predicate Shortest(g: Succ, i: nat, p: seq<nat>)
    requires WellFormed(g)
  {
    ExitPath(g, i, p) && forall q :: ExitPath(g, i, q) ==> |p| <= |q|
  }

  lemma {:induction false} ShortestPath(g: Succ, i: nat, p: seq<nat>) returns (s: seq<nat>)
    requires WellFormed(g) && ExitPath(g, i, p)
    ensures Shortest(g, i, s)
    decreases |p|
  {
    s := p;
    if q :| ExitPath(g, i, q) && |q| < |p| { s := ShortestPath(g, i, q); }
  }

  /** The first candidate on a path. */
  lemma FirstCandidate(g: Succ, pc: nat, p: seq<nat>) returns (t: nat)
    requires WellFormed(g) && ExitPath(g, pc, p) && pc != Exit(g)
    ensures 0 < t < |p| && Candidate(g, pc, p[t])
    ensures forall s: nat :: 0 < s < t ==> !Candidate(g, pc, p[s])
  {
    t := 1;
    assert Candidate(g, pc, p[|p| - 1]);
    while !Candidate(g, pc, p[t])
      invariant 0 < t < |p|
      invariant forall s: nat :: 0 < s < t ==> !Candidate(g, pc, p[s])
      decreases |p| - t
    {
      t := t + 1;
    }
  }

  /** Every other candidate lies behind the first one on any path from it. */
  lemma FirstIsPostDominated(g: Succ, pc: nat, p: seq<nat>, t: nat, d: nat)
    requires WellFormed(g) && ExitPath(g, pc, p) && 0 < t < |p|
    requires forall s: nat :: 0 < s < t ==> !Candidate(g, pc, p[s])
    requires Candidate(g, pc, d) && d != p[t]
    ensures PostDominates(g, d, p[t])
  {
    forall q | ExitPath(g, p[t], q) ensures d in q {
      var a := p[..t + 1];
      PathSplit(g, p, t);
      PathJoin(g, a, q);
      var r := a + q[1..];
      assert ExitPath(g, pc, r);
      assert d in r;
      assert d !in a by {
        forall s | 0 <= s < |a| ensures a[s] != d { if 0 < s < t { assert !Candidate(g, pc, p[s]); } }
      }
      var s :| 0 <= s < |q[1..]| && q[1..][s] == d;
      assert q[s + 1] == d;
    }
  }

  /** A path that visits a node twice can be cut short. */
  lemma Shortcut(g: Succ, i: nat, p: seq<nat>, t: nat, v: nat) returns (q: seq<nat>)
    requires WellFormed(g) && ExitPath(g, i, p) && t < v < |p| && p[t] == p[v]
    ensures ExitPath(g, i, q) && |q| < |p|
  {
    PathSplit(g, p, t);
    PathSplit(g, p, v);
    PathJoin(g, p[..t + 1], p[v..]);
    q := p[..t + 1] + p[v..][1..];
  }

  lemma ShortestIsSimple(g: Succ, i: nat, p: seq<nat>, t: nat, v: nat)
    requires WellFormed(g) && Shortest(g, i, p) && t < v < |p|
    ensures p[t] != p[v]
  {
    if p[t] == p[v] { var q := Shortcut(g, i, p, t, v); }
  }

  /** On a shortest path the first candidate does not come back after another one. */
  lemma FirstDoesNotPostDominate(g: Succ, pc: nat, p: seq<nat>, t: nat, d: nat)
    requires WellFormed(g) && Shortest(g, pc, p) && 0 < t < |p|
    requires forall s: nat :: 0 < s < t ==> !Candidate(g, pc, p[s])
    requires Candidate(g, pc, d) && d != p[t]
    ensures !PostDominates(g, p[t], d)
  {
    assert d in p;
    var s: nat :| s < |p| && p[s] == d;
    var q := p[s..];
    PathSplit(g, p, s);
    assert ExitPath(g, d, q);
    forall u: nat | u < |q| ensures q[u] != p[t] { ShortestIsSimple(g, pc, p, t, s + u); }
    assert p[t] !in q;
  }

  /**
   * If EXIT is reachable there is exactly one immediate post-dominator, and every other
   * strict post-dominator post-dominates it.
   */
  lemma UniqueIpdom(g: Succ, pc: nat) returns (c: nat)
    requires WellFormed(g) && pc != Exit(g) && ReachesExit(g, pc)
    ensures Immediate(g, pc, c)
    ensures forall d: nat :: Candidate(g, pc, d) && d != c ==> PostDominates(g, d, c) && !Immediate(g, pc, d)
  {
    var p :| ExitPath(g, pc, p);
    p := ShortestPath(g, pc, p);
    var t := FirstCandidate(g, pc, p);
    c := p[t];
    forall d: nat | Candidate(g, pc, d) && d != c
      ensures PostDominates(g, d, c) && !PostDominates(g, c, d) && !Immediate(g, pc, d)
    {
      FirstIsPostDominated(g, pc, p, t, d);
      FirstDoesNotPostDominate(g, pc, p, t, d);
    }
  }

  /** The strict post-dominators of a node that reaches EXIT form a chain. */
  lemma CandidatesFormChain(g: Succ, pc: nat, a: nat, b: nat)
    requires WellFormed(g) && ReachesExit(g, pc) && Candidate(g, pc, a) && Candidate(g, pc, b) && a != b
    ensures PostDominates(g, a, b) || PostDominates(g, b, a)
  {
    var p :| ExitPath(g, pc, p);
    var t := FirstOfTwo(p, a, b);
    OtherFollows(g, pc, p, t, if p[t] == a then b else a);
  }

  /** A candidate that has not come yet on a path post-dominates the node the path has come to. */
  lemma OtherFollows(g: Succ, pc: nat, p: seq<nat>, t: nat, other: nat)
    requires WellFormed(g) && ExitPath(g, pc, p) && t < |p| && Candidate(g, pc, other) && other !in p[..t + 1]
    ensures PostDominates(g, other, p[t])
  {
    forall s | ExitPath(g, p[t], s) ensures other in s {
      PathSplit(g, p, t);
      PathJoin(g, p[..t + 1], s);
      assert ExitPath(g, pc, p[..t + 1] + s[1..]);
      assert other in p[..t + 1] + s[1..];
    }
  }

  lemma FirstOfTwo(p: seq<nat>, a: nat, b: nat) returns (t: nat)
    requires a in p && a != b
    ensures t < |p| && (p[t] == a || p[t] == b) && forall s :: 0 <= s < t ==> p[s] != a && p[s] != b
  {
    t := 0;
    while p[t] != a && p[t] != b
      invariant t < |p| && forall s :: 0 <= s < t ==> p[s] != a && p[s] != b
      decreases |p| - t
    {
      t := t + 1;
    }
  }

  // ---- Nodes that cannot reach EXIT ----

  lemma StuckHasAll(g: Succ, c: nat, i: nat)
    requires WellFormed(g) && !ReachesExit(g, i)
    ensures PostDominates(g, c, i)
  {
  }

  lemma EdgeToReaching(g: Succ, i: nat, j: nat)
    requires WellFormed(g) && Edge(g, i, j) && ReachesExit(g, j)
    ensures ReachesExit(g, i)
  {
    var p :| ExitPath(g, j, p);
    PathCons(g, i, p);
    assert ExitPath(g, i, [i] + p);
  }

  lemma StuckIsAvoided(g: Succ, u: nat, d: nat)
    requires WellFormed(g) && !ReachesExit(g, u) && ReachesExit(g, d)
    ensures !PostDominates(g, u, d)
  {
    var p :| ExitPath(g, d, p);
    forall s: nat | s < |p| ensures p[s] != u {
      PathSplit(g, p, s);
      assert ExitPath(g, p[s], p[s..]);
    }
  }

  /** Two nodes besides `pc` that cannot reach EXIT either. */
  ghost predicate TwoOthersStuck(g: Succ, pc: nat)
    requires WellFormed(g)
  {
    exists a: nat, b: nat :: OtherStuck(g, pc, a) && OtherStuck(g, pc, b) && a != b
  }

  ghost predicate OtherStuck(g: Succ, pc: nat, a: nat)
    requires WellFormed(g)
  {
    a < |g| && a != pc && !ReachesExit(g, a)
  }

  /**
   * Exactly when a branch with two distinct ways on has no immediate post-dominator: EXIT
   * is out of reach from it and from at least two more nodes.
   */
  lemma MissExactly(g: Succ, pc: nat, fall: nat)
    requires WellFormed(g) && pc != Exit(g) && pc < |g|
    requires Edge(g, pc, Exit(g)) || (Edge(g, pc, fall) && fall != pc)
    ensures (forall c: nat :: !Immediate(g, pc, c)) <==> !ReachesExit(g, pc) && TwoOthersStuck(g, pc)
  {
    if ReachesExit(g, pc) {
      var c := UniqueIpdom(g, pc);
    } else if TwoOthersStuck(g, pc) {
      var a: nat, b: nat :| OtherStuck(g, pc, a) && OtherStuck(g, pc, b) && a != b;
      forall c: nat ensures !Immediate(g, pc, c) {
        var d := if c == a then b else a;
        StuckHasAll(g, d, pc);
        StuckHasAll(g, c, d);
        assert Candidate(g, pc, d);
      }
    } else {
      assert ExitPath(g, Exit(g), [Exit(g)]);
      if Edge(g, pc, Exit(g)) { EdgeToReaching(g, pc, Exit(g)); }
      if ReachesExit(g, fall) { EdgeToReaching(g, pc, fall); }
      StuckHasAll(g, fall, pc);
      assert OtherStuck(g, pc, fall);
      forall d: nat | Candidate(g, pc, d) && d != fall ensures !PostDominates(g, fall, d) {
        assert !OtherStuck(g, pc, d);
        StuckIsAvoided(g, fall, d);
      }
      assert Immediate(g, pc, fall);
    }
  }
}
