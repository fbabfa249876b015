/**
 * The memory at the end of a workload. When commands that are ready at the same time
 * commute, every order that runs all commands leaves the same memory as the sweep.
 */
module WorkloadMemory {
  import opened Options
  import opened Workload

  function RunTwo<M>(streams: seq<seq<Command<M>>>, pos: Position, mem: M, s: nat, t: nat): Option<M>
    requires Fits(streams, pos) && s < |streams| && t < |streams| && s != t
    requires pos[s] < |streams[s]| && pos[t] < |streams[t]|
  {
    match RunOne(streams, pos, mem, s)
    case None => None
    case Some(m) => RunOne(streams, Next(pos, s), m, t)
  }

  /** The fronts of two streams, both ready, have the same effect in either order. */
  ghost predicate Commute<M>(streams: seq<seq<Command<M>>>, pos: Position, mem: M, s: nat, t: nat)
    requires Fits(streams, pos)
  {
    s != t && IsReady(streams, pos, s) && IsReady(streams, pos, t) ==>
      RunTwo(streams, pos, mem, s, t) == RunTwo(streams, pos, mem, t, s)
  }

  ghost predicate AllCommute<M>(streams: seq<seq<Command<M>>>, pos: Position, mem: M)
    requires Fits(streams, pos)
  {
    forall s: nat, t: nat :: Commute(streams, pos, mem, s, t)
  }

  ghost predicate CommuteAfter<M>(streams: seq<seq<Command<M>>>, pos: Position, mem: M, order: seq<nat>)
    requires Fits(streams, pos)
  {
    Respects(streams, pos, order) && Effect(streams, pos, mem, order).Some? ==>
      AllCommute(streams, Reach(streams, pos, order), Effect(streams, pos, mem, order).value)
  }

  /** Events order every pair of commands that do not commute. */
  ghost predicate RaceFree<M(!new)>(streams: seq<seq<Command<M>>>, pos: Position, mem: M)
    requires Fits(streams, pos)
  {
    forall order: seq<nat> :: CommuteAfter(streams, pos, mem, order)
  }

  lemma RaceFreeNext<M(!new)>(streams: seq<seq<Command<M>>>, pos: Position, mem: M, s: nat, mem': M)
    requires Fits(streams, pos) && RaceFree(streams, pos, mem) && IsReady(streams, pos, s)
    requires RunOne(streams, pos, mem, s) == Some(mem')
    ensures RaceFree(streams, Next(pos, s), mem')
  {
    forall order: seq<nat> ensures CommuteAfter(streams, Next(pos, s), mem', order) {
      var longer: seq<nat> := [s] + order;
      assert longer[1..] == order;
      assert CommuteAfter(streams, pos, mem, longer);
    }
  }

  lemma RaceFreeNow<M(!new)>(streams: seq<seq<Command<M>>>, pos: Position, mem: M, s: nat, t: nat)
    requires Fits(streams, pos) && RaceFree(streams, pos, mem)
    ensures Commute(streams, pos, mem, s, t)
  {
    assert CommuteAfter(streams, pos, mem, []);
    assert Effect(streams, pos, mem, []) == Some(mem) && Reach(streams, pos, []) == pos;
    assert AllCommute(streams, pos, mem);
  }

  /** Two ready commands may trade places at the start of an order. */
  lemma Swap<M(!new)>(streams: seq<seq<Command<M>>>, pos: Position, mem: M, s: nat, t: nat, rest: seq<nat>)
    requires Fits(streams, pos) && RaceFree(streams, pos, mem) && s != t && IsReady(streams, pos, s)
    requires Respects(streams, pos, [t, s] + rest)
    ensures Respects(streams, pos, [s, t] + rest)
    ensures Reach(streams, pos, [s, t] + rest) == Reach(streams, pos, [t, s] + rest)
    ensures Effect(streams, pos, mem, [s, t] + rest) == Effect(streams, pos, mem, [t, s] + rest)
  {
    Two(streams, pos, mem, t, s, rest);
    assert IsReady(streams, pos, t) by { assert ([t, s] + rest)[0] == t; }
    ReadyStays(streams, pos, Next(pos, s), t);
    assert Next(Next(pos, s), t) == Next(Next(pos, t), s);
    Two(streams, pos, mem, s, t, rest);
    RaceFreeNow(streams, pos, mem, s, t);
  }

  /** The first two commands of an order. */
  lemma Two<M>(streams: seq<seq<Command<M>>>, pos: Position, mem: M, s: nat, t: nat, rest: seq<nat>)
    requires Fits(streams, pos) && s != t
    ensures Respects(streams, pos, [s, t] + rest) <==>
            IsReady(streams, pos, s) && IsReady(streams, Next(pos, s), t)
            && Respects(streams, Next(Next(pos, s), t), rest)
    ensures Respects(streams, pos, [s, t] + rest) && t < |streams| && pos[t] < |streams[t]| ==>
              && Reach(streams, pos, [s, t] + rest) == Reach(streams, Next(Next(pos, s), t), rest)
              && Effect(streams, pos, mem, [s, t] + rest) ==
                 match RunTwo(streams, pos, mem, s, t)
                 case None => None
                 case Some(m) => Effect(streams, Next(Next(pos, s), t), m, rest)
  {
  }

  /** A ready command that an order runs later may run first. */
  lemma {:induction false} RunFirst<M(!new)>(streams: seq<seq<Command<M>>>, pos: Position, mem: M, s: nat,
                                             order: seq<nat>)
    returns (rest: seq<nat>)
    requires Fits(streams, pos) && RaceFree(streams, pos, mem) && IsReady(streams, pos, s)
    requires Respects(streams, pos, order) && s in order
    ensures |rest| == |order| - 1 && Respects(streams, pos, [s] + rest)
    ensures Reach(streams, pos, [s] + rest) == Reach(streams, pos, order)
    ensures Effect(streams, pos, mem, [s] + rest) == Effect(streams, pos, mem, order)
    decreases |order|
  {
    var t := order[0];
    if t == s {
      rest := order[1..];
      assert [s] + rest == order;
    } else {
      var next := Next(pos, t);
      ReadyStays(streams, pos, next, s);
      var m := RunOne(streams, pos, mem, t);
      var tail: seq<nat>;
      if m.Some? {
        RaceFreeNext(streams, pos, mem, t, m.value);
        tail := RunFirst(streams, next, m.value, s, order[1..]);
      } else {
        tail := MoveFirst(streams, next, s, order[1..]);
      }
      assert ([t] + ([s] + tail))[1..] == [s] + tail && [t] + ([s] + tail) == [t, s] + tail;
      Swap(streams, pos, mem, s, t, tail);
      rest := [t] + tail;
      assert [s] + rest == [s, t] + tail;
    }
  }

  /** The same for the order alone. */
  lemma {:induction false} MoveFirst<M>(streams: seq<seq<Command<M>>>, pos: Position, s: nat, order: seq<nat>)
    returns (rest: seq<nat>)
    requires Fits(streams, pos) && IsReady(streams, pos, s) && Respects(streams, pos, order) && s in order
    ensures |rest| == |order| - 1 && Respects(streams, pos, [s] + rest)
    ensures Reach(streams, pos, [s] + rest) == Reach(streams, pos, order)
    decreases |order|
  {
    var t := order[0];
    if t == s {
      rest := order[1..];
      assert [s] + rest == order;
    } else {
      ReadyStays(streams, pos, Next(pos, t), s);
      var tail := MoveFirst(streams, Next(pos, t), s, order[1..]);
      ReadyStays(streams, pos, Next(pos, s), t);
      assert Next(Next(pos, s), t) == Next(Next(pos, t), s);
      rest := [t] + tail;
      assert ([s] + rest)[1..] == rest && rest[1..] == tail;
      assert ([s] + tail)[1..] == tail;
    }
  }

  lemma {:induction false} MustRun<M>(streams: seq<seq<Command<M>>>, pos: Position, order: seq<nat>, s: nat)
    requires Fits(streams, pos) && Respects(streams, pos, order) && s < |streams| && pos[s] < |streams[s]|
    requires Exhausted(streams, Reach(streams, pos, order))
    ensures s in order
    decreases |order|
  {
    if order != [] && order[0] != s { MustRun(streams, Next(pos, order[0]), order[1..], s); }
  }

  /** Every order that runs all commands of a race-free workload leaves the same memory. */
  lemma {:induction false} SameMemory<M(!new)>(streams: seq<seq<Command<M>>>, pos: Position, mem: M, p: seq<nat>,
                                               q: seq<nat>)
    requires Fits(streams, pos) && RaceFree(streams, pos, mem)
    requires Respects(streams, pos, p) && Exhausted(streams, Reach(streams, pos, p))
    requires Respects(streams, pos, q) && Exhausted(streams, Reach(streams, pos, q))
    ensures Effect(streams, pos, mem, p) == Effect(streams, pos, mem, q)
    decreases |p|
  {
    if p == [] {
      assert q == [];
    } else {
      var s := p[0];
      MustRun(streams, pos, q, s);
      var rest := RunFirst(streams, pos, mem, s, q);
      assert ([s] + rest)[1..] == rest;
      var m := RunOne(streams, pos, mem, s);
      if m.Some? {
        RaceFreeNext(streams, pos, mem, s, m.value);
        SameMemory(streams, Next(pos, s), m.value, p[1..], rest);
      }
    }
  }

  /** In particular the sweep leaves the memory of any other complete order. */
  lemma SweepIsDeterministic<M(!new)>(streams: seq<seq<Command<M>>>, mem0: M, order: seq<nat>, pos: Position, mem: M,
                                other: seq<nat>)
    requires After(streams, mem0, order, pos, mem) && Exhausted(streams, pos)
    requires RaceFree(streams, Start(|streams|), mem0) && Finishes(streams, other)
    ensures Effect(streams, Start(|streams|), mem0, other) == Some(mem)
  {
    SameMemory(streams, Start(|streams|), mem0, order, other);
  }
}
