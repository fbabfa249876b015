/**
 * The stream and event schedule of a workload. Commands of a stream run in order; a wait is
 * ready once its event has been recorded. The sweep over the streams is one of many orders
 * that respect these rules; it runs everything that any of them can run.
 */
module Workload {
  import opened Options

  /**
   * Copies and kernels are functions on the memory of host and device; a kernel that ends
   * with a diagnostic or without completing gives None.
   */
  datatype Command<!M> = Work(run: M -> Option<M>) | EventRecord(event: nat) | EventWait(event: nat) | Sync

  // ---- Orders that respect the streams and the events ----

  /** How many commands of each stream have run. */
  type Position = seq<nat>

  predicate Fits<M>(streams: seq<seq<Command<M>>>, pos: Position) {
    |pos| == |streams| && forall s :: 0 <= s < |pos| ==> pos[s] <= |streams[s]|
  }

  predicate RecordedBy<M>(stream: seq<Command<M>>, n: nat, e: nat)
    requires n <= |stream|
  {
    exists i :: 0 <= i < n && stream[i] == EventRecord(e)
  }

  predicate Recorded<M>(streams: seq<seq<Command<M>>>, pos: Position, e: nat)
    requires Fits(streams, pos)
  {
    exists s :: 0 <= s < |streams| && RecordedBy(streams[s], pos[s], e)
  }

  predicate IsReady<M>(streams: seq<seq<Command<M>>>, pos: Position, s: nat)
    requires Fits(streams, pos)
  {
    && s < |streams| && pos[s] < |streams[s]|
    && (streams[s][pos[s]].EventWait? ==> Recorded(streams, pos, streams[s][pos[s]].event))
  }

  function Next(pos: Position, s: nat): Position
    requires s < |pos|
  {
    pos[s := pos[s] + 1]
  }

  /** `order` names the stream of each command in turn. */
  predicate Respects<M>(streams: seq<seq<Command<M>>>, pos: Position, order: seq<nat>)
    requires Fits(streams, pos)
    decreases |order|
  {
    order == [] || (IsReady(streams, pos, order[0]) && Respects(streams, Next(pos, order[0]), order[1..]))
  }

  function Reach<M>(streams: seq<seq<Command<M>>>, pos: Position, order: seq<nat>): (r: Position)
    requires Fits(streams, pos) && Respects(streams, pos, order)
    ensures Fits(streams, r)
    decreases |order|
  {
    if order == [] then pos else Reach(streams, Next(pos, order[0]), order[1..])
  }

  function RunOne<M>(streams: seq<seq<Command<M>>>, pos: Position, mem: M, s: nat): Option<M>
    requires Fits(streams, pos) && s < |streams| && pos[s] < |streams[s]|
  {
    var c := streams[s][pos[s]];
    if c.Work? then c.run(mem) else Some(mem)
  }

  /** The memory after running the commands in this order; None if one of them fails. */
  function Effect<M>(streams: seq<seq<Command<M>>>, pos: Position, mem: M, order: seq<nat>): Option<M>
    requires Fits(streams, pos) && Respects(streams, pos, order)
    decreases |order|
  {
    if order == [] then Some(mem)
    else match RunOne(streams, pos, mem, order[0])
      case None => None
      case Some(m) => Effect(streams, Next(pos, order[0]), m, order[1..])
  }

  predicate Exhausted<M>(streams: seq<seq<Command<M>>>, pos: Position)
    requires Fits(streams, pos)
  {
    forall s :: 0 <= s < |streams| ==> pos[s] == |streams[s]|
  }

  predicate NothingReady<M>(streams: seq<seq<Command<M>>>, pos: Position)
    requires Fits(streams, pos)
  {
    forall s :: 0 <= s < |streams| ==> !IsReady(streams, pos, s)
  }

  predicate Below(a: Position, b: Position) {
    |a| == |b| && forall s :: 0 <= s < |a| ==> a[s] <= b[s]
  }

  // ---- Confluence ----

  /** A command that is ready stays ready while other streams go on. */
  lemma ReadyStays<M>(streams: seq<seq<Command<M>>>, a: Position, b: Position, s: nat)
    requires Fits(streams, a) && Fits(streams, b) && Below(a, b) && IsReady(streams, a, s) && a[s] == b[s]
    ensures IsReady(streams, b, s)
  {
  }

  /** Where nothing is ready any more, no order gets further. */
  lemma {:induction false} StuckIsMaximal<M>(streams: seq<seq<Command<M>>>, pos: Position, order: seq<nat>,
                                             stuck: Position)
    requires Fits(streams, pos) && Fits(streams, stuck) && Respects(streams, pos, order)
    requires Below(pos, stuck) && NothingReady(streams, stuck)
    ensures Below(Reach(streams, pos, order), stuck)
    decreases |order|
  {
    if order != [] {
      var s := order[0];
      if pos[s] == stuck[s] { ReadyStays(streams, pos, stuck, s); }
      StuckIsMaximal(streams, Next(pos, s), order[1..], stuck);
    }
  }

  lemma {:induction false} ReachGrows<M>(streams: seq<seq<Command<M>>>, pos: Position, order: seq<nat>)
    requires Fits(streams, pos) && Respects(streams, pos, order)
    ensures Below(pos, Reach(streams, pos, order))
    decreases |order|
  {
    if order != [] { ReachGrows(streams, Next(pos, order[0]), order[1..]); }
  }

  /** All orders that run until nothing is ready have run the same commands. */
  lemma Confluence<M>(streams: seq<seq<Command<M>>>, pos: Position, p: seq<nat>, q: seq<nat>)
    requires Fits(streams, pos) && Respects(streams, pos, p) && Respects(streams, pos, q)
    requires NothingReady(streams, Reach(streams, pos, p)) && NothingReady(streams, Reach(streams, pos, q))
    ensures Reach(streams, pos, p) == Reach(streams, pos, q)
  {
    ReachGrows(streams, pos, p);
    ReachGrows(streams, pos, q);
    StuckIsMaximal(streams, pos, p, Reach(streams, pos, q));
    StuckIsMaximal(streams, pos, q, Reach(streams, pos, p));
  }

  // ---- Appending a command ----

  lemma {:induction false} Append<M>(streams: seq<seq<Command<M>>>, pos: Position, mem: M, order: seq<nat>, s: nat)
    requires Fits(streams, pos) && Respects(streams, pos, order)
    requires IsReady(streams, Reach(streams, pos, order), s)
    ensures Respects(streams, pos, order + [s])
    ensures Reach(streams, pos, order + [s]) == Next(Reach(streams, pos, order), s)
    ensures Effect(streams, pos, mem, order + [s]) ==
            match Effect(streams, pos, mem, order)
            case None => None
            case Some(m) => RunOne(streams, Reach(streams, pos, order), m, s)
    decreases |order|
  {
    var longer := order + [s];
    if order == [] {
      assert longer[1..] == [];
    } else {
      assert longer[1..] == order[1..] + [s];
      var m := RunOne(streams, pos, mem, order[0]);
      Append(streams, Next(pos, order[0]), if m.Some? then m.value else mem, order[1..], s);
    }
  }

  // ---- Streams are in order and waits come after records ----

  /** The command that runs at place `i` of the order. */
  function CommandAt<M>(streams: seq<seq<Command<M>>>, pos: Position, order: seq<nat>, i: nat): Command<M>
    requires Fits(streams, pos) && Respects(streams, pos, order) && i < |order|
    decreases |order|
  {
    if i == 0 then streams[order[0]][pos[order[0]]]
    else CommandAt(streams, Next(pos, order[0]), order[1..], i - 1)
  }

  /** How often the stream has had its turn. */
  function Turns(order: seq<nat>, s: nat): nat {
    if order == [] then 0 else Turns(order[1..], s) + if order[0] == s then 1 else 0
  }

  /** A stream runs its commands one after the other, from where it stood. */
  lemma {:induction false} StreamsInOrder<M>(streams: seq<seq<Command<M>>>, pos: Position, order: seq<nat>, i: nat)
    requires Fits(streams, pos) && Respects(streams, pos, order) && i < |order|
    ensures order[i] < |streams| && pos[order[i]] + Turns(order[..i], order[i]) < |streams[order[i]]|
    ensures CommandAt(streams, pos, order, i) == streams[order[i]][pos[order[i]] + Turns(order[..i], order[i])]
    decreases |order|
  {
    if i > 0 {
      StreamsInOrder(streams, Next(pos, order[0]), order[1..], i - 1);
      assert order[..i][1..] == order[1..][..i - 1] && order[..i][0] == order[0];
    } else {
      assert order[..0] == [];
    }
  }

  lemma RecordedLater<M>(streams: seq<seq<Command<M>>>, pos: Position, s: nat, e: nat)
    requires Fits(streams, pos) && s < |streams| && pos[s] < |streams[s]| && Recorded(streams, Next(pos, s), e)
    ensures Recorded(streams, pos, e) || streams[s][pos[s]] == EventRecord(e)
  {
    var x :| 0 <= x < |streams| && RecordedBy(streams[x], Next(pos, s)[x], e);
    var i :| 0 <= i < Next(pos, s)[x] && streams[x][i] == EventRecord(e);
    if !(x == s && i == pos[s]) { assert RecordedBy(streams[x], pos[x], e); }
  }

  /** A wait runs only after a command that recorded its event, here or before. */
  lemma {:induction false} WaitsAfterRecord<M>(streams: seq<seq<Command<M>>>, pos: Position, order: seq<nat>, i: nat,
                                               e: nat)
    requires Fits(streams, pos) && Respects(streams, pos, order) && i < |order|
    requires CommandAt(streams, pos, order, i) == EventWait(e)
    ensures Recorded(streams, pos, e) || exists j :: 0 <= j < i && CommandAt(streams, pos, order, j) == EventRecord(e)
    decreases |order|
  {
    if i > 0 {
      var next := Next(pos, order[0]);
      WaitsAfterRecord(streams, next, order[1..], i - 1, e);
      if Recorded(streams, next, e) {
        RecordedLater(streams, pos, order[0], e);
        if !Recorded(streams, pos, e) { assert CommandAt(streams, pos, order, 0) == EventRecord(e); }
      } else {
        var j :| 0 <= j < i - 1 && CommandAt(streams, next, order[1..], j) == EventRecord(e);
        assert CommandAt(streams, pos, order, j + 1) == EventRecord(e);
      }
    }
  }

  /** In an order from the start every wait comes after a command that records its event. */
  lemma WaitsForItsEvent<M>(streams: seq<seq<Command<M>>>, order: seq<nat>, i: nat, e: nat)
    requires Fits(streams, Start(|streams|)) && Respects(streams, Start(|streams|), order) && i < |order|
    requires CommandAt(streams, Start(|streams|), order, i) == EventWait(e)
    ensures exists j :: 0 <= j < i && CommandAt(streams, Start(|streams|), order, j) == EventRecord(e)
  {
    WaitsAfterRecord(streams, Start(|streams|), order, i, e);
  }

  // ---- What the commands do to the memory ----

  /** The copies and kernels among the commands that an order runs, as functions, in turn. */
  function WorkOf<M>(streams: seq<seq<Command<M>>>, pos: Position, order: seq<nat>): seq<M -> Option<M>>
    requires Fits(streams, pos) && Respects(streams, pos, order)
    decreases |order|
  {
    if order == [] then []
    else
      (match streams[order[0]][pos[order[0]]]
       case Work(run) => [run]
       case _ => [])
      + WorkOf(streams, Next(pos, order[0]), order[1..])
  }

  /** `states` is what the memory goes through, from `first` to `last`, when all of them succeed. */
  ghost predicate Chain<M>(work: seq<M -> Option<M>>, states: seq<M>, first: M, last: M) {
    && |states| == |work| + 1 && states[0] == first && states[|work|] == last
    && forall i :: 0 <= i < |work| ==> work[i](states[i]) == Some(states[i + 1])
  }

  /**
   * The memory after an order is what its copies and kernels make of it, each one given what
   * the one before it has left; events and syncs leave it alone.
   */
  lemma {:induction false} EffectIsChain<M>(streams: seq<seq<Command<M>>>, pos: Position, mem: M, order: seq<nat>)
    returns (states: seq<M>)
    requires Fits(streams, pos) && Respects(streams, pos, order) && Effect(streams, pos, mem, order).Some?
    ensures Chain(WorkOf(streams, pos, order), states, mem, Effect(streams, pos, mem, order).value)
    decreases |order|
  {
    if order == [] {
      states := [mem];
    } else {
      var s := order[0];
      var m := RunOne(streams, pos, mem, s).value;
      states := EffectIsChain(streams, Next(pos, s), m, order[1..]);
      if streams[s][pos[s]].Work? { states := [mem] + states; }
    }
  }

  /** If every copy and kernel succeeds on what the ones before it leave, so does the order. */
  lemma {:induction false} ChainIsEffect<M>(streams: seq<seq<Command<M>>>, pos: Position, mem: M, order: seq<nat>,
                                            states: seq<M>, last: M)
    requires Fits(streams, pos) && Respects(streams, pos, order)
    requires Chain(WorkOf(streams, pos, order), states, mem, last)
    ensures Effect(streams, pos, mem, order) == Some(last)
    decreases |order|
  {
    if order != [] {
      var s := order[0];
      var work, rest := WorkOf(streams, pos, order), WorkOf(streams, Next(pos, s), order[1..]);
      if streams[s][pos[s]].Work? {
        assert work[0] == streams[s][pos[s]].run && work[1..] == rest;
        assert forall i :: 0 <= i < |rest| ==> rest[i] == work[i + 1];
        ChainIsEffect(streams, Next(pos, s), states[1], order[1..], states[1..], last);
      } else {
        ChainIsEffect(streams, Next(pos, s), mem, order[1..], states, last);
      }
    }
  }

  // ---- The sweep ----

  function Start(n: nat): (r: Position)
    ensures |r| == n
  {
    seq(n, _ => 0)
  }

  function Left<M>(streams: seq<seq<Command<M>>>, pos: Position): nat
    requires Fits(streams, pos)
  {
    LeftIn(streams, pos, |streams|)
  }

  function LeftIn<M>(streams: seq<seq<Command<M>>>, pos: Position, n: nat): nat
    requires Fits(streams, pos) && n <= |streams|
  {
    if n == 0 then 0 else LeftIn(streams, pos, n - 1) + |streams[n - 1]| - pos[n - 1]
  }

  lemma {:induction false} NextLeavesLess<M>(streams: seq<seq<Command<M>>>, pos: Position, s: nat, n: nat)
    requires Fits(streams, pos) && s < |streams| && pos[s] < |streams[s]| && n <= |streams|
    ensures LeftIn(streams, Next(pos, s), n) == LeftIn(streams, pos, n) - if s < n then 1 else 0
  {
    if n > 0 { NextLeavesLess(streams, pos, s, n - 1); }
  }

  datatype Verdict = Completed | Deadlock | Failed

  /** The state of the sweep after `order`. */
  ghost predicate After<M>(streams: seq<seq<Command<M>>>, mem0: M, order: seq<nat>, pos: Position, mem: M)
  {
    && Fits(streams, Start(|streams|)) && Respects(streams, Start(|streams|), order)
    && Reach(streams, Start(|streams|), order) == pos
    && Effect(streams, Start(|streams|), mem0, order) == Some(mem)
  }

  ghost predicate Holds<M>(streams: seq<seq<Command<M>>>, pos: Position, queues: seq<seq<Command<M>>>,
                           signaled: map<nat, bool>)
  {
    && Fits(streams, pos) && |queues| == |streams|
    && (forall s :: 0 <= s < |streams| ==> queues[s] == streams[s][pos[s]..])
    && (forall e :: e in signaled && signaled[e] <==> Recorded(streams, pos, e))
  }

  lemma SignalOne<M>(streams: seq<seq<Command<M>>>, pos: Position, queues: seq<seq<Command<M>>>,
                     signaled: map<nat, bool>, s: nat)
    requires Holds(streams, pos, queues, signaled) && s < |streams| && queues[s] != []
    ensures var c := queues[s][0];
      Holds(streams, Next(pos, s), queues[s := queues[s][1..]],
            if c.EventRecord? then signaled[c.event := true] else signaled)
  {
  }

  /** Some order runs every command of every stream. */
  ghost predicate CanFinish<M>(streams: seq<seq<Command<M>>>) {
    && Fits(streams, Start(|streams|))
    && exists order :: Finishes(streams, order)
  }

  ghost predicate Finishes<M>(streams: seq<seq<Command<M>>>, order: seq<nat>)
    requires Fits(streams, Start(|streams|))
  {
    Respects(streams, Start(|streams|), order) && Exhausted(streams, Reach(streams, Start(|streams|), order))
  }

  /** `pos` is as far as any order gets. */
  ghost predicate Furthest<M>(streams: seq<seq<Command<M>>>, pos: Position)
    requires Fits(streams, Start(|streams|))
  {
    forall order :: Respects(streams, Start(|streams|), order) ==>
                      Below(Reach(streams, Start(|streams|), order), pos)
  }

  lemma StuckIsFurthest<M>(streams: seq<seq<Command<M>>>, mem0: M, order: seq<nat>, pos: Position, mem: M)
    requires After(streams, mem0, order, pos, mem) && NothingReady(streams, pos)
    ensures Furthest(streams, pos)
    ensures CanFinish(streams) <==> Exhausted(streams, pos)
  {
    var start := Start(|streams|);
    forall p | Respects(streams, start, p) ensures Below(Reach(streams, start, p), pos) {
      ReachGrows(streams, start, order);
      StuckIsMaximal(streams, start, p, pos);
    }
    if Exhausted(streams, pos) { assert Finishes(streams, order); }
    if CanFinish(streams) {
      var p :| Finishes(streams, p);
      assert Below(Reach(streams, start, p), pos);
    }
  }

  /** The command that ends the run fails. */
  ghost predicate FailsNext<M>(streams: seq<seq<Command<M>>>, pos: Position, mem: M, s: nat)
    requires Fits(streams, pos)
  {
    IsReady(streams, pos, s) && RunOne(streams, pos, mem, s).None?
  }

  lemma VisitStep<M>(streams: seq<seq<Command<M>>>, mem0: M, order: seq<nat>, pos: Position, mem: M, s: nat, mem': M)
    requires After(streams, mem0, order, pos, mem) && IsReady(streams, pos, s)
    requires RunOne(streams, pos, mem, s) == Some(mem')
    ensures After(streams, mem0, order + [s], Next(pos, s), mem')
    ensures Left(streams, Next(pos, s)) < Left(streams, pos)
  {
    Append(streams, Start(|streams|), mem0, order, s);
    NextLeavesLess(streams, pos, s, |streams|);
  }

  /** What one pass over the first `s` streams has seen since `from`. */
  ghost predicate Seen<M>(streams: seq<seq<Command<M>>>, from: Position, pos: Position, s: nat, anyRemaining: bool,
                          progressed: bool)
    requires Fits(streams, from) && Fits(streams, pos)
  {
    && s <= |streams|
    && (anyRemaining || forall t :: 0 <= t < s ==> pos[t] == |streams[t]|)
    && (if progressed then Left(streams, pos) < Left(streams, from)
        else pos == from && forall t :: 0 <= t < s ==> !IsReady(streams, pos, t))
    && (progressed ==> anyRemaining)
    && (anyRemaining ==> !Exhausted(streams, from))
  }

  datatype Visit = Empty | Blocked | Ran | Broke

  /** The stream's turn: run the command at the front of its queue if it is ready. */
  method VisitStream<M>(s: nat, queues: seq<seq<Command<M>>>, signaled: map<nat, bool>, mem: M,
                        ghost streams: seq<seq<Command<M>>>, ghost pos: Position)
    returns (visit: Visit, queues': seq<seq<Command<M>>>, signaled': map<nat, bool>, mem': M)
    requires Holds(streams, pos, queues, signaled) && s < |queues|
    ensures visit.Empty? <==> pos[s] == |streams[s]|
    ensures visit.Blocked? ==> !IsReady(streams, pos, s)
    ensures visit.Broke? ==> FailsNext(streams, pos, mem, s)
    ensures visit.Ran? ==> IsReady(streams, pos, s) && RunOne(streams, pos, mem, s) == Some(mem')
    ensures Holds(streams, if visit.Ran? then Next(pos, s) else pos, queues', signaled')
    ensures !visit.Ran? ==> mem' == mem
  {
    queues', signaled', mem' := queues, signaled, mem;
    if queues[s] == [] { return Empty, queues', signaled', mem'; }
    var cmd := queues[s][0];
    assert cmd == streams[s][pos[s]];
    if cmd.EventWait? && !(cmd.event in signaled && signaled[cmd.event]) {
      return Blocked, queues', signaled', mem';
    }
    if cmd.Work? {
      var r := cmd.run(mem);
      if r.None? { return Broke, queues', signaled', mem'; }
      mem' := r.value;
    }
    SignalOne(streams, pos, queues, signaled, s);
    if cmd.EventRecord? { signaled' := signaled[cmd.event := true]; }
    queues' := queues[s := queues[s][1..]];
    visit := Ran;
  }

  lemma SeenNext<M>(streams: seq<seq<Command<M>>>, from: Position, pos: Position, s: nat, anyRemaining: bool,
                    progressed: bool, visit: Visit)
    requires Fits(streams, from) && Fits(streams, pos) && s < |streams|
    requires Seen(streams, from, pos, s, anyRemaining, progressed)
    requires visit.Empty? <==> pos[s] == |streams[s]|
    requires visit.Blocked? ==> !IsReady(streams, pos, s)
    requires visit.Ran? ==> IsReady(streams, pos, s)
    requires !visit.Broke?
    ensures Seen(streams, from, if visit.Ran? then Next(pos, s) else pos, s + 1,
                 anyRemaining || !visit.Empty?, progressed || visit.Ran?)
  {
    if visit.Ran? { NextLeavesLess(streams, pos, s, |streams|); }
  }

  /** One pass over the streams, in name order. */
  method Pass<M>(streams: seq<seq<Command<M>>>, ghost mem0: M, queues0: seq<seq<Command<M>>>,
                 signaled0: map<nat, bool>, memBefore: M, ghost order0: seq<nat>, ghost from: Position)
    returns (broke: bool, anyRemaining: bool, progressed: bool, queues: seq<seq<Command<M>>>,
             signaled: map<nat, bool>, mem: M, ghost order: seq<nat>, ghost pos: Position)
    requires After(streams, mem0, order0, from, memBefore) && Holds(streams, from, queues0, signaled0)
    ensures After(streams, mem0, order, pos, mem) && Holds(streams, pos, queues, signaled)
    ensures broke ==> exists s :: FailsNext(streams, pos, mem, s)
    ensures !broke ==> Seen(streams, from, pos, |streams|, anyRemaining, progressed)
  {
    broke, anyRemaining, progressed := false, false, false;
    queues, signaled, mem, order, pos := queues0, signaled0, memBefore, order0, from;
    for s := 0 to |streams|
      invariant !broke && After(streams, mem0, order, pos, mem) && Holds(streams, pos, queues, signaled)
      invariant Seen(streams, from, pos, s, anyRemaining, progressed)
    {
      ghost var before := mem;
      var visit;
      visit, queues, signaled, mem := VisitStream(s, queues, signaled, mem, streams, pos);
      if visit.Broke? {
        broke := true;
        return;
      }
      SeenNext(streams, from, pos, s, anyRemaining, progressed, visit);
      if !visit.Empty? { anyRemaining := true; }
      if visit.Ran? {
        VisitStep(streams, mem0, order, pos, before, s, mem);
        progressed := true;
        order, pos := order + [s], Next(pos, s);
      }
    }
  }

  lemma PassEnds<M>(streams: seq<seq<Command<M>>>, mem0: M, order: seq<nat>, from: Position, pos: Position, mem: M,
                    anyRemaining: bool, progressed: bool)
    requires Fits(streams, from) && After(streams, mem0, order, pos, mem)
    requires Seen(streams, from, pos, |streams|, anyRemaining, progressed)
    ensures progressed ==> Left(streams, pos) < Left(streams, from)
    ensures !progressed ==>
              && Furthest(streams, pos) && (CanFinish(streams) <==> Exhausted(streams, pos))
              && (anyRemaining <==> !Exhausted(streams, pos))
    ensures !anyRemaining ==> !progressed
  {
    if !progressed { StuckIsFurthest(streams, mem0, order, pos, mem); }
  }

  /**
   * The sweep: pass after pass, every stream in turn may run the command at its front, until
   * all queues are empty or a pass makes no progress. It gets as far as any order can, so it
   * completes exactly when some order runs everything, and otherwise reports a deadlock with
   * the same commands left over as in every other order.
   */
  method RunStreams<M>(streams: seq<seq<Command<M>>>, mem0: M)
    returns (verdict: Verdict, mem: M, ghost order: seq<nat>, ghost pos: Position)
    ensures After(streams, mem0, order, pos, mem)
    ensures verdict.Failed? ==> exists s :: FailsNext(streams, pos, mem, s)
    ensures !verdict.Failed? ==> Furthest(streams, pos)
    ensures verdict.Completed? ==> Exhausted(streams, pos)
    ensures verdict.Deadlock? ==> !Exhausted(streams, pos)
    ensures !verdict.Failed? ==> (verdict.Completed? <==> CanFinish(streams))
  {
    mem, order, pos := mem0, [], Start(|streams|);
    var queues: seq<seq<Command<M>>>, signaled: map<nat, bool> := streams, map[];
    while true
      invariant After(streams, mem0, order, pos, mem) && Holds(streams, pos, queues, signaled)
      decreases Left(streams, pos)
    {
      ghost var from := pos;
      var broke, anyRemaining, progressed;
      broke, anyRemaining, progressed, queues, signaled, mem, order, pos :=
        Pass(streams, mem0, queues, signaled, mem, order, pos);
      if broke { return Failed, mem, order, pos; }
      PassEnds(streams, mem0, order, from, pos, mem, anyRemaining, progressed);
      if !anyRemaining { return Completed, mem, order, pos; }
      if !progressed { return Deadlock, mem, order, pos; }
    }
  }
}
