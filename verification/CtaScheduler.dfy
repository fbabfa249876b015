/**
 * The two CTA schedulers. Every operation runs under the scheduler's mutex, so an
 * execution with any number of SM threads is a sequence of these operations in some order.
 */
module CtaScheduling {
  import opened Options

  datatype CtaWorkItem = CtaWorkItem(cx: nat, cy: nat, cz: nat, linear: nat)

  /** The answer of `acquire`; `Wait` stands for a caller that stays blocked on the condition variable. */
  datatype Reply = Item(item: CtaWorkItem) | Nothing | Wait

  // ---- The state machine ----

  /** fifo has one queue; sm_round_robin has one per SM. */
  datatype State = State(queues: seq<seq<CtaWorkItem>>, closed: bool, stop: bool)

  datatype Op = Submit(item: CtaWorkItem) | Close | RequestStop | Acquire(sm: nat)

  function Slot(s: State, n: nat): (j: nat)
    requires s.queues != []
    ensures j < |s.queues|
  {
    n % |s.queues|
  }

  function Apply(s: State, op: Op): (r: (State, Option<Reply>))
    requires s.queues != []
    ensures |r.0.queues| == |s.queues|
  {
    match op
    case Submit(item) =>
      var j := Slot(s, item.linear);
      (s.(queues := s.queues[j := s.queues[j] + [item]]), None)
    case Close => (s.(closed := true), None)
    case RequestStop => (s.(stop := true), None)
    case Acquire(sm) =>
      var j := Slot(s, sm);
      if s.stop then (s, Some(Nothing))
      else if s.queues[j] != [] then
        (s.(queues := s.queues[j := s.queues[j][1..]]), Some(Item(s.queues[j][0])))
      else if s.closed then (s, Some(Nothing))
      else (s, Some(Wait))
  }

  function Init(n: nat): State
    requires n > 0
  {
    State(seq(n, _ => []), false, false)
  }

  /** The state after a sequence of operations. */
  function After(n: nat, ops: seq<Op>): (s: State)
    requires n > 0
    ensures |s.queues| == n
  {
    if ops == [] then Init(n) else Apply(After(n, ops[..|ops| - 1]), ops[|ops| - 1]).0
  }

  function ReplyAt(n: nat, ops: seq<Op>, t: nat): Option<Reply>
    requires n > 0 && t < |ops|
  {
    Apply(After(n, ops[..t]), ops[t]).1
  }

  // ---- The classes ----

  class FifoCtaScheduler {
    var q: seq<CtaWorkItem>
    var closed: bool
    var stop: bool

    ghost function Value(): State
      reads this
    {
      State([q], closed, stop)
    }

    constructor (smCount: nat)
      ensures Value() == Init(1)
    {
      q, closed, stop := [], false, false;
    }

    method Submit(item: CtaWorkItem)
      modifies this
      ensures Value() == Apply(old(Value()), Op.Submit(item)).0
    {
      q := q + [item];
    }

    method Close()
      modifies this
      ensures Value() == Apply(old(Value()), Op.Close).0
    {
      closed := true;
    }

    method RequestStop()
      modifies this
      ensures Value() == Apply(old(Value()), Op.RequestStop).0
    {
      stop := true;
    }

    method Acquire(sm: nat) returns (r: Reply)
      modifies this
      ensures Apply(old(Value()), Op.Acquire(sm)) == (Value(), Some(r))
    {
      if !(stop || q != [] || closed) { return Wait; }
      if stop { return Nothing; }
      if q != [] {
        r := Item(q[0]);
        q := q[1..];
        assert [old(q)][0 := q] == [q];
        return;
      }
      return Nothing;
    }
  }

  class SmRoundRobinCtaScheduler {
    const smCount: nat
    var q: seq<seq<CtaWorkItem>>
    var closed: bool
    var stop: bool

    ghost predicate Valid()
      reads this
    {
      smCount > 0 && |q| == smCount
    }

    ghost function Value(): State
      reads this
    {
      State(q, closed, stop)
    }

    constructor (smCount: nat)
      ensures Valid() && this.smCount == (if smCount == 0 then 1 else smCount) && Value() == Init(this.smCount)
    {
      var n := if smCount == 0 then 1 else smCount;
      this.smCount := n;
      q, closed, stop := seq(n, _ => []), false, false;
    }

    method Submit(item: CtaWorkItem)
      requires Valid()
      modifies this
      ensures Valid() && Value() == Apply(old(Value()), Op.Submit(item)).0
    {
      var sm := item.linear % smCount;
      q := q[sm := q[sm] + [item]];
    }

    method Close()
      requires Valid()
      modifies this
      ensures Valid() && Value() == Apply(old(Value()), Op.Close).0
    {
      closed := true;
    }

    method RequestStop()
      requires Valid()
      modifies this
      ensures Valid() && Value() == Apply(old(Value()), Op.RequestStop).0
    {
      stop := true;
    }

    method Acquire(smId: nat) returns (r: Reply)
      requires Valid()
      modifies this
      ensures Valid() && Apply(old(Value()), Op.Acquire(smId)) == (Value(), Some(r))
    {
      var sm := smId % smCount;
      if !(stop || q[sm] != [] || closed) { return Wait; }
      if stop { return Nothing; }
      if q[sm] != [] {
        r := Item(q[sm][0]);
        q := q[sm := q[sm][1..]];
        return;
      }
      return Nothing;
    }
  }

  // ---- Every interleaving ----

  /** What was submitted to queue `j`, in order. */
  function Submitted(n: nat, ops: seq<Op>, j: nat): seq<CtaWorkItem>
    requires n > 0
  {
    if ops == [] then []
    else
      var op := ops[|ops| - 1];
      Submitted(n, ops[..|ops| - 1], j) + if op.Submit? && op.item.linear % n == j then [op.item] else []
  }

  /** What was handed out from queue `j`, in order. */
  function Delivered(n: nat, ops: seq<Op>, j: nat): seq<CtaWorkItem>
    requires n > 0
  {
    if ops == [] then []
    else
      var t := |ops| - 1;
      var reply := ReplyAt(n, ops, t);
      Delivered(n, ops[..t], j) +
      if ops[t].Acquire? && ops[t].sm % n == j && reply.value.Item? then [reply.value.item] else []
  }

  /**
   * Under every interleaving, with or without a stop, each queue hands its items out in
   * submission order and loses none: what was delivered plus what is waiting is what was
   * submitted. With one queue this is first-in first-out over all CTAs.
   */
  lemma {:induction false} Conservation(n: nat, ops: seq<Op>, j: nat)
    requires n > 0 && j < n
    ensures Delivered(n, ops, j) + After(n, ops).queues[j] == Submitted(n, ops, j)
  {
    if ops != [] {
      var t := |ops| - 1;
      Conservation(n, ops[..t], j);
      assert ops[..t] == ops[..|ops| - 1];
      var s := After(n, ops[..t]);
      match ops[t]
      case Acquire(sm) =>
        if sm % n == j && ReplyAt(n, ops, t).value.Item? {
          assert s.queues[j] == [s.queues[j][0]] + s.queues[j][1..];
        }
      case _ =>
    }
  }

  ghost predicate DistinctLinear(items: seq<CtaWorkItem>) {
    forall a, b :: 0 <= a < b < |items| ==> items[a].linear != items[b].linear
  }

  /** The CTAs of queue `j` are those with index `j` modulo the number of queues. */
  lemma {:induction false} DeliveredToOwnSm(n: nat, ops: seq<Op>, j: nat)
    requires n > 0 && j < n
    ensures forall item :: item in Delivered(n, ops, j) ==> item.linear % n == j
  {
    Conservation(n, ops, j);
    SubmittedHere(n, ops, j);
    forall item | item in Delivered(n, ops, j) ensures item.linear % n == j {
      assert item in Submitted(n, ops, j);
    }
  }

  lemma {:induction false} SubmittedHere(n: nat, ops: seq<Op>, j: nat)
    requires n > 0
    ensures forall item :: item in Submitted(n, ops, j) ==> item.linear % n == j
  {
    if ops != [] { SubmittedHere(n, ops[..|ops| - 1], j); }
  }

  /**
   * When no CTA is submitted twice, none is delivered twice, neither by one queue nor by
   * two.
   */
  lemma NoneDeliveredTwice(n: nat, ops: seq<Op>, j: nat)
    requires n > 0 && j < n && DistinctLinear(Submitted(n, ops, j))
    ensures DistinctLinear(Delivered(n, ops, j))
    ensures forall i: nat, a, b :: i < n && i != j && a in Delivered(n, ops, j) && b in Delivered(n, ops, i) ==>
              a.linear != b.linear
  {
    Conservation(n, ops, j);
    var all := Submitted(n, ops, j);
    forall a, b | 0 <= a < b < |Delivered(n, ops, j)|
      ensures Delivered(n, ops, j)[a].linear != Delivered(n, ops, j)[b].linear
    {
      assert Delivered(n, ops, j)[a] == all[a] && Delivered(n, ops, j)[b] == all[b];
    }
    DeliveredToOwnSm(n, ops, j);
    forall i: nat, a, b | i < n && i != j && a in Delivered(n, ops, j) && b in Delivered(n, ops, i)
      ensures a.linear != b.linear
    {
      DeliveredToOwnSm(n, ops, i);
    }
  }

  lemma {:induction false} StopStays(n: nat, ops: seq<Op>, t: nat)
    requires n > 0 && t < |ops| && ops[t].RequestStop?
    ensures After(n, ops).stop
    decreases |ops|
  {
    var rest := ops[..|ops| - 1];
    if t < |rest| { StopStays(n, rest, t); }
  }

  /** After a stop nobody gets work any more, whatever waits in the queues. */
  lemma StopEndsDelivery(n: nat, ops: seq<Op>, t: nat, u: nat)
    requires n > 0 && t < u < |ops| && ops[t].RequestStop? && ops[u].Acquire?
    ensures ReplyAt(n, ops, u) == Some(Nothing)
  {
    StopStays(n, ops[..u], t);
  }

  ghost predicate IsOpen(ops: seq<Op>) {
    forall t :: 0 <= t < |ops| ==> !ops[t].Close? && !ops[t].RequestStop?
  }

  lemma {:induction false} OpenStays(n: nat, ops: seq<Op>)
    requires n > 0 && IsOpen(ops)
    ensures !After(n, ops).closed && !After(n, ops).stop
  {
    if ops != [] {
      var rest := ops[..|ops| - 1];
      assert forall t :: 0 <= t < |rest| ==> rest[t] == ops[t];
      OpenStays(n, rest);
    }
  }

  /**
   * Before close and stop a caller gets the next item of its queue, and waits exactly if all
   * items submitted to it have been delivered.
   */
  lemma OpenDelivers(n: nat, ops: seq<Op>, u: nat)
    requires n > 0 && u < |ops| && ops[u].Acquire? && IsOpen(ops[..u])
    ensures var j, sofar := ops[u].sm % n, ops[..u];
      var given, all := Delivered(n, sofar, j), Submitted(n, sofar, j);
      && |given| <= |all|
      && ReplyAt(n, ops, u) == Some(if |given| == |all| then Wait else Item(all[|given|]))
  {
    OpenStays(n, ops[..u]);
    Conservation(n, ops[..u], ops[u].sm % n);
  }

  ghost predicate NoStop(ops: seq<Op>) {
    forall t :: 0 <= t < |ops| ==> !ops[t].RequestStop?
  }

  lemma {:induction false} NotStopped(n: nat, ops: seq<Op>)
    requires n > 0 && NoStop(ops)
    ensures !After(n, ops).stop
  {
    if ops != [] {
      var rest := ops[..|ops| - 1];
      assert forall t :: 0 <= t < |rest| ==> rest[t] == ops[t];
      NotStopped(n, rest);
    }
  }

  /** From step `t` on nothing is submitted to queue `j`. */
  ghost predicate QuietFrom(n: nat, ops: seq<Op>, j: nat, t: nat)
    requires n > 0
  {
    forall u :: t <= u < |ops| && ops[u].Submit? ==> ops[u].item.linear % n != j
  }

  lemma {:induction false} EmptyStays(n: nat, ops: seq<Op>, j: nat, t: nat)
    requires n > 0 && j < n && t <= |ops| && QuietFrom(n, ops, j, t)
    requires After(n, ops[..t]).queues[j] == []
    ensures After(n, ops).queues[j] == []
    decreases |ops|
  {
    if t < |ops| {
      var rest := ops[..|ops| - 1];
      assert rest[..t] == ops[..t];
      assert forall u :: 0 <= u < |rest| ==> rest[u] == ops[u];
      EmptyStays(n, rest, j, t);
    } else {
      assert ops[..t] == ops;
    }
  }

  /**
   * Without a stop, an SM that is told there is nothing left has emptied its queue; if
   * nothing is submitted to it afterwards, every CTA of that queue has been delivered.
   */
  lemma NothingMeansAllDelivered(n: nat, ops: seq<Op>, j: nat, t: nat)
    requires n > 0 && j < n && NoStop(ops) && t < |ops|
    requires ops[t].Acquire? && ops[t].sm % n == j && ReplyAt(n, ops, t) == Some(Nothing)
    requires QuietFrom(n, ops, j, t)
    ensures After(n, ops[..t]).closed
    ensures Delivered(n, ops, j) == Submitted(n, ops, j)
  {
    assert NoStop(ops[..t]);
    NotStopped(n, ops[..t]);
    EmptyStays(n, ops, j, t);
    Conservation(n, ops, j);
  }
}
