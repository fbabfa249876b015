/**
 * The warp reduction: one WARP_REDUCE_ADD gives every lane what the customary sequence of
 * shuffles down by w/2, ..., 2, 1, additions and a final shuffle from lane 0 gives it. The
 * addition is abstract; the statement needs it to be associative and commutative.
 */
module WarpReduce {
  import opened Arithmetic
  import opened Options
  import opened LaneRegisters
  import opened Words
  import opened Shuffle

  datatype Adder<!T> = Adder(add: (T, T) -> T, zero: T)

  predicate Associates<T(==)>(m: Adder<T>, x: T, y: T, z: T) {
    m.add(m.add(x, y), z) == m.add(x, m.add(y, z))
  }

  predicate Commutes<T(==)>(m: Adder<T>, x: T, y: T) {
    m.add(x, y) == m.add(y, x)
  }

  predicate HasZero<T(==)>(m: Adder<T>, x: T) {
    m.add(m.zero, x) == x
  }

  ghost predicate Laws<T(!new)>(m: Adder<T>) {
    && (forall x, y, z :: Associates(m, x, y, z))
    && (forall x, y :: Commutes(m, x, y))
    && (forall x :: HasZero(m, x))
  }

  function Sum<T>(m: Adder<T>, s: seq<T>): T {
    if s == [] then m.zero else m.add(Sum(m, s[..|s| - 1]), s[|s| - 1])
  }

  // ---- The sum ----

  /** The lanes of the mask below `n`, added in lane order. */
  function SumMasked<T>(m: Adder<T>, v: seq<T>, mask: set<nat>, n: nat): T
    requires n <= |v|
  {
    if n == 0 then m.zero
    else
      var s := SumMasked(m, v, mask, n - 1);
      if n - 1 in mask then m.add(s, v[n - 1]) else s
  }

  // ---- The sequence of shuffles ----

  /** Every lane reads the lane that `from` names; lanes outside the warp are not read. */
  function Gather<T>(v: seq<T>, from: nat -> nat): (r: seq<T>)
    ensures |r| == |v|
  {
    seq(|v|, l requires 0 <= l < |v| => if from(l) < |v| then v[from(l)] else v[l])
  }

  function AddLanes<T>(m: Adder<T>, a: seq<T>, b: seq<T>): (r: seq<T>)
    requires |a| == |b|
    ensures |r| == |a|
  {
    seq(|a|, i requires 0 <= i < |a| => m.add(a[i], b[i]))
  }

  /** Shuffle down by `delta` and add. */
  function Round<T>(m: Adder<T>, v: seq<T>, delta: nat, down: nat -> nat -> nat): (r: seq<T>)
    ensures |r| == |v|
  {
    AddLanes(m, v, Gather(v, down(delta)))
  }

  /** Rounds with `delta` halved down to 1. */
  function Tree<T>(m: Adder<T>, v: seq<T>, delta: nat, down: nat -> nat -> nat): (r: seq<T>)
    ensures |r| == |v|
    decreases delta
  {
    if delta == 0 then v else Tree(m, Round(m, v, delta, down), delta / 2, down)
  }

  /** Where the lanes of segments of width `w` read from. */
  function Down(w: nat): nat -> nat -> nat
    requires w > 0
  {
    (delta: nat) => (l: nat) => SourceLane(true, l, delta, w)
  }

  function First(w: nat): nat -> nat
    requires w > 0
  {
    (l: nat) => SourceLane(false, l, 0, w)
  }

  /** The customary sequence: the tree of shuffles down, then everyone reads the first lane. */
  function TreeReduce<T>(m: Adder<T>, v: seq<T>, w: nat): (r: seq<T>)
    requires w > 0
    ensures |r| == |v|
  {
    Gather(Tree(m, v, w / 2, Down(w)), First(w))
  }

  predicate PowerOfTwo(n: nat) {
    n == 1 || (n > 1 && n % 2 == 0 && PowerOfTwo(n / 2))
  }

  lemma {:induction false} SumOfTwo<T(!new)>(m: Adder<T>, a: seq<T>, b: seq<T>)
    requires Laws(m)
    ensures Sum(m, a + b) == m.add(Sum(m, a), Sum(m, b))
  {
    if b == [] {
      assert a + b == a;
      assert Commutes(m, Sum(m, a), m.zero) && HasZero(m, Sum(m, a));
    } else {
      var rest := b[..|b| - 1];
      SumOfTwo(m, a, rest);
      assert (a + b)[..|a + b| - 1] == a + rest;
      assert Associates(m, Sum(m, a), Sum(m, rest), b[|b| - 1]);
    }
  }

  lemma Interchange<T(!new)>(m: Adder<T>, a: T, b: T, c: T, d: T)
    requires Laws(m)
    ensures m.add(m.add(a, b), m.add(c, d)) == m.add(m.add(a, c), m.add(b, d))
  {
    assert Associates(m, a, b, m.add(c, d)) && Associates(m, b, c, d) && Commutes(m, b, c);
    assert Associates(m, c, b, d) && Associates(m, a, c, m.add(b, d));
  }

  lemma {:induction false} SumOfLanes<T(!new)>(m: Adder<T>, a: seq<T>, b: seq<T>)
    requires Laws(m) && |a| == |b|
    ensures Sum(m, AddLanes(m, a, b)) == m.add(Sum(m, a), Sum(m, b))
  {
    if a == [] {
      assert HasZero(m, m.zero);
    } else {
      var n := |a| - 1;
      SumOfLanes(m, a[..n], b[..n]);
      assert AddLanes(m, a, b)[..n] == AddLanes(m, a[..n], b[..n]);
      Interchange(m, Sum(m, a[..n]), Sum(m, b[..n]), a[n], b[n]);
    }
  }

  /** In the first 2d lanes of the segment at `b`, every lane of the lower half reads its partner. */
  ghost predicate Pairs(down: nat -> nat -> nat, b: nat, d: nat) {
    forall e: nat, l: nat :: 0 < e <= d && l < e ==> Partner(down, b, e, l)
  }

  predicate Partner(down: nat -> nat -> nat, b: nat, e: nat, l: nat) {
    down(e)(b + l) == b + l + e
  }

  /** One round adds the upper half of the first 2d lanes to the lower half. */
  lemma RoundFolds<T>(m: Adder<T>, v: seq<T>, b: nat, d: nat, down: nat -> nat -> nat)
    requires d > 0 && Pairs(down, b, d) && b + 2 * d <= |v|
    ensures Round(m, v, d, down)[b..b + d] == AddLanes(m, v[b..b + d], v[b + d..b + 2 * d])
  {
    var s := Gather(v, down(d));
    var low, high := s[b..b + d], v[b + d..b + 2 * d];
    forall l: nat | l < d ensures low[l] == high[l] { assert Partner(down, b, d, l); }
    assert low == high;
  }

  /** A round keeps the sum of the first lanes of a segment. */
  lemma RoundKeepsSum<T(!new)>(m: Adder<T>, v: seq<T>, b: nat, d: nat, down: nat -> nat -> nat)
    requires Laws(m) && d > 0 && Pairs(down, b, d) && b + 2 * d <= |v|
    ensures Sum(m, Round(m, v, d, down)[b..b + d]) == Sum(m, v[b..b + 2 * d])
  {
    var lower, upper := v[b..b + d], v[b + d..b + 2 * d];
    RoundFolds(m, v, b, d, down);
    SumOfLanes(m, lower, upper);
    SumOfTwo(m, lower, upper);
    assert lower + upper == v[b..b + 2 * d];
  }

  lemma SumOfOne<T(!new)>(m: Adder<T>, s: seq<T>, b: nat)
    requires Laws(m) && b < |s|
    ensures Sum(m, s[b..b + 1]) == s[b]
  {
    assert s[b..b + 1] == [s[b]] && [s[b]][..0] == [];
    assert HasZero(m, s[b]);
  }

  /** The first lane of a segment ends with the sum of its first 2d lanes. */
  lemma {:induction false} TreeSums<T(!new)>(m: Adder<T>, v: seq<T>, b: nat, d: nat, down: nat -> nat -> nat)
    requires Laws(m) && PowerOfTwo(d) && Pairs(down, b, d) && b + 2 * d <= |v|
    ensures Tree(m, v, d, down)[b] == Sum(m, v[b..b + 2 * d])
    decreases d
  {
    var u, h := Round(m, v, d, down), d / 2;
    RoundKeepsSum(m, v, b, d, down);
    assert Tree(m, v, d, down) == Tree(m, u, h, down);
    if d == 1 {
      SumOfOne(m, u, b);
    } else {
      TreeSums(m, u, b, h, down);
      assert u[b..b + 2 * h] == u[b..b + d];
    }
  }

  lemma LaneInSegment(b: nat, l: nat, w: nat)
    requires w > 0 && b % w == 0 && l < w
    ensures (b + l) % w == l && SegBase(b + l, w) == b
  {
    DivModUnique(b + l, b / w, l, w);
  }

  lemma DownPairs(b: nat, w: nat)
    requires 0 < w <= 32 && b % w == 0
    ensures Pairs(Down(w), b, w / 2)
  {
    forall e: nat, l: nat | 0 < e <= w / 2 && l < e ensures Partner(Down(w), b, e, l) {
      LaneInSegment(b, l, w);
      assert e % 32 == e;
    }
  }

  lemma FirstIsBase(b: nat, l: nat, w: nat)
    requires l < w <= 32 && b % w == 0
    ensures First(w)(b + l) == b
  {
    LaneInSegment(b, l, w);
    ReadsBase(b + l, w);
  }

  lemma ReadsBase(lane: nat, w: nat)
    requires w > 0
    ensures SourceLane(false, lane, 0, w) == SegBase(lane, w)
  {
    ZeroMod(w);
  }

  lemma ZeroMod(w: nat)
    requires w > 0
    ensures 0 % w == 0
  {
  }

  lemma {:induction false} SumOfSegment<T(!new)>(m: Adder<T>, v: seq<T>, mask: set<nat>, b: nat, w: nat, n: nat)
    requires b + w <= |v| && n <= |v|
    requires forall l: nat :: l in mask <==> b <= l < b + w
    ensures SumMasked(m, v, mask, n) == Sum(m, if n <= b then [] else if n <= b + w then v[b..n] else v[b..b + w])
  {
    if n > 0 {
      SumOfSegment(m, v, mask, b, w, n - 1);
      if b < n <= b + w { SumNext(m, v, b, n - 1); }
    }
  }

  lemma SumNext<T>(m: Adder<T>, v: seq<T>, b: nat, n: nat)
    requires b <= n < |v|
    ensures Sum(m, v[b..n + 1]) == m.add(Sum(m, v[b..n]), v[n])
  {
    var s := v[b..n + 1];
    assert s[..|s| - 1] == v[b..n];
  }

  /**
   * In a segment of w = 2, 4, ..., 32 lanes the sequence of shuffles gives every lane what
   * WARP_REDUCE_ADD gives it when the lanes of the segment execute it.
   */
  lemma TreeIsReduce<T(!new)>(m: Adder<T>, v: seq<T>, mask: set<nat>, b: nat, w: nat, l: nat)
    requires Laws(m) && w >= 2 && PowerOfTwo(w) && w <= 32 && b % w == 0 && b + w <= |v| && l < w
    requires forall x: nat :: x in mask <==> b <= x < b + w
    ensures TreeReduce(m, v, w)[b + l] == SumMasked(m, v, mask, |v|)
  {
    SegmentReads(b, l, w);
    SegmentReduces(m, v, mask, b, w, b + l, Down(w), First(w));
  }

  lemma SegmentReads(b: nat, l: nat, w: nat)
    requires l < w <= 32 && b % w == 0
    ensures Pairs(Down(w), b, w / 2) && First(w)(b + l) == b
  {
    DownPairs(b, w);
    FirstIsBase(b, l, w);
  }

  lemma SegmentReduces<T(!new)>(m: Adder<T>, v: seq<T>, mask: set<nat>, b: nat, w: nat, l: nat,
                                down: nat -> nat -> nat, first: nat -> nat)
    requires Laws(m) && w >= 2 && PowerOfTwo(w) && b + w <= |v| && l < |v|
    requires Pairs(down, b, w / 2) && first(l) == b
    requires forall x: nat :: x in mask <==> b <= x < b + w
    ensures Gather(Tree(m, v, w / 2, down), first)[l] == SumMasked(m, v, mask, |v|)
  {
    var h := HalfOf(w);
    SegmentSum(m, v, b, h, down, first, l);
    ReduceSum(m, v, mask, b, w);
  }

  lemma HalfOf(w: nat) returns (h: nat)
    requires PowerOfTwo(w) && w >= 2
    ensures h == w / 2 && w == 2 * h && PowerOfTwo(h)
  {
    h := w / 2;
  }

  lemma ReduceSum<T(!new)>(m: Adder<T>, v: seq<T>, mask: set<nat>, b: nat, w: nat)
    requires b + w <= |v| && w > 0 && forall l: nat :: l in mask <==> b <= l < b + w
    ensures SumMasked(m, v, mask, |v|) == Sum(m, v[b..b + w])
  {
    SumOfSegment(m, v, mask, b, w, |v|);
  }

  lemma SegmentSum<T(!new)>(m: Adder<T>, v: seq<T>, b: nat, h: nat, down: nat -> nat -> nat, first: nat -> nat, l: nat)
    requires Laws(m) && PowerOfTwo(h) && Pairs(down, b, h) && b + 2 * h <= |v| && l < |v| && first(l) == b
    ensures Gather(Tree(m, v, h, down), first)[l] == Sum(m, v[b..b + 2 * h])
  {
    TreeSums(m, v, b, h, down);
  }

  // ---- The shuffles are those of the machine ----

  ghost predicate AllMembers(mask: nat) {
    forall lane: nat :: lane < 32 ==> Member(mask, lane)
  }

  lemma HalfOfOdd(x: nat, half: nat)
    requires x == 2 * half + 1
    ensures x / 2 == half && x % 2 == 1
  {
  }

  /** In a mask of `lanes` ones every lane is a member. */
  lemma {:induction false} Ones(mask: nat, lanes: nat, lane: nat)
    requires lane < lanes && mask + 1 == Two(lanes)
    ensures Member(mask, lane)
  {
    var half := Two(lanes - 1) - 1;
    HalfOfOdd(mask, half);
    if lane > 0 { Ones(half, lanes - 1, lane - 1); }
  }

  /** The mask 0xffffffff of the CUDA wrappers. */
  lemma FullMask(mask: nat)
    requires mask == 0xFFFF_FFFF
    ensures AllMembers(mask)
  {
    var n := 4;
    assert Two(n) == 16;
    TwoTo(n, n);
    TwoTo(2 * n, 2 * n);
    TwoTo(4 * n, 4 * n);
    assert Two(8 * n) == 0x1_0000_0000;
    forall lane: nat | lane < 32 ensures Member(mask, lane) { Ones(mask, 8 * n, lane); }
  }

  /**
   * With immediate operands, the clamp of the CUDA wrappers and a full member mask, each lane
   * receives the source register of the lane that `Down` or `First` gives, as `Gather` reads it.
   */
  lemma MachineShuffles(r: Regs, o: Operands, down: bool, param: nat, clamp: nat, full: nat, w: nat, l: nat)
    requires 1 <= w <= 32 && param < 32 && r.width <= 32 && l < r.width
    requires clamp == (32 - w) * 256 + 31 && full < 0x1_0000_0000 && AllMembers(full)
    requires o.src.Reg? && o.param == Imm(param) && o.clamp == Imm(clamp) && o.member == Imm(full)
    ensures var s := if down then Down(w)(param)(l) else SourceLane(false, l, param, w);
      Received(r, Decoded(o, down, r.width), l) ==
      Some(ReadReg(r, o.src.id, o.src.wide, if s < r.width then s else l))
  {
    ChosenInFull(r.width, down, l, param, clamp, full, w);
  }

  lemma ChosenInFull(width: nat, down: bool, l: nat, param: nat, clamp: nat, full: nat, w: nat)
    requires 1 <= w <= 32 && param < 32 && width <= 32 && l < width
    requires clamp == (32 - w) * 256 + 31 && full < 0x1_0000_0000 && AllMembers(full)
    ensures var s := SourceLane(down, l, param, w);
      Chosen(width, down, l, param, clamp, full) == if s < width then s else l
  {
    WidthRoundTrip(w);
    assert Low32(param) == param && Low32(clamp) == clamp && Low32(full) == full;
    assert Member(full, l);
    if SourceLane(down, l, param, w) < width { assert Member(full, SourceLane(down, l, param, w)); }
  }

  // ---- The same on the register files ----

  /** The bits of a 32-bit register, as the abstract addition takes them. */
  type Word = n: nat | n < 0x1_0000_0000

  /** The values of a 32-bit register in all lanes. */
  function Lanes(r: Regs, id: int): (v: seq<Word>)
    ensures |v| == r.width
  {
    seq<Word>(r.width, l requires 0 <= l < r.width => Low32(ReadReg(r, id, false, l)))
  }

  datatype AddUop = AddUop(dst: Operand, a: Operand, b: Operand)

  /** ADD: one lane after the other, each adding its own operands. */
  function AddFrom(m: Adder<Word>, r: Regs, u: AddUop, mask: set<nat>, lane: nat): Option<Regs>
    decreases r.width - lane
  {
    if lane >= r.width || lane >= 32 then Some(r)
    else if lane !in mask then AddFrom(m, r, u, mask, lane + 1)
    else match (ReadOperand(r, u.a, lane), ReadOperand(r, u.b, lane))
      case (Some(x), Some(y)) =>
        AddFrom(m, WriteReg(r, u.dst, lane, m.add(Low32(x), Low32(y))), u, mask, lane + 1)
      case _ => None
  }

  /** What ADD from `lane` on does to a register of lane `l`. */
  function Added(m: Adder<Word>, r: Regs, u: AddUop, mask: set<nat>, lane: nat, id: int, wide: bool, l: nat): nat
    requires u.a.Reg? && u.b.Reg?
  {
    if SameReg(u.dst, id, wide) && l in mask && lane <= l then
      Truncate(m.add(Low32(ReadReg(r, u.a.id, u.a.wide, l)), Low32(ReadReg(r, u.b.id, u.b.wide, l))), wide)
    else ReadReg(r, id, wide, l)
  }

  lemma AddOneLane(m: Adder<Word>, r: Regs, r1: Regs, u: AddUop, mask: set<nat>, lane: nat, id: int, wide: bool, l: nat)
    requires u.a.Reg? && u.b.Reg? && lane < r.width && lane in mask && l < r.width
    requires r1 == WriteReg(r, u.dst, lane, m.add(Low32(ReadReg(r, u.a.id, u.a.wide, lane)),
                                                  Low32(ReadReg(r, u.b.id, u.b.wide, lane))))
    ensures Added(m, r1, u, mask, lane + 1, id, wide, l) == Added(m, r, u, mask, lane, id, wide, l)
  {
    var v := m.add(Low32(ReadReg(r, u.a.id, u.a.wide, lane)), Low32(ReadReg(r, u.b.id, u.b.wide, lane)));
    ReadAfterWrite(r, u.dst, lane, v, id, wide, l);
    ReadAfterWrite(r, u.dst, lane, v, u.a.id, u.a.wide, l);
    ReadAfterWrite(r, u.dst, lane, v, u.b.id, u.b.wide, l);
  }

  /** The lanes do not disturb each other, even if the destination is one of the operands. */
  lemma {:induction false} AddsLanes(m: Adder<Word>, r: Regs, u: AddUop, mask: set<nat>, lane: nat)
    requires u.a.Reg? && u.b.Reg? && r.width <= 32
    ensures var r' := AddFrom(m, r, u, mask, lane);
      && r'.Some? && r'.value.width == r.width
      && forall id, wide, l: nat :: l < r.width ==>
           ReadReg(r'.value, id, wide, l) == Added(m, r, u, mask, lane, id, wide, l)
    decreases r.width - lane
  {
    if lane < r.width {
      if lane in mask {
        var r1 := WriteReg(r, u.dst, lane, m.add(Low32(ReadReg(r, u.a.id, u.a.wide, lane)),
                                                 Low32(ReadReg(r, u.b.id, u.b.wide, lane))));
        AddsLanes(m, r1, u, mask, lane + 1);
        forall id, wide, l: nat | l < r.width
          ensures Added(m, r1, u, mask, lane + 1, id, wide, l) == Added(m, r, u, mask, lane, id, wide, l)
        {
          AddOneLane(m, r, r1, u, mask, lane, id, wide, l);
        }
      } else {
        AddsLanes(m, r, u, mask, lane + 1);
      }
    }
  }

  lemma WriteFits(r: Regs, o: Operand, lane: nat, v: nat)
    requires Fits(r)
    ensures Fits(WriteReg(r, o, lane, v))
  {
  }

  lemma {:induction false} ShflFits(r: Regs, u: Shfl, mask: set<nat>, lane: nat)
    requires Fits(r) && ShflFrom(r, u, mask, lane).Some?
    ensures Fits(ShflFrom(r, u, mask, lane).value)
    decreases r.width - lane
  {
    if lane < r.width && lane < 32 {
      if lane in mask {
        var v := Received(r, u, lane).value;
        WriteFits(r, u.o.dst, lane, v);
        ShflFits(WriteReg(r, u.o.dst, lane, v), u, mask, lane + 1);
      } else {
        ShflFits(r, u, mask, lane + 1);
      }
    }
  }

  lemma {:induction false} AddFits(m: Adder<Word>, r: Regs, u: AddUop, mask: set<nat>, lane: nat)
    requires Fits(r) && u.a.Reg? && u.b.Reg? && AddFrom(m, r, u, mask, lane).Some?
    ensures Fits(AddFrom(m, r, u, mask, lane).value)
    decreases r.width - lane
  {
    if lane < r.width && lane < 32 {
      if lane in mask {
        var v := m.add(Low32(ReadReg(r, u.a.id, u.a.wide, lane)), Low32(ReadReg(r, u.b.id, u.b.wide, lane)));
        WriteFits(r, u.dst, lane, v);
        AddFits(m, WriteReg(r, u.dst, lane, v), u, mask, lane + 1);
      } else {
        AddFits(m, r, u, mask, lane + 1);
      }
    }
  }

  /** A sequence of shuffles and additions over two 32-bit registers, with the immediates of the CUDA wrappers. */
  datatype Setting = Setting(acc: int, tmp: int, w: nat, clamp: nat, full: nat)

  ghost predicate Proper(c: Setting) {
    && Number(c.acc) != Number(c.tmp) && 1 <= c.w <= 32
    && c.clamp == (32 - c.w) * 256 + 31 && c.full < 0x1_0000_0000 && AllMembers(c.full)
  }

  /** shfl into `tmp` of the values of `acc`. */
  function ShflOperands(c: Setting, param: nat): Operands {
    Operands(Reg(c.tmp, false), Reg(c.acc, false), Imm(param), Imm(c.clamp), Imm(c.full))
  }

  function ShflLanes(c: Setting, r: Regs, down: bool, param: nat, mask: set<nat>): Option<Regs> {
    ShflFrom(r, Decoded(ShflOperands(c, param), down, r.width), mask, 0)
  }

  function AddLanesOf(m: Adder<Word>, c: Setting, r: Regs, mask: set<nat>): Option<Regs> {
    AddFrom(m, r, AddUop(Reg(c.acc, false), Reg(c.acc, false), Reg(c.tmp, false)), mask, 0)
  }

  /** Shuffle down and add, with `delta` halved down to 1. */
  function TreeOnRegs(m: Adder<Word>, c: Setting, r: Regs, mask: set<nat>, delta: nat): Option<Regs>
    decreases delta
  {
    if delta == 0 then Some(r)
    else match ShflLanes(c, r, true, delta, mask)
      case None => None
      case Some(s) =>
        match AddLanesOf(m, c, s, mask)
        case None => None
        case Some(t) => TreeOnRegs(m, c, t, mask, delta / 2)
  }

  /** The whole sequence; the result is in `tmp`. */
  function ReduceOnRegs(m: Adder<Word>, c: Setting, r: Regs, mask: set<nat>): Option<Regs> {
    match TreeOnRegs(m, c, r, mask, c.w / 2)
    case None => None
    case Some(s) => ShflLanes(c, s, false, 0, mask)
  }

  /** The setting of the CUDA wrappers, which pass a full member mask. */
  lemma WrapperSetting(acc: int, tmp: int, w: nat, full: nat)
    requires Number(acc) != Number(tmp) && 1 <= w <= 32 && full == 0xFFFF_FFFF
    ensures Proper(Setting(acc, tmp, w, (32 - w) * 256 + 31, full))
  {
    FullMask(full);
  }

  /** The warp runs with all its lanes. */
  ghost predicate WholeWarp(r: Regs, mask: set<nat>) {
    Fits(r) && r.width <= 32 && forall l: nat :: l < r.width ==> l in mask
  }

  /** Where each lane reads from. */
  function From(c: Setting, down: bool, param: nat): nat -> nat
    requires c.w > 0
  {
    (l: nat) => SourceLane(down, l, param, c.w)
  }

  lemma LaneReceives(c: Setting, r: Regs, down: bool, param: nat, l: nat)
    requires Proper(c) && Fits(r) && r.width <= 32 && param < 32 && l < r.width
    ensures var s := SourceLane(down, l, param, c.w);
      Received(r, Decoded(ShflOperands(c, param), down, r.width), l) ==
      Some(Lanes(r, c.acc)[if s < r.width then s else l])
  {
    MachineShuffles(r, ShflOperands(c, param), down, param, c.clamp, c.full, c.w, l);
  }

  /** What the lanes hold after a shuffle that gives each lane what it would have read at once. */
  lemma GatheredLane(c: Setting, r: Regs, s: Regs, down: bool, param: nat, mask: set<nat>, l: nat)
    requires Proper(c) && WholeWarp(r, mask) && param < 32 && l < r.width && Fits(s)
    requires SoFar(r, s, Decoded(ShflOperands(c, param), down, r.width), mask, r.width)
    ensures Lanes(s, c.tmp)[l] == Gather(Lanes(r, c.acc), From(c, down, param))[l]
    ensures Lanes(s, c.acc)[l] == Lanes(r, c.acc)[l]
  {
    var u := Decoded(ShflOperands(c, param), down, r.width);
    LaneReceives(c, r, down, param, l);
    assert ReadReg(s, c.tmp, false, l) == AtOnce(r, u, mask, r.width, c.tmp, false, l);
    assert ReadReg(s, c.acc, false, l) == AtOnce(r, u, mask, r.width, c.acc, false, l);
  }

  lemma ShflAtOnce(c: Setting, r: Regs, down: bool, param: nat, mask: set<nat>)
    requires Proper(c) && WholeWarp(r, mask) && param < 32
    ensures var s := ShflLanes(c, r, down, param, mask);
      && s.Some? && WholeWarp(s.value, mask) && s.value.width == r.width
      && SoFar(r, s.value, Decoded(ShflOperands(c, param), down, r.width), mask, r.width)
  {
    var u := Decoded(ShflOperands(c, param), down, r.width);
    forall l: nat | l < r.width && l in mask ensures Received(r, u, l).Some? { LaneReceives(c, r, down, param, l); }
    ShuffleIsSimultaneous(r, u, mask);
    ShflFits(r, u, mask, 0);
  }

  /** The shuffle of the machine gathers the values of `acc` in `tmp`, and leaves `acc` alone. */
  lemma ShflGathers(c: Setting, r: Regs, down: bool, param: nat, mask: set<nat>)
    requires Proper(c) && WholeWarp(r, mask) && param < 32
    ensures var s := ShflLanes(c, r, down, param, mask);
      && s.Some? && WholeWarp(s.value, mask) && s.value.width == r.width
      && Lanes(s.value, c.tmp) == Gather(Lanes(r, c.acc), From(c, down, param))
      && Lanes(s.value, c.acc) == Lanes(r, c.acc)
  {
    ShflAtOnce(c, r, down, param, mask);
    var s := ShflLanes(c, r, down, param, mask).value;
    forall l: nat | l < r.width
      ensures Lanes(s, c.tmp)[l] == Gather(Lanes(r, c.acc), From(c, down, param))[l]
      ensures Lanes(s, c.acc)[l] == Lanes(r, c.acc)[l]
    {
      GatheredLane(c, r, s, down, param, mask, l);
    }
  }

  lemma AddAdds(m: Adder<Word>, c: Setting, r: Regs, mask: set<nat>)
    requires Proper(c) && WholeWarp(r, mask)
    ensures var s := AddLanesOf(m, c, r, mask);
      && s.Some? && WholeWarp(s.value, mask) && s.value.width == r.width
      && Lanes(s.value, c.acc) == AddLanes(m, Lanes(r, c.acc), Lanes(r, c.tmp))
  {
    var u := AddUop(Reg(c.acc, false), Reg(c.acc, false), Reg(c.tmp, false));
    AddsLanes(m, r, u, mask, 0);
    AddFits(m, r, u, mask, 0);
    var s := AddFrom(m, r, u, mask, 0).value;
    forall l: nat | l < r.width
      ensures Lanes(s, c.acc)[l] == AddLanes(m, Lanes(r, c.acc), Lanes(r, c.tmp))[l]
    {
      assert ReadReg(s, c.acc, false, l) == Added(m, r, u, mask, 0, c.acc, false, l);
    }
  }

  /** So the machine computes the tree of the lists of values. */
  lemma {:induction false} TreeIsTree(m: Adder<Word>, c: Setting, r: Regs, mask: set<nat>, delta: nat)
    requires Proper(c) && WholeWarp(r, mask) && delta < 32
    ensures var s := TreeOnRegs(m, c, r, mask, delta);
      && s.Some? && WholeWarp(s.value, mask) && s.value.width == r.width
      && Lanes(s.value, c.acc) == Tree(m, Lanes(r, c.acc), delta, Down(c.w))
    decreases delta
  {
    if delta > 0 {
      ShflGathers(c, r, true, delta, mask);
      var s := ShflLanes(c, r, true, delta, mask).value;
      AddAdds(m, c, s, mask);
      var t := AddLanesOf(m, c, s, mask).value;
      SameGather(Lanes(r, c.acc), From(c, true, delta), Down(c.w)(delta));
      TreeIsTree(m, c, t, mask, delta / 2);
    }
  }

  lemma SameGather(v: seq<Word>, a: nat -> nat, b: nat -> nat)
    requires forall l: nat :: a(l) == b(l)
    ensures Gather(v, a) == Gather(v, b)
  {
  }

  // ---- WARP_REDUCE_ADD on the register files ----

  /** The operand values of the lanes of the mask below `n`, added in lane order. */
  function SumOperand(m: Adder<Word>, r: Regs, src: Operand, mask: set<nat>, n: nat): Option<Word> {
    if n == 0 then Some(m.zero)
    else match SumOperand(m, r, src, mask, n - 1)
      case None => None
      case Some(s) =>
        if n - 1 !in mask then Some(s)
        else match ReadOperand(r, src, n - 1)
          case None => None
          case Some(x) => Some(m.add(s, Low32(x)))
  }

  /** One value for the lanes of the mask below `n`. */
  function Broadcast(r: Regs, dst: Operand, v: nat, mask: set<nat>, n: nat): Regs {
    if n == 0 then r
    else
      var s := Broadcast(r, dst, v, mask, n - 1);
      if n - 1 in mask then WriteReg(s, dst, n - 1, v) else s
  }

  function LaneCount(r: Regs): nat {
    if r.width < 32 then r.width else 32
  }

  function ReduceAdded(m: Adder<Word>, r: Regs, dst: Operand, src: Operand, mask: set<nat>): Option<Regs> {
    match SumOperand(m, r, src, mask, LaneCount(r))
    case None => None
    case Some(s) => Some(Broadcast(r, dst, s, mask, LaneCount(r)))
  }

  /** All lanes are read before the first one is written. */
  method ReduceAdd(m: Adder<Word>, file: RegisterFile, dst: Operand, src: Operand, mask: set<nat>) returns (ok: bool)
    modifies file
    ensures match ReduceAdded(m, old(file.regs), dst, src, mask)
            case None => !ok && file.regs == old(file.regs)
            case Some(r) => ok && file.regs == r
  {
    var sum: Word := m.zero;
    var lane := 0;
    while lane < file.regs.width && lane < 32
      invariant file.regs == old(file.regs) && lane <= LaneCount(file.regs)
      invariant SumOperand(m, file.regs, src, mask, lane) == Some(sum)
    {
      if lane in mask {
        var v := ReadOperand(file.regs, src, lane);
        if v.None? {
          StaysNone(m, file.regs, src, mask, lane + 1, LaneCount(file.regs));
          return false;
        }
        sum := m.add(sum, Low32(v.value));
      }
      lane := lane + 1;
    }
    lane := 0;
    while lane < file.regs.width && lane < 32
      invariant file.regs.width == old(file.regs).width && lane <= LaneCount(file.regs)
      invariant file.regs == Broadcast(old(file.regs), dst, sum, mask, lane)
    {
      if lane in mask { file.Write(dst, lane, sum); }
      lane := lane + 1;
    }
    return true;
  }

  /** The micro-op with its own checks: one input, one output, type f32. */
  method ExecReduceAdd(m: Adder<Word>, file: RegisterFile, outputs: seq<Operand>, inputs: seq<Operand>, isF32: bool,
                       mask: set<nat>)
    returns (diag: Option<UnitDiag>)
    modifies file
    ensures diag == Some(BadArity) <==> !(|outputs| == 1 && |inputs| == 1)
    ensures diag == Some(BadType) <==> |outputs| == 1 && |inputs| == 1 && !isF32
    ensures diag.Some? ==> file.regs == old(file.regs)
    ensures |outputs| == 1 && |inputs| == 1 && isF32 ==>
              match ReduceAdded(m, old(file.regs), outputs[0], inputs[0], mask)
              case None => diag == Some(UnknownSpecial)
              case Some(r) => diag == None && file.regs == r
  {
    if |outputs| != 1 || |inputs| != 1 { return Some(BadArity); }
    if !isF32 { return Some(BadType); }
    var ok := ReduceAdd(m, file, outputs[0], inputs[0], mask);
    return if ok then None else Some(UnknownSpecial);
  }

  lemma {:induction false} StaysNone(m: Adder<Word>, r: Regs, src: Operand, mask: set<nat>, n: nat, later: nat)
    requires n <= later && SumOperand(m, r, src, mask, n).None?
    ensures SumOperand(m, r, src, mask, later).None?
    decreases later
  {
    if n < later { StaysNone(m, r, src, mask, n, later - 1); }
  }

  lemma {:induction false} SumsRegister(m: Adder<Word>, r: Regs, id: int, mask: set<nat>, n: nat)
    requires n <= r.width
    ensures SumOperand(m, r, Reg(id, false), mask, n) == Some(SumMasked(m, Lanes(r, id), mask, n))
  {
    if n > 0 { SumsRegister(m, r, id, mask, n - 1); }
  }

  lemma {:induction false} BroadcastWrites(r: Regs, dst: Operand, v: nat, mask: set<nat>, n: nat, id: int, wide: bool,
                                           l: nat)
    requires n <= r.width && l < r.width
    ensures var s := Broadcast(r, dst, v, mask, n);
      && s.width == r.width
      && ReadReg(s, id, wide, l) ==
         if SameReg(dst, id, wide) && l in mask && l < n then Truncate(v, wide) else ReadReg(r, id, wide, l)
    decreases n
  {
    if n > 0 {
      BroadcastWrites(r, dst, v, mask, n - 1, id, wide, l);
      ReadAfterWrite(Broadcast(r, dst, v, mask, n - 1), dst, n - 1, v, id, wide, l);
    }
  }

  /** The sum of a 32-bit register over the lanes of the mask. */
  function SumOfRegister(m: Adder<Word>, r: Regs, id: int, mask: set<nat>): Word {
    SumMasked<Word>(m, Lanes(r, id), mask, r.width)
  }

  /** WARP_REDUCE_ADD gives the lanes of the mask their sum in lane order, and changes nothing else. */
  lemma ReduceAddSums(m: Adder<Word>, r: Regs, dst: Operand, src: int, mask: set<nat>, id: int, wide: bool, l: nat)
    requires r.width <= 32 && l < r.width
    ensures var s := ReduceAdded(m, r, dst, Reg(src, false), mask);
      && s.Some? && s.value.width == r.width
      && ReadReg(s.value, id, wide, l) ==
         if SameReg(dst, id, wide) && l in mask then SumOfRegister(m, r, src, mask) else ReadReg(r, id, wide, l)
  {
    var sum := SumOfRegister(m, r, src, mask);
    SumsRegister(m, r, src, mask, r.width);
    BroadcastWrites(r, dst, sum, mask, r.width, id, wide, l);
    TruncateWord(sum, wide);
  }

  lemma TruncateWord(v: Word, wide: bool)
    ensures Truncate(v, wide) == v
  {
  }

  lemma LanesAt(r: Regs, id: int, l: nat)
    requires Fits(r) && l < r.width
    ensures Lanes(r, id)[l] == ReadReg(r, id, false, l)
  {
  }

  /** The last shuffle hands the sum of the segment to each of its lanes. */
  lemma SequenceSums(m: Adder<Word>, c: Setting, r: Regs, mask: set<nat>, segment: set<nat>, b: nat, l: nat)
    requires Laws(m) && Proper(c) && WholeWarp(r, mask) && PowerOfTwo(c.w) && c.w >= 2
    requires b % c.w == 0 && b + c.w <= r.width && l < c.w
    requires forall x: nat :: x in segment <==> b <= x < b + c.w
    ensures var s := ReduceOnRegs(m, c, r, mask);
      && s.Some? && s.value.width == r.width && Fits(s.value)
      && Lanes(s.value, c.tmp)[b + l] == SumOfRegister(m, r, c.acc, segment)
  {
    TreeIsTree(m, c, r, mask, c.w / 2);
    var s := TreeOnRegs(m, c, r, mask, c.w / 2).value;
    ShflGathers(c, s, false, 0, mask);
    SameGather(Lanes(s, c.acc), From(c, false, 0), First(c.w));
    TreeIsReduce(m, Lanes(r, c.acc), segment, b, c.w, l);
  }

  /**
   * On the register files: the shuffles and additions of the machine, executed by the whole
   * warp, leave in every lane of a segment of w = 2, 4, ..., 32 lanes what WARP_REDUCE_ADD,
   * executed by the lanes of that segment, leaves there.
   */
  lemma MachineReduces(m: Adder<Word>, c: Setting, r: Regs, mask: set<nat>, segment: set<nat>, b: nat, l: nat)
    requires Laws(m) && Proper(c) && WholeWarp(r, mask) && PowerOfTwo(c.w) && c.w >= 2
    requires b % c.w == 0 && b + c.w <= r.width && l < c.w
    requires forall x: nat :: x in segment <==> b <= x < b + c.w
    ensures var s, d := ReduceOnRegs(m, c, r, mask), ReduceAdded(m, r, Reg(c.tmp, false), Reg(c.acc, false), segment);
      && s.Some? && d.Some? && s.value.width == d.value.width == r.width
      && ReadReg(s.value, c.tmp, false, b + l) == ReadReg(d.value, c.tmp, false, b + l)
  {
    SequenceSums(m, c, r, mask, segment, b, l);
    LanesAt(ReduceOnRegs(m, c, r, mask).value, c.tmp, b + l);
    ReduceAddSums(m, r, Reg(c.tmp, false), c.acc, segment, c.tmp, false, b + l);
  }
}
