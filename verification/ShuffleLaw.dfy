/**
 * What a shuffle leaves in each lane, in terms of lane numbers and the bits of the member
 * mask. Lanes are grouped in segments of the width that the clamp operand encodes.
 */
module ShuffleLaw {
  import opened Arithmetic
  import opened Options
  import opened LaneRegisters
  import opened Words
  import opened Shuffle

  /** Bit `lane` of the mask. */
  predicate BitSet(mask: nat, lane: nat) {
    mask / Two(lane) % 2 == 1
  }

  lemma {:induction false} MemberIsBit(mask: nat, lane: nat)
    ensures Member(mask, lane) <==> BitSet(mask, lane)
  {
    if lane > 0 {
      MemberIsBit(mask / 2, lane - 1);
      DivDiv(mask, 2, Two(lane - 1));
    } else {
      assert Two(0) == 1;
    }
  }

  /** The first lane of the segment. */
  function FirstLane(lane: nat, w: nat): nat
    requires w > 0
  {
    lane / w * w
  }

  lemma SegmentStart(lane: nat, w: nat)
    requires w > 0
    ensures FirstLane(lane, w) == SegBase(lane, w) && lane == FirstLane(lane, w) + lane % w
  {
    assert lane == w * (lane / w) + lane % w;
    assert lane / w * w == w * (lane / w);
  }

  /** The lane that the operands name: `index` lanes after the segment's first, or `delta` lanes further on. */
  function Named(down: bool, lane: nat, param: nat, w: nat): nat
    requires w > 0
  {
    if !down then FirstLane(lane, w) + param
    else if lane % w + param < w then lane + param else lane
  }

  lemma SmallMod(a: nat, n: nat)
    requires a < n
    ensures a % n == a
  {
  }

  lemma NamesSource(down: bool, lane: nat, param: nat, w: nat)
    requires 0 < w <= 32 && param < 32 && (!down ==> param < w)
    ensures SourceLane(down, lane, param, w) == Named(down, lane, param, w)
  {
    SegmentStart(lane, w);
    SmallMod(param, 32);
    if !down { SmallMod(param, w); }
  }

  /** A shuffle with immediate operands; the clamp is that of the CUDA wrappers for width `w`. */
  ghost predicate Immediates(o: Operands, param: nat, w: nat, members: nat) {
    && 1 <= w <= 32 && members < 0x1_0000_0000
    && o.src.Reg? && o.dst.Reg?
    && o.param == Imm(param) && o.clamp == Imm((32 - w) * 256 + 31) && o.member == Imm(members)
  }

  /** The lane whose value `lane` takes: the named one, if both are members and it exists, else its own. */
  function Taken(width: nat, lane: nat, named: nat, members: nat): nat {
    if BitSet(members, lane) && named < width && BitSet(members, named) then named else lane
  }

  lemma TakesNamed(r: Regs, o: Operands, down: bool, param: nat, w: nat, members: nat, lane: nat)
    requires Immediates(o, param, w, members) && r.width <= 32 && lane < r.width
    requires param < 32 && (!down ==> param < w)
    ensures var from := Taken(r.width, lane, Named(down, lane, param, w), members);
      Received(r, Decoded(o, down, r.width), lane) == Some(ReadReg(r, o.src.id, o.src.wide, from))
  {
    WidthRoundTrip(w);
    NamesSource(down, lane, param, w);
    var s := Named(down, lane, param, w);
    MemberIsBit(members, lane);
    MemberIsBit(members, s);
    assert Low32(Low64(param)) == param && Low32(Low64(members)) == members;
    assert Low32(Low64((32 - w) * 256 + 31)) == (32 - w) * 256 + 31;
  }

  /**
   * After the shuffle each enabled lane holds in the destination what the lane it names held
   * in the source: for .idx the lane `index` places after the first of its segment, for .down
   * the lane `delta` places further on, or itself past the end of the segment. A lane that is
   * no member, or names one that is none or does not exist, keeps its own value. Every other
   * register, and every lane that is not enabled, is as before.
   */
  lemma ShuffleGives(r: Regs, o: Operands, down: bool, param: nat, w: nat, members: nat, mask: set<nat>, id: int,
                     wide: bool, lane: nat)
    requires Immediates(o, param, w, members) && Fits(r) && r.width <= 32 && lane < r.width
    requires param < 32 && (!down ==> param < w)
    requires down || !SameReg(o.dst, o.src.id, o.src.wide)
    ensures var s := ShflFrom(r, Decoded(o, down, r.width), mask, 0);
      && s.Some? && s.value.width == r.width
      && ReadReg(s.value, id, wide, lane) ==
         if SameReg(o.dst, id, wide) && lane in mask then
           Truncate(ReadReg(r, o.src.id, o.src.wide, Taken(r.width, lane, Named(down, lane, param, w), members)), wide)
         else ReadReg(r, id, wide, lane)
  {
    var u := Decoded(o, down, r.width);
    forall m: nat | m < r.width && m in mask ensures Received(r, u, m).Some? {
      TakesNamed(r, o, down, param, w, members, m);
    }
    ShuffleIsSimultaneous(r, u, mask);
    var s := ShflFrom(r, u, mask, 0).value;
    TakesNamed(r, o, down, param, w, members, lane);
    assert ReadReg(s, id, wide, lane) == AtOnce(r, u, mask, r.width, id, wide, lane);
  }

  /** Larger operands count modulo 32, and an index counts modulo the width of the segment. */
  lemma ParameterWraps(down: bool, lane: nat, param: nat, w: nat)
    requires 0 < w <= 32
    ensures SourceLane(down, lane, param, w) == SourceLane(down, lane, param % 32, w)
    ensures SourceLane(false, lane, param, w) == Named(false, lane, param % 32 % w, w)
  {
    SegmentStart(lane, w);
  }
}
