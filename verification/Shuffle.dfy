/** Warp shuffle, and why a tree of shuffles computes the warp reduction. */
module Shuffle {
  import opened Options
  import opened LaneRegisters
  import opened Words

  // ---- Where a lane reads from ----

  /** The segment width encoded in the clamp operand. */
  function WidthFromClamp(clamp: nat): (w: nat)
    ensures 1 <= w <= 32
  {
    32 - (clamp / 256) % 32
  }

  /** The encoding of the CUDA wrappers: ((32 - w) << 8) | 31. */
  lemma WidthRoundTrip(w: nat)
    requires 1 <= w <= 32
    ensures WidthFromClamp((32 - w) * 256 + 31) == w
  {
  }

  function SegBase(lane: nat, w: nat): (b: nat)
    requires w > 0
    ensures b <= lane < b + w
  {
    lane - lane % w
  }

  /** The source lane stays inside the segment of the reading lane. */
  function SourceLane(down: bool, lane: nat, param: nat, w: nat): (src: nat)
    requires w > 0
    ensures SegBase(lane, w) <= src < SegBase(lane, w) + w
    ensures down ==> lane <= src
  {
    if down then
      var delta := param % 32;
      if lane - SegBase(lane, w) + delta < w then lane + delta else lane
    else SegBase(lane, w) + (param % 32) % w
  }

  /** Bit `lane` of the member mask: shift right and look at the last bit. */
  predicate Member(mask: nat, lane: nat) {
    if lane == 0 then mask % 2 == 1 else Member(mask / 2, lane - 1)
  }

  // ---- The micro-op ----

  /** The lane that `lane` takes its value from: another one only if both are members and it exists. */
  function Chosen(width: nat, down: bool, lane: nat, param: nat, clamp: nat, member: nat): nat {
    var s := SourceLane(down, lane, Low32(param), WidthFromClamp(Low32(clamp)));
    if Member(Low32(member), lane) && s < width && s < 32 && Member(Low32(member), s) then s else lane
  }

  datatype Operands = Operands(dst: Operand, src: Operand, param: Operand, clamp: Operand, member: Operand)

  /** `pick` gives the lane to read from the reading lane and its parameter, clamp and member operands. */
  datatype Shfl = Shfl(o: Operands, pick: (nat, nat, nat, nat) -> nat)

  /** shfl.down or shfl.idx on a warp of this width. */
  function Decoded(o: Operands, down: bool, width: nat): Shfl {
    Shfl(o, (lane, param, clamp, member) => Chosen(width, down, lane, param, clamp, member))
  }

  /** The value a lane receives when all lanes read at once. */
  function Received(r: Regs, u: Shfl, lane: nat): Option<nat> {
    var self, param := ReadOperand(r, u.o.src, lane), ReadOperand(r, u.o.param, lane);
    var clamp, member := ReadOperand(r, u.o.clamp, lane), ReadOperand(r, u.o.member, lane);
    if self.None? || param.None? || clamp.None? || member.None? then None
    else ReadOperand(r, u.o.src, u.pick(lane, param.value, clamp.value, member.value))
  }

  /** The lanes from `lane` on, one after the other, each reading what the earlier ones left. */
  function ShflFrom(r: Regs, u: Shfl, mask: set<nat>, lane: nat): Option<Regs>
    decreases r.width - lane
  {
    if lane >= r.width || lane >= 32 then Some(r)
    else if lane !in mask then ShflFrom(r, u, mask, lane + 1)
    else match Received(r, u, lane)
      case None => None
      case Some(v) => ShflFrom(WriteReg(r, u.o.dst, lane, v), u, mask, lane + 1)
  }

  datatype UnitDiag = BadArity | BadMode | BadType | UnknownSpecial

  class RegisterFile {
    var regs: Regs

    constructor (width: nat)
      ensures regs == Regs(width, [], [])
    {
      regs := Regs(width, [], []);
    }

    method Write(o: Operand, lane: nat, v: nat)
      modifies this
      ensures regs == WriteReg(old(regs), o, lane, v)
    {
      if !o.Reg? { return; }
      if lane >= regs.width { return; }
      var idx := Index(Number(o.id), lane, regs.width);
      if o.wide {
        regs := regs.(u64 := Grow(regs.u64, idx + 1));
        regs := regs.(u64 := regs.u64[idx := Low64(v)]);
      } else {
        regs := regs.(u32 := Grow(regs.u32, idx + 1));
        regs := regs.(u32 := regs.u32[idx := Low32(v)]);
      }
    }

    method ShuffleLanes(o: Operands, down: bool, mask: set<nat>) returns (ok: bool)
      modifies this
      ensures ok <==> ShflFrom(old(regs), Decoded(o, down, old(regs).width), mask, 0).Some?
      ensures ok ==> Some(regs) == ShflFrom(old(regs), Decoded(o, down, old(regs).width), mask, 0)
    {
      ghost var u := Decoded(o, down, regs.width);
      var lane := 0;
      while lane < regs.width && lane < 32
        invariant regs.width == old(regs).width
        invariant ShflFrom(regs, u, mask, lane) == ShflFrom(old(regs), u, mask, 0)
        decreases regs.width - lane
      {
        if lane in mask {
          var self, param := ReadOperand(regs, o.src, lane), ReadOperand(regs, o.param, lane);
          var clamp, member := ReadOperand(regs, o.clamp, lane), ReadOperand(regs, o.member, lane);
          if self.None? || param.None? || clamp.None? || member.None? { return false; }
          var w := WidthFromClamp(Low32(clamp.value));
          var base := lane - lane % w;
          var source := lane;
          if down {
            var delta := Low32(param.value) % 32;
            if lane - base + delta < w { source := lane + delta; }
          } else {
            source := base + (Low32(param.value) % 32) % w;
          }
          var out := self.value;
          var mask32 := Low32(member.value);
          if Member(mask32, lane) && source < regs.width && source < 32 && Member(mask32, source) {
            var v := ReadOperand(regs, o.src, source);
            if v.None? { return false; }
            out := v.value;
          }
          Write(o.dst, lane, out);
        }
        lane := lane + 1;
      }
      return true;
    }

    /** The micro-op with its own checks: four inputs, one output, exactly one of .down and .idx. */
    method ExecShfl(outputs: seq<Operand>, inputs: seq<Operand>, down: bool, idx: bool, mask: set<nat>)
      returns (diag: Option<UnitDiag>)
      modifies this
      ensures diag == Some(BadArity) <==> !(|outputs| == 1 && |inputs| == 4)
      ensures diag == Some(BadMode) <==> |outputs| == 1 && |inputs| == 4 && down == idx
      ensures diag in {Some(BadArity), Some(BadMode)} ==> regs == old(regs)
      ensures |outputs| == 1 && |inputs| == 4 && down != idx ==>
                var o := Operands(outputs[0], inputs[0], inputs[1], inputs[2], inputs[3]);
                match ShflFrom(old(regs), Decoded(o, down, old(regs).width), mask, 0)
                case None => diag == Some(UnknownSpecial)
                case Some(r) => diag == None && regs == r
    {
      if |outputs| != 1 || |inputs| != 4 { return Some(BadArity); }
      if down == idx { return Some(BadMode); }
      var ok := ShuffleLanes(Operands(outputs[0], inputs[0], inputs[1], inputs[2], inputs[3]), down, mask);
      return if ok then None else Some(UnknownSpecial);
    }
  }

  // ---- One lane after the other, or all at once ----

  /** The value of a register after the lanes below `n` have received theirs at once. */
  function AtOnce(r: Regs, u: Shfl, mask: set<nat>, n: nat, id: int, wide: bool, m: nat): nat {
    if SameReg(u.o.dst, id, wide) && m in mask && m < n && Received(r, u, m).Some? then
      Truncate(Received(r, u, m).value, wide)
    else ReadReg(r, id, wide, m)
  }

  /** `r` holds what reading at once from `r0` gives in the lanes below `n`. */
  ghost predicate SoFar(r0: Regs, r: Regs, u: Shfl, mask: set<nat>, n: nat) {
    && r.width == r0.width
    && (forall m: nat :: m < n && m < r.width && m in mask ==> Received(r0, u, m).Some?)
    && forall id, wide, m: nat :: m < r.width ==> ReadReg(r, id, wide, m) == AtOnce(r0, u, mask, n, id, wide, m)
  }

  /** The lane reads another lane whose source register an earlier step has replaced by another value. */
  predicate Disturbed(r: Regs, u: Shfl, mask: set<nat>, lane: nat) {
    && u.o.src.Reg? && SameReg(u.o.dst, u.o.src.id, u.o.src.wide)
    && Received(r, u, lane).Some?
    && var s := SourceOf(r, u, lane);
      && s < lane && s in mask && Received(r, u, s).Some?
      && Truncate(Received(r, u, s).value, u.o.src.wide) != ReadReg(r, u.o.src.id, u.o.src.wide, s)
  }

  /** The lane that is read, when all operands can be read. */
  function SourceOf(r: Regs, u: Shfl, lane: nat): nat {
    match (ReadOperand(r, u.o.param, lane), ReadOperand(r, u.o.clamp, lane), ReadOperand(r, u.o.member, lane))
    case (Some(param), Some(clamp), Some(member)) => u.pick(lane, param, clamp, member)
    case _ => lane
  }

  /** A lane that has not had its turn holds what it held at the start. */
  lemma OwnOperandSame(r0: Regs, r: Regs, u: Shfl, mask: set<nat>, lane: nat, o: Operand)
    requires SoFar(r0, r, u, mask, lane) && lane < r.width
    ensures ReadOperand(r, o, lane) == ReadOperand(r0, o, lane)
  {
    if o.Reg? { assert ReadReg(r, o.id, o.wide, lane) == AtOnce(r0, u, mask, lane, o.id, o.wide, lane); }
  }

  /** So does the source of an undisturbed lane. */
  lemma SourceSame(r0: Regs, r: Regs, u: Shfl, mask: set<nat>, lane: nat)
    requires SoFar(r0, r, u, mask, lane) && lane < r.width && !Disturbed(r0, u, mask, lane)
    requires Received(r0, u, lane).Some?
    ensures ReadOperand(r, u.o.src, SourceOf(r0, u, lane)) == ReadOperand(r0, u.o.src, SourceOf(r0, u, lane))
  {
    var o, s := u.o.src, SourceOf(r0, u, lane);
    if o.Reg? && s < r.width {
      assert ReadReg(r, o.id, o.wide, s) == AtOnce(r0, u, mask, lane, o.id, o.wide, s);
    }
  }

  lemma ReceivedSame(r0: Regs, r: Regs, u: Shfl, mask: set<nat>, lane: nat)
    requires SoFar(r0, r, u, mask, lane) && lane < r.width && !Disturbed(r0, u, mask, lane)
    ensures Received(r, u, lane) == Received(r0, u, lane)
  {
    OwnOperandSame(r0, r, u, mask, lane, u.o.src);
    OwnOperandSame(r0, r, u, mask, lane, u.o.param);
    OwnOperandSame(r0, r, u, mask, lane, u.o.clamp);
    OwnOperandSame(r0, r, u, mask, lane, u.o.member);
    if Received(r0, u, lane).Some? { SourceSame(r0, r, u, mask, lane); }
  }

  lemma SoFarNext(r0: Regs, r: Regs, u: Shfl, mask: set<nat>, lane: nat)
    requires SoFar(r0, r, u, mask, lane) && lane < r.width && lane in mask
    requires Received(r, u, lane).Some? && Received(r, u, lane) == Received(r0, u, lane)
    ensures SoFar(r0, WriteReg(r, u.o.dst, lane, Received(r, u, lane).value), u, mask, lane + 1)
  {
    var v := Received(r, u, lane).value;
    var r' := WriteReg(r, u.o.dst, lane, v);
    forall id, wide, m: nat | m < r.width
      ensures ReadReg(r', id, wide, m) == AtOnce(r0, u, mask, lane + 1, id, wide, m)
    {
      ReadAfterWrite(r, u.o.dst, lane, v, id, wide, m);
      assert ReadReg(r, id, wide, m) == AtOnce(r0, u, mask, lane, id, wide, m);
    }
  }

  lemma UndisturbedStep(r0: Regs, r: Regs, u: Shfl, mask: set<nat>, lane: nat)
    requires SoFar(r0, r, u, mask, lane) && lane < r.width && lane in mask && !Disturbed(r0, u, mask, lane)
    ensures Received(r, u, lane) == Received(r0, u, lane)
    ensures Received(r, u, lane).Some? ==>
              SoFar(r0, WriteReg(r, u.o.dst, lane, Received(r, u, lane).value), u, mask, lane + 1)
  {
    ReceivedSame(r0, r, u, mask, lane);
    if Received(r, u, lane).Some? { SoFarNext(r0, r, u, mask, lane); }
  }

  lemma {:induction false} UndisturbedFrom(r0: Regs, r: Regs, u: Shfl, mask: set<nat>, lane: nat)
    requires SoFar(r0, r, u, mask, lane) && r.width <= 32 && lane <= r.width
    requires forall m: nat :: lane <= m < r.width && m in mask ==> !Disturbed(r0, u, mask, m)
    ensures match ShflFrom(r, u, mask, lane)
            case None => exists m: nat :: m < r.width && m in mask && Received(r0, u, m).None?
            case Some(r') => SoFar(r0, r', u, mask, r.width)
    decreases r.width - lane
  {
    if lane < r.width {
      if lane in mask {
        UndisturbedStep(r0, r, u, mask, lane);
        if Received(r, u, lane).Some? {
          UndisturbedFrom(r0, WriteReg(r, u.o.dst, lane, Received(r, u, lane).value), u, mask, lane + 1);
        }
      } else {
        UndisturbedFrom(r0, r, u, mask, lane + 1);
      }
    }
  }

  /** Register values fit their banks. */
  ghost predicate Fits(r: Regs) {
    && (forall i :: 0 <= i < |r.u32| ==> r.u32[i] < 0x1_0000_0000)
    && (forall i :: 0 <= i < |r.u64| ==> r.u64[i] < 0x1_0000_0000_0000_0000)
  }

  lemma {:induction false} LaterLanes(r: Regs, u: Shfl, mask: set<nat>, lane: nat)
    ensures var r' := ShflFrom(r, u, mask, lane); r'.Some? ==>
              && r'.value.width == r.width
              && forall id, wide, m: nat :: m < lane && m < r.width ==>
                   ReadReg(r'.value, id, wide, m) == ReadReg(r, id, wide, m)
    decreases r.width - lane
  {
    if lane < r.width && lane < 32 {
      if lane in mask && Received(r, u, lane).Some? {
        var v := Received(r, u, lane).value;
        forall id, wide, m: nat | m < lane
          ensures ReadReg(WriteReg(r, u.o.dst, lane, v), id, wide, m) == ReadReg(r, id, wide, m)
        {
          ReadAfterWrite(r, u.o.dst, lane, v, id, wide, m);
        }
        LaterLanes(WriteReg(r, u.o.dst, lane, v), u, mask, lane + 1);
      } else if lane !in mask {
        LaterLanes(r, u, mask, lane + 1);
      }
    }
  }

  /** A disturbed lane reads the replaced value instead of the one it would have read at once. */
  lemma DisturbedReads(r0: Regs, r: Regs, u: Shfl, mask: set<nat>, lane: nat)
    requires SoFar(r0, r, u, mask, lane) && Fits(r0)
    requires lane < r.width && lane in mask && Disturbed(r0, u, mask, lane)
    ensures Received(r, u, lane).Some?
    ensures var v, v0 := Received(r, u, lane).value, Received(r0, u, lane).value;
      v != v0 && Truncate(v, u.o.src.wide) == v && Truncate(v0, u.o.src.wide) == v0
  {
  }

  lemma DisturbedDiffers(r0: Regs, r: Regs, u: Shfl, mask: set<nat>, lane: nat)
    requires SoFar(r0, r, u, mask, lane) && Fits(r0) && r.width <= 32
    requires lane < r.width && lane in mask && Disturbed(r0, u, mask, lane)
    ensures var r' := ShflFrom(r, u, mask, lane); r'.Some? ==> !SoFar(r0, r'.value, u, mask, r.width)
  {
    var r' := ShflFrom(r, u, mask, lane);
    DisturbedReads(r0, r, u, mask, lane);
    if r'.Some? {
      var id, wide, v := u.o.src.id, u.o.src.wide, Received(r, u, lane).value;
      ReadAfterWrite(r, u.o.dst, lane, v, id, wide, lane);
      LaterLanes(WriteReg(r, u.o.dst, lane, v), u, mask, lane + 1);
      assert ReadReg(r'.value, id, wide, lane) == v;
      assert AtOnce(r0, u, mask, r.width, id, wide, lane) == Received(r0, u, lane).value;
    }
  }

  /** The loop from `lane` on ends with other values than reading at once. */
  ghost predicate Differs(r0: Regs, r: Regs, u: Shfl, mask: set<nat>, lane: nat) {
    var r' := ShflFrom(r, u, mask, lane);
    r'.Some? ==> !SoFar(r0, r'.value, u, mask, r0.width)
  }

  lemma ShflNext(r: Regs, u: Shfl, mask: set<nat>, lane: nat)
    requires lane < r.width <= 32 && lane in mask && Received(r, u, lane).Some?
    ensures ShflFrom(r, u, mask, lane) ==
            ShflFrom(WriteReg(r, u.o.dst, lane, Received(r, u, lane).value), u, mask, lane + 1)
  {
  }

  lemma {:induction false} DisturbedFrom(r0: Regs, r: Regs, u: Shfl, mask: set<nat>, lane: nat, m: nat)
    requires SoFar(r0, r, u, mask, lane) && Fits(r0) && r.width <= 32
    requires lane <= m < r.width && m in mask && Disturbed(r0, u, mask, m)
    ensures Differs(r0, r, u, mask, lane)
    decreases r.width - lane
  {
    if lane !in mask {
      DisturbedFrom(r0, r, u, mask, lane + 1, m);
    } else if Disturbed(r0, u, mask, lane) {
      DisturbedDiffers(r0, r, u, mask, lane);
    } else {
      UndisturbedStep(r0, r, u, mask, lane);
      assert lane < m;
      if Received(r, u, lane).Some? {
        DisturbedFrom(r0, WriteReg(r, u.o.dst, lane, Received(r, u, lane).value), u, mask, lane + 1, m);
        ShflNext(r, u, mask, lane);
      }
    }
  }

  /**
   * The loop over the lanes gives every lane what it would have read at once, exactly when
   * no lane reads a source register that an earlier step has changed.
   */
  lemma ShuffleExactly(r: Regs, u: Shfl, mask: set<nat>)
    requires Fits(r) && r.width <= 32
    requires forall m: nat :: m < r.width && m in mask ==> Received(r, u, m).Some?
    ensures ShflFrom(r, u, mask, 0).Some? && SoFar(r, ShflFrom(r, u, mask, 0).value, u, mask, r.width) <==>
            forall m: nat :: m < r.width && m in mask ==> !Disturbed(r, u, mask, m)
  {
    assert SoFar(r, r, u, mask, 0);
    if m: nat :| m < r.width && m in mask && Disturbed(r, u, mask, m) {
      DisturbedFrom(r, r, u, mask, 0, m);
    } else {
      UndisturbedFrom(r, r, u, mask, 0);
    }
  }

  /** So it does for any shuffle into another register, and for every shuffle down. */
  lemma ShuffleIsSimultaneous(r: Regs, u: Shfl, mask: set<nat>)
    requires Fits(r) && r.width <= 32
    requires forall m: nat :: m < r.width && m in mask ==> Received(r, u, m).Some?
    requires (exists o :: u == Decoded(o, true, r.width)) ||
             (u.o.src.Reg? ==> !SameReg(u.o.dst, u.o.src.id, u.o.src.wide))
    ensures ShflFrom(r, u, mask, 0).Some? && SoFar(r, ShflFrom(r, u, mask, 0).value, u, mask, r.width)
  {
    ShuffleExactly(r, u, mask);
  }

  function ExchangeOperands(clamp: nat, member: nat): Operands {
    Operands(Reg(0, false), Reg(0, false), Reg(1, false), Imm(clamp), Imm(member))
  }

  /** In place and with .idx: register 0 of each lane is read by the lane that register 1 names. */
  ghost predicate InPlace(u: Shfl, clamp: nat, member: nat) {
    clamp == 31 && member == 3 && u == Decoded(ExchangeOperands(clamp, member), false, 2)
  }

  /** Two lanes that each name the other one. */
  ghost predicate NameEachOther(r: Regs) {
    r.width == 2 && |r.u32| == 4 && r.u32[2] == 1 && r.u32[3] == 0
  }

  lemma FullWidth(clamp: nat)
    requires clamp == 31
    ensures WidthFromClamp(clamp) == 32
  {
  }

  lemma BothMembers(member: nat)
    requires member == 3
    ensures Member(member, 0) && Member(member, 1)
  {
  }

  lemma SourceIsOther(lane: nat, param: nat)
    requires lane < 2 && param == 1 - lane
    ensures SourceLane(false, lane, param, 32) == param
  {
  }

  lemma ChoosesTheOther(lane: nat, param: nat, clamp: nat, member: nat)
    requires lane < 2 && param == 1 - lane && clamp == 31 && member == 3
    ensures Chosen(2, false, lane, param, clamp, member) == 1 - lane
  {
    var p, c, m := Low32(param), Low32(clamp), Low32(member);
    assert p == param && c == 31 && m == 3;
    FullWidth(c);
    SourceIsOther(lane, p);
    BothMembers(m);
    assert Member(m, lane) && Member(m, p);
  }

  lemma PicksTheOther(u: Shfl, clamp: nat, member: nat, lane: nat)
    requires InPlace(u, clamp, member) && lane < 2
    ensures u.o == ExchangeOperands(clamp, member) && u.pick(lane, 1 - lane, clamp, member) == 1 - lane
  {
    ChoosesTheOther(lane, 1 - lane, clamp, member);
  }

  lemma ReadsTheOther(r: Regs, u: Shfl, lane: nat, clamp: nat, member: nat)
    requires NameEachOther(r) && lane < 2 && clamp < 32 && member < 32
    requires u.o == ExchangeOperands(clamp, member) && u.pick(lane, 1 - lane, clamp, member) == 1 - lane
    ensures Received(r, u, lane) == Some(r.u32[1 - lane])
  {
  }

  lemma WritesOfTwoLanes(r: Regs, o: Operand, v: nat)
    requires r.width == 2 && |r.u32| == 4 && o == Reg(0, false) && v < 0x1_0000_0000
    ensures WriteReg(r, o, 0, v) == r.(u32 := r.u32[0 := v])
    ensures WriteReg(r, o, 1, v) == r.(u32 := r.u32[1 := v])
  {
  }

  /**
   * In place, two lanes that would trade their values both end up with the value of lane 1:
   * lane 0 is written before lane 1 reads it.
   */
  lemma ExchangeInPlaceFails(r: Regs, u: Shfl, clamp: nat, member: nat)
    requires NameEachOther(r) && Fits(r) && InPlace(u, clamp, member)
    ensures Received(r, u, 0) == Some(r.u32[1]) && Received(r, u, 1) == Some(r.u32[0])
    ensures ShflFrom(r, u, {0, 1}, 0) == Some(r.(u32 := r.u32[0 := r.u32[1]]))
  {
    PicksTheOther(u, clamp, member, 0);
    PicksTheOther(u, clamp, member, 1);
    ExchangeSteps(r, u, clamp, member);
  }

  lemma ExchangeSteps(r: Regs, u: Shfl, clamp: nat, member: nat)
    requires NameEachOther(r) && Fits(r) && clamp < 32 && member < 32 && u.o == ExchangeOperands(clamp, member)
    requires u.pick(0, 1, clamp, member) == 1 && u.pick(1, 0, clamp, member) == 0
    ensures Received(r, u, 0) == Some(r.u32[1]) && Received(r, u, 1) == Some(r.u32[0])
    ensures ShflFrom(r, u, {0, 1}, 0) == Some(r.(u32 := r.u32[0 := r.u32[1]]))
  {
    var b := r.u32[1];
    var r1 := r.(u32 := r.u32[0 := b]);
    ReadsTheOther(r, u, 0, clamp, member);
    ReadsTheOther(r, u, 1, clamp, member);
    ReadsTheOther(r1, u, 1, clamp, member);
    WritesOfTwoLanes(r, u.o.dst, b);
    WritesOfTwoLanes(r1, u.o.dst, b);
    assert r1.u32[1 := b] == r1.u32;
    ExchangeRuns(r, r1, u, {0, 1}, 0);
  }

  lemma ExchangeRuns(r: Regs, r1: Regs, u: Shfl, mask: set<nat>, lane: nat)
    requires lane == 0 && r.width == 2 && r1.width == 2 && 0 in mask && 1 in mask
    requires Received(r, u, 0).Some? && WriteReg(r, u.o.dst, 0, Received(r, u, 0).value) == r1
    requires Received(r1, u, 1).Some? && WriteReg(r1, u.o.dst, 1, Received(r1, u, 1).value) == r1
    ensures ShflFrom(r, u, mask, lane) == Some(r1)
  {
    assert ShflFrom(r1, u, mask, lane + 2) == Some(r1);
    assert ShflFrom(r1, u, mask, lane + 1) == ShflFrom(r1, u, mask, lane + 2);
  }
}
