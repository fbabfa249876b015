/** The register files of a warp: one vector per bank, register-major, grown on demand. */
module LaneRegisters {
  import opened Arithmetic
  import opened Options
  import opened Words

  /** `width` is the number of lanes of the warp. */
  datatype Regs = Regs(width: nat, u32: seq<nat>, u64: seq<nat>)

  datatype Operand =
    | Imm(value: int)
    | Reg(id: int, wide: bool)
    | Special(read: nat -> Option<nat>)  // None: an unknown name
    | Other

  /** Negative register numbers stand for register 0. */
  function Number(id: int): nat {
    if id < 0 then 0 else id
  }

  function Index(reg: nat, lane: nat, width: nat): nat {
    reg * width + lane
  }

  function Bank(r: Regs, wide: bool): seq<nat> {
    if wide then r.u64 else r.u32
  }

  /** Past the end of the vector registers read as zero. */
  function ReadReg(r: Regs, id: int, wide: bool, lane: nat): nat {
    var idx := Index(Number(id), lane, r.width);
    if lane >= r.width then 0
    else if idx < |Bank(r, wide)| then Bank(r, wide)[idx] else 0
  }

  function Truncate(v: nat, wide: bool): nat {
    if wide then Low64(v) else Low32(v)
  }

  function Grow(bank: seq<nat>, size: nat): (r: seq<nat>)
    ensures |r| >= size && |r| >= |bank|
    ensures forall i :: 0 <= i < |r| ==> r[i] == if i < |bank| then bank[i] else 0
  {
    if |bank| >= size then bank else bank + seq(size - |bank|, _ => 0)
  }

  function WriteReg(r: Regs, o: Operand, lane: nat, v: nat): Regs {
    if !o.Reg? || lane >= r.width then r
    else
      var idx := Index(Number(o.id), lane, r.width);
      var bank := Grow(Bank(r, o.wide), idx + 1)[idx := Truncate(v, o.wide)];
      if o.wide then r.(u64 := bank) else r.(u32 := bank)
  }

  function ReadOperand(r: Regs, o: Operand, lane: nat): Option<nat> {
    match o
    case Imm(v) => Some(Low64(v))
    case Reg(id, wide) => Some(ReadReg(r, id, wide, lane))
    case Special(read) => read(lane)
    case Other => Some(0)
  }

  /** Both operands name the same register. */
  predicate SameReg(o: Operand, id: int, wide: bool) {
    o.Reg? && Number(o.id) == Number(id) && o.wide == wide
  }

  lemma IndexInjective(a: nat, l: nat, b: nat, m: nat, width: nat)
    requires l < width && m < width && Index(a, l, width) == Index(b, m, width)
    ensures a == b && l == m
  {
    assert a * width == width * a && b * width == width * b;
    DivModUnique(Index(a, l, width), a, l, width);
    DivModUnique(Index(b, m, width), b, m, width);
  }

  /** A write changes one register of one lane, whatever grows. */
  lemma ReadAfterWrite(r: Regs, o: Operand, lane: nat, v: nat, id: int, wide: bool, m: nat)
    requires m < r.width
    ensures ReadReg(WriteReg(r, o, lane, v), id, wide, m) ==
            if SameReg(o, id, wide) && lane == m then Truncate(v, wide) else ReadReg(r, id, wide, m)
  {
    if o.Reg? && lane < r.width && o.wide == wide &&
       Index(Number(o.id), lane, r.width) == Index(Number(id), m, r.width) {
      IndexInjective(Number(o.id), lane, Number(id), m, r.width);
    }
  }

  /**
   * What an operand gives: an immediate its two's complement in 64 bits, a register its value
   * in the lane, where negative numbers stand for register 0, a special name the value of the
   * lane or nothing, any other operand zero.
   */
  lemma OperandGives(r: Regs, o: Operand, lane: nat)
    ensures var v := ReadOperand(r, o, lane);
      && (o.Imm? && 0 <= o.value < 0x1_0000_0000_0000_0000 ==> v == Some(o.value))
      && (o.Imm? && -0x8000_0000_0000_0000 <= o.value < 0 ==> v == Some(o.value + 0x1_0000_0000_0000_0000))
      && (o.Reg? && o.id < 0 ==> v == ReadOperand(r, Reg(0, o.wide), lane))
      && (o.Special? ==> v == o.read(lane))
      && (o.Other? ==> v == Some(0))
  {
    if o.Imm? && -0x8000_0000_0000_0000 <= o.value < 0 {
      assert (o.value + 0x1_0000_0000_0000_0000) % 0x1_0000_0000_0000_0000 == o.value % 0x1_0000_0000_0000_0000;
    }
  }

  /** A register that has never been written reads as zero. */
  lemma FreshRegistersAreZero(width: nat, id: int, wide: bool, lane: nat)
    ensures ReadReg(Regs(width, [], []), id, wide, lane) == 0
  {
  }
}
