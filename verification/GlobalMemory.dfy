/** The global memory of the simulated device: a bump allocator and sparse bytes. */
module GlobalMemory {
  import opened Arithmetic
  import opened Options
  import opened Words

  datatype Allocation = Allocation(base: nat, size: nat)

  /** The allocator's next address, its allocations in order, and the bytes written so far. */
  datatype Space = Space(next: nat, allocs: seq<Allocation>, bytes: map<nat, nat>)

  function AlignUp(v: nat, a: nat): (r: nat)
    ensures a > 0 ==> r % a == 0 && v <= r < v + a
  {
    if a == 0 then v
    else if v % a == 0 then v
    else
      AlignUpExact(v, a);
      v + (a - v % a)
  }

  lemma AlignUpExact(v: nat, a: nat)
    requires a > 0
    ensures (v + (a - v % a)) % a == 0
  {
    var q := v / a;
    assert v == a * q + v % a;
    assert a * (q + 1) == a * q + a;
    DivModUnique(v + (a - v % a), q + 1, 0, a);
  }

  function AtLeastOne(n: nat): (r: nat)
    ensures r >= 1 && r >= n
  {
    if n == 0 then 1 else n
  }

  /** Addresses are 64-bit and wrap around. */
  function Alloc(s: Space, size: nat, align: nat): (Space, nat) {
    var base := Low64(AlignUp(s.next, AtLeastOne(align)));
    (s.(next := Low64(base + AtLeastOne(size)), allocs := s.allocs + [Allocation(base, size)]), base)
  }

  /** The address space has room for the allocation. */
  predicate Fits(s: Space, size: nat, align: nat) {
    AlignUp(s.next, AtLeastOne(align)) + AtLeastOne(size) < 0x1_0000_0000_0000_0000
  }

  /** The end of a range in 64-bit arithmetic. */
  function End(addr: nat, size: nat): nat {
    Low64(addr + size)
  }

  predicate Within(a: Allocation, addr: nat, size: nat) {
    addr >= a.base && End(addr, size) <= End(a.base, a.size) && !(End(a.base, a.size) < a.base)
  }

  predicate RangeAllocated(s: Space, addr: nat, size: nat) {
    size == 0 || (!(End(addr, size) < addr) && exists i :: 0 <= i < |s.allocs| && Within(s.allocs[i], addr, size))
  }

  function ByteAt(s: Space, addr: nat): nat {
    if addr in s.bytes then s.bytes[addr] else 0
  }

  function Bytes(s: Space, addr: nat, size: nat): (b: seq<nat>)
    ensures |b| == size
  {
    seq<nat>(size, i requires 0 <= i < size => ByteAt(s, addr + i))
  }

  function Read(s: Space, addr: nat, size: nat): Option<seq<nat>> {
    if RangeAllocated(s, addr, size) then Some(Bytes(s, addr, size)) else None
  }

  function Store(m: map<nat, nat>, addr: nat, data: seq<nat>): map<nat, nat>
    decreases |data|
  {
    if data == [] then m else Store(m[addr := data[0]], addr + 1, data[1..])
  }

  function Write(s: Space, addr: nat, data: seq<nat>): Option<Space> {
    if RangeAllocated(s, addr, |data|) then Some(s.(bytes := Store(s.bytes, addr, data))) else None
  }

  // ---- The class ----

  class AddrSpaceManager {
    var next: nat
    var allocs: seq<Allocation>
    var bytes: map<nat, nat>

    ghost function Value(): Space
      reads this
    {
      Space(next, allocs, bytes)
    }

    constructor ()
      ensures Value() == Space(0x1000, [], map[])
    {
      next, allocs, bytes := 0x1000, [], map[];
    }

    method IsAllocated(addr: nat, size: nat) returns (ok: bool)
      ensures ok <==> RangeAllocated(Value(), addr, size)
    {
      if size == 0 { return true; }
      var end := End(addr, size);
      if end < addr { return false; }
      for i := 0 to |allocs|
        invariant forall j :: 0 <= j < i ==> !Within(allocs[j], addr, size)
      {
        var allocEnd := End(allocs[i].base, allocs[i].size);
        if allocEnd < allocs[i].base { continue; }
        if addr >= allocs[i].base && end <= allocEnd { return true; }
      }
      return false;
    }

    method AllocGlobal(size: nat, align: nat) returns (base: nat)
      modifies this
      ensures (Value(), base) == Alloc(old(Value()), size, align)
    {
      var a := if align == 0 then 1 else align;
      next := Low64(AlignUp(next, a));
      base := next;
      next := Low64(next + if size < 1 then 1 else size);
      allocs := allocs + [Allocation(base, size)];
    }

    method WriteGlobal(addr: nat, data: seq<nat>) returns (ok: bool)
      modifies this
      ensures match Write(old(Value()), addr, data)
              case None => !ok && Value() == old(Value())
              case Some(s) => ok && Value() == s
    {
      ok := IsAllocated(addr, |data|);
      if !ok { return; }
      for i := 0 to |data|
        invariant next == old(next) && allocs == old(allocs)
        invariant Store(bytes, addr + i, data[i..]) == Store(old(bytes), addr, data)
      {
        assert data[i..][1..] == data[i + 1..];
        bytes := bytes[addr + i := data[i]];
      }
    }

    method ReadGlobal(addr: nat, size: nat) returns (r: Option<seq<nat>>)
      ensures r == Read(Value(), addr, size)
    {
      var ok := IsAllocated(addr, size);
      if !ok { return None; }
      var out: seq<nat> := [];
      for i := 0 to size
        invariant |out| == i && forall j :: 0 <= j < i ==> out[j] == ByteAt(Value(), addr + j)
      {
        out := out + [if addr + i in bytes then bytes[addr + i] else 0];
      }
      assert out == Bytes(Value(), addr, size);
      return Some(out);
    }
  }

  // ---- Allocations stay apart ----

  predicate Before(a: Allocation, b: Allocation) {
    a.base + AtLeastOne(a.size) <= b.base
  }

  /** Allocations follow each other, all of them below the next address and the end of the address space. */
  ghost predicate Apart(s: Space) {
    && s.next < 0x1_0000_0000_0000_0000
    && (forall i :: 0 <= i < |s.allocs| ==> s.allocs[i].base + AtLeastOne(s.allocs[i].size) <= s.next)
    && forall i, j :: 0 <= i < j < |s.allocs| ==> Before(s.allocs[i], s.allocs[j])
  }

  /**
   * As long as the address space is not exhausted, a new allocation is aligned, lies behind
   * all earlier ones and keeps them apart.
   */
  lemma AllocKeepsApart(s: Space, size: nat, align: nat)
    requires Apart(s) && Fits(s, size, align)
    ensures var (s', base) := Alloc(s, size, align);
      && Apart(s') && base >= s.next && (align > 0 ==> base % align == 0)
      && s'.allocs == s.allocs + [Allocation(base, size)] && s'.bytes == s.bytes
      && base < s.next + (if align == 0 then 1 else align) && s'.next == base + (if size == 0 then 1 else size)
  {
  }

  /** The range lies inside the allocation, in plain arithmetic. */
  predicate Inside(a: Allocation, addr: nat, size: nat) {
    a.base <= addr && addr + size <= a.base + a.size
  }

  lemma WithinIsInside(s: Space, i: nat, addr: nat, size: nat)
    requires Apart(s) && i < |s.allocs| && addr + size < 0x1_0000_0000_0000_0000
    ensures Within(s.allocs[i], addr, size) <==> Inside(s.allocs[i], addr, size)
  {
    var a := s.allocs[i];
    assert a.base + AtLeastOne(a.size) <= s.next;
    assert End(a.base, a.size) == a.base + a.size;
  }

  /** The memory accepts a non-empty range exactly if one allocation contains all of it, and no range that wraps. */
  lemma AcceptsExactly(s: Space, addr: nat, size: nat)
    requires Apart(s) && addr < 0x1_0000_0000_0000_0000 && 0 < size < 0x1_0000_0000_0000_0000
    ensures RangeAllocated(s, addr, size) <==>
            addr + size < 0x1_0000_0000_0000_0000 && exists i :: 0 <= i < |s.allocs| && Inside(s.allocs[i], addr, size)
  {
    if addr + size < 0x1_0000_0000_0000_0000 {
      forall i: nat | i < |s.allocs| ensures Within(s.allocs[i], addr, size) <==> Inside(s.allocs[i], addr, size) {
        WithinIsInside(s, i, addr, size);
      }
    } else {
      Wraps(addr, size);
    }
  }

  lemma Wraps(addr: nat, size: nat)
    requires addr < 0x1_0000_0000_0000_0000 && size < 0x1_0000_0000_0000_0000
    requires addr + size >= 0x1_0000_0000_0000_0000
    ensures End(addr, size) < addr
  {
    assert (addr + size) % 0x1_0000_0000_0000_0000 == addr + size - 0x1_0000_0000_0000_0000;
  }

  // ---- Reading and writing ----

  lemma {:induction false} StoreAt(m: map<nat, nat>, addr: nat, data: seq<nat>, x: nat)
    ensures var r := Store(m, addr, data);
      && (x in r <==> addr <= x < addr + |data| || x in m)
      && (x in r ==> r[x] == if addr <= x < addr + |data| then data[x - addr] else m[x])
    decreases |data|
  {
    if data != [] { StoreAt(m[addr := data[0]], addr + 1, data[1..], x); }
  }

  /** After a write each address holds the new byte, or what it held before. */
  lemma WriteAt(s: Space, addr: nat, data: seq<nat>, x: nat)
    requires Write(s, addr, data).Some?
    ensures ByteAt(Write(s, addr, data).value, x) ==
            if addr <= x < addr + |data| then data[x - addr] else ByteAt(s, x)
  {
    StoreAt(s.bytes, addr, data, x);
  }

  /** Bytes that have never been written read as zero. */
  lemma FreshReadsZero(s: Space, addr: nat, size: nat)
    requires RangeAllocated(s, addr, size) && forall x :: addr <= x < addr + size ==> x !in s.bytes
    ensures Read(s, addr, size).Some?
    ensures forall i :: 0 <= i < size ==> Read(s, addr, size).value[i] == 0
  {
    forall i | 0 <= i < size ensures Bytes(s, addr, size)[i] == 0 { assert ByteAt(s, addr + i) == 0; }
  }

  /** Nothing can be read or written anywhere, and that changes nothing. */
  lemma EmptyRange(s: Space, addr: nat)
    ensures Read(s, addr, 0) == Some([]) && Write(s, addr, []) == Some(s)
  {
  }

  /** What is written is read back. */
  lemma ReadBack(s: Space, addr: nat, data: seq<nat>)
    requires Write(s, addr, data).Some?
    ensures Read(Write(s, addr, data).value, addr, |data|) == Some(data)
  {
    var s' := Write(s, addr, data).value;
    assert RangeAllocated(s', addr, |data|);
    forall i | 0 <= i < |data| ensures Bytes(s', addr, |data|)[i] == data[i] { WriteAt(s, addr, data, addr + i); }
    assert Bytes(s', addr, |data|) == data;
  }
}
