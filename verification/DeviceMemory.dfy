/**
 * The CUDA shim's view of device memory: an ordered map of live allocations in front of the
 * simulator's memory. Pointers are checked against the map before any byte is copied.
 */
module DeviceMemory {
  import opened Options
  import opened Words
  import opened GlobalMemory

  /** The map in ascending order of base addresses. */
  type Live = seq<Allocation>

  ghost predicate Ordered(live: Live) {
    forall i, j :: 0 <= i < j < |live| ==> live[i].base < live[j].base
  }

  /** The position of the first base above `ptr`, as std::map::upper_bound. */
  function UpperBound(live: Live, ptr: nat): (n: nat)
    ensures n <= |live|
  {
    if live == [] || ptr < live[0].base then 0 else 1 + UpperBound(live[1..], ptr)
  }

  predicate Contains(a: Allocation, ptr: nat) {
    a.base <= ptr < a.base + a.size
  }

  function FindAllocation(live: Live, ptr: nat): Option<Allocation> {
    var n := UpperBound(live, ptr);
    if n == 0 then None
    else
      var a := live[n - 1];
      if ptr < a.base then None
      else if ptr - a.base >= a.size then None
      else Some(a)
  }

  predicate IsValidRange(live: Live, ptr: nat, bytes: nat) {
    var a := FindAllocation(live, ptr);
    a.Some? && Low64(ptr - a.value.base + bytes) <= a.value.size
  }

  /** Insert or overwrite the entry for a base address. */
  function Insert(live: Live, a: Allocation): Live {
    if live == [] || a.base < live[0].base then [a] + live
    else if live[0].base == a.base then [a] + live[1..]
    else [live[0]] + Insert(live[1..], a)
  }

  function Erase(live: Live, base: nat): Live {
    if live == [] then live
    else if live[0].base == base then live[1..]
    else [live[0]] + Erase(live[1..], base)
  }

  predicate HasBase(live: Live, base: nat) {
    exists i :: 0 <= i < |live| && live[i].base == base
  }

  // ---- The lookup ----

  lemma {:induction false} UpperBoundSplits(live: Live, ptr: nat)
    requires Ordered(live)
    ensures var n := UpperBound(live, ptr);
      && (forall i :: 0 <= i < n ==> live[i].base <= ptr)
      && (forall i :: n <= i < |live| ==> ptr < live[i].base)
  {
    if live != [] && live[0].base <= ptr {
      var rest := live[1..];
      UpperBoundSplits(rest, ptr);
      var n := UpperBound(rest, ptr);
      forall i | 0 <= i < n + 1 ensures live[i].base <= ptr { if i > 0 { assert live[i] == rest[i - 1]; } }
      forall i | n + 1 <= i < |live| ensures ptr < live[i].base { assert live[i] == rest[i - 1]; }
    }
  }

  /** No two live allocations overlap. */
  ghost predicate Disjoint(live: Live) {
    forall i, j :: 0 <= i < j < |live| ==> Before(live[i], live[j])
  }

  lemma DisjointIsOrdered(live: Live)
    requires Disjoint(live)
    ensures Ordered(live)
  {
  }

  /** The lookup finds the one live allocation that contains the pointer, or there is none. */
  lemma LookupAgrees(live: Live, ptr: nat)
    requires Disjoint(live)
    ensures match FindAllocation(live, ptr)
            case None => forall i :: 0 <= i < |live| ==> !Contains(live[i], ptr)
            case Some(a) =>
              a in live && Contains(a, ptr) && forall i :: 0 <= i < |live| && Contains(live[i], ptr) ==> live[i] == a
  {
    DisjointIsOrdered(live);
    UpperBoundSplits(live, ptr);
    var n := UpperBound(live, ptr);
    forall i | 0 <= i < |live| && i + 1 != n ensures !Contains(live[i], ptr) {
      if i + 1 < n { assert Before(live[i], live[n - 1]); }
    }
  }

  // ---- Shim and memory agree ----

  /** Every live allocation of the shim is one of the memory. */
  ghost predicate Agrees(live: Live, s: Space) {
    && Apart(s) && Disjoint(live)
    && forall a :: a in live ==> a in s.allocs && a.size > 0
  }

  lemma {:induction false} InsertLast(live: Live, a: Allocation)
    requires forall i :: 0 <= i < |live| ==> live[i].base < a.base
    ensures Insert(live, a) == live + [a]
  {
    if live != [] {
      InsertLast(live[1..], a);
      assert live == [live[0]] + live[1..];
    }
  }

  lemma {:induction false} EraseAt(live: Live, base: nat) returns (n: nat)
    requires HasBase(live, base)
    ensures n < |live| && live[n].base == base && Erase(live, base) == live[..n] + live[n + 1..]
  {
    if live[0].base == base {
      n := 0;
    } else {
      var i :| 0 <= i < |live| && live[i].base == base;
      assert live[1..][i - 1].base == base;
      var k := EraseAt(live[1..], base);
      n := k + 1;
      assert live[..n] == [live[0]] + live[1..][..k];
      assert live[n + 1..] == live[1..][k + 1..];
    }
  }

  /** An allocation through the shim. */
  lemma MallocKeeps(live: Live, s: Space, size: nat)
    requires Agrees(live, s) && size > 0 && Fits(s, size, 16)
    ensures var (s', base) := Alloc(s, size, 16);
      && Insert(live, Allocation(base, size)) == live + [Allocation(base, size)]
      && Agrees(live + [Allocation(base, size)], s')
  {
    var (s', base) := Alloc(s, size, 16);
    AllocKeepsApart(s, size, 16);
    var a := Allocation(base, size);
    forall x | x in live ensures x in s.allocs && x.base + AtLeastOne(x.size) <= base {}
    InsertLast(live, a);
  }

  /** A list without its entry `n`. */
  function Without(live: Live, n: nat): Live
    requires n < |live|
  {
    live[..n] + live[n + 1..]
  }

  lemma WithoutAt(live: Live, n: nat, i: nat)
    requires n < |live| && i < |live| - 1
    ensures Without(live, n)[i] == live[if i < n then i else i + 1]
  {
  }

  lemma StaysDisjoint(live: Live, n: nat)
    requires Disjoint(live) && n < |live|
    ensures Disjoint(Without(live, n))
  {
    forall i, j | 0 <= i < j < |live| - 1 ensures Before(Without(live, n)[i], Without(live, n)[j]) {
      WithoutAt(live, n, i);
      WithoutAt(live, n, j);
    }
  }

  lemma LosesOneBase(live: Live, n: nat, i: nat)
    requires Ordered(live) && n < |live| && i < |live| - 1
    ensures Without(live, n)[i] in live && Without(live, n)[i].base != live[n].base
  {
    WithoutAt(live, n, i);
  }

  lemma FreeKeeps(live: Live, s: Space, base: nat)
    requires Agrees(live, s) && HasBase(live, base)
    ensures Agrees(Erase(live, base), s) && !HasBase(Erase(live, base), base)
  {
    var n := EraseAt(live, base);
    DisjointIsOrdered(live);
    StaysDisjoint(live, n);
    forall i: nat | i < |live| - 1
      ensures Without(live, n)[i] in live && Without(live, n)[i].base != base
    {
      LosesOneBase(live, n, i);
    }
  }

  /**
   * A range that the shim accepts is accepted by the memory exactly when its end, counted
   * from the start of the allocation, fits 64 bits; the shim's own test lets it wrap.
   */
  lemma AcceptedRange(live: Live, s: Space, ptr: nat, bytes: nat)
    requires Agrees(live, s) && ptr < 0x1_0000_0000_0000_0000 && 0 < bytes < 0x1_0000_0000_0000_0000
    requires IsValidRange(live, ptr, bytes)
    ensures RangeAllocated(s, ptr, bytes) <==>
            ptr - FindAllocation(live, ptr).value.base + bytes < 0x1_0000_0000_0000_0000
  {
  }

  /** A range that wraps around: the shim accepts it, the memory does not. */
  lemma WrappingRangeIsAccepted(live: Live, s: Space, a: Allocation)
    requires Agrees(live, s) && a in live && a.size >= 2
    ensures var bytes := 0xFFFF_FFFF_FFFF_FFFF;
      IsValidRange(live, a.base + 1, bytes) && !RangeAllocated(s, a.base + 1, bytes)
  {
    var bytes := 0xFFFF_FFFF_FFFF_FFFF;
    LookupAgrees(live, a.base + 1);
    var i :| 0 <= i < |live| && live[i] == a;
    assert Contains(live[i], a.base + 1);
    assert a in s.allocs;
    assert Low64(1 + bytes) == 0;
    AcceptedRange(live, s, a.base + 1, bytes);
  }

  // ---- Copies ----

  datatype Error = Success | InvalidValue | InvalidDevicePointer | Unknown

  /** Host to device. The null pointer is address 0. */
  function CopyIn(live: Live, s: Space, dst: nat, data: seq<nat>): (Error, Space) {
    if data == [] then (Success, s)
    else if dst == 0 then (InvalidValue, s)
    else if !IsValidRange(live, dst, |data|) then (InvalidDevicePointer, s)
    else match Write(s, dst, data)
      case None => (Unknown, s)
      case Some(s') => (Success, s')
  }

  function CopyOut(live: Live, s: Space, src: nat, bytes: nat): (Error, seq<nat>) {
    if bytes == 0 then (Success, [])
    else if src == 0 then (InvalidValue, [])
    else if !IsValidRange(live, src, bytes) then (InvalidDevicePointer, [])
    else match Read(s, src, bytes)
      case None => (Unknown, [])
      case Some(data) => (Success, data)
  }

  /** Device to device, through a buffer on the host. */
  function CopyWithin(live: Live, s: Space, dst: nat, src: nat, bytes: nat): (Error, Space) {
    if bytes == 0 then (Success, s)
    else if dst == 0 || src == 0 then (InvalidValue, s)
    else if !IsValidRange(live, dst, bytes) || !IsValidRange(live, src, bytes) then (InvalidDevicePointer, s)
    else match Read(s, src, bytes)
      case None => (Unknown, s)
      case Some(data) =>
        match Write(s, dst, data)
        case None => (Unknown, s)
        case Some(s') => (Success, s')
  }

  class DeviceMemory {
    var live: Live

    constructor ()
      ensures live == []
    {
      live := [];
    }

    method Malloc(mem: AddrSpaceManager, size: nat) returns (ptr: nat)
      modifies this, mem
      ensures if size == 0 then ptr == 0 && live == old(live) && mem.Value() == old(mem.Value())
              else (mem.Value(), ptr) == Alloc(old(mem.Value()), size, 16)
                   && live == Insert(old(live), Allocation(ptr, size))
    {
      if size == 0 { return 0; }
      ptr := mem.AllocGlobal(size, 16);
      live := Insert(live, Allocation(ptr, size));
    }

    method Free(ptr: nat) returns (e: Error)
      modifies this
      ensures if ptr == 0 then e == Success && live == old(live)
              else if !HasBase(old(live), ptr) then e == InvalidDevicePointer && live == old(live)
              else e == Success && live == Erase(old(live), ptr)
    {
      if ptr == 0 { return Success; }
      if !HasBase(live, ptr) { return InvalidDevicePointer; }
      live := Erase(live, ptr);
      return Success;
    }

    method MemcpyHostToDevice(mem: AddrSpaceManager, dst: nat, data: seq<nat>) returns (e: Error)
      modifies mem
      ensures (e, mem.Value()) == CopyIn(live, old(mem.Value()), dst, data)
    {
      if |data| == 0 { return Success; }
      if dst == 0 { return InvalidValue; }
      if !IsValidRange(live, dst, |data|) { return InvalidDevicePointer; }
      var ok := mem.WriteGlobal(dst, data);
      return if ok then Success else Unknown;
    }

    method MemcpyDeviceToHost(mem: AddrSpaceManager, src: nat, bytes: nat) returns (e: Error, data: seq<nat>)
      ensures (e, data) == CopyOut(live, mem.Value(), src, bytes)
    {
      if bytes == 0 { return Success, []; }
      if src == 0 { return InvalidValue, []; }
      if !IsValidRange(live, src, bytes) { return InvalidDevicePointer, []; }
      var r := mem.ReadGlobal(src, bytes);
      if r.None? { return Unknown, []; }
      return Success, r.value;
    }

    method MemcpyDeviceToDevice(mem: AddrSpaceManager, dst: nat, src: nat, bytes: nat) returns (e: Error)
      modifies mem
      ensures (e, mem.Value()) == CopyWithin(live, old(mem.Value()), dst, src, bytes)
    {
      if bytes == 0 { return Success; }
      if dst == 0 || src == 0 { return InvalidValue; }
      if !IsValidRange(live, dst, bytes) { return InvalidDevicePointer; }
      if !IsValidRange(live, src, bytes) { return InvalidDevicePointer; }
      var host := mem.ReadGlobal(src, bytes);
      if host.None? { return Unknown; }
      var ok := mem.WriteGlobal(dst, host.value);
      return if ok then Success else Unknown;
    }
  }

  /** The range lies inside one live allocation. */
  ghost predicate InsideOne(live: Live, ptr: nat, bytes: nat) {
    exists a :: a in live && a.base <= ptr && ptr + bytes <= a.base + a.size
  }

  /** The shim's test accepts every range inside a live allocation, and then the memory does too. */
  lemma InsideIsAccepted(live: Live, s: Space, ptr: nat, bytes: nat)
    requires Agrees(live, s) && bytes > 0 && InsideOne(live, ptr, bytes)
    ensures IsValidRange(live, ptr, bytes) && RangeAllocated(s, ptr, bytes)
  {
    var a :| a in live && a.base <= ptr && ptr + bytes <= a.base + a.size;
    var i :| 0 <= i < |live| && live[i] == a;
    assert Contains(live[i], ptr);
    LookupAgrees(live, ptr);
    assert a in s.allocs;
    AcceptedRange(live, s, ptr, bytes);
  }

  /**
   * A copy between ranges of live allocations never fails and moves all bytes at once, even
   * when the ranges overlap; no other byte changes.
   */
  lemma CopyWithinMoves(live: Live, s: Space, dst: nat, src: nat, bytes: nat, x: nat)
    requires Agrees(live, s) && bytes > 0 && dst > 0 && src > 0
    requires InsideOne(live, dst, bytes) && InsideOne(live, src, bytes)
    ensures var (e, s') := CopyWithin(live, s, dst, src, bytes);
      && e == Success && s'.allocs == s.allocs && s'.next == s.next
      && ByteAt(s', x) == if dst <= x < dst + bytes then ByteAt(s, src + (x - dst)) else ByteAt(s, x)
  {
    InsideIsAccepted(live, s, dst, bytes);
    InsideIsAccepted(live, s, src, bytes);
    WriteAt(s, dst, Bytes(s, src, bytes), x);
  }

  /** Bytes copied to the device come back unchanged. */
  lemma CopyInThenOut(live: Live, s: Space, dst: nat, data: seq<nat>)
    requires Agrees(live, s) && data != [] && dst > 0 && InsideOne(live, dst, |data|)
    ensures var (e, s') := CopyIn(live, s, dst, data);
      e == Success && CopyOut(live, s', dst, |data|) == (Success, data)
  {
    InsideIsAccepted(live, s, dst, |data|);
    ReadBack(s, dst, data);
  }

  /** After a free no range of the allocation is accepted any more. */
  lemma {:induction false} FreedIsRejected(live: Live, s: Space, a: Allocation, ptr: nat, bytes: nat)
    requires Agrees(live, s) && a in live && Contains(a, ptr)
    ensures !IsValidRange(Erase(live, a.base), ptr, bytes)
  {
    var i :| 0 <= i < |live| && live[i] == a;
    assert HasBase(live, a.base);
    FreeKeeps(live, s, a.base);
    var rest := Erase(live, a.base);
    LookupAgrees(rest, ptr);
    var n := EraseAt(live, a.base);
    DisjointIsOrdered(live);
    assert n == i;
    forall j | 0 <= j < |rest| ensures !Contains(rest[j], ptr) {
      var k := if j < n then j else j + 1;
      assert rest[j] == live[k];
      if k < i { assert Before(live[k], live[i]); } else if i < k { assert Before(live[i], live[k]); }
    }
  }

  // ---- Which error a copy gives ----

  /** Without wrap-around the shim's test accepts exactly the ranges inside one live allocation. */
  lemma ValidExactly(live: Live, s: Space, ptr: nat, bytes: nat)
    requires Agrees(live, s) && bytes > 0 && ptr + bytes < 0x1_0000_0000_0000_0000
    ensures IsValidRange(live, ptr, bytes) <==> InsideOne(live, ptr, bytes)
    ensures InsideOne(live, ptr, bytes) ==> RangeAllocated(s, ptr, bytes)
  {
    if InsideOne(live, ptr, bytes) { InsideIsAccepted(live, s, ptr, bytes); }
    if IsValidRange(live, ptr, bytes) {
      LookupAgrees(live, ptr);
      var a := FindAllocation(live, ptr).value;
      assert a in live && Low64(ptr - a.base + bytes) == ptr - a.base + bytes;
    }
  }

  /** What a pointer and a range are worth: the null pointer first, then the live allocations. */
  ghost function Verdict(live: Live, ptr: nat, bytes: nat): Error {
    if ptr == 0 then InvalidValue else if InsideOne(live, ptr, bytes) then Success else InvalidDevicePointer
  }

  /**
   * Copying nothing always succeeds. Otherwise a null pointer is an invalid value, a range
   * that is not inside one live allocation an invalid device pointer, and every other copy
   * succeeds; a refused copy changes nothing.
   */
  lemma CopyInReplies(live: Live, s: Space, dst: nat, data: seq<nat>)
    requires Agrees(live, s) && dst + |data| < 0x1_0000_0000_0000_0000
    ensures var (e, s') := CopyIn(live, s, dst, data);
      && e == (if data == [] then Success else Verdict(live, dst, |data|))
      && (e != Success || data == [] ==> s' == s)
  {
    if data != [] { ValidExactly(live, s, dst, |data|); }
  }

  lemma CopyOutReplies(live: Live, s: Space, src: nat, bytes: nat)
    requires Agrees(live, s) && src + bytes < 0x1_0000_0000_0000_0000
    ensures var (e, data) := CopyOut(live, s, src, bytes);
      && e == (if bytes == 0 then Success else Verdict(live, src, bytes))
      && |data| == if e == Success then bytes else 0
  {
    if bytes > 0 { ValidExactly(live, s, src, bytes); }
  }

  lemma CopyWithinReplies(live: Live, s: Space, dst: nat, src: nat, bytes: nat)
    requires Agrees(live, s) && dst + bytes < 0x1_0000_0000_0000_0000 && src + bytes < 0x1_0000_0000_0000_0000
    ensures var (e, s') := CopyWithin(live, s, dst, src, bytes);
      && e == (if bytes == 0 then Success
               else if dst == 0 || src == 0 then InvalidValue
               else if InsideOne(live, dst, bytes) && InsideOne(live, src, bytes) then Success
               else InvalidDevicePointer)
      && (e != Success || bytes == 0 ==> s' == s)
  {
    if bytes > 0 {
      ValidExactly(live, s, dst, bytes);
      ValidExactly(live, s, src, bytes);
    }
  }
}
