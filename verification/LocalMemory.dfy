/**
 * Local memory. All threads share one sparse store; each has a window of its own in it, so
 * for offsets inside the window it behaves like private memory, as the scalar machine has it.
 */
module LocalMemory {
  import opened Options
  import opened Kernel
  import opened ThreadNumbering
  import opened Words
  import opened GlobalMemory

  datatype ThreadId = ThreadId(cta: Dim3, warp: nat, lane: nat)

  predicate Exists(l: Launch, t: ThreadId)
    requires Launchable(l)
  {
    InBox(t.cta, l.grid) && ActiveLane(l, t.warp, t.lane)
  }

  function Address(l: Launch, t: ThreadId, offset: nat): nat {
    LocalAddress(l, t.cta, t.warp, t.lane, offset)
  }

  function Peek(m: map<nat, nat>, x: nat): nat {
    if x in m then m[x] else 0
  }

  function Sparse(m: map<nat, nat>, addr: nat, size: nat): (b: seq<nat>)
    ensures |b| == size
  {
    seq<nat>(size, i requires 0 <= i < size => Peek(m, addr + i))
  }

  class MemUnit {
    var local: map<nat, nat>

    constructor ()
      ensures local == map[]
    {
      local := map[];
    }

    /** One lane of st.local. */
    method StoreLane(l: Launch, t: ThreadId, offset: nat, v: nat, size: nat)
      requires Launchable(l)
      modifies this
      ensures local == Store(old(local), Address(l, t, offset), LeBytes(v, size))
    {
      var bytes := PackLe(v, size);
      var addr := Address(l, t, offset);
      for i := 0 to |bytes|
        invariant Store(local, addr + i, bytes[i..]) == Store(old(local), addr, bytes)
      {
        assert bytes[i..][1..] == bytes[i + 1..];
        local := local[addr + i := bytes[i]];
      }
    }

    /** One lane of ld.local. */
    method LoadLane(l: Launch, t: ThreadId, offset: nat, size: nat) returns (bytes: seq<nat>)
      requires Launchable(l)
      ensures bytes == Sparse(local, Address(l, t, offset), size)
    {
      bytes := [];
      var addr := Address(l, t, offset);
      for i := 0 to size
        invariant |bytes| == i && forall j :: 0 <= j < i ==> bytes[j] == Peek(local, addr + j)
      {
        bytes := bytes + [if addr + i in local then local[addr + i] else 0];
      }
    }
  }

  lemma AddressPlus(l: Launch, t: ThreadId, offset: nat, i: nat)
    ensures Address(l, t, offset) + i == Address(l, t, offset + i)
  {
  }

  /** A store is seen at its own offset by its own thread, and nowhere else in any window. */
  lemma StoredByte(l: Launch, m: map<nat, nat>, t: ThreadId, offset: nat, data: seq<nat>, u: ThreadId, o: nat)
    requires Launchable(l) && Exists(l, t) && Exists(l, u)
    requires offset + |data| <= LOCAL_STRIDE && o < LOCAL_STRIDE
    ensures Peek(Store(m, Address(l, t, offset), data), Address(l, u, o)) ==
            if t == u && offset <= o < offset + |data| then data[o - offset] else Peek(m, Address(l, u, o))
  {
    var a, x := Address(l, t, offset), Address(l, u, o);
    StoreAt(m, a, data, x);
    if a <= x < a + |data| {
      AddressPlus(l, t, offset, x - a);
      WindowsAreDisjoint(l, t.cta, t.warp, t.lane, offset + (x - a), u.cta, u.warp, u.lane, o);
    }
  }

  /** A thread loads back what it has stored. */
  lemma OwnStoreIsLoaded(l: Launch, m: map<nat, nat>, t: ThreadId, offset: nat, v: nat, size: nat)
    requires Launchable(l) && Exists(l, t) && offset + size <= LOCAL_STRIDE
    ensures var m' := Store(m, Address(l, t, offset), LeBytes(v, size));
      && Sparse(m', Address(l, t, offset), size) == LeBytes(v, size)
      && FromLe(Sparse(m', Address(l, t, offset), size)) == v % Pow256(size)
  {
    var data := LeBytes(v, size);
    var a := Address(l, t, offset);
    var m' := Store(m, a, data);
    forall i | 0 <= i < size ensures Sparse(m', a, size)[i] == data[i] {
      AddressPlus(l, t, offset, i);
      StoredByte(l, m, t, offset, data, t, offset + i);
    }
    assert Sparse(m', a, size) == data;
    BytesRoundTrip(v, size);
  }

  /** Local memory starts out as zeros. */
  lemma FreshLoadsZero(addr: nat, size: nat)
    ensures forall i :: 0 <= i < size ==> Sparse(map[], addr, size)[i] == 0
  {
    forall i | 0 <= i < size ensures Sparse(map[], addr, size)[i] == 0 { assert Peek(map[], addr + i) == 0; }
  }

  /** No store changes what another thread loads. */
  lemma OtherThreadsAreUntouched(l: Launch, m: map<nat, nat>, t: ThreadId, offset: nat, data: seq<nat>, u: ThreadId,
                                 o: nat, size: nat)
    requires Launchable(l) && Exists(l, t) && Exists(l, u) && t != u
    requires offset + |data| <= LOCAL_STRIDE && o + size <= LOCAL_STRIDE
    ensures Sparse(Store(m, Address(l, t, offset), data), Address(l, u, o), size) == Sparse(m, Address(l, u, o), size)
  {
    var a, b := Address(l, t, offset), Address(l, u, o);
    forall i | 0 <= i < size ensures Sparse(Store(m, a, data), b, size)[i] == Sparse(m, b, size)[i] {
      AddressPlus(l, u, o, i);
      StoredByte(l, m, t, offset, data, u, o + i);
    }
  }

  // ---- One shared store does the work of private memories ----

  /** ld.local and st.local; addresses, stored values and results depend on the lane's registers. */
  datatype LocalUop =
    | Load(offset: LaneState -> nat, size: nat, put: (LaneState, seq<nat>) -> LaneState)
    | Save(offset: LaneState -> nat, size: nat, value: LaneState -> nat)

  function Registers(s: LaneState): LaneState {
    s.(local := map[])
  }

  /** The micro-op of the scalar machine: the thread's own memory is part of its lane state. */
  function AsExec(u: LocalUop): Uop {
    Exec(s => Some(OnPrivate(u, s)))
  }

  function OnPrivate(u: LocalUop, s: LaneState): LaneState {
    var r := Registers(s);
    var o := u.offset(r);
    match u
    case Load(_, size, put) => put(r, Sparse(s.local, o, size)).(local := s.local)
    case Save(_, size, value) => s.(local := Store(s.local, o, LeBytes(value(r), size)))
  }

  /** The simulator: one store for all threads, and registers per thread. */
  datatype Shared = Shared(store: map<nat, nat>, regs: map<ThreadId, LaneState>)

  function OnShared(l: Launch, u: LocalUop, t: ThreadId, g: Shared): Shared
    requires t in g.regs
  {
    var r := g.regs[t];
    var addr := Address(l, t, u.offset(r));
    match u
    case Load(_, size, put) => g.(regs := g.regs[t := Registers(put(r, Sparse(g.store, addr, size)))])
    case Save(_, size, value) => g.(store := Store(g.store, addr, LeBytes(value(r), size)))
  }

  /** The access stays inside the window. */
  predicate InWindow(u: LocalUop, s: LaneState) {
    u.offset(Registers(s)) + u.size <= LOCAL_STRIDE
  }

  /** Micro-ops of any threads in any order. */
  type Accesses = seq<(ThreadId, LocalUop)>

  ghost predicate KnownThreads(l: Launch, ids: set<ThreadId>, ops: Accesses)
    requires Launchable(l)
  {
    (forall t :: t in ids ==> Exists(l, t)) && forall i :: 0 <= i < |ops| ==> ops[i].0 in ids
  }

  function RunShared(l: Launch, g: Shared, ops: Accesses): (r: Shared)
    requires forall i :: 0 <= i < |ops| ==> ops[i].0 in g.regs
    ensures r.regs.Keys == g.regs.Keys
    decreases |ops|
  {
    if ops == [] then g else RunShared(l, OnShared(l, ops[0].1, ops[0].0, g), ops[1..])
  }

  function RunPrivate(p: map<ThreadId, LaneState>, ops: Accesses): (r: map<ThreadId, LaneState>)
    requires forall i :: 0 <= i < |ops| ==> ops[i].0 in p
    ensures r.Keys == p.Keys
    decreases |ops|
  {
    if ops == [] then p else RunPrivate(p[ops[0].0 := OnPrivate(ops[0].1, p[ops[0].0])], ops[1..])
  }

  /** All accesses of the run on private memories stay inside their windows. */
  ghost predicate InWindows(p: map<ThreadId, LaneState>, ops: Accesses)
    requires forall i :: 0 <= i < |ops| ==> ops[i].0 in p
    decreases |ops|
  {
    ops != [] ==>
      && InWindow(ops[0].1, p[ops[0].0])
      && InWindows(p[ops[0].0 := OnPrivate(ops[0].1, p[ops[0].0])], ops[1..])
  }

  /** The window of the thread holds its private memory. */
  ghost predicate Mirrors(l: Launch, store: map<nat, nat>, t: ThreadId, local: map<nat, nat>) {
    forall o: nat :: o < LOCAL_STRIDE ==> Peek(store, Address(l, t, o)) == Peek(local, o)
  }

  ghost predicate Agree(l: Launch, g: Shared, p: map<ThreadId, LaneState>) {
    && g.regs.Keys == p.Keys
    && forall t :: t in p ==> g.regs[t] == Registers(p[t]) && Mirrors(l, g.store, t, p[t].local)
  }

  /** At the start of a launch both are empty. */
  lemma FreshAgrees(l: Launch, p: map<ThreadId, LaneState>)
    requires forall t :: t in p ==> p[t].local == map[]
    ensures Agree(l, Shared(map[], p), p)
  {
  }

  predicate SameByte(m: map<nat, nat>, a: nat, n: map<nat, nat>, b: nat, i: nat) {
    Peek(m, a + i) == Peek(n, b + i)
  }

  lemma SameBytes(m: map<nat, nat>, a: nat, n: map<nat, nat>, b: nat, size: nat)
    requires forall i: nat :: i < size ==> SameByte(m, a, n, b, i)
    ensures Sparse(m, a, size) == Sparse(n, b, size)
  {
    forall i: nat | i < size ensures Sparse(m, a, size)[i] == Sparse(n, b, size)[i] {
      assert SameByte(m, a, n, b, i);
    }
  }

  lemma ByteMirrors(l: Launch, store: map<nat, nat>, t: ThreadId, local: map<nat, nat>, o: nat, addr: nat, i: nat)
    requires Mirrors(l, store, t, local) && o + i < LOCAL_STRIDE && addr == Address(l, t, o)
    ensures SameByte(store, addr, local, o, i)
  {
    AddressPlus(l, t, o, i);
  }

  lemma LoadsMirror(l: Launch, store: map<nat, nat>, t: ThreadId, local: map<nat, nat>, o: nat, size: nat)
    requires Mirrors(l, store, t, local) && o + size <= LOCAL_STRIDE
    ensures Sparse(store, Address(l, t, o), size) == Sparse(local, o, size)
  {
    var addr := Address(l, t, o);
    forall i: nat | i < size ensures SameByte(store, addr, local, o, i) { ByteMirrors(l, store, t, local, o, addr, i); }
    SameBytes(store, addr, local, o, size);
  }

  lemma SaveMirrors(l: Launch, store: map<nat, nat>, t: ThreadId, o: nat, data: seq<nat>, u: ThreadId,
                    local: map<nat, nat>)
    requires Launchable(l) && Exists(l, t) && Exists(l, u) && o + |data| <= LOCAL_STRIDE
    requires Mirrors(l, store, u, local)
    ensures Mirrors(l, Store(store, Address(l, t, o), data), u, if t == u then Store(local, o, data) else local)
  {
    var local' := if t == u then Store(local, o, data) else local;
    forall x: nat | x < LOCAL_STRIDE
      ensures Peek(Store(store, Address(l, t, o), data), Address(l, u, x)) == Peek(local', x)
    {
      StoredByte(l, store, t, o, data, u, x);
      StoreAt(local, o, data, x);
    }
  }

  lemma LoadAgrees(l: Launch, g: Shared, p: map<ThreadId, LaneState>, t: ThreadId, u: LocalUop)
    requires Agree(l, g, p) && t in p && InWindow(u, p[t]) && u.Load?
    ensures Agree(l, OnShared(l, u, t, g), p[t := OnPrivate(u, p[t])])
  {
    LoadsMirror(l, g.store, t, p[t].local, u.offset(Registers(p[t])), u.size);
  }

  lemma SaveAgrees(l: Launch, g: Shared, p: map<ThreadId, LaneState>, t: ThreadId, u: LocalUop)
    requires Launchable(l) && Agree(l, g, p) && t in p && InWindow(u, p[t]) && u.Save?
    requires forall x :: x in p ==> Exists(l, x)
    ensures Agree(l, OnShared(l, u, t, g), p[t := OnPrivate(u, p[t])])
  {
    var r := Registers(p[t]);
    var store := OnShared(l, u, t, g).store;
    forall x | x in p ensures Mirrors(l, store, x, p[t := OnPrivate(u, p[t])][x].local) {
      SaveMirrors(l, g.store, t, u.offset(r), LeBytes(u.value(r), u.size), x, p[x].local);
    }
  }

  /** One access keeps the two machines in agreement. */
  lemma AccessAgrees(l: Launch, g: Shared, p: map<ThreadId, LaneState>, t: ThreadId, u: LocalUop)
    requires Launchable(l) && Agree(l, g, p) && t in p && InWindow(u, p[t])
    requires forall x :: x in p ==> Exists(l, x)
    ensures Agree(l, OnShared(l, u, t, g), p[t := OnPrivate(u, p[t])])
  {
    if u.Load? { LoadAgrees(l, g, p, t, u); } else { SaveAgrees(l, g, p, t, u); }
  }

  /**
   * Any run of local loads and stores of any threads in any order gives every thread, on the
   * store they share, the registers it gets on a private memory, and leaves that memory in
   * its window, as long as no access leaves its window.
   */
  lemma {:induction false} SharedIsPrivate(l: Launch, g: Shared, p: map<ThreadId, LaneState>, ops: Accesses)
    requires Launchable(l) && Agree(l, g, p) && KnownThreads(l, p.Keys, ops) && InWindows(p, ops)
    ensures Agree(l, RunShared(l, g, ops), RunPrivate(p, ops))
    decreases |ops|
  {
    if ops != [] {
      var (t, u) := ops[0];
      AccessAgrees(l, g, p, t, u);
      SharedIsPrivate(l, OnShared(l, u, t, g), p[t := OnPrivate(u, p[t])], ops[1..]);
    }
  }

  /** The private machine is the scalar machine: a thread's micro-op changes its own lane state alone. */
  lemma PrivateIsScalar(u: LocalUop, s: LaneState)
    ensures ScalarUop(AsExec(u), true, Progress(s, false, None)) == Progress(OnPrivate(u, s), false, None)
  {
  }
}
