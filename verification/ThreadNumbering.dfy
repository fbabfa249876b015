/**
 * Thread numbering: every thread of the grid has exactly one warp and lane, its indices
 * are a bijection onto the block box, and its local memory window is its own.
 */
module ThreadNumbering {
  import opened Arithmetic
  import opened Kernel

  datatype Launch = Launch(grid: Dim3, block: Dim3, warpSize: nat)

  predicate Positive(d: Dim3) {
    d.x > 0 && d.y > 0 && d.z > 0
  }

  predicate Launchable(l: Launch) {
    Positive(l.grid) && Positive(l.block) && 1 <= l.warpSize <= 32
  }

  function Volume(d: Dim3): nat {
    d.x * d.y * d.z
  }

  predicate InBox(i: Dim3, d: Dim3) {
    i.x < d.x && i.y < d.y && i.z < d.z
  }

  /** tid.x/y/z as the builtins compute them from the linear index. */
  function IndexOf(d: Dim3, linear: nat): Dim3
    requires Positive(d)
  {
    MulPositive(d.x, d.y);
    Dim3(linear % d.x, (linear / d.x) % d.y, linear / (d.x * d.y))
  }

  function LinearOf(d: Dim3, i: Dim3): nat {
    i.x + d.x * (i.y + d.y * i.z)
  }

  // ---- Indices ----

  /** The indices of a linear index lie in the box, and lead back to it. */
  lemma IndexThenLinear(d: Dim3, linear: nat)
    requires Positive(d) && linear < Volume(d)
    ensures InBox(IndexOf(d, linear), d)
    ensures LinearOf(d, IndexOf(d, linear)) == linear
  {
    var q := linear / d.x;
    DivDiv(linear, d.x, d.y);
    assert linear == d.x * q + linear % d.x;
    assert q == d.y * (q / d.y) + q % d.y;
    DivBelow(linear, d.x * d.y, d.z);
  }

  lemma LinearInRange(d: Dim3, i: Dim3)
    requires Positive(d) && InBox(i, d)
    ensures LinearOf(d, i) < Volume(d)
  {
    var q := i.y + d.y * i.z;
    MulStep(d.y, i.z, d.z);
    MulStep(d.x, q, d.y * d.z);
    assert d.x * (d.y * d.z) == Volume(d);
  }

  /** Every index in the box comes from exactly one linear index. */
  lemma LinearThenIndex(d: Dim3, i: Dim3)
    requires Positive(d) && InBox(i, d)
    ensures LinearOf(d, i) < Volume(d)
    ensures IndexOf(d, LinearOf(d, i)) == i
  {
    LinearInRange(d, i);
    var q := i.y + d.y * i.z;
    DivModUnique(LinearOf(d, i), q, i.x, d.x);
    DivModUnique(q, i.z, i.y, d.y);
    DivDiv(LinearOf(d, i), d.x, d.y);
  }

  // ---- Warps ----

  function WarpCount(l: Launch): nat
    requires Launchable(l)
  {
    (Volume(l.block) + l.warpSize - 1) / l.warpSize
  }

  function Base(l: Launch, w: nat): nat {
    w * l.warpSize
  }

  /** How many lanes of warp `w` are on: all of them, or what remains for the last warp. */
  function LanesOn(l: Launch, w: nat): nat {
    var remaining := if Volume(l.block) > Base(l, w) then Volume(l.block) - Base(l, w) else 0;
    if remaining >= l.warpSize then l.warpSize else remaining
  }

  predicate ActiveLane(l: Launch, w: nat, lane: nat)
    requires Launchable(l)
  {
    w < WarpCount(l) && lane < LanesOn(l, w)
  }

  /** The linear index within the block of a lane. */
  function ThreadLinear(l: Launch, w: nat, lane: nat): nat {
    Base(l, w) + lane
  }

  /** Each thread of the block is carried by exactly one active lane. */
  lemma ThreadHasOneLane(l: Launch, t: nat) returns (w: nat, lane: nat)
    requires Launchable(l) && t < Volume(l.block)
    ensures ActiveLane(l, w, lane) && ThreadLinear(l, w, lane) == t
    ensures forall w': nat, lane': nat :: ActiveLane(l, w', lane') && ThreadLinear(l, w', lane') == t ==>
              w' == w && lane' == lane
  {
    var s := l.warpSize;
    w, lane := t / s, t % s;
    assert t == s * w + lane && w * s == s * w;
    WarpCountCovers(l, t);
    forall w': nat, lane': nat | ActiveLane(l, w', lane') && ThreadLinear(l, w', lane') == t
      ensures w' == w && lane' == lane
    {
      assert t == s * w' + lane' by { assert w' * s == s * w'; }
      DivModUnique(t, w', lane', s);
    }
  }

  lemma WarpCountCovers(l: Launch, t: nat)
    requires Launchable(l) && t < Volume(l.block)
    ensures t / l.warpSize < WarpCount(l)
  {
  }

  /** An active lane carries a thread of the block. */
  lemma LaneHasThread(l: Launch, w: nat, lane: nat)
    requires Launchable(l) && ActiveLane(l, w, lane)
    ensures lane < l.warpSize && ThreadLinear(l, w, lane) < Volume(l.block)
  {
  }

  /** No warp is created without a thread. */
  lemma EveryWarpHasThread(l: Launch, w: nat)
    requires Launchable(l) && w < WarpCount(l)
    ensures LanesOn(l, w) > 0
  {
    var s, v := l.warpSize, Volume(l.block);
    var c := WarpCount(l);
    assert v + s - 1 == s * c + (v + s - 1) % s;
    MulStep(s, w, c);
    assert w * s == s * w;
    MulPositive(l.block.x, l.block.y);
    MulPositive(l.block.x * l.block.y, l.block.z);
  }

  // ---- The grid ----

  /** The index of a CTA as it is numbered at submission. */
  function SubmitLinear(grid: Dim3, c: Dim3): nat {
    (c.z * grid.y + c.y) * grid.x + c.x
  }

  lemma SubmitLinearIsLinear(grid: Dim3, c: Dim3)
    ensures SubmitLinear(grid, c) == LinearOf(grid, c)
  {
  }

  /** The index of a thread in the whole grid, as local memory uses it. */
  function GlobalLinear(l: Launch, c: Dim3, w: nat, lane: nat): nat {
    LinearOf(l.grid, c) * Volume(l.block) + ThreadLinear(l, w, lane)
  }

  lemma GlobalParts(l: Launch, c: Dim3, w: nat, lane: nat)
    requires Launchable(l) && ActiveLane(l, w, lane)
    ensures Volume(l.block) > 0
    ensures GlobalLinear(l, c, w, lane) / Volume(l.block) == LinearOf(l.grid, c)
    ensures GlobalLinear(l, c, w, lane) % Volume(l.block) == ThreadLinear(l, w, lane)
  {
    var v, a := Volume(l.block), LinearOf(l.grid, c);
    LaneHasThread(l, w, lane);
    assert a * v == v * a;
    DivModUnique(GlobalLinear(l, c, w, lane), a, ThreadLinear(l, w, lane), v);
  }

  lemma LinearInjective(d: Dim3, i: Dim3, j: Dim3)
    requires Positive(d) && InBox(i, d) && InBox(j, d) && LinearOf(d, i) == LinearOf(d, j)
    ensures i == j
  {
    LinearThenIndex(d, i);
    LinearThenIndex(d, j);
  }

  lemma LaneInjective(l: Launch, w: nat, lane: nat, w': nat, lane': nat)
    requires Launchable(l) && ActiveLane(l, w, lane) && ActiveLane(l, w', lane')
    requires ThreadLinear(l, w, lane) == ThreadLinear(l, w', lane')
    ensures w == w' && lane == lane'
  {
    LaneHasThread(l, w, lane);
    var x, y := ThreadHasOneLane(l, ThreadLinear(l, w, lane));
  }

  /** Threads with the same global index are the same thread. */
  lemma GlobalLinearInjective(l: Launch, c: Dim3, w: nat, lane: nat, c': Dim3, w': nat, lane': nat)
    requires Launchable(l) && InBox(c, l.grid) && InBox(c', l.grid)
    requires ActiveLane(l, w, lane) && ActiveLane(l, w', lane')
    requires GlobalLinear(l, c, w, lane) == GlobalLinear(l, c', w', lane')
    ensures c == c' && w == w' && lane == lane'
  {
    GlobalParts(l, c, w, lane);
    GlobalParts(l, c', w', lane');
    LinearInjective(l.grid, c, c');
    LaneInjective(l, w, lane, w', lane');
  }

  // ---- Local memory windows ----

  const LOCAL_STRIDE := 4096

  function LocalAddress(l: Launch, c: Dim3, w: nat, lane: nat, offset: nat): nat {
    GlobalLinear(l, c, w, lane) * LOCAL_STRIDE + offset
  }

  /** Bytes of different threads never share an address while offsets stay inside the window. */
  lemma WindowsAreDisjoint(l: Launch, c: Dim3, w: nat, lane: nat, o: nat, c': Dim3, w': nat, lane': nat, o': nat)
    requires Launchable(l) && InBox(c, l.grid) && InBox(c', l.grid)
    requires ActiveLane(l, w, lane) && ActiveLane(l, w', lane')
    requires o < LOCAL_STRIDE && o' < LOCAL_STRIDE
    ensures LocalAddress(l, c, w, lane, o) == LocalAddress(l, c', w', lane', o') <==>
            c == c' && w == w' && lane == lane' && o == o'
  {
    if LocalAddress(l, c, w, lane, o) == LocalAddress(l, c', w', lane', o') {
      GlobalLinearInjective(l, c, w, lane, c', w', lane');
    }
  }
}
