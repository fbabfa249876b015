/** Machine words and their bytes in memory. */
module Words {
  import opened Arithmetic

  /** The conversions to uint32_t and uint64_t. */
  function Low32(v: int): (r: nat)
    ensures r < 0x1_0000_0000
    ensures 0 <= v < 0x1_0000_0000 ==> r == v
  {
    v % 0x1_0000_0000
  }

  function Low64(v: int): (r: nat)
    ensures r < 0x1_0000_0000_0000_0000
    ensures 0 <= v < 0x1_0000_0000_0000_0000 ==> r == v
  {
    v % 0x1_0000_0000_0000_0000
  }

  // ---- Little-endian bytes ----

  predicate IsBytes(b: seq<nat>) {
    forall i :: 0 <= i < |b| ==> b[i] < 256
  }

  /** The lowest `n` bytes of `v`, the lowest first. */
  function LeBytes(v: nat, n: nat): (b: seq<nat>)
    ensures |b| == n && IsBytes(b)
  {
    if n == 0 then [] else [v % 256] + LeBytes(v / 256, n - 1)
  }

  function FromLe(b: seq<nat>): nat {
    if b == [] then 0 else b[0] + 256 * FromLe(b[1..])
  }

  function Shifted(v: nat, bytes: nat): nat {
    if bytes == 0 then v else Shifted(v / 256, bytes - 1)
  }

  function Pow256(n: nat): (p: nat)
    ensures p > 0
  {
    if n == 0 then 1 else 256 * Pow256(n - 1)
  }

  lemma {:induction false} LeBytesAt(v: nat, n: nat, i: nat)
    requires i < n
    ensures LeBytes(v, n)[i] == Shifted(v, i) % 256
  {
    if i > 0 { LeBytesAt(v / 256, n - 1, i - 1); }
  }

  lemma {:induction false} ShiftedIs(v: nat, i: nat)
    ensures Shifted(v, i) == v / Pow256(i)
  {
    if i > 0 {
      ShiftedIs(v / 256, i - 1);
      DivDiv(v, 256, Pow256(i - 1));
    }
  }

  /** Byte `i` is the digit of weight 256^i. */
  lemma ByteIs(v: nat, n: nat, i: nat)
    requires i < n
    ensures LeBytes(v, n)[i] == v / Pow256(i) % 256
  {
    LeBytesAt(v, n, i);
    ShiftedIs(v, i);
  }

  /** Four bytes make 32 bits, eight bytes 64. */
  lemma WordSizes()
    ensures Pow256(4) == 0x1_0000_0000 && Pow256(8) == 0x1_0000_0000_0000_0000
  {
    assert Pow256(1) == 0x100;
    assert Pow256(2) == 0x1_0000;
    assert Pow256(3) == 0x100_0000;
    assert Pow256(4) == 0x1_0000_0000;
    assert Pow256(5) == 0x100_0000_0000;
    assert Pow256(6) == 0x1_0000_0000_0000;
    assert Pow256(7) == 0x100_0000_0000_0000;
  }

  /** Fewer bytes are the lower ones. */
  lemma {:induction false} LowerBytes(v: nat, m: nat, n: nat)
    requires m <= n
    ensures LeBytes(v, n)[..m] == LeBytes(v, m)
  {
    if m > 0 { LowerBytes(v / 256, m - 1, n - 1); }
  }

  lemma ByteAndRest(v: nat, p: nat)
    requires p > 0
    ensures v % (256 * p) == v % 256 + 256 * ((v / 256) % p)
  {
    var q, r := v / 256, v % 256;
    var q2, r2 := q / p, q % p;
    assert q == p * q2 + r2;
    assert 256 * (p * q2) == (256 * p) * q2;
    DivModUnique(v, q2, 256 * r2 + r, 256 * p);
  }

  /** Storing a word of `n` bytes and loading it back keeps its lowest 8n bits. */
  lemma {:induction false} BytesRoundTrip(v: nat, n: nat)
    ensures FromLe(LeBytes(v, n)) == v % Pow256(n)
  {
    if n > 0 {
      BytesRoundTrip(v / 256, n - 1);
      ByteAndRest(v, Pow256(n - 1));
      assert LeBytes(v, n)[1..] == LeBytes(v / 256, n - 1);
    }
  }

  /** Shifting right by one byte after the other, as the source packs a value. */
  method PackLe(v: nat, size: nat) returns (out: seq<nat>)
    ensures out == LeBytes(v, size)
  {
    out := [];
    for i := 0 to size
      invariant |out| == i && forall j :: 0 <= j < i ==> out[j] == Shifted(v, j) % 256
    {
      out := out + [Shifted(v, i) % 256];
    }
    forall j | 0 <= j < size ensures out[j] == LeBytes(v, size)[j] { LeBytesAt(v, size, j); }
  }

  /** Adding up the bytes with their weights; bytes beyond the eighth are dropped. */
  method UnpackLe(bytes: seq<nat>) returns (v: nat)
    requires IsBytes(bytes)
    ensures v == FromLe(if |bytes| <= 8 then bytes else bytes[..8])
  {
    var used := if |bytes| <= 8 then bytes else bytes[..8];
    v := 0;
    for i := 0 to |used|
      invariant Unpacked(used, i, v)
    {
      UnpackNext(used, i, v);
      v := v + Weighed(used[i], i);
    }
    assert used[|used|..] == [];
  }

  /** The byte `b`, shifted left by `i` bytes. */
  function Weighed(b: nat, i: nat): nat {
    Pow256(i) * b
  }

  /** `v` holds the lowest `i` bytes. */
  ghost predicate Unpacked(used: seq<nat>, i: nat, v: nat)
    requires i <= |used|
  {
    v + Weighed(FromLe(used[i..]), i) == FromLe(used)
  }

  lemma UnpackNext(used: seq<nat>, i: nat, v: nat)
    requires i < |used| && Unpacked(used, i, v)
    ensures Unpacked(used, i + 1, v + Weighed(used[i], i))
  {
  }
}
