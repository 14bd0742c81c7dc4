/** Machine words: the width of a C `rt_uint32_t`, and the larger and the smaller of two numbers. */
module Words {
  const WRAP: nat := 0x1_0000_0000

  function Max(a: int, b: int): int { if a < b then b else a }

  function Min(a: int, b: int): int { if a < b then a else b }

  function Pow2(k: nat): nat { if k == 0 then 1 else 2 * Pow2(k - 1) }

  ghost predicate IsPow2(n: nat) { exists k: nat :: n == Pow2(k) }

  lemma {:induction false} Pow2Positive(k: nat)
    ensures Pow2(k) > 0
    decreases k
  {
    if k > 0 { Pow2Positive(k - 1); }
  }

  lemma {:induction false} Pow2Grows(j: nat, k: nat)
    requires j < k
    ensures Pow2(j) < Pow2(k)
    decreases k
  {
    Pow2Positive(k - 1);
    if j < k - 1 { Pow2Grows(j, k - 1); }
  }

  /** Powers of two divide the larger ones. */
  lemma {:induction false} Pow2Divides(j: nat, k: nat)
    requires j <= k
    ensures Pow2(j) > 0 && exists d: nat :: Pow2(k) == d * Pow2(j)
    decreases k
  {
    if j == k {
      Pow2Positive(j);
      assert Pow2(k) == 1 * Pow2(j);
    } else {
      Pow2Divides(j, k - 1);
      var d: nat :| Pow2(k - 1) == d * Pow2(j);
      var e := 2 * d;
      assert Pow2(k) == e * Pow2(j);
    }
  }

  lemma Pow2Table()
    ensures Pow2(0) == 1 && Pow2(1) == 2 && Pow2(2) == 4 && Pow2(3) == 8 && Pow2(4) == 16 && Pow2(5) == 32
    ensures Pow2(6) == 64 && Pow2(7) == 128 && Pow2(8) == 256 && Pow2(9) == 512 && Pow2(10) == 1024
    ensures Pow2(11) == 2048 && Pow2(12) == 4096 && Pow2(13) == 8192 && Pow2(14) == 16384
    ensures Pow2(31) == 0x8000_0000 && Pow2(32) == WRAP
  {
    assert Pow2(16) == 65536 && Pow2(20) == 1048576 && Pow2(24) == 16777216 && Pow2(28) == 268435456;
  }
}
