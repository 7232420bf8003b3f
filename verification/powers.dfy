/** src/gtl/util/common.h */
module Powers {
  function Pow2(k: nat): (r: nat)
    ensures r >= 1
  {
    if k == 0 then 1 else 2 * Pow2(k - 1)
  }

  ghost predicate IsPow2(n: nat) {
    exists k: nat :: n == Pow2(k)
  }

  lemma {:induction false} Pow2Monotone(j: nat, k: nat)
    requires j <= k
    ensures Pow2(j) <= Pow2(k)
    decreases k
  {
    if j < k { Pow2Monotone(j, k - 1); }
  }

  /** The least power of two that is at least n. */
  method Next2Power(n: nat) returns (ret: nat)
    ensures IsPow2(ret) && n <= ret && (ret == 1 || ret < 2 * n)
    ensures forall k: nat :: n <= Pow2(k) ==> ret <= Pow2(k)
  {
    ret := 1;
    ghost var e := 0;
    while ret < n
      invariant ret == Pow2(e)
      invariant e > 0 ==> Pow2(e - 1) < n
      decreases 2 * n - ret
    {
      ret := ret * 2;
      e := e + 1;
    }
    assert ret == Pow2(e);
    forall k: nat | n <= Pow2(k) ensures ret <= Pow2(k) {
      if k < e { Pow2Monotone(k, e - 1); } else { Pow2Monotone(e, k); }
    }
  }

  /** Two powers of two differ at least by a factor two. */
  lemma {:induction false} Pow2Gap(m: nat, n: nat)
    requires IsPow2(m) && IsPow2(n) && m < n
    ensures 2 * m <= n
  {
    var j: nat, k: nat :| m == Pow2(j) && n == Pow2(k);
    if k <= j { Pow2Monotone(k, j); } else { Pow2Monotone(j + 1, k); }
  }
}
