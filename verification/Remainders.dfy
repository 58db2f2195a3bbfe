/** Remainders by a variable divisor. */
module Remainders {

  lemma ModUnique(n: nat, k: nat, q: nat, r: nat)
    requires n == k * q + r && r < k
    ensures n % k == r
  {
    var z := n / k - q;
    assert k * z == k * (n / k) - k * q == r - n % k;
    MultipleIsFar(k, z);
    MultipleIsFar(k, -z);
  }

  lemma MultipleIsFar(k: nat, z: int)
    ensures z >= 1 ==> k * z >= k
  {
    if z >= 1 {
      assert k * z == k * (z - 1) + k;
    }
  }

  lemma ModTurn(n: nat, k: nat)
    requires k > 0
    ensures (n + k) % k == n % k
  {
    assert n + k == k * (n / k + 1) + n % k;
    ModUnique(n + k, k, n / k + 1, n % k);
  }

  lemma ModAdd(a: nat, b: nat, k: nat)
    requires k > 0
    ensures (a % k + b) % k == (a + b) % k
  {
    var q, r := (a % k + b) / k, (a % k + b) % k;
    assert a + b == k * (a / k + q) + r;
    ModUnique(a + b, k, a / k + q, r);
  }

  lemma SmallShift(a: nat, r: nat, k: nat)
    requires r < k
    ensures (r + a) % k == a % k <==> r == 0
  {
    var q, s := a / k, a % k;
    assert r + a == k * q + (s + r);
    if s + r < k {
      ModUnique(r + a, k, q, s + r);
    } else {
      assert k * (q + 1) == k * q + k;
      ModUnique(r + a, k, q + 1, s + r - k);
    }
  }

  /** Numbers have one remainder exactly when the divisor divides their difference. */
  lemma SameRemainder(a: nat, d: nat, k: nat)
    requires k > 0
    ensures (a + d) % k == a % k <==> d % k == 0
  {
    ModAdd(d, a, k);
    SmallShift(a, d % k, k);
  }
}
