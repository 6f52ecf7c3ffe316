/** Fixed-width unsigned integers of the driver, and UINT64 arithmetic with its wrap-around. */
module Ints {
  type u8 = x: int | 0 <= x < 0x100
  type u16 = x: int | 0 <= x < 0x1_0000
  type u32 = x: int | 0 <= x < 0x1_0000_0000
  type u64 = x: int | 0 <= x < 0x1_0000_0000_0000_0000

  const TWO64: int := 0x1_0000_0000_0000_0000

  function Add64(x: u64, y: u64): u64 {
    if x + y < TWO64 then x + y else x + y - TWO64
  }

  function Sub64(x: u64, y: u64): u64 {
    if x >= y then x - y else x - y + TWO64
  }

  function Mul64(x: u64, y: u64): u64 {
    if 0 <= x * y < TWO64 then x * y else x * y % TWO64
  }

  function Min(a: int, b: int): int { if a <= b then a else b }

  // ----- Quotients -----

  lemma MulMonotone(k: nat, a: int, b: int)
    ensures a <= b ==> k * a <= k * b
  {
  }

  lemma DivUnique(x: nat, k: nat, q: nat, r: nat)
    requires r < k && x == k * q + r
    ensures x / k == q && x % k == r
  {
    var d := x / k;
    assert x == k * d + x % k;
    MulMonotone(k, d + 1, q);
    MulMonotone(k, q + 1, d);
  }

  lemma NextMultiple(y: nat, k: nat)
    requires 0 < y && 0 < k
    ensures y / k == (y - 1) / k + (if y % k == 0 then 1 else 0)
  {
    var q, r := (y - 1) / k, (y - 1) % k;
    assert y - 1 == k * q + r;
    if r == k - 1 {
      assert y == k * (q + 1);
      DivUnique(y, k, q + 1, 0);
    } else {
      DivUnique(y, k, q, r + 1);
    }
  }

  lemma ModShift(x: nat, k: nat, n: nat)
    requires 0 < k
    ensures (x + k * n) % k == x % k
  {
    assert x + k * n == k * (x / k + n) + x % k;
    DivUnique(x + k * n, k, x / k + n, x % k);
  }
}
