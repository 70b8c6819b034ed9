/** Small vocabulary shared by every component. */
module Common {

  datatype Option<+T> = None | Some(value: T)

  /** Rust's `usize`/`u64`: addition in a release build wraps. */
  const TWO_64: nat := 0x1_0000_0000_0000_0000

  type U64 = x: nat | x < TWO_64

  function WrappingAdd(a: U64, b: U64): (r: U64)
    ensures a + b < TWO_64 ==> r == a + b
    ensures a + b >= TWO_64 ==> r == a + b - TWO_64
  {
    (a + b) % TWO_64
  }

  function WrappingSub(a: U64, b: U64): (r: U64)
    ensures b <= a ==> r == a - b
    ensures a < b ==> r == a + TWO_64 - b
  {
    (a + TWO_64 - b) % TWO_64
  }

  function Min(a: int, b: int): int { if a <= b then a else b }

  function Max(a: int, b: int): int { if a <= b then b else a }

  /** Division is unique: what makes every `% n` argument below linear. */
  lemma ModUnique(x: int, n: int, q: int, r: int)
    requires 0 <= r < n
    requires x == q * n + r
    ensures x % n == r && x / n == q
  {
    var d := x / n - q;
    assert d * n == r - x % n by {
      assert x == (x / n) * n + x % n;
      assert d * n == (x / n) * n - q * n;
    }
    assert d >= 1 ==> d * n >= n;
    assert d <= -1 ==> d * n <= -n;
  }

  /** Reducing one summand first changes nothing. */
  lemma ModAddLeft(x: int, y: int, n: int)
    requires 0 < n
    ensures (x + y) % n == (x % n + y) % n
  {
    var z := x % n + y;
    assert x + y == (x / n + z / n) * n + z % n by {
      assert x == (x / n) * n + x % n;
      assert z == (z / n) * n + z % n;
      assert (x / n + z / n) * n == (x / n) * n + (z / n) * n;
    }
    ModUnique(x + y, n, x / n + z / n, z % n);
  }

  /** One wrap at most: the only shape of `%` a cyclic scan needs. */
  lemma ModOnce(v: int, n: int)
    requires 0 < n && 0 <= v < 2 * n
    ensures v % n == if v < n then v else v - n
  {
  }

  lemma MulBefore(a: nat, b: nat, n: nat)
    requires a < b
    ensures a * n + n <= b * n
  {
    var d := b - a - 1;
    assert b * n == a * n + n + d * n by {
      assert b == a + 1 + d;
    }
    assert d * n >= 0;
  }

  lemma MulMonotone(a: nat, b: nat, n: nat)
    requires a <= b
    ensures a * n <= b * n
  {
  }
}
