/** Vocabulary shared by the other modules: bytes, machine integers, options, the server
    clock, and facts about division. */
module Prelude {

  type byte = b: int | 0 <= b < 256
  type u32 = n: int | 0 <= n < 0x1_0000_0000
  type u64 = n: int | 0 <= n < 0x1_0000_0000_0000_0000
  type i32 = n: int | -0x8000_0000 <= n < 0x8000_0000
  type Bytes = seq<byte>

  datatype Option<+T> = None | Some(value: T)

  /** The clock counts nanoseconds, the resolution of `Instant`. */
  type Instant = nat

  /** `n` seconds as a span of the clock. */
  function Seconds(n: nat): (span: nat)
    ensures n >= 1 ==> span >= 1
  {
    n * 1_000_000_000
  }

  const DAY: nat := 86_400

  function Min(x: int, y: int): int {
    if x <= y then x else y
  }

  function Max(x: int, y: int): int {
    if x <= y then y else x
  }

  /** The quotient rounded up. */
  function CeilDiv(x: nat, d: nat): nat
    requires d > 0
  {
    (x + d - 1) / d
  }

  /** Euclid's quotient is the only one. */
  lemma {:induction false} DivUnique(x: nat, d: nat, q: nat, r: nat)
    requires 0 <= r < d && x == q * d + r
    ensures x / d == q
  {
    var k := x / d - q;
    assert x == (x / d) * d + x % d;
    assert k * d == r - x % d;
    assert k >= 1 ==> k * d >= d;
    assert k <= -1 ==> k * d + d <= 0;
  }

  lemma {:induction false} DivShift(x: nat, d: nat)
    requires d > 0
    ensures (x + d) / d == x / d + 1
  {
    assert x + d == (x / d + 1) * d + x % d;
    DivUnique(x + d, d, x / d + 1, x % d);
  }

  lemma {:induction false} DivMonotone(x: nat, y: nat, d: nat)
    requires d > 0 && x <= y
    ensures x / d <= y / d
  {
    var k := x / d - y / d;
    assert x == (x / d) * d + x % d && y == (y / d) * d + y % d;
    assert k * d == (x / d) * d - (y / d) * d;
    assert k >= 1 ==> k * d >= d;
  }

  /** Moving on by at least a divisor moves the quotient on by at least one. */
  lemma {:induction false} DivStrides(x: nat, y: nat, d: nat)
    requires d > 0 && x + d <= y
    ensures y / d >= x / d + 1
  {
    DivShift(x, d);
    DivMonotone(x + d, y, d);
  }

  lemma {:induction false} CeilDivSelf(d: nat)
    requires d > 0
    ensures CeilDiv(d, d) == 1
  {
    DivUnique(d + d - 1, d, 1, d - 1);
  }

  /** A change of unit does not change a rounded-up quotient. */
  lemma {:induction false} CeilDivScale(x: nat, d: nat, n: nat)
    requires d > 0 && n > 0
    ensures d * n > 0 && CeilDiv(x * n, d * n) == CeilDiv(x, d)
  {
    var q, r := (x + d - 1) / d, (x + d - 1) % d;
    assert x + d - 1 == q * d + r;
    MulMonotone(n, r + 1, d);
    assert x * n + d * n == (q * d + r + 1) * n == q * (d * n) + (r + 1) * n;
    DivUnique(x * n + d * n - 1, d * n, q, (r + 1) * n - 1);
  }

  lemma {:induction false} MulMonotone(m: nat, x: nat, y: nat)
    requires x <= y
    ensures m * x <= m * y
  {
  }
}
